/** What a submission's outcome is, stated against its inputs: which error
    wins, what a result holds, and how status and grade are decided. */
module EngineProperties {
  import opened Results
  import opened Text
  import opened Grading
  import opened Engine

  /** The index of the first pair the loop rejects, or the number of pairs
      when it rejects none. */
  function FirstRejectedIndex(pairs: seq<Pair>): (k: nat)
    ensures k <= |pairs|
    ensures k < |pairs| ==> FirstRejected(pairs, k)
    ensures k == |pairs| ==> forall i :: 0 <= i < |pairs| ==> CheckPair(pairs[i]).Ok?
  {
    if |pairs| == 0 then 0
    else if CheckPair(pairs[0]).Err? then 0
    else
      var k := 1 + FirstRejectedIndex(pairs[1..]);
      assert forall i :: 1 <= i < |pairs| ==> pairs[i] == pairs[1..][i - 1];
      k
  }

  /** Validation fails exactly when some pair is rejected, and then with the
      error of the first rejected pair. */
  lemma ValidationReportsFirstRejection(pairs: seq<Pair>)
    ensures var k := FirstRejectedIndex(pairs);
            && (CheckPairs(pairs).Err? <==> k < |pairs|)
            && (k < |pairs| ==> CheckPairs(pairs) == Err(CheckPair(pairs[k]).error))
  {
    var k := FirstRejectedIndex(pairs);
    if k < |pairs| {
      FirstRejectionReported(pairs, k);
    }
  }

  /** A blank name is reported before any pair is looked at, and it is the
      only way to get that error. */
  lemma NameCheckedFirst(rawName: string, subjects: seq<string>, marks: seq<RawMark>)
    ensures Compute(rawName, subjects, marks) == Err(NameRequired) <==> AllSpace(rawName)
    ensures AllSpace(rawName) ==>
              Message(Compute(rawName, subjects, marks).error) == "Student name is required"
  {
    ValidationReportsFirstRejection(Zip(subjects, marks));
  }

  /** With a name given, the first out-of-range or malformed mark in input
      order decides the error; its message names the subject, except for
      Kannada in any spelling, which has a fixed message. */
  lemma FirstOffendingPairReported(rawName: string, subjects: seq<string>, marks: seq<RawMark>, k: int)
    requires !AllSpace(rawName)
    requires FirstRejected(Zip(subjects, marks), k)
    ensures k < |subjects| && k < |marks|
    ensures Compute(rawName, subjects, marks) == Err(CheckPair((subjects[k], marks[k])).error)
    ensures marks[k].Whole? ==>
              Message(Compute(rawName, subjects, marks).error) ==
                if IsKannada(subjects[k]) then "Kannada marks must be between 0 and 125"
                else subjects[k] + " marks must be between 0 and 100"
  {
    FirstRejectionReported(Zip(subjects, marks), k);
  }

  /** With a name given but no pair to zip, the totals are zero and the
      overall percentage divides by zero; no other input ends this way. */
  lemma NoSubjectsDividesByZero(rawName: string, subjects: seq<string>, marks: seq<RawMark>)
    ensures Compute(rawName, subjects, marks) == Err(DivisionByZero) <==>
              !AllSpace(rawName) && (|subjects| == 0 || |marks| == 0)
    ensures Message(DivisionByZero) == "division by zero"
  {
    assert Message(DivisionByZero) == "division by zero";
    var pairs := Zip(subjects, marks);
    ValidationReportsFirstRejection(pairs);
    if !AllSpace(rawName) {
      match CheckPairs(pairs)
      case Err(_) =>
        var k := FirstRejectedIndex(pairs);
        assert CheckPair(pairs[k]).error != DivisionByZero;
      case Ok(entries) =>
        assert TotalMax(entries) == 0 <==> |pairs| == 0;
    }
  }

  /** A submission succeeds exactly when the name is not blank, at least one
      pair is zipped, and every zipped mark is a whole number within its
      subject's maximum. */
  lemma SucceedsExactlyWhenValid(rawName: string, subjects: seq<string>, marks: seq<RawMark>)
    ensures Compute(rawName, subjects, marks).Ok? <==>
              && !AllSpace(rawName)
              && |Zip(subjects, marks)| > 0
              && forall i :: 0 <= i < |Zip(subjects, marks)| ==>
                   marks[i].Whole? && 0 <= marks[i].n <= MaxMarks(subjects[i])
  {
    var pairs := Zip(subjects, marks);
    if !AllSpace(rawName) && |pairs| > 0 &&
       forall i :: 0 <= i < |pairs| ==> marks[i].Whole? && 0 <= marks[i].n <= MaxMarks(subjects[i])
    {
      assert forall i :: 0 <= i < |pairs| ==> CheckPair(pairs[i]).Ok?;
      assert TotalMax(CheckPairs(pairs).value) > 0;
    }
  }

  /** A result lists one entry per zipped pair, in input order, each holding
      the pair's subject and its accepted mark. */
  lemma ResultKeepsInputOrder(rawName: string, subjects: seq<string>, marks: seq<RawMark>, rec: ResultRecord)
    requires Compute(rawName, subjects, marks) == Ok(rec)
    ensures |rec.subjects| == if |subjects| <= |marks| then |subjects| else |marks|
    ensures |rec.subjects| > 0
    ensures forall i :: 0 <= i < |rec.subjects| ==>
              && rec.subjects[i] == SubjectEntry(subjects[i], marks[i].n)
              && marks[i] == Whole(rec.subjects[i].marks)
              && rec.subjects[i].Valid()
  {
    var pairs := Zip(subjects, marks);
    assert forall i :: 0 <= i < |pairs| ==> CheckPair(pairs[i]) == Ok(rec.subjects[i]);
  }

  /** The loop's failed flag is set exactly when some subject's mark is below
      35% of its maximum, compared in whole numbers. */
  lemma {:induction false} AnyFailingMeansBelowPassMark(entries: seq<SubjectEntry>)
    ensures AnyFailing(entries) <==>
              exists i :: 0 <= i < |entries| && 100 * entries[i].marks < 35 * entries[i].Max()
  {
    if |entries| > 0 {
      var init := entries[..|entries| - 1];
      var last := entries[|entries| - 1];
      AnyFailingMeansBelowPassMark(init);
      PercentCompare(last.marks, last.Max(), 35);
      assert forall i :: 0 <= i < |init| ==> init[i] == entries[i];
      if exists i :: 0 <= i < |entries| && 100 * entries[i].marks < 35 * entries[i].Max() {
        var i :| 0 <= i < |entries| && 100 * entries[i].marks < 35 * entries[i].Max();
        if i < |init| {
          assert 100 * init[i].marks < 35 * init[i].Max();
        }
      }
    }
  }

  /** The status is FAIL exactly when some subject is below 35% of its
      maximum, whatever the overall percentage. */
  lemma StatusFromSubjects(rawName: string, subjects: seq<string>, marks: seq<RawMark>, rec: ResultRecord)
    requires Compute(rawName, subjects, marks) == Ok(rec)
    ensures rec.status == Failed <==>
              exists i :: 0 <= i < |rec.subjects| && 100 * rec.subjects[i].marks < 35 * rec.subjects[i].Max()
  {
    AnyFailingMeansBelowPassMark(rec.subjects);
  }

  /** Marks within their maxima total no more than the maxima. */
  lemma {:induction false} TotalsBounded(entries: seq<SubjectEntry>)
    requires forall i :: 0 <= i < |entries| ==> entries[i].Valid()
    ensures 0 <= TotalObtained(entries) <= TotalMax(entries)
  {
    if |entries| > 0 {
      TotalsBounded(entries[..|entries| - 1]);
    }
  }

  /** When every subject reaches 35% of its maximum, the totals do too. */
  lemma {:induction false} TotalsReachPassMark(entries: seq<SubjectEntry>)
    requires forall i :: 0 <= i < |entries| ==> 100 * entries[i].marks >= 35 * entries[i].Max()
    ensures 100 * TotalObtained(entries) >= 35 * TotalMax(entries)
  {
    if |entries| > 0 {
      TotalsReachPassMark(entries[..|entries| - 1]);
    }
  }

  /** The overall percentage is the exact, unrounded ratio of the totals, lies
      between 0 and 100, and the grade is the band of that unrounded value. */
  lemma AverageAndGrade(rawName: string, subjects: seq<string>, marks: seq<RawMark>, rec: ResultRecord)
    requires Compute(rawName, subjects, marks) == Ok(rec)
    ensures 0 <= TotalObtained(rec.subjects) <= TotalMax(rec.subjects)
    ensures TotalMax(rec.subjects) > 0
    ensures rec.average == Percent(TotalObtained(rec.subjects), TotalMax(rec.subjects))
    ensures 0.0 <= rec.average <= 100.0
    ensures rec.grade == CalculateGrade(rec.average)
    ensures rec.grade == GradeOfMarks(TotalObtained(rec.subjects), TotalMax(rec.subjects))
  {
    ResultKeepsInputOrder(rawName, subjects, marks, rec);
    var o, t := TotalObtained(rec.subjects), TotalMax(rec.subjects);
    TotalsBounded(rec.subjects);
    PercentCompare(o, t, 0);
    PercentCompare(o, t, 100);
    GradeFromMarks(o, t);
  }

  /** A student who passes every subject is never graded Fail: passing each
      subject puts the overall percentage at 35 or above. The converse does
      not hold (see `FirstClassYetFailed`). */
  lemma PassedIsNeverGradedFail(rawName: string, subjects: seq<string>, marks: seq<RawMark>, rec: ResultRecord)
    requires Compute(rawName, subjects, marks) == Ok(rec)
    requires rec.status == Passed
    ensures rec.grade != Grade.Fail
  {
    var es := rec.subjects;
    assert forall i :: 0 <= i < |es| ==> 100 * es[i].marks >= 35 * es[i].Max() by {
      StatusFromSubjects(rawName, subjects, marks, rec);
    }
    TotalsReachPassMark(es);
    AverageAndGrade(rawName, subjects, marks, rec);
  }

  /** Grade and status are decided separately: full marks in one subject and
      34 in another give First Class on 67% overall, and FAIL. */
  lemma FirstClassYetFailed()
    ensures var r := Compute("Ravi", ["English", "Maths"], [Whole(100), Whole(34)]);
            r.Ok? && r.value.grade == FirstClass && r.value.status == Failed
  {
    var subjects := ["English", "Maths"];
    var marks := [Whole(100), Whole(34)];
    assert Compute("Ravi", subjects, marks).Ok? by {
      assert !AllSpace("Ravi") by { assert !IsSpace("Ravi"[0]); }
      NotKannadaByFirstLetter("English");
      NotKannadaByFirstLetter("Maths");
      assert |Zip(subjects, marks)| == 2;
      SucceedsExactlyWhenValid("Ravi", subjects, marks);
    }
    var rec := Compute("Ravi", subjects, marks).value;
    ResultKeepsInputOrder("Ravi", subjects, marks, rec);
    var es := rec.subjects;
    assert es[0].Max() == 100 && es[1].Max() == 100 by {
      NotKannadaByFirstLetter("English");
      NotKannadaByFirstLetter("Maths");
    }
    assert rec.status == Failed by {
      StatusFromSubjects("Ravi", subjects, marks, rec);
      assert 100 * es[1].marks < 35 * es[1].Max();
    }
    assert rec.grade == FirstClass by {
      AverageAndGrade("Ravi", subjects, marks, rec);
      assert es[..1] == [es[0]] && es[..1][..0] == [];
      assert TotalObtained(es) == 134 && TotalMax(es) == 200;
    }
  }

  /** Case does not matter for Kannada, and the earlier of two offending pairs
      is the one reported: "KANNADA" at 130 wins over English at 105. */
  lemma UpperCaseKannadaReportedFirst()
    ensures Compute("Asha", ["KANNADA", "English"], [Whole(130), Whole(105)]) == Err(KannadaOutOfRange)
    ensures Message(KannadaOutOfRange) == "Kannada marks must be between 0 and 125"
  {
    var subjects := ["KANNADA", "English"];
    var marks := [Whole(130), Whole(105)];
    assert IsKannada("KANNADA") by {
      assert Lower("KANNADA") == "kannada";
    }
    assert !AllSpace("Asha") by { assert !IsSpace("Asha"[0]); }
    assert FirstRejected(Zip(subjects, marks), 0);
    FirstOffendingPairReported("Asha", subjects, marks, 0);
  }

}
