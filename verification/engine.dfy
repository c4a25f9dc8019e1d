/** The result computation of the main page (`index` in app.py): validate the
    name and every (subject, mark) pair, then total the marks into an overall
    percentage, a grade and a PASS/FAIL status. */
module Engine {
  import opened Results
  import opened Text
  import opened Grading

  /** A mark field as Python's `int()` sees it: a whole number, or text it
      rejects. */
  datatype RawMark = Whole(n: int) | Malformed(text: string)

  /** One submitted subject name together with its mark field. */
  type Pair = (string, RawMark)

  /** One accepted subject of a result. Its maximum and percentage follow from
      the subject name and the mark. */
  datatype SubjectEntry = SubjectEntry(subject: string, marks: int)
  {
    function Max(): int
    {
      MaxMarks(subject)
    }

    function Percentage(): real
    {
      Percent(marks, Max())
    }

    /** Below 35% of the maximum. */
    predicate Failing()
    {
      Percentage() < 35.0
    }

    predicate Valid()
    {
      0 <= marks <= Max()
    }
  }

  datatype Status = Passed | Failed
  {
    function Name(): string
    {
      match this
      case Passed => "PASS"
      case Failed => "FAIL"
    }
  }

  /** The page's texts for grades and statuses name each one unambiguously. */
  lemma NamesIdentify(g1: Grade, g2: Grade, s1: Status, s2: Status)
    ensures g1.Name() == g2.Name() <==> g1 == g2
    ensures s1.Name() == s2.Name() <==> s1 == s2
  {
  }

  /** The result shown for one submission. `average` is the overall percentage
      before the two-decimal rounding used for display. */
  datatype ResultRecord = ResultRecord(
    name: string,
    subjects: seq<SubjectEntry>,
    average: real,
    grade: Grade,
    status: Status)

  datatype GradeError =
    | NameRequired
    | NotWholeNumber(text: string)
    | KannadaOutOfRange
    | OutOfRange(subject: string)
    | DivisionByZero

  /** The text of the exception the page shows as its error. */
  function Message(e: GradeError): string
  {
    match e
    case NameRequired => "Student name is required"
    case NotWholeNumber(text) => "invalid literal for int() with base 10: '" + text + "'"
    case KannadaOutOfRange => "Kannada marks must be between 0 and 125"
    case OutOfRange(subject) => subject + " marks must be between 0 and 100"
    case DivisionByZero => "division by zero"
  }

  /** The message shown identifies the error: no two errors share a text. */
  lemma MessageIdentifiesError(e1: GradeError, e2: GradeError)
    ensures Message(e1) == Message(e2) <==> e1 == e2
  {
    var m1, m2 := Message(e1), Message(e2);
    if m1 == m2 {
      // The last character tells the kinds of error apart.
      assert m1[|m1| - 1] == m2[|m2| - 1];
      if e1.NotWholeNumber? && e2.NotWholeNumber? {
        var prefix := "invalid literal for int() with base 10: '";
        assert e1.text == m1[|prefix|..|m1| - 1];
        assert e2.text == m2[|prefix|..|m2| - 1];
      } else if e1.OutOfRange? && e2.OutOfRange? {
        var suffix := " marks must be between 0 and 100";
        assert e1.subject == m1[..|m1| - |suffix|];
        assert e2.subject == m2[..|m2| - |suffix|];
      }
    }
  }

  /** Python's `zip`: pairs up the two lists and stops at the shorter one. */
  function Zip(subjects: seq<string>, marks: seq<RawMark>): (pairs: seq<Pair>)
    ensures |pairs| == if |subjects| <= |marks| then |subjects| else |marks|
    ensures forall i :: 0 <= i < |pairs| ==> pairs[i] == (subjects[i], marks[i])
  {
    if |subjects| == 0 || |marks| == 0 then []
    else [(subjects[0], marks[0])] + Zip(subjects[1..], marks[1..])
  }

  /** One turn of the validation loop: convert the mark, then check it against
      the subject's maximum. */
  function CheckPair(p: Pair): (r: Result<SubjectEntry, GradeError>)
    ensures r.Ok? <==> p.1.Whole? && 0 <= p.1.n <= MaxMarks(p.0)
    ensures r.Ok? ==> r.value == SubjectEntry(p.0, p.1.n) && r.value.Valid()
    ensures p.1.Malformed? ==> r == Err(NotWholeNumber(p.1.text))
    ensures p.1.Whole? && r.Err? ==>
              r.error == if IsKannada(p.0) then KannadaOutOfRange else OutOfRange(p.0)
  {
    match p.1
    case Malformed(text) => Err(NotWholeNumber(text))
    case Whole(mark) =>
      if IsKannada(p.0) then
        if mark < 0 || mark > 125 then Err(KannadaOutOfRange) else Ok(SubjectEntry(p.0, mark))
      else
        if mark < 0 || mark > 100 then Err(OutOfRange(p.0)) else Ok(SubjectEntry(p.0, mark))
  }

  /** Validates the pairs in input order; the first rejected pair decides the
      error. */
  function CheckPairs(pairs: seq<Pair>): (r: Result<seq<SubjectEntry>, GradeError>)
    ensures r.Ok? <==> forall i :: 0 <= i < |pairs| ==> CheckPair(pairs[i]).Ok?
    ensures r.Ok? ==> |r.value| == |pairs| &&
                      forall i :: 0 <= i < |pairs| ==> CheckPair(pairs[i]) == Ok(r.value[i])
  {
    if |pairs| == 0 then Ok([])
    else
      var init := pairs[..|pairs| - 1];
      match CheckPairs(init)
      case Err(e) => Err(e)
      case Ok(prefix) =>
        match CheckPair(pairs[|pairs| - 1])
        case Err(e) => Err(e)
        case Ok(entry) => Ok(prefix + [entry])
  }

  /** Pair `k` is the first one the loop rejects. */
  predicate FirstRejected(pairs: seq<Pair>, k: int)
  {
    && 0 <= k < |pairs|
    && CheckPair(pairs[k]).Err?
    && forall j :: 0 <= j < k ==> CheckPair(pairs[j]).Ok?
  }

  /** The error reported is the one of the first rejected pair. */
  lemma {:induction false} FirstRejectionReported(pairs: seq<Pair>, k: int)
    requires FirstRejected(pairs, k)
    ensures CheckPairs(pairs) == Err(CheckPair(pairs[k]).error)
  {
    var init := pairs[..|pairs| - 1];
    if k == |pairs| - 1 {
      assert forall i :: 0 <= i < |init| ==> CheckPair(init[i]).Ok?;
    } else {
      assert FirstRejected(init, k);
      FirstRejectionReported(init, k);
    }
  }

  /** Once a prefix is rejected, the whole list is, with the same error. */
  lemma {:induction false} RejectedPrefix(pairs: seq<Pair>, k: nat)
    requires k <= |pairs| && CheckPairs(pairs[..k]).Err?
    ensures CheckPairs(pairs) == CheckPairs(pairs[..k])
    decreases |pairs| - k
  {
    if k < |pairs| {
      assert pairs[..k + 1][..k] == pairs[..k];
      RejectedPrefix(pairs, k + 1);
    } else {
      assert pairs[..k] == pairs;
    }
  }

  /** Rejecting pair `i` after an accepted prefix rejects the whole list with
      that pair's error. */
  lemma RejectedStep(pairs: seq<Pair>, i: nat, data: seq<SubjectEntry>)
    requires i < |pairs| && CheckPairs(pairs[..i]) == Ok(data) && CheckPair(pairs[i]).Err?
    ensures CheckPairs(pairs) == Err(CheckPair(pairs[i]).error)
  {
    assert pairs[..i + 1][..i] == pairs[..i];
    RejectedPrefix(pairs, i + 1);
  }

  /** Accepting pair `i` extends the accepted prefix by its entry. */
  lemma AcceptedStep(pairs: seq<Pair>, i: nat, data: seq<SubjectEntry>, e: SubjectEntry)
    requires i < |pairs| && CheckPairs(pairs[..i]) == Ok(data) && CheckPair(pairs[i]) == Ok(e)
    ensures && CheckPairs(pairs[..i + 1]) == Ok(data + [e])
            && TotalObtained(data + [e]) == TotalObtained(data) + e.marks
            && TotalMax(data + [e]) == TotalMax(data) + e.Max()
            && (AnyFailing(data + [e]) <==> AnyFailing(data) || e.Failing())
  {
    assert pairs[..i + 1][..i] == pairs[..i];
    assert (data + [e])[..|data|] == data;
  }

  /** The marks obtained, summed in loop order. */
  function TotalObtained(entries: seq<SubjectEntry>): int
  {
    if |entries| == 0 then 0
    else TotalObtained(entries[..|entries| - 1]) + entries[|entries| - 1].marks
  }

  /** The maximum marks, summed in loop order: between 100 and 125 for each
      subject. */
  function TotalMax(entries: seq<SubjectEntry>): (total: int)
    ensures 100 * |entries| <= total <= 125 * |entries|
  {
    if |entries| == 0 then 0
    else TotalMax(entries[..|entries| - 1]) + entries[|entries| - 1].Max()
  }

  /** The `failed` flag of the loop: set by the first failing subject and never
      cleared. */
  predicate AnyFailing(entries: seq<SubjectEntry>)
  {
    if |entries| == 0 then false
    else AnyFailing(entries[..|entries| - 1]) || entries[|entries| - 1].Failing()
  }

  /** The totals and the failed flag of two runs of subjects joined are
      those of the runs combined: the order of accumulation does not matter
      beyond the run boundaries. */
  lemma {:induction false} TotalsOfJoin(a: seq<SubjectEntry>, b: seq<SubjectEntry>)
    ensures TotalObtained(a + b) == TotalObtained(a) + TotalObtained(b)
    ensures TotalMax(a + b) == TotalMax(a) + TotalMax(b)
    ensures AnyFailing(a + b) <==> AnyFailing(a) || AnyFailing(b)
  {
    if |b| > 0 {
      var init := b[..|b| - 1];
      assert (a + b)[..|a + b| - 1] == a + init;
      TotalsOfJoin(a, init);
    } else {
      assert a + b == a;
    }
  }

  /** The result of a submission: the name after stripping, then each pair of
      the zipped lists, then the totals. */
  function Compute(rawName: string, subjects: seq<string>, marks: seq<RawMark>)
    : (r: Result<ResultRecord, GradeError>)
    ensures r.Ok? ==> r.value.name == Strip(rawName) && r.value.name != []
    ensures r.Ok? ==> CheckPairs(Zip(subjects, marks)) == Ok(r.value.subjects)
  {
    var name := Strip(rawName);
    if name == [] then Err(NameRequired)
    else
      match CheckPairs(Zip(subjects, marks))
      case Err(e) => Err(e)
      case Ok(entries) =>
        var obtained := TotalObtained(entries);
        var total := TotalMax(entries);
        if total == 0 then Err(DivisionByZero)
        else
          var overall := Percent(obtained, total);
          Ok(ResultRecord(name, entries, overall, CalculateGrade(overall),
                          if AnyFailing(entries) then Failed else Passed))
  }

  /** The body of the loop of `index` for one pair, as written: convert the
      mark, then branch on Kannada for the range check and the maximum. */
  method AcceptPair(subject: string, raw: RawMark) returns (r: Result<SubjectEntry, GradeError>, maxMarks: int)
    ensures r == CheckPair((subject, raw))
    ensures r.Ok? ==> maxMarks == r.value.Max()
  {
    if raw.Malformed? {
      return Err(NotWholeNumber(raw.text)), 0;
    }
    var mark := raw.n;
    if IsKannada(subject) {
      if mark < 0 || mark > 125 {
        return Err(KannadaOutOfRange), 0;
      }
      maxMarks := 125;
    } else {
      if mark < 0 || mark > 100 {
        return Err(OutOfRange(subject)), 0;
      }
      maxMarks := 100;
    }
    r := Ok(SubjectEntry(subject, mark));
  }

  /** The loop of `index` as written: accumulate totals, the failed flag and
      the subject list pair by pair, leaving at the first rejected pair. */
  method ValidateAll(pairs: seq<Pair>)
    returns (r: Result<seq<SubjectEntry>, GradeError>, totalObtained: int, totalMax: int, failed: bool)
    ensures r == CheckPairs(pairs)
    ensures r.Ok? ==> && totalObtained == TotalObtained(r.value)
                      && totalMax == TotalMax(r.value)
                      && failed == AnyFailing(r.value)
  {
    totalObtained, totalMax, failed := 0, 0, false;
    var data: seq<SubjectEntry> := [];
    var i := 0;
    while i < |pairs|
      invariant 0 <= i <= |pairs|
      invariant CheckPairs(pairs[..i]) == Ok(data)
      invariant totalObtained == TotalObtained(data)
      invariant totalMax == TotalMax(data)
      invariant failed == AnyFailing(data)
    {
      var accepted, maxMarks := AcceptPair(pairs[i].0, pairs[i].1);
      if accepted.Err? {
        RejectedStep(pairs, i, data);
        return Err(accepted.error), totalObtained, totalMax, failed;
      }
      var entry := accepted.value;
      var percentage := Percent(entry.marks, maxMarks);
      if percentage < 35.0 {
        failed := true;
      }
      totalObtained := totalObtained + entry.marks;
      totalMax := totalMax + maxMarks;
      AcceptedStep(pairs, i, data, entry);
      data := data + [entry];
      i := i + 1;
    }
    assert pairs[..i] == pairs;
    r := Ok(data);
  }

  /** The main page's computation as written: strip and check the name, run
      the loop over the zipped lists, then divide the totals. */
  method Index(rawName: string, subjects: seq<string>, marks: seq<RawMark>)
    returns (r: Result<ResultRecord, GradeError>)
    ensures r == Compute(rawName, subjects, marks)
  {
    var name := Strip(rawName);
    if name == [] {
      return Err(NameRequired);
    }
    var validated, totalObtained, totalMax, failed := ValidateAll(Zip(subjects, marks));
    if validated.Err? {
      return Err(validated.error);
    }
    if totalMax == 0 {
      return Err(DivisionByZero);
    }
    var overall := Percent(totalObtained, totalMax);
    r := Ok(ResultRecord(name, validated.value, overall, CalculateGrade(overall),
                         if failed then Failed else Passed));
  }

}
