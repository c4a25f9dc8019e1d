/** The data behind the PDF report (`download_pdf` in app.py). The report
    receives each subject back as a "subject:mark" item and derives maximum
    marks, percentages, the failed flag and the totals again on its own,
    without the range check of the main page. */
module PdfReport {
  import opened Results
  import opened Grading
  import opened Engine
  import opened Insights

  /** What the report derives from its items before drawing anything. */
  datatype ReportData = ReportData(
    subjects: seq<string>,
    percentages: seq<real>,
    failed: bool,
    totalObtained: int,
    totalMax: int)

  datatype PdfError =
    | BadMark(text: string)  // `int()` rejected a mark
    | NoSubjects             // `max()` of the empty percentage list

  /** The items read as subject entries, with their marks whatever the
      range. */
  function ReportEntries(items: seq<Pair>): seq<SubjectEntry>
    requires forall i :: 0 <= i < |items| ==> items[i].1.Whole?
  {
    seq(|items|, i requires 0 <= i < |items| => SubjectEntry(items[i].0, items[i].1.n))
  }

  /** Some percentage is below the pass mark of 35. */
  predicate AnyBelowPassMark(percentages: seq<real>)
  {
    exists i :: 0 <= i < |percentages| && percentages[i] < 35.0
  }

  lemma AnyBelowPassMarkStep(percentages: seq<real>, pct: real)
    ensures AnyBelowPassMark(percentages + [pct]) <==> AnyBelowPassMark(percentages) || pct < 35.0
  {
    var ps := percentages + [pct];
    assert forall i :: 0 <= i < |percentages| ==> ps[i] == percentages[i];
    assert ps[|percentages|] == pct;
  }

  /** What the derivation promises about its data for the items. */
  predicate Describes(d: ReportData, items: seq<Pair>)
    requires forall i :: 0 <= i < |items| ==> items[i].1.Whole?
  {
    && |d.subjects| == |items|
    && |d.percentages| == |items|
    && (forall i :: 0 <= i < |items| ==>
          && d.subjects[i] == items[i].0
          && d.percentages[i] == Percent(items[i].1.n, MaxMarks(items[i].0)))
    && (d.failed <==> AnyBelowPassMark(d.percentages))
    && d.totalObtained == TotalObtained(ReportEntries(items))
    && d.totalMax == TotalMax(ReportEntries(items))
  }

  /** One more whole-number item extends data that describes the items
      before it into data that describes them all. */
  lemma ExtendReport(items: seq<Pair>, d: ReportData)
    requires |items| > 0 && forall i :: 0 <= i < |items| ==> items[i].1.Whole?
    requires Describes(d, items[..|items| - 1])
    ensures var (subject, mark) := (items[|items| - 1].0, items[|items| - 1].1.n);
            var pct := Percent(mark, MaxMarks(subject));
            Describes(ReportData(d.subjects + [subject], d.percentages + [pct], d.failed || pct < 35.0,
                                 d.totalObtained + mark, d.totalMax + MaxMarks(subject)),
                      items)
  {
    var last := items[|items| - 1];
    AnyBelowPassMarkStep(d.percentages, Percent(last.1.n, MaxMarks(last.0)));
    assert ReportEntries(items)[..|items| - 1] == ReportEntries(items[..|items| - 1]);
  }

  /** The loop over the items: the same maximum and 35% rule as the main
      page, with no check that the mark lies within the maximum. The failed
      flag and the totals cover every item, in range or not. */
  function DeriveReport(items: seq<Pair>): (r: Result<ReportData, PdfError>)
    ensures r.Ok? <==> forall i :: 0 <= i < |items| ==> items[i].1.Whole?
    ensures r.Ok? ==> Describes(r.value, items)
    ensures r.Ok? ==> && |r.value.subjects| == |items|
                      && |r.value.percentages| == |items|
    ensures r.Ok? ==> forall i :: 0 <= i < |items| ==>
                        && r.value.subjects[i] == items[i].0
                        && r.value.percentages[i] == Percent(items[i].1.n, MaxMarks(items[i].0))
    ensures r.Ok? ==> (r.value.failed <==> AnyBelowPassMark(r.value.percentages))
    ensures r.Ok? ==> && r.value.totalObtained == TotalObtained(ReportEntries(items))
                      && r.value.totalMax == TotalMax(ReportEntries(items))
  {
    if |items| == 0 then Ok(ReportData([], [], false, 0, 0))
    else
      var init := items[..|items| - 1];
      var (subject, raw) := items[|items| - 1];
      match DeriveReport(init)
      case Err(e) => Err(e)
      case Ok(d) =>
        match raw
        case Malformed(text) => Err(BadMark(text))
        case Whole(mark) =>
          var maxMarks := if IsKannada(subject) then 125 else 100;
          var pct := Percent(mark, maxMarks);
          ExtendReport(items, d);
          Ok(ReportData(d.subjects + [subject], d.percentages + [pct], d.failed || pct < 35.0,
                        d.totalObtained + mark, d.totalMax + maxMarks))
  }

  /** The report's failed flag, like the main page's, is the whole-number
      test `100 * mark < 35 * max` on some item. */
  lemma ReportFailedInWholeNumbers(items: seq<Pair>)
    requires forall i :: 0 <= i < |items| ==> items[i].1.Whole?
    ensures DeriveReport(items).value.failed <==>
              exists i :: 0 <= i < |items| && 100 * items[i].1.n < 35 * MaxMarks(items[i].0)
  {
  }

  /** Everything the report prints that is computed rather than copied. */
  datatype PdfContent = PdfContent(data: ReportData, overall: real, insights: seq<Insight>)

  /** The report for the posted average and items: derive the data, generate
      the insights (which band the posted average, not the derived one), and
      compute the overall percentage printed in the header. */
  function DownloadPdf(average: real, items: seq<Pair>): (r: Result<PdfContent, PdfError>)
    ensures r.Ok? <==> |items| > 0 && forall i :: 0 <= i < |items| ==> items[i].1.Whole?
    ensures r.Ok? ==> DeriveReport(items) == Ok(r.value.data)
    ensures r.Ok? ==> && |r.value.insights| == 4
                      && r.value.insights[0] == Remark(StatusRemark(r.value.data.failed))
                      && r.value.insights[1] == Remark(PerformanceRemark(average))
                      && r.value.insights[2] == Highest(MaxOf(r.value.data.percentages))
                      && r.value.insights[3] == Lowest(MinOf(r.value.data.percentages))
    ensures r.Ok? ==> && r.value.data.totalMax > 0
                      && r.value.overall == Percent(r.value.data.totalObtained, r.value.data.totalMax)
  {
    match DeriveReport(items)
    case Err(e) => Err(e)
    case Ok(d) =>
      match GenerateInsights(average, d.failed, d.percentages)
      case Err(_) => Err(NoSubjects)
      case Ok(lines) => Ok(PdfContent(d, Percent(d.totalObtained, d.totalMax), lines))
  }

  /** For pairs the main page accepts, the report derives the same subjects,
      percentages, failed flag and totals as the main page. */
  lemma {:induction false} ReportAgreesWithIndex(pairs: seq<Pair>, entries: seq<SubjectEntry>)
    requires CheckPairs(pairs) == Ok(entries)
    ensures DeriveReport(pairs).Ok?
    ensures var d := DeriveReport(pairs).value;
            && d.failed == AnyFailing(entries)
            && d.totalObtained == TotalObtained(entries)
            && d.totalMax == TotalMax(entries)
            && forall i :: 0 <= i < |entries| ==>
                 d.subjects[i] == entries[i].subject && d.percentages[i] == entries[i].Percentage()
  {
    if |pairs| > 0 {
      var init := pairs[..|pairs| - 1];
      var prefix := CheckPairs(init).value;
      ReportAgreesWithIndex(init, prefix);
      assert entries[..|entries| - 1] == prefix;
    }
  }

  /** A report built from the same subjects and marks as an accepted
      submission states the same pass/fail verdict and the same overall
      percentage. */
  lemma ReportAgreesWithResult(rawName: string, subjects: seq<string>, marks: seq<RawMark>, rec: ResultRecord)
    requires Compute(rawName, subjects, marks) == Ok(rec)
    ensures var r := DownloadPdf(rec.average, Zip(subjects, marks));
            && r.Ok?
            && (r.value.data.failed <==> rec.status == Failed)
            && r.value.overall == rec.average
            && r.value.insights[0] == Remark(StatusRemark(rec.status == Failed))
  {
    ReportAgreesWithIndex(Zip(subjects, marks), rec.subjects);
  }

  /** The report does not check ranges: an English mark of 130, which the
      main page rejects, is drawn as 130%. */
  lemma ReportSkipsRangeCheck()
    ensures CheckPairs([("English", Whole(130))]) == Err(OutOfRange("English"))
    ensures DeriveReport([("English", Whole(130))]).Ok?
    ensures DeriveReport([("English", Whole(130))]).value.percentages == [130.0]
  {
    var items := [("English", Whole(130))];
    NotKannadaByFirstLetter("English");
    assert items[..0] == [];
    assert CheckPairs(items[..0]) == Ok([]);
  }

}
