/** The four observations printed under the chart of the PDF report
    (`generate_insights` in app.py). */
module Insights {
  import opened Results
  import opened Grading

  /** One observation. The pass/fail and performance remarks are fixed texts;
      the highest and lowest subject percentages are carried as numbers, since
      their text is Python's float formatting. */
  datatype Insight = Remark(text: string) | Highest(percentage: real) | Lowest(percentage: real)

  /** `max()` and `min()` of an empty list raise instead of returning. */
  datatype InsightError = EmptyPercentages

  const FailedRemark := "The student has failed in one or more subjects as per Karnataka SSLC rules."
  const PassedRemark := "The student has passed all subjects as per Karnataka SSLC board norms."
  const DistinctionRemark := "Overall performance is excellent and falls under Distinction."
  const FirstClassRemark := "Overall performance is good and qualifies for First Class."
  const SecondClassRemark := "Overall performance is satisfactory with Second Class."
  const MinimumRemark := "Minimum passing performance achieved. Needs improvement."

  /** The first observation, decided by the failed flag alone. */
  function StatusRemark(failed: bool): (r: string)
    ensures r == FailedRemark <==> failed
    ensures r == PassedRemark <==> !failed
  {
    if failed then FailedRemark else PassedRemark
  }

  /** The second observation: its own three thresholds, 85, 60 and 50. Each
      remark is given on one half-open range of percentages. */
  function PerformanceRemark(percentage: real): (r: string)
    ensures r == DistinctionRemark <==> 85.0 <= percentage
    ensures r == FirstClassRemark <==> 60.0 <= percentage < 85.0
    ensures r == SecondClassRemark <==> 50.0 <= percentage < 60.0
    ensures r == MinimumRemark <==> percentage < 50.0
  {
    if percentage >= 85.0 then DistinctionRemark
    else if percentage >= 60.0 then FirstClassRemark
    else if percentage >= 50.0 then SecondClassRemark
    else MinimumRemark
  }

  /** The performance remark names the grade band of the same percentage from
      Second Class up; Pass Class and Fail both get the minimum-passing
      remark, even below 35%. */
  lemma PerformanceRemarkFollowsGrade(percentage: real)
    ensures PerformanceRemark(percentage) ==
              match CalculateGrade(percentage)
              case Distinction => DistinctionRemark
              case FirstClass => FirstClassRemark
              case SecondClass => SecondClassRemark
              case PassClass => MinimumRemark
              case Fail => MinimumRemark
  {
  }

  /** Python's `max()` of a non-empty list. */
  function MaxOf(xs: seq<real>): (m: real)
    requires |xs| > 0
    ensures m in xs
    ensures forall i :: 0 <= i < |xs| ==> xs[i] <= m
  {
    if |xs| == 1 then xs[0]
    else
      var rest := MaxOf(xs[1..]);
      assert forall i :: 1 <= i < |xs| ==> xs[i] == xs[1..][i - 1];
      if xs[0] >= rest then xs[0] else rest
  }

  /** Python's `min()` of a non-empty list. */
  function MinOf(xs: seq<real>): (m: real)
    requires |xs| > 0
    ensures m in xs
    ensures forall i :: 0 <= i < |xs| ==> m <= xs[i]
  {
    if |xs| == 1 then xs[0]
    else
      var rest := MinOf(xs[1..]);
      assert forall i :: 1 <= i < |xs| ==> xs[i] == xs[1..][i - 1];
      if xs[0] <= rest then xs[0] else rest
  }

  /** The observations for an overall percentage, the failed flag and the
      subject percentages. */
  function GenerateInsights(percentage: real, failed: bool, subjectPercentages: seq<real>)
    : (r: Result<seq<Insight>, InsightError>)
    ensures r.Err? <==> |subjectPercentages| == 0
    ensures r.Ok? ==> |r.value| == 4
    ensures r.Ok? ==> r.value[0] == Remark(StatusRemark(failed))
    ensures r.Ok? ==> r.value[1] == Remark(PerformanceRemark(percentage))
    ensures r.Ok? ==> r.value[2].Highest? && r.value[2].percentage in subjectPercentages &&
                      forall i :: 0 <= i < |subjectPercentages| ==>
                        subjectPercentages[i] <= r.value[2].percentage
    ensures r.Ok? ==> r.value[3].Lowest? && r.value[3].percentage in subjectPercentages &&
                      forall i :: 0 <= i < |subjectPercentages| ==>
                        r.value[3].percentage <= subjectPercentages[i]
  {
    if |subjectPercentages| == 0 then Err(EmptyPercentages)
    else
      Ok([Remark(StatusRemark(failed)),
          Remark(PerformanceRemark(percentage)),
          Highest(MaxOf(subjectPercentages)),
          Lowest(MinOf(subjectPercentages))])
  }

  /** The first observation depends on nothing but the failed flag, and the
      second on nothing but the percentage; every percentage below 50 gets
      the same second observation. */
  lemma RemarksAreIndependent(p: real, q: real, failed: bool, xs: seq<real>, ys: seq<real>)
    requires |xs| > 0 && |ys| > 0
    ensures GenerateInsights(p, failed, xs).value[0] == GenerateInsights(q, failed, ys).value[0]
    ensures p < 50.0 && q < 50.0 ==>
              GenerateInsights(p, failed, xs).value[1] == GenerateInsights(q, !failed, ys).value[1]
    ensures GenerateInsights(p, failed, xs).value[0] != GenerateInsights(p, !failed, xs).value[0]
  {
  }

}
