/** How Karnataka SSLC marks are judged: the maximum mark of each subject,
    the percentage of a mark, and the band of an overall percentage.
    Python floats are modelled as exact rationals (`real`). */
module Grading {
  import opened Text

  /** The seven-letter spellings of "kannada" in any mixture of cases
      (KELVIN SIGN included, since Python lowers it to 'k'). A "Kannada" with
      surrounding spaces is not one: subject names are not stripped. */
  predicate SpelledKannada(subject: string)
  {
    |subject| == 7 && forall i :: 0 <= i < 7 ==> subject[i] in CaseVariants("kannada"[i])
  }

  /** Subject names are compared with "kannada" after lowering their case. */
  function IsKannada(subject: string): (b: bool)
    ensures b <==> SpelledKannada(subject)
  {
    LowerEqualsWord(subject, "kannada");
    Lower(subject) == "kannada"
  }

  /** The mark a subject is graded out of: 125 for Kannada, 100 otherwise. */
  function MaxMarks(subject: string): (m: int)
    ensures m == 125 <==> SpelledKannada(subject)
    ensures m == 100 <==> !SpelledKannada(subject)
  {
    if IsKannada(subject) then 125 else 100
  }

  /** A subject whose first letter does not lower to 'k' is out of 100. */
  lemma NotKannadaByFirstLetter(subject: string)
    requires |subject| > 0 && FoldChar(subject[0]) != 'k'
    ensures MaxMarks(subject) == 100
  {
    assert Lower(subject)[0] != "kannada"[0];
  }

  /** `part` as a percentage of `whole`: `(part / whole) * 100`. */
  function Percent(part: int, whole: int): real
    requires whole > 0
  {
    (part as real / whole as real) * 100.0
  }

  /** Comparing a percentage with a whole-number threshold is the same as
      comparing the cross-multiplied integers. */
  lemma PercentCompare(part: int, whole: int, k: int)
    requires whole > 0
    ensures Percent(part, whole) >= k as real <==> 100 * part >= k * whole
    ensures Percent(part, whole) <= k as real <==> 100 * part <= k * whole
  {
  }

  datatype Grade = Distinction | FirstClass | SecondClass | PassClass | Fail
  {
    /** The text the result page shows for the grade. */
    function Name(): string
    {
      match this
      case Distinction => "Distinction"
      case FirstClass => "First Class"
      case SecondClass => "Second Class"
      case PassClass => "Pass Class"
      case Fail => "Fail"
    }

    /** The position of the band from the bottom: Fail is 0, Distinction 4. */
    function Rank(): nat
    {
      match this
      case Fail => 0
      case PassClass => 1
      case SecondClass => 2
      case FirstClass => 3
      case Distinction => 4
    }

    /** The least overall percentage that reaches the band. */
    function Floor(): int
      requires this != Fail
    {
      match this
      case Distinction => 85
      case FirstClass => 60
      case SecondClass => 50
      case PassClass => 35
    }
  }

  /** The grade band of an overall percentage. */
  function CalculateGrade(percentage: real): (g: Grade)
    ensures g == Fail <==> percentage < 35.0
    ensures g != Fail ==> g.Floor() as real <= percentage
  {
    if percentage >= 85.0 then Distinction
    else if percentage >= 60.0 then FirstClass
    else if percentage >= 50.0 then SecondClass
    else if percentage >= 35.0 then PassClass
    else Fail
  }

  /** A percentage reaches a band or one above it exactly when it is at least
      the band's floor: the bands include their lower bound, and the grade
      never goes down as the percentage goes up. */
  lemma GradeReachesBand(percentage: real, g: Grade)
    requires g != Fail
    ensures CalculateGrade(percentage).Rank() >= g.Rank() <==> percentage >= g.Floor() as real
  {
  }

  lemma GradeIsMonotone(p: real, q: real)
    requires p <= q
    ensures CalculateGrade(p).Rank() <= CalculateGrade(q).Rank()
  {
  }

  /** The grade band decided on whole numbers: `obtained` marks out of `total`,
      with every threshold cross-multiplied. */
  function GradeOfMarks(obtained: int, total: int): Grade
    requires total > 0
  {
    if 100 * obtained >= 85 * total then Distinction
    else if 100 * obtained >= 60 * total then FirstClass
    else if 100 * obtained >= 50 * total then SecondClass
    else if 100 * obtained >= 35 * total then PassClass
    else Fail
  }

  /** Banding the exact percentage agrees with the integer decision. */
  lemma GradeFromMarks(obtained: int, total: int)
    requires total > 0
    ensures CalculateGrade(Percent(obtained, total)) == GradeOfMarks(obtained, total)
  {
    PercentCompare(obtained, total, 85);
    PercentCompare(obtained, total, 60);
    PercentCompare(obtained, total, 50);
    PercentCompare(obtained, total, 35);
  }

}
