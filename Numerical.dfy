/**
 * The numerical-response grader: a submission is correct when it lies within
 * the tolerance of the answer. The tolerance is an absolute delta or a
 * percentage of the answer's magnitude; without one only the exact answer is
 * accepted. Numbers are exact reals here: no float rounding, no parsing.
 */
module Numerical {

  /** `<responseparam type="tolerance" default="...">`: a plain number, or one with a trailing `%`. */
  datatype Tolerance = Absolute(delta: real) | Percent(pct: real)

  datatype NumberGrader = NumberGrader(answer: real, tolerance: Tolerance, correctPts: int, wrongPts: int)

  datatype NumberResult = NumberResult(correct: bool, score: int)

  function Abs(x: real): (r: real)
    ensures r >= 0.0 && (r == x || r == -x)
  {
    if x < 0.0 then -x else x
  }

  /** The allowed deviation: the delta itself, or pct/100 of |answer|. */
  function Delta(answer: real, tolerance: Tolerance): real {
    match tolerance
    case Absolute(d) => d
    case Percent(p) => p / 100.0 * Abs(answer)
  }

  /** The numerical grader factory; a missing tolerance means zero. */
  function Factory(answer: real, tolerance: Tolerance := Absolute(0.0), correctPts: int := 1, wrongPts: int := 0): (g: NumberGrader)
    ensures g.answer == answer && Delta(g.answer, g.tolerance) == Delta(answer, tolerance)
    ensures g.correctPts == correctPts && g.wrongPts == wrongPts
  {
    NumberGrader(answer, tolerance, correctPts, wrongPts)
  }

  /** `|submission - answer| <= delta`, boundary included. */
  function Grade(g: NumberGrader, submission: real): (r: NumberResult)
    ensures r.correct <==> g.answer - Delta(g.answer, g.tolerance) <= submission <= g.answer + Delta(g.answer, g.tolerance)
    ensures r.score == if r.correct then g.correctPts else g.wrongPts
  {
    var correct := Abs(submission - g.answer) <= Delta(g.answer, g.tolerance);
    NumberResult(correct, if correct then g.correctPts else g.wrongPts)
  }

  /** Both ends of the interval are accepted; anything beyond either end is not. */
  lemma BoundaryInclusive(g: NumberGrader, beyond: real)
    requires Delta(g.answer, g.tolerance) >= 0.0 && beyond > 0.0
    ensures var d := Delta(g.answer, g.tolerance);
      && Grade(g, g.answer + d).correct && Grade(g, g.answer - d).correct
      && !Grade(g, g.answer + d + beyond).correct && !Grade(g, g.answer - d - beyond).correct
  {
  }

  /** Without a tolerance only the answer itself is accepted. */
  lemma NoToleranceIsExact(answer: real, submission: real)
    ensures Grade(Factory(answer), submission).correct <==> submission == answer
  {
  }

  /** A percentage tolerance accepts exactly the values within that fraction of |answer|. */
  lemma PercentIsRelative(answer: real, pct: real, submission: real)
    requires pct >= 0.0
    ensures Grade(Factory(answer, Percent(pct)), submission).correct
        <==> Abs(submission - answer) * 100.0 <= pct * Abs(answer)
  {
  }

  /** Response q4d: answer 3.14159, tolerance .02, 139 points right and -23 wrong. */
  lemma AbsoluteToleranceExample()
    ensures var g := Factory(3.14159, Absolute(0.02), 139, -23);
      && Grade(g, 3.14159) == NumberResult(true, 139)
      && Grade(g, 3.16159).correct && Grade(g, 3.12159).correct
      && Grade(g, 3.5) == NumberResult(false, -23)
      && !Grade(g, 3.0).correct
  {
  }

  /** Response q4e: answer 4518, tolerance 15%, default points. */
  lemma PercentToleranceExample()
    ensures var g := Factory(4518.0, Percent(15.0));
      && Grade(g, 4518.0) == NumberResult(true, 1)
      && Grade(g, 4518.0 * 1.149).correct && Grade(g, 4518.0 * 0.851).correct
      && Grade(g, 4518.0 * 1.151) == NumberResult(false, 0)
      && !Grade(g, 4518.0 * 1.849).correct
  {
  }

  /** Response q4f: answer 5, no tolerance. */
  lemma ExactAnswerExample()
    ensures var g := Factory(5.0);
      Grade(g, 5.0).correct && !Grade(g, 4.0).correct && !Grade(g, 6.0).correct
  {
  }
}
