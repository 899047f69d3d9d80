/**
 * The multiple-choice grader factory: from the list of correct choice values
 * and two point values it builds a grader, which turns a submitted list of
 * values into a result record {correct, score, correct_choices, wrong_choices}.
 */
module MultipleChoice {

  /** How `wrong_choices` classifies a value: 'fp' (submitted, not correct) or 'fn' (correct, not submitted). */
  datatype Tag = FalsePositive | FalseNegative {
    function Text(): (t: string)
      ensures t == "fp" <==> FalsePositive?
      ensures t == "fn" <==> FalseNegative?
    {
      if FalsePositive? then "fp" else "fn"
    }
  }

  /** The record a multiple-choice grader returns. */
  datatype ChoiceResult = ChoiceResult(
    correct: bool,
    score: int,
    correctChoices: map<string, bool>,
    wrongChoices: map<string, Tag>)

  /** A compiled grader: the correct set (the key) and the points for a right and a wrong answer. */
  datatype ChoiceGrader = ChoiceGrader(key: set<string>, correctPts: int, wrongPts: int)

  /** A list read as a set: order and repetition are forgotten. */
  function Elements(s: seq<string>): (r: set<string>)
    ensures forall v :: v in r <==> v in s
  {
    set v | v in s
  }

  /** `_MC_grader_factory(solutions, correct_pts=1, wrong_pts=0)`. */
  function Factory(solutions: seq<string>, correctPts: int := 1, wrongPts: int := 0): (g: ChoiceGrader)
    ensures forall v :: v in g.key <==> v in solutions
    ensures g.correctPts == correctPts && g.wrongPts == wrongPts
  {
    ChoiceGrader(Elements(solutions), correctPts, wrongPts)
  }

  /** The submitted values that are in the key, each mapped to true. */
  function Hits(submitted: set<string>, key: set<string>): map<string, bool>
  {
    map v | v in submitted && v in key :: true
  }

  /** Every value on which submission and key disagree, tagged by which side it is on. */
  function Misses(submitted: set<string>, key: set<string>): map<string, Tag>
  {
    map v | v in submitted + key && (v in submitted) != (v in key) ::
      if v in submitted then FalsePositive else FalseNegative
  }

  /** A grader applied to a submission: the submission is read as a set and compared with the key. */
  function Grade(g: ChoiceGrader, submission: seq<string>): (r: ChoiceResult)
    // correct exactly when the submitted set is the key, whatever the order or repetition
    ensures r.correct <==> Elements(submission) == g.key
    ensures r.score == if r.correct then g.correctPts else g.wrongPts
    // correct_choices: exactly the submitted values that are correct, each mapped to true
    ensures forall v :: v in r.correctChoices <==> v in submission && v in g.key
    ensures forall v :: v in r.correctChoices ==> r.correctChoices[v]
    // wrong_choices: 'fp' for submitted-but-wrong, 'fn' for correct-but-missing, nothing else
    ensures forall v :: v in r.wrongChoices <==> (v in submission) != (v in g.key)
    ensures forall v :: v in r.wrongChoices ==> (r.wrongChoices[v] == FalsePositive <==> v in submission)
  {
    var submitted := Elements(submission);
    var wrong := Misses(submitted, g.key);
    MissesEmptyIffEqual(submitted, g.key);
    var correct := wrong == map[];
    ChoiceResult(correct, if correct then g.correctPts else g.wrongPts, Hits(submitted, g.key), wrong)
  }

  lemma MissesEmptyIffEqual(submitted: set<string>, key: set<string>)
    ensures Misses(submitted, key) == map[] <==> submitted == key
  {
    if submitted != key {
      var v :| v in (submitted - key) + (key - submitted);
      assert v in Misses(submitted, key);
    }
  }

  /** The random test driver's intent, for every key and every submission. */
  lemma CorrectIffSameSet(solutions: seq<string>, submission: seq<string>, correctPts: int, wrongPts: int)
    ensures Grade(Factory(solutions, correctPts, wrongPts), submission).correct
        <==> (forall v :: v in submission <==> v in solutions)
  {
    var g := Factory(solutions, correctPts, wrongPts);
    if forall v :: v in submission <==> v in solutions {
      assert Elements(submission) == g.key;
    }
  }

  /** A shuffled (or repeated) copy of the key is always accepted. */
  lemma {:induction false} ShuffledKeyAccepted(solutions: seq<string>, shuffled: seq<string>)
    requires multiset(shuffled) == multiset(solutions)
    ensures Grade(Factory(solutions), shuffled).correct
  {
    forall v ensures v in shuffled <==> v in solutions {
      assert v in shuffled <==> v in multiset(shuffled);
      assert v in solutions <==> v in multiset(solutions);
    }
    CorrectIffSameSet(solutions, shuffled, 1, 0);
  }

  /** The result depends on the submission only through its set of values. */
  lemma OrderAndRepetitionIrrelevant(g: ChoiceGrader, s: seq<string>, t: seq<string>)
    requires forall v :: v in s <==> v in t
    ensures Grade(g, s) == Grade(g, t)
  {
    assert Elements(s) == Elements(t);
  }

  /** With an empty key only the empty submission is correct. */
  lemma EmptyKeyAcceptsOnlyEmpty(submission: seq<string>)
    ensures Grade(Factory([]), submission).correct <==> submission == []
  {
    if submission != [] {
      assert submission[0] in Elements(submission);
    }
  }

  /** The result record determines both the submitted set and the key: nothing is lost. */
  lemma ResultDeterminesSets(g: ChoiceGrader, submission: seq<string>)
    ensures var r := Grade(g, submission);
      && Elements(submission) == r.correctChoices.Keys + (set v | v in r.wrongChoices && r.wrongChoices[v] == FalsePositive)
      && g.key == r.correctChoices.Keys + (set v | v in r.wrongChoices && r.wrongChoices[v] == FalseNegative)
  {
  }

  /** A correct submission reports no wrong choices and marks every correct value. */
  lemma CorrectMeansNoWrongChoices(g: ChoiceGrader, submission: seq<string>)
    ensures var r := Grade(g, submission);
      && (r.correct <==> r.wrongChoices == map[])
      && (r.correct ==> r.correctChoices.Keys == g.key)
  {
    var r := Grade(g, submission);
    if !r.correct {
      var v :| v in (Elements(submission) - g.key) + (g.key - Elements(submission));
      assert v in r.wrongChoices;
    }
  }

  /** The first factory test's grader: key ["a","b"], 15 points right, -3 wrong. */
  function ExampleGrader(): ChoiceGrader {
    Factory(["a", "b"], correctPts := 15, wrongPts := -3)
  }

  lemma ExampleExactKey()
    ensures Grade(ExampleGrader(), ["a", "b"]) == ChoiceResult(true, 15, map["a" := true, "b" := true], map[])
    ensures Grade(ExampleGrader(), ["b", "a"]).correct
    ensures Grade(ExampleGrader(), ["b", "b", "a", "a"]).correct
  {
    var r := Grade(ExampleGrader(), ["a", "b"]);
    assert r.correctChoices.Keys == {"a", "b"};
    assert Elements(["b", "a"]) == {"a", "b"};
    assert Elements(["b", "b", "a", "a"]) == {"a", "b"};
  }

  lemma ExampleFalsePositive()
    ensures Grade(ExampleGrader(), ["a", "b", "c"])
      == ChoiceResult(false, -3, map["a" := true, "b" := true], map["c" := FalsePositive])
  {
    var r := Grade(ExampleGrader(), ["a", "b", "c"]);
    assert "c" in r.wrongChoices;
    assert r.correctChoices.Keys == {"a", "b"};
    assert r.wrongChoices.Keys == {"c"};
  }

  lemma ExampleFalseNegative()
    ensures Grade(ExampleGrader(), ["a"]) == ChoiceResult(false, -3, map["a" := true], map["b" := FalseNegative])
    ensures !Grade(ExampleGrader(), []).correct
  {
    var r := Grade(ExampleGrader(), ["a"]);
    assert "b" in r.wrongChoices;
    assert r.correctChoices.Keys == {"a"};
    assert r.wrongChoices.Keys == {"b"};
    assert "a" !in Elements([]);
  }

  /** A near-miss value is a different value: "ipo" never matches "ipod". */
  lemma NearMissRejected()
    ensures var r := Grade(Factory(["napster", "ipod"]), ["ipo"]);
      && !r.correct
      && r.wrongChoices == map["ipo" := FalsePositive, "napster" := FalseNegative, "ipod" := FalseNegative]
  {
    assert "ipo" != "ipod" && "ipo" != "napster" && "ipod" != "napster";
    var r := Grade(Factory(["napster", "ipod"]), ["ipo"]);
    assert r.wrongChoices.Keys == {"ipo", "napster", "ipod"};
  }
}
