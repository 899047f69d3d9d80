/**
 * The documents of the autograder's test suite, as parsed trees, and what
 * construction and grading yield for them.
 */
module Scenarios {
  import opened Wrappers
  import opened Text
  import opened Metadata
  import opened AutoGrading
  import MultipleChoice
  import Numerical

  function ChoiceAttrs(value: string, correct: string): ChoiceNode {
    ChoiceNode(Some(value), Some(correct))
  }

  /** A multiple-choice `<response>` with no point attributes. */
  function ChoiceResponseNode(name: string, choices: seq<ChoiceNode>): ResponseNode {
    ResponseNode(Some(name), Some(MultipleChoiceType), None, None, choices, None, None)
  }

  function Built(doc: Document, p: DefaultReturn := NoDefault): Result<AutoGrader, MetadataError> {
    Create(Xml(doc), p)
  }

  // ---------------------------------------------------------------------------
  // One document per structural fault.

  lemma QuestionWithoutId()
    ensures Built([QuestionNode(None, [])]) == Failure(NoQuestionId)
    ensures NoQuestionId.Message() == "A <question_metadata> tag has no \"id\" attribute!"
  {
  }

  lemma QuestionWithoutResponses()
    ensures Built([QuestionNode(Some("q1"), [])]) == Failure(NoResponses("q1"))
    ensures NoResponses("q1").Message() == "<question_metadata id=\"q1\"> has no <response> child tags!"
  {
    NoResponsesMessageForQ1();
  }

  lemma NoResponsesMessageForQ1()
    ensures NoResponses("q1").Message() == "<question_metadata id=\"q1\"> has no <response> child tags!"
  {
    QuestionMessages("q1");
    assert "<question_metadata id=\"" + "q1" == "<question_metadata id=\"q1";
    assert "<question_metadata id=\"q1" + "\"> has no <response> child tags!"
        == "<question_metadata id=\"q1\"> has no <response> child tags!";
  }

  lemma ResponseWithoutName()
    ensures Built([QuestionNode(Some("q1"), [ResponseNode(None, Some(MultipleChoiceType), None, None, [], None, None)])])
         == Failure(NoResponseName)
    ensures Contains(NoResponseName.Message(), "no name attribute")
  {
    NoResponseNameMessage();
  }

  lemma ResponseWithoutAnswerType()
    ensures Built([QuestionNode(Some("q1"), [ResponseNode(Some("foo"), None, None, None, [], None, None)])])
         == Failure(NoAnswerType("foo"))
    ensures Contains(NoAnswerType("foo").Message(), "no \"answertype\" attribute")
  {
    NoAnswerTypeMessage("foo");
  }

  /** The same response name under two different questions is rejected. */
  lemma DuplicateNameAcrossQuestions()
    ensures Built([
        QuestionNode(Some("q1"), [ChoiceResponseNode("foo", [ChoiceAttrs("a", "true")])]),
        QuestionNode(Some("q2"), [ChoiceResponseNode("foo", [ChoiceAttrs("a", "true")])])])
      == Failure(DuplicateResponseName("foo"))
  {
    var q1 := QuestionNode(Some("q1"), [ChoiceResponseNode("foo", [ChoiceAttrs("a", "true")])]);
    var q2 := QuestionNode(Some("q2"), [ChoiceResponseNode("foo", [ChoiceAttrs("a", "true")])]);
    var ms := ValidateResponses(q1.responses, {});
    assert ms.Success? && NameSet(ms.value) == {"foo"};
    assert ValidateQuestions([q2], {"foo"}) == Failure(DuplicateResponseName("foo"));
    assert [q1, q2][1..] == [q2];
  }

  lemma ChoiceResponseWithoutChoices()
    ensures Built([QuestionNode(Some("q1"), [ChoiceResponseNode("foo", [])])]) == Failure(NoChoices("foo"))
    ensures Contains(NoChoices("foo").Message(), "no <choice> descendants")
  {
    NoChoicesMessage("foo");
  }

  /** A value repeated inside one response is rejected. */
  lemma DuplicateChoiceInOneResponse()
    ensures Built([
        QuestionNode(Some("q1"), [ChoiceResponseNode("foo", [ChoiceAttrs("a", "true"), ChoiceAttrs("a", "false")])]),
        QuestionNode(Some("q2"), [ChoiceResponseNode("foo2", [ChoiceAttrs("a", "true")])])])
      == Failure(DuplicateChoiceValue("foo", "a"))
    ensures Contains(DuplicateChoiceValue("foo", "a").Message(), "<choice> tags with duplicate value \"a\"")
  {
    var cs := [ChoiceAttrs("a", "true"), ChoiceAttrs("a", "false")];
    assert cs[1..] == [ChoiceAttrs("a", "false")];
    assert ValidateChoices("foo", cs, {}) == Failure(DuplicateChoiceValue("foo", "a"));
    DuplicateChoiceValueMessage("foo", "a");
    assert DuplicateValueText + "a" == "<choice> tags with duplicate value \"a";
    assert "<choice> tags with duplicate value \"a" + "\"" == "<choice> tags with duplicate value \"a\"";
  }

  lemma ChoiceWithoutValue()
    ensures Built([QuestionNode(Some("q1"), [ChoiceResponseNode("foo", [ChoiceAttrs("a", "true"), ChoiceNode(None, Some("false"))])])])
         == Failure(NoChoiceValue("foo"))
    ensures Contains(NoChoiceValue("foo").Message(), "<choice> tag with no \"value\"")
  {
    var cs := [ChoiceAttrs("a", "true"), ChoiceNode(None, Some("false"))];
    assert cs[1..] == [ChoiceNode(None, Some("false"))];
    assert ValidateChoices("foo", cs, {}) == Failure(NoChoiceValue("foo"));
    NoChoiceValueMessage("foo");
  }

  // ---------------------------------------------------------------------------
  // The multiple-choice document: responses q1d (15 / -2 points) and test2 (default points).

  function Q1dNode(): ResponseNode {
    ResponseNode(Some("q1d"), Some(MultipleChoiceType), Some(15), Some(-2),
      [ChoiceAttrs("ipad", "false"), ChoiceAttrs("napster", "true"), ChoiceAttrs("ipod", "true"),
       ChoiceAttrs("peeler", "false"), ChoiceAttrs("android", "false"), ChoiceAttrs("beatles", "false")],
      None, None)
  }

  function Test2Node(): ResponseNode {
    ChoiceResponseNode("test2", [ChoiceAttrs("a", "False"), ChoiceAttrs("b", "True"), ChoiceAttrs("c", "True")])
  }

  function ChoiceDocument(): Document {
    [QuestionNode(Some("problem_1"), [Q1dNode()]), QuestionNode(Some("problem_2"), [Test2Node()])]
  }

  lemma Q1dWellFormed()
    ensures ResponseWellFormed(Q1dNode())
  {
  }

  lemma Test2WellFormed()
    ensures ResponseWellFormed(Test2Node())
  {
  }

  lemma ChoiceDocumentResponses()
    ensures AllResponseNodes(ChoiceDocument()) == [Q1dNode(), Test2Node()]
  {
    var doc := ChoiceDocument();
    assert doc[1..] == [doc[1]] && doc[1..][1..] == [];
  }

  lemma ChoiceDocumentWellFormed()
    ensures WellFormed(ChoiceDocument())
  {
    Q1dWellFormed();
    Test2WellFormed();
    ChoiceDocumentResponses();
    var doc := ChoiceDocument();
    assert QuestionWellFormed(doc[0]) && QuestionWellFormed(doc[1]);
  }

  /** The document validates, and its two responses are q1d and test2 in that order. */
  lemma ChoiceDocumentCompiles()
    ensures Validate(ChoiceDocument()).Success?
    ensures AllResponses(Validate(ChoiceDocument()).value) == [ToResponse(Q1dNode()), ToResponse(Test2Node())]
  {
    ChoiceDocumentWellFormed();
    ChoiceDocumentResponses();
    Q1dWellFormed();
    Test2WellFormed();
    ValidateAcceptsExactlyWellFormed(ChoiceDocument());
    AllResponsesOfModel(ChoiceDocument());
  }

  function Q1dChoiceList(): seq<Metadata.Choice> {
    [Metadata.Choice("ipad", false), Metadata.Choice("napster", true), Metadata.Choice("ipod", true),
     Metadata.Choice("peeler", false), Metadata.Choice("android", false), Metadata.Choice("beatles", false)]
  }

  lemma Q1dChoices()
    ensures ResponseWellFormed(Q1dNode())
    ensures ToResponse(Q1dNode()).choices == Q1dChoiceList()
  {
    Q1dWellFormed();
    CorrectFlagIgnoresCase();
  }

  lemma Q1dKey()
    ensures MultipleChoice.Factory(CorrectValues(Q1dChoiceList())).key == {"napster", "ipod"}
  {
    var cs := Q1dChoiceList();
    var key := MultipleChoice.Factory(CorrectValues(cs)).key;
    forall v ensures v in key <==> v == "napster" || v == "ipod" {
      assert v in key <==> exists i :: 0 <= i < |cs| && cs[i].correct && cs[i].value == v;
      assert cs[1].correct && cs[2].correct;
    }
  }

  /** q1d's grader: the choices marked "true", 15 and -2 points. */
  lemma Q1dGrader()
    ensures GraderFor(ToResponse(Q1dNode())) == ForChoices(MultipleChoice.ChoiceGrader({"napster", "ipod"}, 15, -2))
  {
    Q1dChoices();
    Q1dKey();
  }

  function Test2ChoiceList(): seq<Metadata.Choice> {
    [Metadata.Choice("a", false), Metadata.Choice("b", true), Metadata.Choice("c", true)]
  }

  lemma Test2Choices()
    ensures ResponseWellFormed(Test2Node())
    ensures ToResponse(Test2Node()).choices == Test2ChoiceList()
  {
    Test2WellFormed();
    CorrectFlagIgnoresCase();
  }

  lemma Test2Key()
    ensures MultipleChoice.Factory(CorrectValues(Test2ChoiceList())).key == {"b", "c"}
  {
    var cs := Test2ChoiceList();
    var key := MultipleChoice.Factory(CorrectValues(cs)).key;
    forall v ensures v in key <==> v == "b" || v == "c" {
      assert v in key <==> exists i :: 0 <= i < |cs| && cs[i].correct && cs[i].value == v;
      assert cs[1].correct && cs[2].correct;
    }
  }

  /** test2's grader: "True" is read as true, and the points default to 1 and 0. */
  lemma Test2Grader()
    ensures GraderFor(ToResponse(Test2Node())) == ForChoices(MultipleChoice.ChoiceGrader({"b", "c"}, 1, 0))
  {
    Test2Choices();
    Test2Key();
  }

  /** The registry the multiple-choice document compiles to. */
  function ChoiceRegistry(): map<string, Grader> {
    map["q1d" := ForChoices(MultipleChoice.ChoiceGrader({"napster", "ipod"}, 15, -2)),
        "test2" := ForChoices(MultipleChoice.ChoiceGrader({"b", "c"}, 1, 0))]
  }

  /** Under any policy the document builds an AutoGrader holding exactly q1d's and test2's graders. */
  lemma ChoiceDocumentBuilds(p: DefaultReturn)
    ensures Built(ChoiceDocument(), p) == Success(AutoGrader(ChoiceRegistry(), p))
  {
    ChoiceDocumentCompiles();
    ChoiceRegisterContents();
  }

  lemma ChoiceRegisterContents()
    ensures ResponseWellFormed(Q1dNode()) && ResponseWellFormed(Test2Node())
      && Register([ToResponse(Q1dNode()), ToResponse(Test2Node())]) == ChoiceRegistry()
  {
    Q1dChoices();
    Test2Choices();
    Q1dGrader();
    Test2Grader();
    RegisterTwo(ToResponse(Q1dNode()), ToResponse(Test2Node()));
  }

  lemma RegisterTwo(m1: Response, m2: Response)
    ensures Register([m1, m2]) == map[m1.name := GraderFor(m1), m2.name := GraderFor(m2)]
  {
    var ms := [m1, m2];
    assert ms[..1] == [m1] && ms[..1][..0] == [];
  }

  lemma RegisterThree(m1: Response, m2: Response, m3: Response)
    ensures Register([m1, m2, m3]) == map[m1.name := GraderFor(m1), m2.name := GraderFor(m2), m3.name := GraderFor(m3)]
  {
    var ms := [m1, m2, m3];
    assert ms[..2] == [m1, m2];
    RegisterTwo(m1, m2);
  }

  lemma Q1dCorrectRecord()
    ensures MultipleChoice.Grade(MultipleChoice.ChoiceGrader({"napster", "ipod"}, 15, -2), ["napster", "ipod"])
         == MultipleChoice.ChoiceResult(true, 15, map["ipod" := true, "napster" := true], map[])
  {
    var g := MultipleChoice.ChoiceGrader({"napster", "ipod"}, 15, -2);
    var r := MultipleChoice.Grade(g, ["napster", "ipod"]);
    assert MultipleChoice.Elements(["napster", "ipod"]) == g.key;
    assert r.correctChoices.Keys == {"ipod", "napster"};
  }

  lemma Q1dFalsePositiveRecord()
    ensures MultipleChoice.Grade(MultipleChoice.ChoiceGrader({"napster", "ipod"}, 15, -2), ["ipad", "ipod", "napster"])
         == MultipleChoice.ChoiceResult(false, -2, map["ipod" := true, "napster" := true], map["ipad" := MultipleChoice.FalsePositive])
  {
    var g := MultipleChoice.ChoiceGrader({"napster", "ipod"}, 15, -2);
    var r := MultipleChoice.Grade(g, ["ipad", "ipod", "napster"]);
    assert "ipad" in r.wrongChoices;
    assert r.correctChoices.Keys == {"ipod", "napster"};
    assert r.wrongChoices.Keys == {"ipad"};
  }

  /** The exact records the built AutoGrader returns for the key and for the key plus "ipad". */
  lemma Q1dExactRecords()
    ensures var ag := AutoGrader(ChoiceRegistry(), NoDefault);
      && ag.Grade("q1d", Selected(["napster", "ipod"]))
         == Success(ChoiceOutcome(MultipleChoice.ChoiceResult(true, 15, map["ipod" := true, "napster" := true], map[])))
      && ag.Grade("q1d", Selected(["ipad", "ipod", "napster"]))
         == Success(ChoiceOutcome(MultipleChoice.ChoiceResult(false, -2, map["ipod" := true, "napster" := true],
                                                              map["ipad" := MultipleChoice.FalsePositive])))
  {
    Q1dCorrectRecord();
    Q1dFalsePositiveRecord();
  }

  /** Reversed order is accepted; a near-miss and a partial submission are not. */
  lemma Q1dOtherSubmissions()
    ensures var ag := AutoGrader(ChoiceRegistry(), NoDefault);
      && ag.Grade("q1d", Selected(["ipod", "napster"])).value.IsCorrect()
      && !ag.Grade("q1d", Selected(["ipo"])).value.IsCorrect()
      && !ag.Grade("q1d", Selected(["ipod"])).value.IsCorrect()
  {
    assert MultipleChoice.Elements(["ipod", "napster"]) == {"napster", "ipod"};
    assert "ipod" !in MultipleChoice.Elements(["ipo"]);
    assert "napster" !in MultipleChoice.Elements(["ipod"]);
  }

  /** An empty and an unrelated submission are not accepted. */
  lemma Q1dEmptyAndUnrelated()
    ensures var ag := AutoGrader(ChoiceRegistry(), NoDefault);
      && !ag.Grade("q1d", Selected([])).value.IsCorrect()
      && !ag.Grade("q1d", Selected(["q1d_1"])).value.IsCorrect()
  {
    assert "ipod" !in MultipleChoice.Elements([]);
    assert "ipod" !in MultipleChoice.Elements(["q1d_1"]);
  }

  lemma Test2CorrectRecord()
    ensures MultipleChoice.Grade(MultipleChoice.ChoiceGrader({"b", "c"}, 1, 0), ["b", "c"])
         == MultipleChoice.ChoiceResult(true, 1, map["b" := true, "c" := true], map[])
  {
    var g := MultipleChoice.ChoiceGrader({"b", "c"}, 1, 0);
    var r := MultipleChoice.Grade(g, ["b", "c"]);
    assert MultipleChoice.Elements(["b", "c"]) == g.key;
    assert r.correctChoices.Keys == {"b", "c"};
  }

  lemma Test2MixedRecord()
    ensures MultipleChoice.Grade(MultipleChoice.ChoiceGrader({"b", "c"}, 1, 0), ["a", "b"])
         == MultipleChoice.ChoiceResult(false, 0, map["b" := true],
              map["a" := MultipleChoice.FalsePositive, "c" := MultipleChoice.FalseNegative])
  {
    var g := MultipleChoice.ChoiceGrader({"b", "c"}, 1, 0);
    var r := MultipleChoice.Grade(g, ["a", "b"]);
    assert "a" in r.wrongChoices && "c" in r.wrongChoices;
    assert r.correctChoices.Keys == {"b"};
    assert r.wrongChoices.Keys == {"a", "c"};
  }

  /** The exact records for test2's key and for a mixed submission. */
  lemma Test2ExactRecords()
    ensures var ag := AutoGrader(ChoiceRegistry(), NoDefault);
      && ag.Grade("test2", Selected(["b", "c"]))
         == Success(ChoiceOutcome(MultipleChoice.ChoiceResult(true, 1, map["b" := true, "c" := true], map[])))
      && ag.Grade("test2", Selected(["a", "b"]))
         == Success(ChoiceOutcome(MultipleChoice.ChoiceResult(false, 0, map["b" := true],
                      map["a" := MultipleChoice.FalsePositive, "c" := MultipleChoice.FalseNegative])))
  {
    Test2CorrectRecord();
    Test2MixedRecord();
  }

  /** Reversed order is accepted; a superset is not. */
  lemma Test2OtherSubmissions()
    ensures var ag := AutoGrader(ChoiceRegistry(), NoDefault);
      && ag.Grade("test2", Selected(["c", "b"])).value.IsCorrect()
      && !ag.Grade("test2", Selected(["a", "b", "c"])).value.IsCorrect()
  {
    assert MultipleChoice.Elements(["c", "b"]) == {"b", "c"};
    assert "a" in MultipleChoice.Elements(["a", "b", "c"]);
  }

  /** A partial and an empty submission are not accepted. */
  lemma Test2PartialAndEmpty()
    ensures var ag := AutoGrader(ChoiceRegistry(), NoDefault);
      && !ag.Grade("test2", Selected(["a"])).value.IsCorrect()
      && !ag.Grade("test2", Selected([])).value.IsCorrect()
  {
    assert "b" !in MultipleChoice.Elements(["a"]);
    assert "b" !in MultipleChoice.Elements([]);
  }

  /** A name the document does not define is an error when there is no default. */
  lemma UndefinedNameInChoiceDocument()
    ensures AutoGrader(ChoiceRegistry(), NoDefault).Grade("notDef", Selected(["a", "b"])) == Failure(UndefinedName("notDef"))
  {
    assert "notDef" !in ChoiceRegistry();
  }

  // ---------------------------------------------------------------------------
  // The numerical document: q4d (tolerance .02, 139 / -23 points), q4e (tolerance 15%), q4f (no tolerance).

  function Q4dNode(): ResponseNode {
    ResponseNode(Some("q4d"), Some(NumericalType), Some(139), Some(-23), [], Some(3.14159), Some(Numerical.Absolute(0.02)))
  }

  function Q4eNode(): ResponseNode {
    ResponseNode(Some("q4e"), Some(NumericalType), None, None, [], Some(4518.0), Some(Numerical.Percent(15.0)))
  }

  function Q4fNode(): ResponseNode {
    ResponseNode(Some("q4f"), Some(NumericalType), None, None, [], Some(5.0), None)
  }

  function NumberDocument(): Document {
    [QuestionNode(Some("problem_4"), [Q4dNode(), Q4eNode(), Q4fNode()])]
  }

  lemma NumberDocumentCompiles()
    ensures Validate(NumberDocument()).Success?
    ensures AllResponses(Validate(NumberDocument()).value) == [ToResponse(Q4dNode()), ToResponse(Q4eNode()), ToResponse(Q4fNode())]
  {
    var doc := NumberDocument();
    assert ResponseWellFormed(Q4dNode()) && ResponseWellFormed(Q4eNode()) && ResponseWellFormed(Q4fNode());
    assert doc[1..] == [];
    assert AllResponseNodes(doc) == [Q4dNode(), Q4eNode(), Q4fNode()];
    assert QuestionWellFormed(doc[0]);
    assert WellFormed(doc);
    ValidateAcceptsExactlyWellFormed(doc);
    AllResponsesOfModel(doc);
  }

  /** The registry the numerical document compiles to. */
  function NumberRegistry(): map<string, Grader> {
    map["q4d" := ForNumber(Numerical.NumberGrader(3.14159, Numerical.Absolute(0.02), 139, -23)),
        "q4e" := ForNumber(Numerical.NumberGrader(4518.0, Numerical.Percent(15.0), 1, 0)),
        "q4f" := ForNumber(Numerical.NumberGrader(5.0, Numerical.Absolute(0.0), 1, 0))]
  }

  /** Under any policy the document builds an AutoGrader holding exactly q4d's, q4e's and q4f's graders. */
  lemma NumberDocumentBuilds(p: DefaultReturn)
    ensures Built(NumberDocument(), p) == Success(AutoGrader(NumberRegistry(), p))
  {
    NumberDocumentCompiles();
    NumberRegisterContents();
  }

  lemma NumberRegisterContents()
    ensures ResponseWellFormed(Q4dNode()) && ResponseWellFormed(Q4eNode()) && ResponseWellFormed(Q4fNode())
      && Register([ToResponse(Q4dNode()), ToResponse(Q4eNode()), ToResponse(Q4fNode())]) == NumberRegistry()
  {
    assert ResponseWellFormed(Q4dNode()) && ResponseWellFormed(Q4eNode()) && ResponseWellFormed(Q4fNode());
    RegisterThree(ToResponse(Q4dNode()), ToResponse(Q4eNode()), ToResponse(Q4fNode()));
  }

  /** q4d under every policy: the boundary values are accepted, 3.5 and 3.0 are not. */
  lemma Q4dResults(p: DefaultReturn)
    ensures var ag := AutoGrader(NumberRegistry(), p);
      && ag.Grade("q4d", Entered(3.14159)) == Success(NumberOutcome(Numerical.NumberResult(true, 139)))
      && ag.Grade("q4d", Entered(3.14159 + 0.02)).value.IsCorrect()
      && ag.Grade("q4d", Entered(3.14159 - 0.02)).value.IsCorrect()
      && ag.Grade("q4d", Entered(3.5)) == Success(NumberOutcome(Numerical.NumberResult(false, -23)))
      && !ag.Grade("q4d", Entered(3.0)).value.IsCorrect()
  {
  }

  /** q4e: within 15% of 4518 is accepted, beyond it is not. */
  lemma Q4eResults()
    ensures var ag := AutoGrader(NumberRegistry(), NoDefault);
      && ag.Grade("q4e", Entered(4518.0)) == Success(NumberOutcome(Numerical.NumberResult(true, 1)))
      && ag.Grade("q4e", Entered(4518.0 * 1.149)).value.IsCorrect()
      && ag.Grade("q4e", Entered(4518.0 * 0.851)).value.IsCorrect()
      && ag.Grade("q4e", Entered(4518.0 * 1.151)) == Success(NumberOutcome(Numerical.NumberResult(false, 0)))
      && !ag.Grade("q4e", Entered(4518.0 * 1.849)).value.IsCorrect()
  {
  }

  /** q4f: with no tolerance only 5 itself is accepted. */
  lemma Q4fResults()
    ensures var ag := AutoGrader(NumberRegistry(), NoDefault);
      && ag.Grade("q4f", Entered(5.0)).value.IsCorrect()
      && !ag.Grade("q4f", Entered(4.0)).value.IsCorrect()
      && !ag.Grade("q4f", Entered(6.0)).value.IsCorrect()
  {
  }

  /** "randomDNE" names no response: an error without a default, else the configured correctness. */
  lemma UndefinedNameUnderEachPolicy()
    ensures AutoGrader(NumberRegistry(), NoDefault).Grade("randomDNE", Entered(33.0)) == Failure(UndefinedName("randomDNE"))
    ensures AutoGrader(NumberRegistry(), ReturnTrue).Grade("randomDNE", Entered(33.0)).value.IsCorrect()
    ensures !AutoGrader(NumberRegistry(), ReturnFalse).Grade("randomDNE", Entered(33.0)).value.IsCorrect()
  {
    assert "randomDNE" !in NumberRegistry();
  }
}
