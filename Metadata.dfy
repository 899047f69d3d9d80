/**
 * Exam metadata: the parsed question -> response -> choice tree as the XML
 * reader delivers it (attributes may be missing), the validated model the
 * graders are compiled from, and the validator that turns one into the other
 * or reports the first structural fault in document order.
 */
module Metadata {
  import opened Wrappers
  import opened Text
  import Numerical

  const MultipleChoiceType: string := "multiplechoiceresponse"
  const NumericalType: string := "numericalresponse"

  // ---------------------------------------------------------------------------
  // The parsed tree: one node per tag, each attribute optional.

  /** `<choice value=... correct=...>`; `correct` is the attribute text. */
  datatype ChoiceNode = ChoiceNode(value: Option<string>, correct: Option<string>)

  /** `<response name=... answertype=... correct-points=... wrong-points=... answer=...>` and its children. */
  datatype ResponseNode = ResponseNode(
    name: Option<string>,
    answertype: Option<string>,
    correctPoints: Option<int>,
    wrongPoints: Option<int>,
    choices: seq<ChoiceNode>,
    answer: Option<real>,
    tolerance: Option<Numerical.Tolerance>)

  /** `<question_metadata id=...>` and its `<response>` children. */
  datatype QuestionNode = QuestionNode(id: Option<string>, responses: seq<ResponseNode>)

  /** `<exam_metadata>`: the questions in document order. */
  type Document = seq<QuestionNode>

  // ---------------------------------------------------------------------------
  // The validated model.

  datatype Choice = Choice(value: string, correct: bool)

  datatype Response =
    | ChoiceResponse(name: string, choices: seq<Choice>, correctPts: int, wrongPts: int)
    | NumberResponse(name: string, answer: real, tolerance: Numerical.Tolerance, correctPts: int, wrongPts: int)

  datatype Question = Question(id: string, responses: seq<Response>)

  type Exam = seq<Question>

  // ---------------------------------------------------------------------------
  // Structural faults.

  // The parts of the messages that the exception tests match.
  const NoNameText: string := "no name attribute"
  const NoAnswerTypeText: string := "no \"answertype\" attribute"
  const ResponseTagText: string := "<response>"
  const NoChoicesText: string := "no <choice> descendants"
  const NoChoiceValueText: string := "<choice> tag with no \"value\""
  const DuplicateValueText: string := "<choice> tags with duplicate value \""

  datatype MetadataError =
    | NoQuestionId
    | NoResponses(questionId: string)
    | NoResponseName
    | NoAnswerType(responseName: string)
    | DuplicateResponseName(responseName: string)
    | UnknownAnswerType(responseName: string, answertype: string)
    | NoChoices(responseName: string)
    | NoChoiceValue(responseName: string)
    | DuplicateChoiceValue(responseName: string, value: string)
    | NoAnswer(responseName: string)
  {
    /** The text the metadata exception carries. */
    function Message(): string {
      match this
      case NoQuestionId =>
        "A <question_metadata> tag has no \"id\" attribute!"
      case NoResponses(id) =>
        "<question_metadata id=\"" + id + "\"> has no <response> child tags!"
      case NoResponseName =>
        "A <response> tag has " + NoNameText + "!"
      case NoAnswerType(n) =>
        "<response name=\"" + n + "\"> has " + NoAnswerTypeText + "!"
      case DuplicateResponseName(n) =>
        "Duplicate name \"" + n + "\"" + " found in " + ResponseTagText + " tags!"
      case UnknownAnswerType(n, t) =>
        "<response name=\"" + n + "\"> has unknown answertype \"" + t + "\"!"
      case NoChoices(n) =>
        "<response name=\"" + n + "\"> has " + NoChoicesText + "!"
      case NoChoiceValue(n) =>
        "<response name=\"" + n + "\"> has a " + NoChoiceValueText + " attribute!"
      case DuplicateChoiceValue(n, v) =>
        "<response name=\"" + n + "\"> has " + DuplicateValueText + v + "\""
      case NoAnswer(n) =>
        "<response name=\"" + n + "\"> has no \"answer\" attribute!"
    }
  }

  // ---------------------------------------------------------------------------
  // Converting well-formed nodes.

  /** The `correct` attribute is read case-insensitively: "True" and "true" both mark a correct choice. */
  function IsTrueText(s: string): bool {
    Lower(s) == "true"
  }

  /** "true" in any letter case: four letters, each the lower or capital form of t, r, u, e. */
  predicate SpellsTrue(s: string) {
    && |s| == 4
    && (s[0] == 't' || s[0] == 'T') && (s[1] == 'r' || s[1] == 'R')
    && (s[2] == 'u' || s[2] == 'U') && (s[3] == 'e' || s[3] == 'E')
  }

  /** The `correct` attribute marks a choice correct exactly when it spells "true" in some letter case. */
  lemma TrueTextSpelling(s: string)
    ensures IsTrueText(s) <==> SpellsTrue(s)
  {
    if |s| == 4 {
      var l := Lower(s);
      LowerCharIs(s[0], 't', 'T');
      LowerCharIs(s[1], 'r', 'R');
      LowerCharIs(s[2], 'u', 'U');
      LowerCharIs(s[3], 'e', 'E');
      if SpellsTrue(s) {
        assert l == "true";
      }
    }
  }

  /** A character lower-cases to the letter `lower` iff it is that letter or its capital. */
  lemma LowerCharIs(c: char, lower: char, upper: char)
    requires 'a' <= lower <= 'z' && upper as int == lower as int - 32
    ensures LowerChar(c) == lower <==> c == lower || c == upper
  {
  }

  function ToChoice(c: ChoiceNode): Choice
    requires c.value.Some?
  {
    Choice(c.value.value, c.correct.Some? && IsTrueText(c.correct.value))
  }

  /** A choice keeps its value and is correct exactly when its `correct` text spells "true" in any case. */
  lemma ChoiceReadsAttributes(c: ChoiceNode)
    requires c.value.Some?
    ensures ToChoice(c).value == c.value.value
    ensures ToChoice(c).correct <==> c.correct.Some? && SpellsTrue(c.correct.value)
  {
    if c.correct.Some? {
      TrueTextSpelling(c.correct.value);
    }
  }

  function ToChoices(cs: seq<ChoiceNode>): (r: seq<Choice>)
    requires forall i :: 0 <= i < |cs| ==> cs[i].value.Some?
    ensures |r| == |cs| && forall i :: 0 <= i < |cs| ==> r[i] == ToChoice(cs[i])
  {
    if cs == [] then [] else [ToChoice(cs[0])] + ToChoices(cs[1..])
  }

  /** A well-formed `<response>` read into grader data: absent points default to 1 and 0, an absent tolerance to none. */
  function ToResponse(r: ResponseNode): (m: Response)
    requires ResponseWellFormed(r)
    ensures m.name == r.name.value
    ensures m.ChoiceResponse? <==> r.answertype.value == MultipleChoiceType
    ensures r.correctPoints.Some? ==> m.correctPts == r.correctPoints.value
    ensures r.correctPoints.None? ==> m.correctPts == 1
    ensures r.wrongPoints.Some? ==> m.wrongPts == r.wrongPoints.value
    ensures r.wrongPoints.None? ==> m.wrongPts == 0
    ensures m.ChoiceResponse? ==> |m.choices| == |r.choices| && forall i :: 0 <= i < |r.choices| ==> m.choices[i] == ToChoice(r.choices[i])
    ensures m.NumberResponse? ==> m.answer == r.answer.value
    ensures m.NumberResponse? && r.tolerance.Some? ==> m.tolerance == r.tolerance.value
    ensures m.NumberResponse? && r.tolerance.None? ==> Numerical.Delta(m.answer, m.tolerance) == 0.0
  {
    if r.answertype.value == MultipleChoiceType then
      ChoiceResponse(r.name.value, ToChoices(r.choices), r.correctPoints.GetOr(1), r.wrongPoints.GetOr(0))
    else
      NumberResponse(r.name.value, r.answer.value, r.tolerance.GetOr(Numerical.Absolute(0.0)),
                     r.correctPoints.GetOr(1), r.wrongPoints.GetOr(0))
  }

  function ToResponses(rs: seq<ResponseNode>): (ms: seq<Response>)
    requires forall i :: 0 <= i < |rs| ==> ResponseWellFormed(rs[i])
    ensures |ms| == |rs| && forall i :: 0 <= i < |rs| ==> ms[i] == ToResponse(rs[i])
  {
    if rs == [] then [] else [ToResponse(rs[0])] + ToResponses(rs[1..])
  }

  function ToExam(qs: Document): (exam: Exam)
    requires forall i :: 0 <= i < |qs| ==> QuestionWellFormed(qs[i])
    ensures |exam| == |qs|
    ensures forall i :: 0 <= i < |qs| ==>
      QuestionWellFormed(qs[i]) && exam[i] == Question(qs[i].id.value, ToResponses(qs[i].responses))
  {
    if qs == [] then []
    else
      assert QuestionWellFormed(qs[0]);
      [Question(qs[0].id.value, ToResponses(qs[0].responses))] + ToExam(qs[1..])
  }

  // ---------------------------------------------------------------------------
  // The declarative specification: what a fault-free document is.

  ghost predicate ChoicesWellFormed(cs: seq<ChoiceNode>) {
    && (forall i :: 0 <= i < |cs| ==> cs[i].value.Some?)
    && (forall i, j :: 0 <= i < j < |cs| ==> cs[i].value != cs[j].value)
  }

  predicate ResponseWellFormed(r: ResponseNode) {
    && r.name.Some?
    && r.answertype.Some?
    && (r.answertype.value == MultipleChoiceType || r.answertype.value == NumericalType)
    && (r.answertype.value == MultipleChoiceType ==>
          r.choices != [] && (forall i :: 0 <= i < |r.choices| ==> r.choices[i].value.Some?)
          && (forall i, j :: 0 <= i < j < |r.choices| ==> r.choices[i].value != r.choices[j].value))
    && (r.answertype.value == NumericalType ==> r.answer.Some?)
  }

  predicate QuestionWellFormed(q: QuestionNode) {
    && q.id.Some?
    && q.responses != []
    && forall i :: 0 <= i < |q.responses| ==> ResponseWellFormed(q.responses[i])
  }

  /** Every `<response>` of the document, in document order. */
  function AllResponseNodes(qs: Document): seq<ResponseNode> {
    if qs == [] then [] else qs[0].responses + AllResponseNodes(qs[1..])
  }

  ghost predicate DistinctNames(rs: seq<ResponseNode>) {
    forall i, j :: 0 <= i < j < |rs| ==> rs[i].name != rs[j].name
  }

  /** No present name among `rs` is already in `seen`. */
  ghost predicate NamesAvoid(rs: seq<ResponseNode>, seen: set<string>) {
    forall i :: 0 <= i < |rs| && rs[i].name.Some? ==> rs[i].name.value !in seen
  }

  /** No present value among `cs` is already in `seen`. */
  ghost predicate ValuesAvoid(cs: seq<ChoiceNode>, seen: set<string>) {
    forall i :: 0 <= i < |cs| && cs[i].value.Some? ==> cs[i].value.value !in seen
  }

  /** A document free of every structural fault. */
  ghost predicate WellFormed(doc: Document) {
    && (forall i :: 0 <= i < |doc| ==> QuestionWellFormed(doc[i]))
    && DistinctNames(AllResponseNodes(doc))
  }

  // ---------------------------------------------------------------------------
  // The validator. Each function reports the first fault in document order;
  // `seen` accumulates the names (or choice values) met so far.

  function ValidateChoices(responseName: string, cs: seq<ChoiceNode>, seen: set<string>): (r: Result<seq<Choice>, MetadataError>)
    ensures r.Success? ==> (forall i :: 0 <= i < |cs| ==> cs[i].value.Some?) && r.value == ToChoices(cs)
    decreases |cs|
  {
    if cs == [] then Success([])
    else if cs[0].value.None? then Failure(NoChoiceValue(responseName))
    else if cs[0].value.value in seen then Failure(DuplicateChoiceValue(responseName, cs[0].value.value))
    else match ValidateChoices(responseName, cs[1..], seen + {cs[0].value.value})
      case Failure(e) => Failure(e)
      case Success(rest) => Success([ToChoice(cs[0])] + rest)
  }

  function ValidateResponse(r: ResponseNode, seen: set<string>): (v: Result<Response, MetadataError>)
    ensures v.Success? ==> ResponseWellFormed(r) && v.value == ToResponse(r) && r.name.value !in seen
  {
    if r.name.None? then Failure(NoResponseName)
    else if r.answertype.None? then Failure(NoAnswerType(r.name.value))
    else if r.name.value in seen then Failure(DuplicateResponseName(r.name.value))
    else if r.answertype.value == MultipleChoiceType then
      if r.choices == [] then Failure(NoChoices(r.name.value))
      else match ValidateChoices(r.name.value, r.choices, {})
        case Failure(e) => Failure(e)
        case Success(cs) =>
          ValidateChoicesDistinct(r.name.value, r.choices, {});
          Success(ChoiceResponse(r.name.value, cs, r.correctPoints.GetOr(1), r.wrongPoints.GetOr(0)))
    else if r.answertype.value == NumericalType then
      if r.answer.None? then Failure(NoAnswer(r.name.value))
      else Success(NumberResponse(r.name.value, r.answer.value, r.tolerance.GetOr(Numerical.Absolute(0.0)),
                                  r.correctPoints.GetOr(1), r.wrongPoints.GetOr(0)))
    else Failure(UnknownAnswerType(r.name.value, r.answertype.value))
  }

  function ValidateResponses(rs: seq<ResponseNode>, seen: set<string>): (v: Result<seq<Response>, MetadataError>)
    ensures v.Success? ==> (forall i :: 0 <= i < |rs| ==> ResponseWellFormed(rs[i])) && v.value == ToResponses(rs)
    decreases |rs|
  {
    if rs == [] then Success([])
    else match ValidateResponse(rs[0], seen)
      case Failure(e) => Failure(e)
      case Success(first) =>
        match ValidateResponses(rs[1..], seen + {first.name})
        case Failure(e) => Failure(e)
        case Success(rest) => Success([first] + rest)
  }

  /** The names of a list of validated responses. */
  function NameSet(ms: seq<Response>): set<string> {
    set m | m in ms :: m.name
  }

  function ValidateQuestions(qs: Document, seen: set<string>): (v: Result<Exam, MetadataError>)
    ensures v.Success? ==> (forall i :: 0 <= i < |qs| ==> QuestionWellFormed(qs[i])) && v.value == ToExam(qs)
    decreases |qs|
  {
    if qs == [] then Success([])
    else if qs[0].id.None? then Failure(NoQuestionId)
    else if qs[0].responses == [] then Failure(NoResponses(qs[0].id.value))
    else match ValidateResponses(qs[0].responses, seen)
      case Failure(e) => Failure(e)
      case Success(ms) =>
        match ValidateQuestions(qs[1..], seen + NameSet(ms))
        case Failure(e) => Failure(e)
        case Success(rest) =>
          QuestionsWellFormedCons(qs);
          ToExamCons(qs);
          Success([Question(qs[0].id.value, ms)] + rest)
  }

  /** The model of a non-empty list of questions is its first question's model followed by the rest's. */
  lemma ToExamCons(qs: Document)
    requires qs != [] && forall i :: 0 <= i < |qs| ==> QuestionWellFormed(qs[i])
    ensures forall i :: 0 <= i < |qs| - 1 ==> QuestionWellFormed(qs[1..][i])
    ensures ToExam(qs) == [Question(qs[0].id.value, ToResponses(qs[0].responses))] + ToExam(qs[1..])
  {
    assert QuestionWellFormed(qs[0]);
    forall i | 0 <= i < |qs| - 1 ensures QuestionWellFormed(qs[1..][i]) {
      assert qs[1..][i] == qs[i + 1];
    }
  }

  lemma QuestionsWellFormedCons(qs: Document)
    requires qs != [] && QuestionWellFormed(qs[0])
    requires forall i :: 0 <= i < |qs| - 1 ==> QuestionWellFormed(qs[1..][i])
    ensures forall i :: 0 <= i < |qs| ==> QuestionWellFormed(qs[i])
  {
    forall i | 0 < i < |qs| ensures QuestionWellFormed(qs[i]) {
      assert qs[i] == qs[1..][i - 1];
    }
  }

  /** Parse-time validation of a whole document. */
  function Validate(doc: Document): (v: Result<Exam, MetadataError>)
    ensures v.Success? ==> (forall i :: 0 <= i < |doc| ==> QuestionWellFormed(doc[i])) && v.value == ToExam(doc)
  {
    ValidateQuestions(doc, {})
  }

  // ---------------------------------------------------------------------------
  // The validator accepts exactly the well-formed documents.

  lemma {:induction false} ValidateChoicesSpec(responseName: string, cs: seq<ChoiceNode>, seen: set<string>)
    ensures ValidateChoices(responseName, cs, seen).Success? <==> ChoicesWellFormed(cs) && ValuesAvoid(cs, seen)
    decreases |cs|
  {
    if cs != [] && cs[0].value.Some? && cs[0].value.value !in seen {
      var v := cs[0].value.value;
      var rest := cs[1..];
      ValidateChoicesSpec(responseName, rest, seen + {v});
      if ChoicesWellFormed(rest) && ValuesAvoid(rest, seen + {v}) {
        forall i, j | 0 <= i < j < |cs| ensures cs[i].value != cs[j].value {
          if i > 0 { assert cs[i] == rest[i - 1] && cs[j] == rest[j - 1]; }
          else { assert cs[j] == rest[j - 1]; }
        }
        forall i | 0 <= i < |cs| && cs[i].value.Some? ensures cs[i].value.value !in seen {
          if i > 0 { assert cs[i] == rest[i - 1]; }
        }
      }
      if ChoicesWellFormed(cs) && ValuesAvoid(cs, seen) {
        forall i, j | 0 <= i < j < |rest| ensures rest[i].value != rest[j].value {
          assert rest[i] == cs[i + 1] && rest[j] == cs[j + 1];
        }
        forall i | 0 <= i < |rest| && rest[i].value.Some? ensures rest[i].value.value !in seen + {v} {
          assert rest[i] == cs[i + 1];
        }
      }
    } else if cs != [] && cs[0].value.Some? {
      assert !ValuesAvoid(cs, seen);
    }
  }

  lemma ValidateChoicesDistinct(responseName: string, cs: seq<ChoiceNode>, seen: set<string>)
    requires ValidateChoices(responseName, cs, seen).Success?
    ensures forall i, j :: 0 <= i < j < |cs| ==> cs[i].value != cs[j].value
  {
    ValidateChoicesSpec(responseName, cs, seen);
  }

  lemma ValidateResponseSpec(r: ResponseNode, seen: set<string>)
    ensures ValidateResponse(r, seen).Success? <==> ResponseWellFormed(r) && r.name.value !in seen
  {
    if ResponseWellFormed(r) && r.name.value !in seen && r.answertype.value == MultipleChoiceType {
      ValidateChoicesSpec(r.name.value, r.choices, {});
    }
  }

  lemma {:induction false} ValidateResponsesSpec(rs: seq<ResponseNode>, seen: set<string>)
    ensures ValidateResponses(rs, seen).Success?
        <==> (forall i :: 0 <= i < |rs| ==> ResponseWellFormed(rs[i])) && DistinctNames(rs) && NamesAvoid(rs, seen)
    decreases |rs|
  {
    if rs != [] {
      ValidateResponseSpec(rs[0], seen);
      if ResponseWellFormed(rs[0]) && rs[0].name.value !in seen {
        ValidateResponsesSpec(rs[1..], seen + {rs[0].name.value});
        ResponsesFitFromRest(rs, seen);
        ResponsesFitToRest(rs, seen);
      } else if ResponseWellFormed(rs[0]) {
        assert !NamesAvoid(rs, seen);
      }
    }
  }

  /** A well-formed first response whose name is fresh, followed by a fitting rest, fits. */
  lemma ResponsesFitFromRest(rs: seq<ResponseNode>, seen: set<string>)
    requires rs != [] && ResponseWellFormed(rs[0]) && rs[0].name.value !in seen
    ensures var rest := rs[1..];
      (forall i :: 0 <= i < |rest| ==> ResponseWellFormed(rest[i])) && DistinctNames(rest) && NamesAvoid(rest, seen + {rs[0].name.value})
      ==> (forall i :: 0 <= i < |rs| ==> ResponseWellFormed(rs[i])) && DistinctNames(rs) && NamesAvoid(rs, seen)
  {
    var rest := rs[1..];
    if (forall i :: 0 <= i < |rest| ==> ResponseWellFormed(rest[i])) && DistinctNames(rest) && NamesAvoid(rest, seen + {rs[0].name.value}) {
      forall i | 0 <= i < |rs| ensures ResponseWellFormed(rs[i]) {
        if i > 0 { assert rs[i] == rest[i - 1]; }
      }
      forall i, j | 0 <= i < j < |rs| ensures rs[i].name != rs[j].name {
        if i > 0 { assert rs[i] == rest[i - 1] && rs[j] == rest[j - 1]; }
        else { assert rs[j] == rest[j - 1]; }
      }
      forall i | 0 <= i < |rs| && rs[i].name.Some? ensures rs[i].name.value !in seen {
        if i > 0 { assert rs[i] == rest[i - 1]; }
      }
    }
  }

  /** The tail of fitting responses fits once the first name is taken. */
  lemma ResponsesFitToRest(rs: seq<ResponseNode>, seen: set<string>)
    requires rs != [] && ResponseWellFormed(rs[0])
    ensures (forall i :: 0 <= i < |rs| ==> ResponseWellFormed(rs[i])) && DistinctNames(rs) && NamesAvoid(rs, seen)
      ==> var rest := rs[1..];
        (forall i :: 0 <= i < |rest| ==> ResponseWellFormed(rest[i])) && DistinctNames(rest) && NamesAvoid(rest, seen + {rs[0].name.value})
  {
    var rest := rs[1..];
    var n := rs[0].name.value;
    if (forall i :: 0 <= i < |rs| ==> ResponseWellFormed(rs[i])) && DistinctNames(rs) && NamesAvoid(rs, seen) {
      forall i | 0 <= i < |rest| ensures ResponseWellFormed(rest[i]) {
        assert rest[i] == rs[i + 1];
      }
      forall i, j | 0 <= i < j < |rest| ensures rest[i].name != rest[j].name {
        assert rest[i] == rs[i + 1] && rest[j] == rs[j + 1];
      }
      forall i | 0 <= i < |rest| && rest[i].name.Some? ensures rest[i].name.value !in seen + {n} {
        assert rest[i] == rs[i + 1];
      }
    }
  }

  lemma {:induction false} DistinctAppend(a: seq<ResponseNode>, b: seq<ResponseNode>)
    ensures DistinctNames(a + b)
        <==> DistinctNames(a) && DistinctNames(b)
             && forall i, j :: 0 <= i < |a| && 0 <= j < |b| ==> a[i].name != b[j].name
  {
    var ab := a + b;
    if DistinctNames(a) && DistinctNames(b) && forall i, j :: 0 <= i < |a| && 0 <= j < |b| ==> a[i].name != b[j].name {
      forall i, j | 0 <= i < j < |ab| ensures ab[i].name != ab[j].name {
        if j < |a| {
          assert ab[i] == a[i] && ab[j] == a[j];
        } else if i < |a| {
          assert ab[i] == a[i] && ab[j] == b[j - |a|];
        } else {
          assert ab[i] == b[i - |a|] && ab[j] == b[j - |a|];
        }
      }
    }
    if DistinctNames(ab) {
      forall i, j | 0 <= i < j < |a| ensures a[i].name != a[j].name {
        assert ab[i] == a[i] && ab[j] == a[j];
      }
      forall i, j | 0 <= i < j < |b| ensures b[i].name != b[j].name {
        assert ab[|a| + i] == b[i] && ab[|a| + j] == b[j];
      }
      forall i, j | 0 <= i < |a| && 0 <= j < |b| ensures a[i].name != b[j].name {
        assert ab[i] == a[i] && ab[|a| + j] == b[j];
      }
    }
  }

  lemma AvoidAppend(a: seq<ResponseNode>, b: seq<ResponseNode>, seen: set<string>)
    ensures NamesAvoid(a + b, seen) <==> NamesAvoid(a, seen) && NamesAvoid(b, seen)
  {
    var ab := a + b;
    if NamesAvoid(ab, seen) {
      forall i | 0 <= i < |a| && a[i].name.Some? ensures a[i].name.value !in seen {
        assert ab[i] == a[i];
      }
      forall i | 0 <= i < |b| && b[i].name.Some? ensures b[i].name.value !in seen {
        assert ab[|a| + i] == b[i];
      }
    }
    if NamesAvoid(a, seen) && NamesAvoid(b, seen) {
      forall i | 0 <= i < |ab| && ab[i].name.Some? ensures ab[i].name.value !in seen {
        if i >= |a| { assert ab[i] == b[i - |a|]; }
      }
    }
  }

  lemma NameSetOfValidated(a: seq<ResponseNode>)
    requires forall i :: 0 <= i < |a| ==> ResponseWellFormed(a[i])
    ensures forall n :: n in NameSet(ToResponses(a)) <==> exists i :: 0 <= i < |a| && a[i].name == Some(n)
  {
    forall n ensures n in NameSet(ToResponses(a)) <==> exists i :: 0 <= i < |a| && a[i].name == Some(n) {
      NameInValidated(a, n);
    }
  }

  lemma NameInValidated(a: seq<ResponseNode>, n: string)
    requires forall i :: 0 <= i < |a| ==> ResponseWellFormed(a[i])
    ensures n in NameSet(ToResponses(a)) <==> exists i :: 0 <= i < |a| && a[i].name == Some(n)
  {
    var ms := ToResponses(a);
    if n in NameSet(ms) {
      var m :| m in ms && m.name == n;
      var i :| 0 <= i < |ms| && ms[i] == m;
      assert a[i].name == Some(n);
    }
    if exists i :: 0 <= i < |a| && a[i].name == Some(n) {
      var i :| 0 <= i < |a| && a[i].name == Some(n);
      assert ms[i] in ms;
    }
  }

  lemma AvoidGrow(a: seq<ResponseNode>, b: seq<ResponseNode>, seen: set<string>)
    requires forall i :: 0 <= i < |a| ==> ResponseWellFormed(a[i])
    ensures NamesAvoid(b, seen + NameSet(ToResponses(a)))
        <==> NamesAvoid(b, seen) && forall i, j :: 0 <= i < |a| && 0 <= j < |b| ==> a[i].name != b[j].name
  {
    NameSetOfValidated(a);
  }

  lemma {:induction false} ValidateQuestionsSpec(qs: Document, seen: set<string>)
    ensures ValidateQuestions(qs, seen).Success?
        <==> (forall i :: 0 <= i < |qs| ==> QuestionWellFormed(qs[i]))
             && DistinctNames(AllResponseNodes(qs)) && NamesAvoid(AllResponseNodes(qs), seen)
    decreases |qs|
  {
    if qs != [] {
      var q, rest := qs[0], qs[1..];
      var a, b := q.responses, AllResponseNodes(rest);
      assert AllResponseNodes(qs) == a + b;
      DistinctAppend(a, b);
      AvoidAppend(a, b, seen);
      ValidateResponsesSpec(a, seen);
      assert (forall i :: 0 <= i < |qs| ==> QuestionWellFormed(qs[i]))
        <==> QuestionWellFormed(q) && forall i :: 0 <= i < |rest| ==> QuestionWellFormed(rest[i])
      by {
        if QuestionWellFormed(q) && forall i :: 0 <= i < |rest| ==> QuestionWellFormed(rest[i]) {
          forall i | 0 <= i < |qs| ensures QuestionWellFormed(qs[i]) {
            if i > 0 { assert qs[i] == rest[i - 1]; }
          }
        }
      }
      if q.id.Some? && a != [] && ValidateResponses(a, seen).Success? {
        var ms := ValidateResponses(a, seen).value;
        ValidateQuestionsSpec(rest, seen + NameSet(ms));
        AvoidGrow(a, b, seen);
      }
    }
  }

  /** The validator reports no fault exactly when the document has none, and then yields its model. */
  lemma ValidateAcceptsExactlyWellFormed(doc: Document)
    ensures Validate(doc).Success? <==> WellFormed(doc)
    ensures Validate(doc).Success? ==> Validate(doc).value == ToExam(doc)
  {
    ValidateQuestionsSpec(doc, {});
  }

  // ---------------------------------------------------------------------------
  // What a validated exam guarantees to grader compilation.

  /** Every response of the exam, in document order. */
  function AllResponses(exam: Exam): seq<Response> {
    if exam == [] then [] else exam[0].responses + AllResponses(exam[1..])
  }

  ghost predicate UniqueNames(ms: seq<Response>) {
    forall i, j :: 0 <= i < j < |ms| ==> ms[i].name != ms[j].name
  }

  ghost predicate DistinctValues(cs: seq<Choice>) {
    forall i, j :: 0 <= i < j < |cs| ==> cs[i].value != cs[j].value
  }

  /** The invariants of a validated exam. */
  ghost predicate ValidExam(exam: Exam) {
    && (forall i :: 0 <= i < |exam| ==> exam[i].responses != [])
    && UniqueNames(AllResponses(exam))
    && forall m :: m in AllResponses(exam) && m.ChoiceResponse? ==> m.choices != [] && DistinctValues(m.choices)
  }

  lemma {:induction false} AllResponseNodesWellFormed(qs: Document)
    requires forall i :: 0 <= i < |qs| ==> QuestionWellFormed(qs[i])
    ensures forall k :: 0 <= k < |AllResponseNodes(qs)| ==> ResponseWellFormed(AllResponseNodes(qs)[k])
    decreases |qs|
  {
    if qs != [] {
      assert QuestionWellFormed(qs[0]);
      forall i | 0 <= i < |qs[1..]| ensures QuestionWellFormed(qs[1..][i]) {
        assert qs[1..][i] == qs[i + 1];
      }
      AllResponseNodesWellFormed(qs[1..]);
    }
  }

  lemma ToResponsesAppend(a: seq<ResponseNode>, b: seq<ResponseNode>)
    requires forall i :: 0 <= i < |a| ==> ResponseWellFormed(a[i])
    requires forall i :: 0 <= i < |b| ==> ResponseWellFormed(b[i])
    ensures forall i :: 0 <= i < |a + b| ==> ResponseWellFormed((a + b)[i])
    ensures ToResponses(a + b) == ToResponses(a) + ToResponses(b)
  {
    var ab := a + b;
    AppendWellFormed(a, b);
    var joined, ma, mb := ToResponses(ab), ToResponses(a), ToResponses(b);
    forall i | 0 <= i < |ab| ensures joined[i] == (ma + mb)[i] {
      if i < |a| {
        assert ab[i] == a[i] && (ma + mb)[i] == ma[i];
      } else {
        assert ab[i] == b[i - |a|] && (ma + mb)[i] == mb[i - |a|];
      }
    }
    assert joined == ma + mb;
  }

  lemma AppendWellFormed(a: seq<ResponseNode>, b: seq<ResponseNode>)
    requires forall i :: 0 <= i < |a| ==> ResponseWellFormed(a[i])
    requires forall i :: 0 <= i < |b| ==> ResponseWellFormed(b[i])
    ensures forall i :: 0 <= i < |a + b| ==> ResponseWellFormed((a + b)[i])
  {
    forall i | 0 <= i < |a + b| ensures ResponseWellFormed((a + b)[i]) {
      if i < |a| { assert (a + b)[i] == a[i]; } else { assert (a + b)[i] == b[i - |a|]; }
    }
  }

  lemma {:induction false} AllResponsesOfModel(qs: Document)
    requires forall i :: 0 <= i < |qs| ==> QuestionWellFormed(qs[i])
    ensures forall k :: 0 <= k < |AllResponseNodes(qs)| ==> ResponseWellFormed(AllResponseNodes(qs)[k])
    ensures AllResponses(ToExam(qs)) == ToResponses(AllResponseNodes(qs))
    decreases |qs|
  {
    AllResponseNodesWellFormed(qs);
    if qs != [] {
      var rest := qs[1..];
      assert QuestionWellFormed(qs[0]);
      forall i | 0 <= i < |rest| ensures QuestionWellFormed(rest[i]) {
        assert rest[i] == qs[i + 1];
      }
      AllResponsesOfModel(rest);
      ToResponsesAppend(qs[0].responses, AllResponseNodes(rest));
      assert ToExam(qs)[1..] == ToExam(rest);
    }
  }

  /** A document the validator accepts yields an exam with unique response names and usable choices. */
  lemma ValidateEstablishesValidExam(doc: Document)
    requires Validate(doc).Success?
    ensures ValidExam(Validate(doc).value)
  {
    ValidateAcceptsExactlyWellFormed(doc);
    var exam := Validate(doc).value;
    AllResponsesOfModel(doc);
    var rs := AllResponseNodes(doc);
    var ms := AllResponses(exam);
    assert ms == ToResponses(rs);
    forall i, j | 0 <= i < j < |ms| ensures ms[i].name != ms[j].name {
      assert rs[i].name != rs[j].name;
    }
    ModelChoicesDistinct(rs);
  }

  /** Converting well-formed responses yields choice responses with distinct, present choice values. */
  lemma ModelChoicesDistinct(rs: seq<ResponseNode>)
    requires forall i :: 0 <= i < |rs| ==> ResponseWellFormed(rs[i])
    ensures forall m :: m in ToResponses(rs) && m.ChoiceResponse? ==> m.choices != [] && DistinctValues(m.choices)
  {
    var ms := ToResponses(rs);
    forall m | m in ms && m.ChoiceResponse? ensures m.choices != [] && DistinctValues(m.choices) {
      var k :| 0 <= k < |ms| && ms[k] == m;
      var r := rs[k];
      assert ResponseWellFormed(r) && m == ToResponse(r);
      var cs := r.choices;
      forall i, j | 0 <= i < j < |m.choices| ensures m.choices[i].value != m.choices[j].value {
        assert cs[i].value != cs[j].value;
      }
    }
  }

  // ---------------------------------------------------------------------------
  // Messages and attribute text.

  // Each message contains the text the exception tests look for, whatever the names involved.

  lemma QuestionMessages(id: string)
    ensures NoQuestionId.Message() == "A <question_metadata> tag has no \"id\" attribute!"
    ensures NoResponses(id).Message() == "<question_metadata id=\"" + id + "\"> has no <response> child tags!"
  {
  }

  lemma NoResponseNameMessage()
    ensures Contains(NoResponseName.Message(), "no name attribute")
  {
    ContainsMiddle("A <response> tag has ", NoNameText, "!");
  }

  lemma NoAnswerTypeMessage(n: string)
    ensures Contains(NoAnswerType(n).Message(), "no \"answertype\" attribute")
  {
    ContainsMiddle("<response name=\"" + n + "\"> has ", NoAnswerTypeText, "!");
  }

  lemma DuplicateResponseNameMessage(n: string)
    ensures var m, p := DuplicateResponseName(n).Message(), "Duplicate name \"" + n + "\"";
      |p| <= |m| && m[..|p|] == p && Contains(m[|p|..], "<response>")
  {
    var p := "Duplicate name \"" + n + "\"";
    var tail := " found in " + ResponseTagText + " tags!";
    var m := DuplicateResponseName(n).Message();
    assert m == p + tail;
    assert m[..|p|] == p && m[|p|..] == tail;
    ContainsMiddle(" found in ", ResponseTagText, " tags!");
  }

  lemma NoChoicesMessage(n: string)
    ensures Contains(NoChoices(n).Message(), "no <choice> descendants")
  {
    ContainsMiddle("<response name=\"" + n + "\"> has ", NoChoicesText, "!");
  }

  lemma NoChoiceValueMessage(n: string)
    ensures Contains(NoChoiceValue(n).Message(), "<choice> tag with no \"value\"")
  {
    ContainsMiddle("<response name=\"" + n + "\"> has a ", NoChoiceValueText, " attribute!");
  }

  lemma DuplicateChoiceValueMessage(n: string, v: string)
    ensures Contains(DuplicateChoiceValue(n, v).Message(), "<choice> tags with duplicate value \"" + v + "\"")
  {
    var head := "<response name=\"" + n + "\"> has ";
    var f := DuplicateValueText + v + "\"";
    ContainsMiddle(head, f, "");
    assert head + f + "" == head + DuplicateValueText + v + "\"";
  }

  /** The `correct` attribute ignores letter case. */
  lemma CorrectFlagIgnoresCase()
    ensures IsTrueText("true") && IsTrueText("True") && IsTrueText("TRUE")
    ensures !IsTrueText("false") && !IsTrueText("False") && !IsTrueText("")
  {
    assert Lower("True") == "true";
    assert Lower("TRUE") == "true";
    assert Lower("False")[0] == 'f';
  }
}
