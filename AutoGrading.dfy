/**
 * The AutoGrader: built once from a metadata document (or from the testing
 * bypass), it holds a registry from response name to compiled grader, and
 * `Grade` dispatches a submission to the named response's compiled grader or
 * applies the default-return policy when no response has that name.
 */
module AutoGrading {
  import opened Wrappers
  import opened Metadata
  import Faults
  import MultipleChoice
  import Numerical

  /** A compiled grader: which factory built it and with what data. */
  datatype Grader =
    | ForChoices(choices: MultipleChoice.ChoiceGrader)
    | ForNumber(number: Numerical.NumberGrader)

  /** What a learner submits: a list of choice values, or a number. */
  datatype Submission = Selected(values: seq<string>) | Entered(number: real)

  /** A grading result; the shape differs by response type. */
  datatype GradeResult =
    | ChoiceOutcome(choice: MultipleChoice.ChoiceResult)
    | NumberOutcome(number: Numerical.NumberResult)
    | DefaultOutcome(correct: bool)
  {
    /** The `correct` field every result shape carries. */
    function IsCorrect(): bool {
      match this
      case ChoiceOutcome(r) => r.correct
      case NumberOutcome(r) => r.correct
      case DefaultOutcome(c) => c
    }
  }

  datatype GradingError = UndefinedName(name: string) | WrongSubmissionKind(name: string) {
    /** The text the grading exception carries. */
    function Message(): string {
      match this
      case UndefinedName(n) => "Input/Response name=\"" + n + "\" is not defined in grading template"
      case WrongSubmissionKind(n) => "Input/Response name=\"" + n + "\" cannot grade this kind of submission"
    }
  }

  /** The `default_return` constructor argument: absent, True or False. */
  datatype DefaultReturn = NoDefault | ReturnTrue | ReturnFalse

  /** What the constructor is given: the bypass sentinel, or a parsed metadata document. */
  datatype Source = TestingBypass | Xml(doc: Document)

  /** The values of the choices marked correct, in document order. */
  function CorrectValues(cs: seq<Choice>): (vs: seq<string>)
    ensures forall v :: v in vs <==> exists i :: 0 <= i < |cs| && cs[i].correct && cs[i].value == v
  {
    if cs == [] then []
    else
      var rest := CorrectValues(cs[1..]);
      assert forall i :: 1 <= i < |cs| ==> cs[i] == cs[1..][i - 1];
      if cs[0].correct then [cs[0].value] + rest else rest
  }

  /** The factory a response's answertype selects, applied to its data. */
  function GraderFor(m: Response): (g: Grader)
    ensures m.ChoiceResponse? <==> g.ForChoices?
    ensures m.ChoiceResponse? ==>
      && (forall v :: v in g.choices.key <==> exists i :: 0 <= i < |m.choices| && m.choices[i].correct && m.choices[i].value == v)
      && g.choices.correctPts == m.correctPts && g.choices.wrongPts == m.wrongPts
    ensures m.NumberResponse? ==>
      && g.number.answer == m.answer
      && Numerical.Delta(g.number.answer, g.number.tolerance) == Numerical.Delta(m.answer, m.tolerance)
      && g.number.correctPts == m.correctPts && g.number.wrongPts == m.wrongPts
  {
    match m
    case ChoiceResponse(_, cs, cp, wp) => ForChoices(MultipleChoice.Factory(CorrectValues(cs), cp, wp))
    case NumberResponse(_, a, t, cp, wp) => ForNumber(Numerical.Factory(a, t, cp, wp))
  }

  /** Applies a grader to a submission of the matching kind. */
  function Apply(name: string, g: Grader, s: Submission): (r: Result<GradeResult, GradingError>)
    ensures r.Success? <==> (g.ForChoices? <==> s.Selected?)
    ensures r.Failure? ==> r.error == WrongSubmissionKind(name)
    ensures r.Success? && g.ForChoices? ==>
      && r.value.ChoiceOutcome?
      && (r.value.IsCorrect() <==> MultipleChoice.Elements(s.values) == g.choices.key)
      && r.value.choice.score == (if r.value.IsCorrect() then g.choices.correctPts else g.choices.wrongPts)
      && r.value == ChoiceOutcome(MultipleChoice.Grade(g.choices, s.values))
    ensures r.Success? && g.ForNumber? ==>
      && r.value.NumberOutcome?
      && (r.value.IsCorrect() <==>
            var delta := Numerical.Delta(g.number.answer, g.number.tolerance);
            g.number.answer - delta <= s.number <= g.number.answer + delta)
      && r.value.number.score == (if r.value.IsCorrect() then g.number.correctPts else g.number.wrongPts)
      && r.value == NumberOutcome(Numerical.Grade(g.number, s.number))
  {
    match (g, s)
    case (ForChoices(c), Selected(vs)) => Success(ChoiceOutcome(MultipleChoice.Grade(c, vs)))
    case (ForNumber(n), Entered(x)) => Success(NumberOutcome(Numerical.Grade(n, x)))
    case _ => Failure(WrongSubmissionKind(name))
  }

  /** The registry: each response's grader stored under its name, in document order (a later entry would win). */
  function Register(ms: seq<Response>): (reg: map<string, Grader>)
    ensures reg.Keys == NameSet(ms)
  {
    if ms == [] then map[]
    else
      var last := ms[|ms| - 1];
      assert ms == ms[..|ms| - 1] + [last];
      Register(ms[..|ms| - 1])[last.name := GraderFor(last)]
  }

  datatype AutoGrader = AutoGrader(graderFunctions: map<string, Grader>, defaultReturn: DefaultReturn) {

    /** `grade(name, submission)`. */
    function Grade(name: string, submission: Submission): (r: Result<GradeResult, GradingError>)
      ensures name in graderFunctions ==> r == Apply(name, graderFunctions[name], submission)
      ensures name !in graderFunctions ==>
        match defaultReturn
        case NoDefault => r == Failure(UndefinedName(name))
        case ReturnTrue => r.Success? && r.value.IsCorrect()
        case ReturnFalse => r.Success? && !r.value.IsCorrect()
    {
      if name in graderFunctions then Apply(name, graderFunctions[name], submission)
      else match defaultReturn
        case NoDefault => Failure(UndefinedName(name))
        case ReturnTrue => Success(DefaultOutcome(true))
        case ReturnFalse => Success(DefaultOutcome(false))
    }
  }

  /** `AutoGrader(source, default_return)`: validate, then compile every response. */
  function Create(source: Source, defaultReturn: DefaultReturn := NoDefault): (r: Result<AutoGrader, MetadataError>)
    ensures source.TestingBypass? ==> r == Success(AutoGrader(map[], defaultReturn))
    ensures source.Xml? ==> (r.Success? <==> Validate(source.doc).Success?)
    ensures source.Xml? && r.Failure? ==> r.error == Validate(source.doc).error && Faults.DocumentFault(source.doc, r.error)
    ensures source.Xml? && r.Success? ==> r.value.graderFunctions.Keys == NameSet(AllResponses(Validate(source.doc).value))
    ensures r.Success? ==> r.value.defaultReturn == defaultReturn
  {
    match source
    case TestingBypass => Success(AutoGrader(map[], defaultReturn))
    case Xml(doc) =>
      Faults.ValidateReportsRealFault(doc);
      match Validate(doc)
      case Failure(e) => Failure(e)
      case Success(exam) => Success(AutoGrader(Register(AllResponses(exam)), defaultReturn))
  }

  // ---------------------------------------------------------------------------
  // Properties.

  /** With unique names every response's grader is found under its own name. */
  lemma {:induction false} RegisterLookup(ms: seq<Response>)
    requires UniqueNames(ms)
    ensures forall i :: 0 <= i < |ms| ==> ms[i].name in Register(ms) && Register(ms)[ms[i].name] == GraderFor(ms[i])
    decreases |ms|
  {
    if ms != [] {
      var init, last := ms[..|ms| - 1], ms[|ms| - 1];
      UniqueNamesPrefix(ms);
      RegisterLookup(init);
      var reg := Register(ms);
      assert reg == Register(init)[last.name := GraderFor(last)];
      forall i | 0 <= i < |ms| ensures ms[i].name in reg && reg[ms[i].name] == GraderFor(ms[i]) {
        if i < |ms| - 1 {
          assert ms[i] == init[i] && ms[i].name != last.name;
        }
      }
    }
  }

  lemma UniqueNamesPrefix(ms: seq<Response>)
    requires ms != [] && UniqueNames(ms)
    ensures UniqueNames(ms[..|ms| - 1])
  {
    var init := ms[..|ms| - 1];
    forall i, j | 0 <= i < j < |init| ensures init[i].name != init[j].name {
      assert init[i] == ms[i] && init[j] == ms[j];
    }
  }

  /** The fallback policy never changes the result for a name that is defined. */
  lemma DefaultReturnOnlyForUndefined(reg: map<string, Grader>, p: DefaultReturn, q: DefaultReturn, name: string, s: Submission)
    requires name in reg
    ensures AutoGrader(reg, p).Grade(name, s) == AutoGrader(reg, q).Grade(name, s)
  {
  }

  /** An undefined name raises an error naming it, or reports the configured correctness. */
  lemma UndefinedNameHandling(reg: map<string, Grader>, name: string, s: Submission)
    requires name !in reg
    ensures AutoGrader(reg, NoDefault).Grade(name, s).Failure?
    ensures AutoGrader(reg, NoDefault).Grade(name, s).error.Message()
         == "Input/Response name=\"" + name + "\" is not defined in grading template"
    ensures AutoGrader(reg, ReturnTrue).Grade(name, s).Success?
         && AutoGrader(reg, ReturnTrue).Grade(name, s).value.IsCorrect()
    ensures AutoGrader(reg, ReturnFalse).Grade(name, s).Success?
         && !AutoGrader(reg, ReturnFalse).Grade(name, s).value.IsCorrect()
  {
  }

  /** Construction fails exactly on a faulty document, with the validator's error. */
  lemma CreateFailsExactlyOnFaults(doc: Document, p: DefaultReturn)
    ensures Create(Xml(doc), p).Failure? <==> !WellFormed(doc)
    ensures Create(Xml(doc), p).Failure? ==> Create(Xml(doc), p).error == Validate(doc).error
  {
    ValidateAcceptsExactlyWellFormed(doc);
  }

  /** After construction, grading a response by name is applying that response's own grader. */
  lemma {:induction false} CompiledGradersMatchResponses(doc: Document, p: DefaultReturn, m: Response, s: Submission)
    requires Validate(doc).Success?
    requires m in AllResponses(Validate(doc).value)
    ensures Create(Xml(doc), p).Success?
    ensures Create(Xml(doc), p).value.Grade(m.name, s) == Apply(m.name, GraderFor(m), s)
  {
    ValidateEstablishesValidExam(doc);
    var ms := AllResponses(Validate(doc).value);
    RegisterLookup(ms);
    var i :| 0 <= i < |ms| && ms[i] == m;
    var ag := AutoGrader(Register(ms), p);
    CreateXmlRegisters(doc, p);
    assert m.name in ag.graderFunctions && ag.graderFunctions[m.name] == GraderFor(m);
  }

  /** After construction each response of the document has, under its name, a grader compiled from its converted data. */
  lemma StoredGraderOfNode(doc: Document, p: DefaultReturn, k: nat)
    requires Validate(doc).Success?
    requires k < |AllResponseNodes(doc)|
    ensures ResponseWellFormed(AllResponseNodes(doc)[k])
    ensures var n := AllResponseNodes(doc)[k]; var reg := Create(Xml(doc), p).value.graderFunctions;
      n.name.value in reg && reg[n.name.value] == GraderFor(ToResponse(n))
  {
    ValidateEstablishesValidExam(doc);
    AllResponsesOfModel(doc);
    var ms := AllResponses(Validate(doc).value);
    assert ms[k] == ToResponse(AllResponseNodes(doc)[k]);
    RegisterLookup(ms);
    CreateXmlRegisters(doc, p);
  }

  /** The points of a stored grader: the response's `correct-points`/`wrong-points`, or 1 and 0 when absent. */
  lemma {:induction false} StoredGraderPoints(doc: Document, p: DefaultReturn, k: nat)
    requires Validate(doc).Success?
    requires k < |AllResponseNodes(doc)|
    ensures var n := AllResponseNodes(doc)[k]; var reg := Create(Xml(doc), p).value.graderFunctions;
      n.name.Some? && n.name.value in reg &&
      var g := reg[n.name.value];
      && (g.ForChoices? <==> n.answertype == Some(MultipleChoiceType))
      && (g.ForChoices? ==> g.choices.correctPts == (if n.correctPoints.Some? then n.correctPoints.value else 1))
      && (g.ForChoices? ==> g.choices.wrongPts == (if n.wrongPoints.Some? then n.wrongPoints.value else 0))
      && (g.ForNumber? ==> g.number.correctPts == (if n.correctPoints.Some? then n.correctPoints.value else 1))
      && (g.ForNumber? ==> g.number.wrongPts == (if n.wrongPoints.Some? then n.wrongPoints.value else 0))
  {
    StoredGraderOfNode(doc, p, k);
  }

  /** A stored numeric grader keeps the response's answer; without a tolerance it accepts that answer alone. */
  lemma {:induction false} StoredGraderTolerance(doc: Document, p: DefaultReturn, k: nat)
    requires Validate(doc).Success?
    requires k < |AllResponseNodes(doc)|
    ensures var n := AllResponseNodes(doc)[k]; var reg := Create(Xml(doc), p).value.graderFunctions;
      n.name.Some? && n.name.value in reg &&
      var g := reg[n.name.value];
      g.ForNumber? ==>
        && n.answer.Some? && g.number.answer == n.answer.value
        && (n.tolerance.Some? ==> Numerical.Delta(g.number.answer, g.number.tolerance) == Numerical.Delta(n.answer.value, n.tolerance.value))
        && (n.tolerance.None? ==> Numerical.Delta(g.number.answer, g.number.tolerance) == 0.0)
  {
    StoredGraderOfNode(doc, p, k);
  }

  /** A valid document compiles to the registry of its responses. */
  lemma CreateXmlRegisters(doc: Document, p: DefaultReturn)
    requires Validate(doc).Success?
    ensures Create(Xml(doc), p) == Success(AutoGrader(Register(AllResponses(Validate(doc).value)), p))
  {
  }

  /** The registry holds exactly the names of the document's responses. */
  lemma RegistryKeysAreResponseNames(doc: Document, p: DefaultReturn)
    requires Validate(doc).Success?
    ensures Create(Xml(doc), p).Success?
    ensures Create(Xml(doc), p).value.graderFunctions.Keys == NameSet(AllResponses(Validate(doc).value))
    ensures Create(Xml(doc), p).value.defaultReturn == p
  {
  }

  /** The testing bypass builds a grader with an empty registry. */
  lemma BypassHasNoResponses(p: DefaultReturn)
    ensures Create(TestingBypass, p).Success?
    ensures Create(TestingBypass, p).value.graderFunctions == map[]
  {
  }
}
