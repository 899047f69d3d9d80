# Exam autograder, modelled in Dafny

This project models the exam autograder of class2go (`courses.exams.autograder`).
An exam author writes a metadata document: questions, each holding named
responses, each response holding either multiple choices or a numerical answer
with a tolerance. The `AutoGrader` validates that document, compiles one
grader per response into a registry keyed by response name, and `grade(name,
submission)` dispatches a learner's submission to the right grader. When no
response has that name, `grade` falls back to the `default_return` policy.

The implementation file itself is not part of this model. Its behaviour is
taken from its test suite, `main/courses/exams/tests.py`. That suite pins the
result records, the defaults and the fallback policy. Of the exception
messages, it matches the two question-level messages in full and the others
only by a fragment.

Modules:

- `Wrappers`: `Option` (a missing XML attribute) and `Result` (a raised exception).
- `Text`: substring search, used to check that messages contain what the tests match, and ASCII lower-casing.
- `MultipleChoice`: `_MC_grader_factory`. The submission is read as a set. The result is `{correct, score, correct_choices, wrong_choices}`.
- `Numerical`: the numerical-response accept rule `|s - answer| <= delta`, stated over exact reals.
- `Metadata`: the parsed question/response/choice tree. It also holds the validated model and the validator with its eight structural faults. Each fault has its message. A declarative `WellFormed` predicate is proved to be exactly what the validator accepts.
- `AutoGrading`: grader compilation, the registry, the `grade` dispatcher and the three-way `default_return` policy (`NoDefault`, `ReturnTrue`, `ReturnFalse`).
- `Faults`: soundness of the validator's reports. Whenever validation fails, the fault its error names is present in the document.
- `Scenarios`: the test suite's documents as parsed trees, and what construction and grading yield for them.

The tests fix one point that shapes the model: `correct_choices` holds only the submitted values that are correct (tests.py lines 25, 97 and 107). It does not list every correct value.

The model also lets a choice value repeat across different responses and treats only a repeat inside one response as a fault. The docstring at lines 210-211 suggests this, but no assertion depends on it.

## Model

| member | source | states |
|---|---|---|
| MultipleChoice.Factory | main/courses/exams/tests.py:20-34 | the key is the set of the given solutions; the points are as given, defaulting to 1 and 0 |
| MultipleChoice.Grade | main/courses/exams/tests.py:20-26 | correct iff the submitted set equals the key; score is correct_pts if correct, else wrong_pts; correct_choices maps exactly the submitted correct values to true; wrong_choices tags exactly the submitted-but-wrong values 'fp' and the missing correct values 'fn' |
| MultipleChoice.Tag.Text | main/courses/exams/tests.py:24-25 | a false positive prints as 'fp' and a false negative as 'fn' |
| MultipleChoice.CorrectIffSameSet | main/courses/exams/tests.py:39-54 | for every key and submission, correct iff both hold the same values |
| MultipleChoice.ShuffledKeyAccepted | main/courses/exams/tests.py:53-54 | any permutation of the solution list is graded correct |
| MultipleChoice.OrderAndRepetitionIrrelevant | main/courses/exams/tests.py:21-23 | two submissions with the same values get identical result records |
| MultipleChoice.EmptyKeyAcceptsOnlyEmpty | main/courses/exams/tests.py:34-37 | with no correct choices only the empty submission is correct |
| MultipleChoice.ResultDeterminesSets | main/courses/exams/tests.py:21-25 | the submitted set is correct_choices plus the 'fp' values; the key is correct_choices plus the 'fn' values |
| MultipleChoice.CorrectMeansNoWrongChoices | main/courses/exams/tests.py:21-25 | correct iff wrong_choices is empty; when correct, correct_choices covers the whole key |
| MultipleChoice.ExampleExactKey | main/courses/exams/tests.py:20-23 | ["a","b"] with 15/-3 points: the exact record for ["a","b"]; reordered and repeated copies are correct |
| MultipleChoice.ExampleFalsePositive | main/courses/exams/tests.py:24 | ["a","b","c"] gives score -3, correct_choices {a,b}, wrong_choices {c: fp} |
| MultipleChoice.ExampleFalseNegative | main/courses/exams/tests.py:25-26 | ["a"] gives score -3, correct_choices {a}, wrong_choices {b: fn}; [] is incorrect |
| MultipleChoice.NearMissRejected | main/courses/exams/tests.py:98 | "ipo" does not match "ipod": incorrect, with "ipo" as fp and both correct values as fn |
| Numerical.Factory | main/courses/exams/tests.py:258-266 | an absent tolerance means zero; the points default to 1 and 0 |
| Numerical.Grade | main/courses/exams/tests.py:271-285 | correct iff the submission lies in [answer - delta, answer + delta]; score follows correctness |
| Numerical.BoundaryInclusive | main/courses/exams/tests.py:272-273 | both ends of the interval are accepted; anything beyond either end is not |
| Numerical.NoToleranceIsExact | main/courses/exams/tests.py:283-285 | without a tolerance only the answer itself is accepted |
| Numerical.PercentIsRelative | main/courses/exams/tests.py:277-281 | a p% tolerance accepts exactly the values within p/100 of abs(answer) |
| Numerical.AbsoluteToleranceExample | main/courses/exams/tests.py:271-275 | answer 3.14159, tolerance .02, 139/-23 points: the asserted results |
| Numerical.PercentToleranceExample | main/courses/exams/tests.py:277-281 | answer 4518, tolerance 15%: 1.149 and 0.851 times the answer are accepted, 1.151 and 1.849 are not |
| Numerical.ExactAnswerExample | main/courses/exams/tests.py:283-285 | answer 5, no tolerance: 5 is accepted, 4 and 6 are not |
| Metadata.ValidateChoices | main/courses/exams/tests.py:208-248 | on success every choice has a value, and the result is the choices converted in order |
| Metadata.ValidateResponse | main/courses/exams/tests.py:144-206 | on success the response is well formed, its name is new, and the result is its conversion |
| Metadata.ValidateResponses | main/courses/exams/tests.py:171-192 | on success every response is well formed and the result is their conversion in order |
| Metadata.ValidateQuestions | main/courses/exams/tests.py:119-142 | on success every question is well formed and the result is the document's model |
| Metadata.ValidateChoicesSpec | main/courses/exams/tests.py:208-248 | choice validation succeeds iff every value is present, values are pairwise distinct and none was seen already |
| Metadata.ValidateResponseSpec | main/courses/exams/tests.py:144-230 | a response validates iff it has a name and a known answertype, its typed payload is complete, and its name is new |
| Metadata.ValidateResponsesSpec | main/courses/exams/tests.py:171-192 | a response list validates iff each response is well formed, names are pairwise distinct and none was seen already |
| Metadata.ValidateQuestionsSpec | main/courses/exams/tests.py:119-192 | questions validate iff each has an id and responses, and response names are unique across all questions and new |
| Metadata.ValidateAcceptsExactlyWellFormed | main/courses/exams/tests.py:119-248 | the validator succeeds iff the document has none of the structural faults, and then yields the document's model |
| Metadata.ValidateEstablishesValidExam | main/courses/exams/tests.py:171-230 | a validated exam has responses in every question, response names unique document-wide, and non-empty distinct choices in every multiple-choice response |
| Metadata.QuestionMessages | main/courses/exams/tests.py:119-142 | the exact texts of the missing-id and missing-responses errors |
| Metadata.NoResponseNameMessage | main/courses/exams/tests.py:144-155 | the missing-name message contains "no name attribute" |
| Metadata.NoAnswerTypeMessage | main/courses/exams/tests.py:158-169 | the missing-answertype message contains 'no "answertype" attribute' |
| Metadata.DuplicateResponseNameMessage | main/courses/exams/tests.py:171-192 | the message starts with 'Duplicate name "<name>"' and later contains "<response>" |
| Metadata.NoChoicesMessage | main/courses/exams/tests.py:195-206 | the message contains "no <choice> descendants" |
| Metadata.DuplicateChoiceValueMessage | main/courses/exams/tests.py:208-230 | the message contains '<choice> tags with duplicate value "<value>"' |
| Metadata.NoChoiceValueMessage | main/courses/exams/tests.py:232-248 | the message contains '<choice> tag with no "value"' |
| Metadata.ToResponse | main/courses/exams/tests.py:62-91 | a well-formed `<response>` becomes grader data: the kind follows the answertype, given points are kept and absent ones are 1 and 0, each choice is read in order, a numerical response keeps its answer and given tolerance, and an absent tolerance allows no deviation |
| Metadata.ChoiceReadsAttributes | main/courses/exams/tests.py:84-88 | a choice keeps its value and is correct exactly when its `correct` text spells "true" in some letter case |
| Metadata.TrueTextSpelling | main/courses/exams/tests.py:84-88 | for every string, the `correct` attribute marks a choice correct iff it is "true" in some letter case: four letters, each t/T, r/R, u/U, e/E |
| Metadata.Validate | main/courses/exams/tests.py:56-93 | on success every question is well formed and the result is the document's model; its full contract is ValidateAcceptsExactlyWellFormed and Faults.ValidateReportsRealFault |
| Metadata.MetadataError.Message | main/courses/exams/tests.py:119-248 | the metadata exception texts; what the tests match in them is stated by QuestionMessages and the per-fault message lemmas |
| Metadata.CorrectFlagIgnoresCase | main/courses/exams/tests.py:86-88 | "true", "True" and "TRUE" mark a choice correct; "false", "False" and "" do not |
| AutoGrading.GraderFor | main/courses/exams/tests.py:62-95 | a multiple-choice response compiles to a choice grader whose key is exactly its values marked correct, with its points; a numerical response compiles to a number grader with its answer, tolerance and points |
| AutoGrading.Apply | main/courses/exams/tests.py:95-112 | a choice grader on selected values returns the full multiple-choice record of `MultipleChoice.Grade` (correct iff the submitted set equals the key, score, correct_choices, wrong_choices); a number grader on a number returns `Numerical.Grade`'s record (correct iff within the tolerance); a mismatched kind is WrongSubmissionKind |
| AutoGrading.StoredGraderOfNode | main/courses/exams/tests.py:93-95 | after construction, every response of the document has a grader compiled from its own converted data stored under its name |
| AutoGrading.StoredGraderPoints | main/courses/exams/tests.py:105-107 | for every response of a valid document, the stored grader's kind follows the answertype and its points are the given `correct-points`/`wrong-points`, or 1 and 0 when absent |
| AutoGrading.StoredGraderTolerance | main/courses/exams/tests.py:283-285 | for every numerical response of a valid document, the stored grader keeps its answer and given tolerance; without a tolerance it accepts the answer alone |
| AutoGrading.Create | main/courses/exams/tests.py:93 | `AutoGrader(xml, default_return=...)`: the bypass gives an empty registry; a document builds iff it validates, a failure carries the validator's error and that fault is present in the document, the registry keys are the response names, and the policy is kept |
| AutoGrading.GradingError.Message | main/courses/exams/tests.py:114-116 | the grading exception text; UndefinedNameHandling states the exact undefined-name message |
| AutoGrading.CorrectValues | main/courses/exams/tests.py:84-90 | the result holds exactly the values of the choices marked correct |
| AutoGrading.Register | main/courses/exams/tests.py:93-95 | the registry's keys are exactly the response names |
| AutoGrading.RegisterLookup | main/courses/exams/tests.py:93-105 | with unique names each response's own grader is stored under its name |
| AutoGrading.AutoGrader.Grade | main/courses/exams/tests.py:101-116 | a defined name is graded by its grader; an undefined name raises UndefinedName without a default, and reports correct or incorrect under ReturnTrue or ReturnFalse |
| AutoGrading.DefaultReturnOnlyForUndefined | main/courses/exams/tests.py:320-333 | for a defined name the result is the same under every default_return policy |
| AutoGrading.UndefinedNameHandling | main/courses/exams/tests.py:287-334 | an undefined name raises 'Input/Response name="<name>" is not defined in grading template' without a default, and reports the configured correctness otherwise |
| AutoGrading.CreateFailsExactlyOnFaults | main/courses/exams/tests.py:119-248 | construction fails iff the document has a structural fault, with the validator's error |
| AutoGrading.CompiledGradersMatchResponses | main/courses/exams/tests.py:93-112 | after construction, grade(name, s) equals applying that response's own grader to s |
| AutoGrading.RegistryKeysAreResponseNames | main/courses/exams/tests.py:93-116 | the registry holds exactly the document's response names and keeps the given policy |
| AutoGrading.BypassHasNoResponses | main/courses/exams/tests.py:18 | the testing bypass builds an AutoGrader with an empty registry |
| Faults.ValidateChoicesSound | main/courses/exams/tests.py:208-248 | a failed choice scan reports the response it was given, with a choice missing its value or a value repeated or already seen |
| Faults.ValidateResponseSound | main/courses/exams/tests.py:144-230 | a rejected response exhibits the reported fault itself (missing name, answertype, choices, choice value, answer; unknown answertype; a value twice), or reuses a seen name |
| Faults.ValidateResponsesSound | main/courses/exams/tests.py:171-192 | a rejected response list has a response with the reported fault, or the reported name twice or already seen |
| Faults.ValidateQuestionsSound | main/courses/exams/tests.py:119-192 | a rejected question list exhibits the reported fault, or reuses a name already seen |
| Faults.ValidateReportsRealFault | main/courses/exams/tests.py:119-248 | whenever validation fails, its error names a fault present in the document: a question without id, the named question without responses, two responses with the named name, or a response with the named fault |
| Scenarios.QuestionWithoutId | main/courses/exams/tests.py:119-129 | a question with neither id nor responses is reported as missing its id |
| Scenarios.QuestionWithoutResponses | main/courses/exams/tests.py:132-142 | question q1 without responses fails with its exact message |
| Scenarios.ResponseWithoutName | main/courses/exams/tests.py:144-155 | a response with neither name nor choices is reported as missing its name |
| Scenarios.ResponseWithoutAnswerType | main/courses/exams/tests.py:158-169 | response foo without answertype fails with the missing-answertype error |
| Scenarios.DuplicateNameAcrossQuestions | main/courses/exams/tests.py:171-192 | response name foo under two different questions is rejected as a duplicate |
| Scenarios.ChoiceResponseWithoutChoices | main/courses/exams/tests.py:195-206 | a multiple-choice response with no choices is rejected |
| Scenarios.DuplicateChoiceInOneResponse | main/courses/exams/tests.py:208-230 | value "a" twice in response foo is rejected, with "a" named in the message |
| Scenarios.ChoiceWithoutValue | main/courses/exams/tests.py:232-248 | a choice without a value is rejected |
| Scenarios.ChoiceDocumentCompiles | main/courses/exams/tests.py:56-93 | the two-question document validates, and its responses are q1d and test2 |
| Scenarios.Q1dGrader | main/courses/exams/tests.py:62-83 | q1d compiles to key {napster, ipod} with 15/-2 points |
| Scenarios.Test2Grader | main/courses/exams/tests.py:84-90 | test2 reads "True"/"False" case-insensitively: key {b, c}, default points 1/0 |
| Scenarios.ChoiceDocumentBuilds | main/courses/exams/tests.py:60-93 | under any policy the document builds an AutoGrader whose registry is exactly q1d and test2 with those graders |
| Scenarios.Q1dCorrectRecord | main/courses/exams/tests.py:95 | q1d's grader on the key returns correct, 15 points, both choices hit, nothing wrong |
| Scenarios.Q1dFalsePositiveRecord | main/courses/exams/tests.py:97 | q1d's grader on key plus "ipad" returns incorrect, -2 points, both hits, "ipad" a false positive |
| Scenarios.Q1dExactRecords | main/courses/exams/tests.py:95-97 | the two exact result records asserted for q1d, through the built AutoGrader |
| Scenarios.Q1dOtherSubmissions | main/courses/exams/tests.py:96-101 | q1d: the reordered key is correct; "ipo" and ["ipod"] are not |
| Scenarios.Q1dEmptyAndUnrelated | main/courses/exams/tests.py:100-102 | q1d: [] and ["q1d_1"] are not correct |
| Scenarios.Test2CorrectRecord | main/courses/exams/tests.py:105 | test2's grader on the key returns correct, 1 point, both hits |
| Scenarios.Test2MixedRecord | main/courses/exams/tests.py:107 | test2's grader on ["a","b"] returns incorrect, 0 points, hit b, "a" false positive, "c" false negative |
| Scenarios.Test2ExactRecords | main/courses/exams/tests.py:105-107 | the two exact result records asserted for test2, through the built AutoGrader |
| Scenarios.Test2OtherSubmissions | main/courses/exams/tests.py:106-111 | test2: ["c","b"] is correct; ["a","b","c"] is not |
| Scenarios.Test2PartialAndEmpty | main/courses/exams/tests.py:109-112 | test2: ["a"] and [] are not correct |
| Scenarios.UndefinedNameInChoiceDocument | main/courses/exams/tests.py:114-116 | grading "notDef" yields the undefined-name error |
| Scenarios.NumberDocumentCompiles | main/courses/exams/tests.py:250-270 | the numerical document validates, and its responses are q4d, q4e and q4f |
| Scenarios.NumberDocumentBuilds | main/courses/exams/tests.py:255-270 | under any policy the document builds an AutoGrader whose registry is exactly q4d (3.14159, tolerance .02, 139/-23), q4e (4518, 15%, 1/0) and q4f (5, no tolerance, 1/0) |
| Scenarios.Q4dResults | main/courses/exams/tests.py:271-275 | under every policy: 3.14159 gives (true, 139); both boundaries are correct; 3.5 gives (false, -23); 3.0 is incorrect |
| Scenarios.Q4eResults | main/courses/exams/tests.py:277-281 | q4e: 4518 gives (true, 1); 1.149 and 0.851 times it are correct; 1.151 times gives (false, 0); 1.849 times is incorrect |
| Scenarios.Q4fResults | main/courses/exams/tests.py:283-285 | q4f: 5 is correct, 4 and 6 are not |
| Scenarios.UndefinedNameUnderEachPolicy | main/courses/exams/tests.py:315-334 | "randomDNE" raises without a default, is correct under True and incorrect under False |

## Left out

- XML text parsing and attribute extraction are not modelled. The model starts from the parsed tree. `data-report` and `<explanation>` are not represented, since grading does not use them.
- Number parsing is not modelled. This covers `answer`, `correct-points`, `wrong-points`, the tolerance text (a trailing `%` marks a percentage) and numerical submissions. Answers and submissions arrive as exact `real`s and points as `int`s.
- Numerical.Grade: makes no claim about floating-point rounding. The tests' boundary values (for example `str(3.14159+0.02)`) are stated as exact reals.
- AutoGrading.AutoGrader.Grade: the fallback result `DefaultOutcome` carries only its correctness. No test asserts its score.
- Metadata.ValidateChoices: duplicate choice values are checked within one response only. Whether the implementation also rejects repeats across responses is not pinned by the tests, and this model accepts them.
- Error messages: the tests match only fragments of each message, and the message lemmas state exactly those fragments. The rest of the wording is this model's own.
- A choice without a `correct` attribute is read as incorrect; no test covers that case.
- The order of checks follows the tests where they fix it: id before responses (lines 119-129), name before choices (lines 144-155) and answertype before choices (lines 158-169). Elsewhere the order is this model's choice: name before answertype, the duplicate name after answertype, and each choice's value before its repetition.
- Unknown answertypes and numerical responses without `answer` fail with `UnknownAnswerType` and `NoAnswer`. No test covers them.
- A submission of the wrong kind (a number for a multiple-choice response, or a list for a numerical one) fails with `WrongSubmissionKind`. No test covers that either.
- The AutoGrader is modelled as an immutable value (a registry map and a policy) built by `Create`. The source fills its `grader_functions` dictionary once during construction and only reads it afterwards.
- The Django `TestCase` harness is not modelled. The random driver of lines 45-54 is replaced by the all-inputs lemmas `CorrectIffSameSet` and `ShuffledKeyAccepted`.
