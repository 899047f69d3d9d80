/**
 * Soundness of the validator's reports: whenever validation fails, the fault
 * named by the returned error is really present in the document, at the
 * question or response the error names.
 */
module Faults {
  import opened Wrappers
  import opened Metadata

  // ---------------------------------------------------------------------------
  // What each fault looks like in the parsed tree.

  /** Choice `i` of `cs` has the value `v`. */
  ghost predicate ValuedAt(cs: seq<ChoiceNode>, v: string, i: int) {
    0 <= i < |cs| && cs[i].value == Some(v)
  }

  /** Some choice of `cs` has no value. */
  ghost predicate MissingValue(cs: seq<ChoiceNode>) {
    exists i :: 0 <= i < |cs| && cs[i].value.None?
  }

  /** Two different choices of `cs` have the value `v`. */
  ghost predicate ValueTwice(cs: seq<ChoiceNode>, v: string) {
    exists i, j :: i < j && ValuedAt(cs, v, i) && ValuedAt(cs, v, j)
  }

  /** Response `k` of `rs` is named `n`. */
  ghost predicate NamedAt(rs: seq<ResponseNode>, n: string, k: int) {
    0 <= k < |rs| && rs[k].name == Some(n)
  }

  /** Two different responses of `rs` are named `n`. */
  ghost predicate NameTwice(rs: seq<ResponseNode>, n: string) {
    exists k1, k2 :: k1 < k2 && NamedAt(rs, n, k1) && NamedAt(rs, n, k2)
  }

  /** The response `r` on its own exhibits fault `e`. */
  ghost predicate ResponseFault(r: ResponseNode, e: MetadataError) {
    match e
    case NoResponseName => r.name.None?
    case NoAnswerType(n) => r.name == Some(n) && r.answertype.None?
    case UnknownAnswerType(n, t) =>
      r.name == Some(n) && r.answertype == Some(t) && t != MultipleChoiceType && t != NumericalType
    case NoChoices(n) => r.name == Some(n) && r.answertype == Some(MultipleChoiceType) && r.choices == []
    case NoChoiceValue(n) => r.name == Some(n) && r.answertype == Some(MultipleChoiceType) && MissingValue(r.choices)
    case DuplicateChoiceValue(n, v) => r.name == Some(n) && r.answertype == Some(MultipleChoiceType) && ValueTwice(r.choices, v)
    case NoAnswer(n) => r.name == Some(n) && r.answertype == Some(NumericalType) && r.answer.None?
    case _ => false
  }

  /** Some response of `rs` exhibits fault `e`. */
  ghost predicate SomeResponseFault(rs: seq<ResponseNode>, e: MetadataError) {
    exists k :: 0 <= k < |rs| && ResponseFault(rs[k], e)
  }

  /** The document exhibits fault `e`. */
  ghost predicate DocumentFault(doc: Document, e: MetadataError) {
    match e
    case NoQuestionId => exists i :: 0 <= i < |doc| && doc[i].id.None?
    case NoResponses(id) => exists i :: 0 <= i < |doc| && doc[i].id == Some(id) && doc[i].responses == []
    case DuplicateResponseName(n) => NameTwice(AllResponseNodes(doc), n)
    case _ => SomeResponseFault(AllResponseNodes(doc), e)
  }

  /** `e` is a duplicate name that `rs` repeats, or that `rs` reuses from `seen`. */
  ghost predicate DuplicateAgainst(rs: seq<ResponseNode>, seen: set<string>, e: MetadataError) {
    && e.DuplicateResponseName?
    && (NameTwice(rs, e.responseName) || (e.responseName in seen && exists k :: NamedAt(rs, e.responseName, k)))
  }

  // ---------------------------------------------------------------------------
  // Each level of the validator reports only faults that are there.

  /** A failed choice scan names the response it was given, and a missing value or a value repeated or already seen. */
  lemma {:induction false} ValidateChoicesSound(n: string, cs: seq<ChoiceNode>, seen: set<string>)
    ensures var v := ValidateChoices(n, cs, seen);
      v.Failure? ==>
        || (v.error == NoChoiceValue(n) && MissingValue(cs))
        || (&& v.error.DuplicateChoiceValue? && v.error.responseName == n
            && ((v.error.value in seen && exists j :: ValuedAt(cs, v.error.value, j)) || ValueTwice(cs, v.error.value)))
    decreases |cs|
  {
    if cs != [] && cs[0].value.None? {
      assert 0 < |cs| && cs[0].value.None?;
    } else if cs != [] && cs[0].value.value in seen {
      assert ValuedAt(cs, cs[0].value.value, 0);
    } else if cs != [] {
      var v0, rest := cs[0].value.value, cs[1..];
      ValidateChoicesSound(n, rest, seen + {v0});
      if ValidateChoices(n, rest, seen + {v0}).Failure? {
        var e := ValidateChoices(n, rest, seen + {v0}).error;
        if e == NoChoiceValue(n) && MissingValue(rest) {
          var i :| 0 <= i < |rest| && rest[i].value.None?;
          assert cs[i + 1] == rest[i];
        } else if e.value in seen + {v0} && exists j :: ValuedAt(rest, e.value, j) {
          var j :| ValuedAt(rest, e.value, j);
          assert ValuedAt(cs, e.value, j + 1);
          if e.value !in seen {
            assert ValuedAt(cs, e.value, 0);
          }
        } else {
          var i, j :| i < j && ValuedAt(rest, e.value, i) && ValuedAt(rest, e.value, j);
          assert ValuedAt(cs, e.value, i + 1) && ValuedAt(cs, e.value, j + 1);
        }
      }
    }
  }

  /** A rejected response either exhibits the reported fault itself, or carries a name already seen. */
  lemma ValidateResponseSound(r: ResponseNode, seen: set<string>)
    ensures var v := ValidateResponse(r, seen);
      v.Failure? ==>
        || ResponseFault(r, v.error)
        || (r.name.Some? && r.name.value in seen && v.error == DuplicateResponseName(r.name.value))
  {
    if r.name.Some? && r.answertype.Some? && r.name.value !in seen
       && r.answertype.value == MultipleChoiceType && r.choices != [] {
      ValidateChoicesSound(r.name.value, r.choices, {});
    }
  }

  /** A rejected response list exhibits the reported fault in one response, or repeats a name within itself or from `seen`. */
  lemma {:induction false} ValidateResponsesSound(rs: seq<ResponseNode>, seen: set<string>)
    ensures var v := ValidateResponses(rs, seen);
      v.Failure? ==> SomeResponseFault(rs, v.error) || DuplicateAgainst(rs, seen, v.error)
    decreases |rs|
  {
    if rs != [] {
      ValidateResponseSound(rs[0], seen);
      var first := ValidateResponse(rs[0], seen);
      if first.Failure? {
        if !ResponseFault(rs[0], first.error) {
          assert NamedAt(rs, rs[0].name.value, 0);
        }
      } else {
        var n := rs[0].name.value;
        ValidateResponsesSound(rs[1..], seen + {n});
        if ValidateResponses(rs[1..], seen + {n}).Failure? {
          ResponsesFaultShift(rs, seen, ValidateResponses(rs[1..], seen + {n}).error);
        }
      }
    }
  }

  /** A fault of the tail, judged against the first name as seen, is a fault of the whole list. */
  lemma ResponsesFaultShift(rs: seq<ResponseNode>, seen: set<string>, e: MetadataError)
    requires rs != [] && rs[0].name.Some?
    requires SomeResponseFault(rs[1..], e) || DuplicateAgainst(rs[1..], seen + {rs[0].name.value}, e)
    ensures SomeResponseFault(rs, e) || DuplicateAgainst(rs, seen, e)
  {
    var rest := rs[1..];
    if SomeResponseFault(rest, e) {
      var k :| 0 <= k < |rest| && ResponseFault(rest[k], e);
      assert rs[k + 1] == rest[k];
    } else if NameTwice(rest, e.responseName) {
      var k1, k2 :| k1 < k2 && NamedAt(rest, e.responseName, k1) && NamedAt(rest, e.responseName, k2);
      assert NamedAt(rs, e.responseName, k1 + 1) && NamedAt(rs, e.responseName, k2 + 1);
    } else {
      var k :| NamedAt(rest, e.responseName, k);
      assert NamedAt(rs, e.responseName, k + 1);
      if e.responseName !in seen {
        assert NamedAt(rs, e.responseName, 0);
      }
    }
  }

  /** A rejected question list exhibits the reported fault, or reuses a name from `seen`. */
  lemma {:induction false} ValidateQuestionsSound(qs: Document, seen: set<string>)
    ensures var v := ValidateQuestions(qs, seen);
      v.Failure? ==> DocumentFault(qs, v.error) || DuplicateAgainst(AllResponseNodes(qs), seen, v.error)
    decreases |qs|
  {
    if qs != [] && qs[0].id.None? {
      assert 0 < |qs| && qs[0].id.None?;
    } else if qs != [] && qs[0].responses == [] {
      assert 0 < |qs| && qs[0].id == Some(qs[0].id.value) && qs[0].responses == [];
    } else if qs != [] {
      var a := qs[0].responses;
      ValidateResponsesSound(a, seen);
      var first := ValidateResponses(a, seen);
      if first.Failure? {
        FirstQuestionFault(qs, seen, first.error);
      } else {
        var ms := first.value;
        ValidateQuestionsSound(qs[1..], seen + NameSet(ms));
        if ValidateQuestions(qs[1..], seen + NameSet(ms)).Failure? {
          var e := ValidateQuestions(qs[1..], seen + NameSet(ms)).error;
          if DocumentFault(qs[1..], e) {
            LaterQuestionFault(qs, e);
          } else {
            NameInValidated(a, e.responseName);
            LaterQuestionDuplicate(qs, seen, NameSet(ms), e);
          }
        }
      }
    }
  }

  /** A fault among the first question's responses is a fault of the document. */
  lemma FirstQuestionFault(qs: Document, seen: set<string>, e: MetadataError)
    requires qs != []
    requires SomeResponseFault(qs[0].responses, e) || DuplicateAgainst(qs[0].responses, seen, e)
    ensures DocumentFault(qs, e) || DuplicateAgainst(AllResponseNodes(qs), seen, e)
  {
    var a, all := qs[0].responses, AllResponseNodes(qs);
    assert all == a + AllResponseNodes(qs[1..]);
    if SomeResponseFault(a, e) {
      var k :| 0 <= k < |a| && ResponseFault(a[k], e);
      assert all[k] == a[k];
    } else if NameTwice(a, e.responseName) {
      var k1, k2 :| k1 < k2 && NamedAt(a, e.responseName, k1) && NamedAt(a, e.responseName, k2);
      assert NamedAt(all, e.responseName, k1) && NamedAt(all, e.responseName, k2);
    } else {
      var k :| NamedAt(a, e.responseName, k);
      assert NamedAt(all, e.responseName, k);
    }
  }

  /** A fault of the later questions is a fault of the document. */
  lemma LaterQuestionFault(qs: Document, e: MetadataError)
    requires qs != [] && DocumentFault(qs[1..], e)
    ensures DocumentFault(qs, e)
  {
    var a, later, all := qs[0].responses, AllResponseNodes(qs[1..]), AllResponseNodes(qs);
    assert all == a + later;
    match e
    case NoQuestionId =>
      var i :| 0 <= i < |qs[1..]| && qs[1..][i].id.None?;
      assert qs[i + 1] == qs[1..][i];
    case NoResponses(id) =>
      var i :| 0 <= i < |qs[1..]| && qs[1..][i].id == Some(id) && qs[1..][i].responses == [];
      assert qs[i + 1] == qs[1..][i];
    case DuplicateResponseName(n) =>
      var k1, k2 :| k1 < k2 && NamedAt(later, n, k1) && NamedAt(later, n, k2);
      assert NamedAt(all, n, |a| + k1) && NamedAt(all, n, |a| + k2);
    case _ =>
      var k :| 0 <= k < |later| && ResponseFault(later[k], e);
      assert all[|a| + k] == later[k];
  }

  /** A later response reusing a name seen before or used by the first question is a duplicate in the document. */
  lemma LaterQuestionDuplicate(qs: Document, seen: set<string>, names: set<string>, e: MetadataError)
    requires qs != [] && DuplicateAgainst(AllResponseNodes(qs[1..]), seen + names, e)
    requires e.responseName in names ==> exists i :: 0 <= i < |qs[0].responses| && qs[0].responses[i].name == Some(e.responseName)
    ensures DocumentFault(qs, e) || DuplicateAgainst(AllResponseNodes(qs), seen, e)
  {
    var a, later, all := qs[0].responses, AllResponseNodes(qs[1..]), AllResponseNodes(qs);
    var n := e.responseName;
    assert all == a + later;
    if NameTwice(later, n) {
      var k1, k2 :| k1 < k2 && NamedAt(later, n, k1) && NamedAt(later, n, k2);
      assert NamedAt(all, n, |a| + k1) && NamedAt(all, n, |a| + k2);
    } else {
      var k :| NamedAt(later, n, k);
      assert NamedAt(all, n, |a| + k);
      if n !in seen {
        var i :| 0 <= i < |a| && a[i].name == Some(n);
        assert NamedAt(all, n, i);
      }
    }
  }

  /** Whenever validation fails, the fault its error names is present in the document. */
  lemma ValidateReportsRealFault(doc: Document)
    ensures Validate(doc).Failure? ==> DocumentFault(doc, Validate(doc).error)
  {
    ValidateQuestionsSound(doc, {});
  }
}
