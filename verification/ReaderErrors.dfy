/**
 What the reader reports when it rejects a text: the error names a token of the text that
 does not fit where it stands, and says why it does not.
 */
module ReaderErrors {
  import opened Bytes
  import opened Values
  import opened Quoting
  import opened Lexer
  import opened JsonGrammar
  import opened LooseGrammar
  import opened LooseReading
  import Spec = ReaderSpec

  /** The token is one of the text, and is wrong in the way the message says. */
  ghost predicate Justified(cfg: Spec.Config, doc: bytes, e: Spec.ErrorInfo) {
    && (exists p :: Stands(doc, p, e.token))
    && var kind := e.token.kind;
       match e.message
       case ValueExpected => kind !in {ObjectBegin, ArrayBegin, Number, String, True, False, NullToken}
       case NotANumber => kind == Number && LooseNumber(cfg.toDouble, TokenText(doc, e.token)).None?
       case InString(_) => kind == String && forall cs :: !SpelledBy(doc, e.token, cs)
       case MissingColon => kind != MemberSeparator
       case MissingCommaInObject => kind !in {ObjectEnd, ArraySeparator, Comment}
       case MissingMemberName => kind != String
       case MissingCommaInArray => kind !in {ArraySeparator, ArrayEnd}
       case RootNotContainer => false
  }

  ghost predicate FailsJustly(cfg: Spec.Config, doc: bytes, r: Spec.Outcome) {
    !r.ok ==> |r.errors| == 1 && Justified(cfg, doc, r.errors[0])
  }

  lemma SkippedStands(doc: bytes, i: nat)
    requires i <= |doc|
    ensures exists p :: Stands(doc, p, SkipComments(doc, i))
  {
    hide Lexer.ReadToken, SkipComments;
    var cs := CommentsTo(doc, i);
    assert Stands(doc, Behind(i, cs), SkipComments(doc, i));
  }

  lemma FirstTokenStands(cfg: Spec.Config, doc: bytes, i: nat)
    requires i <= |doc|
    ensures exists p :: Stands(doc, p, Spec.FirstToken(cfg, doc, i))
  {
    hide Lexer.ReadToken, SkipComments;
    if cfg.allowComments {
      SkippedStands(doc, i);
      var p :| Stands(doc, p, SkipComments(doc, i));
      assert Stands(doc, p, Spec.FirstToken(cfg, doc, i));
    } else {
      assert Stands(doc, i, Spec.FirstToken(cfg, doc, i));
    }
  }

  lemma BadString(doc: bytes, t: Token)
    requires t.kind == String && t.start + 2 <= t.end <= |doc| && Spec.StringText(doc, t).Undecodable?
    ensures forall cs :: !SpelledBy(doc, t, cs)
  {
    hide SpelledBy, Spec.StringText, Meaning;
    forall cs
      ensures !SpelledBy(doc, t, cs)
    {
      if SpelledBy(doc, t, cs) {
        SpelledText(doc, t, cs);
      }
    }
  }

  lemma ScalarFails(cfg: Spec.Config, doc: bytes, t: Token, cur: Value)
    requires exists p :: Stands(doc, p, t)
    requires t.start <= t.end <= |doc| && (t.kind == Number ==> t.start < t.end) && (t.kind == String ==> t.start + 2 <= t.end)
    requires cfg.allowDroppedNullPlaceholders && t.kind in {ArraySeparator, ObjectEnd, ArrayEnd} ==> t.start < t.end
    requires t.kind != ObjectBegin && t.kind != ArrayBegin
    ensures FailsJustly(cfg, doc, Spec.ReadScalar(cfg, doc, t, cur))
  {
    hide Lexer.ReadToken, SpelledBy, Spec.StringText, Spec.NumberValue, LooseNumber, Stands;
    if t.kind == String && Spec.StringText(doc, t).Undecodable? {
      BadString(doc, t);
    } else if t.kind == Number {
      NumberValueIs(cfg, TokenText(doc, t));
    }
  }

  lemma {:induction false} ValueFails(cfg: Spec.Config, doc: bytes, i: nat, cur: Value)
    requires i <= |doc|
    ensures FailsJustly(cfg, doc, Spec.ReadValue(cfg, doc, i, cur))
    decreases |doc| - i, 0
  {
    hide Lexer.ReadToken, SkipComments, Spec.ReadMembers, Spec.ReadElements, Spec.ReadScalar, Justified, Stands;
    var t := Spec.FirstToken(cfg, doc, i);
    FirstTokenStands(cfg, doc, i);
    if t.kind == ObjectBegin {
      MembersFail(cfg, doc, t.end, Object([]), []);
    } else if t.kind == ArrayBegin {
      var p := SkipSpaces(doc, t.end);
      if !(p < |doc| && doc[p] == RBRACKET) {
        ElementsFail(cfg, doc, p, Array([]), 0);
      }
    } else {
      ScalarFails(cfg, doc, t, cur);
    }
  }

  lemma {:induction false} ElementsFail(cfg: Spec.Config, doc: bytes, i: nat, arr: Value, index: nat)
    requires i <= |doc|
    ensures FailsJustly(cfg, doc, Spec.ReadElements(cfg, doc, i, arr, index))
    decreases |doc| - i, 1
  {
    hide Lexer.ReadToken, SkipComments, Spec.ReadValue, Spec.AfterElement, Justified, Stands, RecoverEnd;
    var r := Spec.ReadValue(cfg, doc, i, Child(arr, Index(index)));
    ValueFails(cfg, doc, i, Child(arr, Index(index)));
    if r.ok {
      var arr' := PutChild(arr, Index(index), r.value);
      SeparatorFails(cfg, doc, r.end, arr', r.depth);
      var step := Spec.AfterElement(doc, r.end, arr', r.depth);
      if step.Continue? {
        ElementsFail(cfg, doc, step.end, arr', index + 1);
      }
    }
  }

  lemma SeparatorFails(cfg: Spec.Config, doc: bytes, i: nat, x: Value, depth: nat)
    requires i <= |doc|
    ensures var s := Spec.AfterElement(doc, i, x, depth);
            if s.Done? then FailsJustly(cfg, doc, s.outcome) else s.value == x && i < s.end
    ensures var s := Spec.AfterMember(doc, i, x, depth);
            if s.Done? then FailsJustly(cfg, doc, s.outcome) else s.value == x && i <= s.end
  {
    hide Lexer.ReadToken, SkipComments, RecoverEnd;
    SkippedStands(doc, i);
    assert Stands(doc, i, Lexer.ReadToken(doc, i));
  }

  lemma {:induction false} MembersFail(cfg: Spec.Config, doc: bytes, i: nat, obj: Value, name: bytes)
    requires i <= |doc|
    ensures FailsJustly(cfg, doc, Spec.ReadMembers(cfg, doc, i, obj, name))
    decreases |doc| - i, 2
  {
    hide Lexer.ReadToken, SkipComments, Spec.ReadName, Spec.ReadMember, Justified;
    NameFails(cfg, doc, i, obj, name);
    var s := Spec.ReadName(doc, i, obj, name);
    if s.NameRead? {
      MemberFails(cfg, doc, s.end, obj, s.name);
      var step := Spec.ReadMember(cfg, doc, s.end, obj, s.name);
      if step.Continue? {
        MembersFail(cfg, doc, step.end, step.value, s.name);
      }
    }
  }

  lemma NameFails(cfg: Spec.Config, doc: bytes, i: nat, obj: Value, name: bytes)
    requires i <= |doc|
    ensures var s := Spec.ReadName(doc, i, obj, name);
            s.NoName? ==> FailsJustly(cfg, doc, s.outcome)
  {
    hide Lexer.ReadToken, SkipComments, RecoverEnd, Spec.StringText, SpelledBy, Stands;
    SkippedStands(doc, i);
    var t := SkipComments(doc, i);
    if t.kind == String && Spec.StringText(doc, t).Undecodable? {
      BadString(doc, t);
    }
  }

  lemma MemberFails(cfg: Spec.Config, doc: bytes, i: nat, obj: Value, name: bytes)
    requires i <= |doc|
    ensures var s := Spec.ReadMember(cfg, doc, i, obj, name);
            s.Done? ==> FailsJustly(cfg, doc, s.outcome)
    decreases |doc| - i, 1
  {
    hide Lexer.ReadToken, SkipComments, RecoverEnd, Spec.ReadValue, Spec.AfterMember, SpelledBy;
    var colon := Lexer.ReadToken(doc, i);
    assert Stands(doc, i, colon);
    if colon.kind == MemberSeparator {
      var cur := Child(obj, Name(name));
      ValueFails(cfg, doc, colon.end, cur);
      var r := Spec.ReadValue(cfg, doc, colon.end, cur);
      if r.ok {
        SeparatorFails(cfg, doc, r.end, PutChild(obj, Name(name), r.value), r.depth);
      }
    }
  }

  /**
   Whatever text is rejected, the first error names a token of it that does not fit in the
   way the message says, unless it is only the root that is no container.
   */
  lemma ErrorsJustified(cfg: Spec.Config, doc: bytes, root: Value)
    requires !Spec.Parse(cfg, doc, root).ok
    ensures var e := Spec.Parse(cfg, doc, root).errors[0];
            Justified(cfg, doc, e) || (cfg.strictRoot && e.message == Spec.RootNotContainer)
  {
    hide Spec.ReadValue, Spec.FirstToken, Justified;
    ValueFails(cfg, doc, 0, root);
  }

  /** Recovery ends behind a token of the text that is the one wanted, or at an end of stream, and passes no such token before. */
  lemma {:induction false} RecoveryEnds(doc: bytes, i: nat, wanted: TokenType)
    requires i <= |doc|
    ensures exists p, t :: i <= p && Stands(doc, p, t) && t.end == RecoverEnd(doc, i, wanted) && t.kind in {wanted, EndOfStream}
    ensures Lexer.ReadToken(doc, i).kind in {wanted, EndOfStream} ==> RecoverEnd(doc, i, wanted) == Lexer.ReadToken(doc, i).end
    decreases |doc| - i
  {
    hide Lexer.ReadToken;
    var t := Lexer.ReadToken(doc, i);
    if t.kind == wanted || t.kind == EndOfStream {
      assert Stands(doc, i, t);
    } else {
      RecoveryEnds(doc, t.end, wanted);
    }
  }
}
