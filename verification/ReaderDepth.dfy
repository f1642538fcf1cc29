/**
 A bound on the nesting of a text that its sender can check: the opening brackets
 and braces in it.
 */
module ReaderDepth {
  import opened Bytes
  import opened Values
  import opened Lexer
  import Reader
  import Spec = ReaderSpec

  /** The `{` and `[` bytes between two positions. */
  function Opens(doc: bytes, i: nat, j: nat): nat
    requires i <= j <= |doc|
    decreases j - i
  {
    if i == j then 0 else (if doc[i] == LBRACE || doc[i] == LBRACKET then 1 else 0) + Opens(doc, i + 1, j)
  }

  lemma {:induction false} OpensSplit(doc: bytes, i: nat, j: nat, k: nat)
    requires i <= j <= k <= |doc|
    ensures Opens(doc, i, k) == Opens(doc, i, j) + Opens(doc, j, k)
    decreases j - i
  {
    if i < j {
      OpensSplit(doc, i + 1, j, k);
    }
  }

  /** The first token of a container is counted. */
  lemma OpenCounted(cfg: Spec.Config, doc: bytes, i: nat, end: nat)
    requires i <= |doc|
    requires var t := Spec.FirstToken(cfg, doc, i); t.kind in {ObjectBegin, ArrayBegin} && t.end <= end <= |doc|
    ensures Opens(doc, i, end) >= 1 + Opens(doc, Spec.FirstToken(cfg, doc, i).end, end)
  {
    var t := Spec.FirstToken(cfg, doc, i);
    OpeningByte(cfg, doc, i);
    OpensSplit(doc, i, t.end - 1, end);
    OpensSplit(doc, t.end - 1, t.end, end);
  }

  lemma OpeningByte(cfg: Spec.Config, doc: bytes, i: nat)
    requires i <= |doc|
    ensures var t := Spec.FirstToken(cfg, doc, i);
            t.kind in {ObjectBegin, ArrayBegin} ==> i < t.end && doc[t.end - 1] in {LBRACE, LBRACKET}
  {
    ReadOpening(doc, i);
    SkippedOpening(doc, i);
  }

  lemma ReadOpening(doc: bytes, i: nat)
    requires i <= |doc|
    ensures var t := Lexer.ReadToken(doc, i);
            t.kind in {ObjectBegin, ArrayBegin} ==> i < t.end && doc[t.end - 1] in {LBRACE, LBRACKET}
  {
  }

  lemma {:induction false} SkippedOpening(doc: bytes, i: nat)
    requires i <= |doc|
    ensures var t := SkipComments(doc, i);
            t.kind in {ObjectBegin, ArrayBegin} ==> i < t.end && doc[t.end - 1] in {LBRACE, LBRACKET}
    decreases |doc| - i
  {
    hide Lexer.ReadToken;
    ReadOpening(doc, i);
    var t := Lexer.ReadToken(doc, i);
    if t.kind == Comment {
      SkippedOpening(doc, t.end);
    }
  }

  /** Reading a value takes at most one level more than it passes opening bytes. */
  lemma {:induction false} ValueDepth(cfg: Spec.Config, doc: bytes, i: nat, cur: Value)
    requires i <= |doc|
    ensures var r := Spec.ReadValue(cfg, doc, i, cur);
            r.depth <= 1 + Opens(doc, i, r.end)
    decreases |doc| - i, 0
  {
    hide Spec.FirstToken, Spec.ReadMembers, Spec.ReadElements, Spec.ReadScalar, Opens;
    var t := Spec.FirstToken(cfg, doc, i);
    var r := Spec.ReadValue(cfg, doc, i, cur);
    OpeningByte(cfg, doc, i);
    if t.kind == ObjectBegin {
      OpenCounted(cfg, doc, i, r.end);
      MembersDepth(cfg, doc, t.end, Object([]), []);
    } else if t.kind == ArrayBegin {
      OpenCounted(cfg, doc, i, r.end);
      var p := SkipSpaces(doc, t.end);
      if !(p < |doc| && doc[p] == RBRACKET) {
        ElementsDepth(cfg, doc, p, Array([]), 0);
        assert Spec.ReadArray(cfg, doc, t.end) == Spec.ReadElements(cfg, doc, p, Array([]), 0);
        OpensSplit(doc, t.end, p, r.end);
      }
    }
  }

  ghost predicate Shallow(doc: bytes, i: nat, end: nat, depth: nat) {
    i <= end <= |doc| && depth <= 1 + Opens(doc, i, end)
  }

  lemma {:induction false} MembersDepth(cfg: Spec.Config, doc: bytes, i: nat, obj: Value, name: bytes)
    requires i <= |doc|
    ensures var r := Spec.ReadMembers(cfg, doc, i, obj, name);
            r.depth <= 1 + Opens(doc, i, r.end)
    decreases |doc| - i, 2
  {
    hide Spec.ReadName, Spec.ReadMember, Opens;
    var s := Spec.ReadName(doc, i, obj, name);
    if s.NameRead? {
      MemberDepth(cfg, doc, s.end, obj, s.name);
      var next := Spec.ReadMember(cfg, doc, s.end, obj, s.name);
      var end := Spec.ReadMembers(cfg, doc, i, obj, name).end;
      OpensSplit(doc, i, s.end, end);
      if next.Continue? {
        MembersDepth(cfg, doc, next.end, next.value, s.name);
        OpensSplit(doc, s.end, next.end, end);
      }
    }
  }

  lemma {:induction false} MemberDepth(cfg: Spec.Config, doc: bytes, i: nat, obj: Value, name: bytes)
    requires i <= |doc|
    ensures var s := Spec.ReadMember(cfg, doc, i, obj, name);
            if s.Done? then Shallow(doc, i, s.outcome.end, s.outcome.depth) else Shallow(doc, i, s.end, s.depth)
    decreases |doc| - i, 1
  {
    hide Spec.ReadValue, Opens, Lexer.ReadToken, Spec.AfterMember, PutChild, Child, RecoverEnd;
    var colon := Lexer.ReadToken(doc, i);
    if colon.kind == MemberSeparator {
      var cur := Child(obj, Name(name));
      var r := Spec.ReadValue(cfg, doc, colon.end, cur);
      ValueDepth(cfg, doc, colon.end, cur);
      var obj' := PutChild(obj, Name(name), r.value);
      AfterMemberDepth(doc, r.end, obj', r.depth);
      var s := Spec.ReadMember(cfg, doc, i, obj, name);
      var end := if s.Done? then s.outcome.end else s.end;
      OpensSplit(doc, i, colon.end, end);
      OpensSplit(doc, colon.end, r.end, end);
    }
  }

  lemma AfterMemberDepth(doc: bytes, i: nat, obj: Value, depth: nat)
    requires i <= |doc|
    ensures var s := Spec.AfterMember(doc, i, obj, depth);
            if s.Done? then s.outcome.depth == depth && i <= s.outcome.end <= |doc| else s.depth == depth && i <= s.end <= |doc|
  {
    hide Lexer.ReadToken, SkipComments, RecoverEnd;
  }

  lemma {:induction false} ElementsDepth(cfg: Spec.Config, doc: bytes, i: nat, arr: Value, index: nat)
    requires i <= |doc|
    ensures var r := Spec.ReadElements(cfg, doc, i, arr, index);
            r.depth <= 1 + Opens(doc, i, r.end)
    decreases |doc| - i, 2
  {
    hide Spec.ReadElement, Opens;
    ElementDepth(cfg, doc, i, arr, index);
    var next := Spec.ReadElement(cfg, doc, i, arr, index);
    if next.Continue? {
      ElementsDepth(cfg, doc, next.end, next.value, index + 1);
      OpensSplit(doc, i, next.end, Spec.ReadElements(cfg, doc, i, arr, index).end);
    }
  }

  lemma {:induction false} ElementDepth(cfg: Spec.Config, doc: bytes, i: nat, arr: Value, index: nat)
    requires i <= |doc|
    ensures var s := Spec.ReadElement(cfg, doc, i, arr, index);
            if s.Done? then Shallow(doc, i, s.outcome.end, s.outcome.depth) else Shallow(doc, i, s.end, s.depth)
    decreases |doc| - i, 1
  {
    hide Spec.ReadValue, Opens, Spec.AfterElement, PutChild, Child, RecoverEnd;
    var cur := Child(arr, Index(index));
    var r := Spec.ReadValue(cfg, doc, i, cur);
    ValueDepth(cfg, doc, i, cur);
    AfterElementDepth(doc, r.end, PutChild(arr, Index(index), r.value), r.depth);
    var s := Spec.ReadElement(cfg, doc, i, arr, index);
    OpensSplit(doc, i, r.end, if s.Done? then s.outcome.end else s.end);
  }

  lemma AfterElementDepth(doc: bytes, i: nat, arr: Value, depth: nat)
    requires i <= |doc|
    ensures var s := Spec.AfterElement(doc, i, arr, depth);
            if s.Done? then s.outcome.depth == depth && i <= s.outcome.end <= |doc| else s.depth == depth && i <= s.end <= |doc|
  {
    hide SkipComments, RecoverEnd;
  }

  /** A text with fewer than 1000 opening brackets and braces, in strings or out, stays within the reader's stack. */
  lemma FewOpensFit(cfg: Spec.Config, doc: bytes, root: Value)
    requires Opens(doc, 0, |doc|) < Reader.STACK_LIMIT
    ensures Spec.ReadValue(cfg, doc, 0, root).depth <= Reader.STACK_LIMIT
  {
    hide Spec.ReadValue, Opens;
    ValueDepth(cfg, doc, 0, root);
    OpensSplit(doc, 0, Spec.ReadValue(cfg, doc, 0, root).end, |doc|);
  }
}
