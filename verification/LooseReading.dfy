/**
 The reader accepts a text exactly if it begins with a derivation of the loose grammar,
 and then gives what that denotes. Nothing outside that grammar is accepted.
 */
module LooseReading {
  import opened Bytes
  import opened Values
  import opened Quoting
  import opened Decimal
  import opened Lexer
  import opened JsonGrammar
  import opened GrammarReading
  import opened LooseGrammar
  import Spec = ReaderSpec
  import TokenForms

  function Lenient(cfg: Spec.Config): Leniency {
    Leniency(cfg.allowComments, cfg.allowDroppedNullPlaceholders, cfg.toDouble)
  }

  // ---- Comments ----

  lemma {:induction false} SkipOver(doc: bytes, i: nat, cs: seq<Token>, t: Token)
    requires StandsBehind(doc, i, cs, t)
    ensures i <= |doc| && SkipComments(doc, i) == t
    decreases |cs|
  {
    hide Lexer.ReadToken;
    if cs != [] {
      SkipOver(doc, cs[0].end, cs[1..], t);
    }
  }

  lemma {:induction false} CommentsTo(doc: bytes, i: nat) returns (cs: seq<Token>)
    requires i <= |doc|
    ensures StandsBehind(doc, i, cs, SkipComments(doc, i))
    decreases |doc| - i
  {
    hide Lexer.ReadToken;
    var t := Lexer.ReadToken(doc, i);
    cs := [];
    if t.kind == Comment {
      var more := CommentsTo(doc, t.end);
      cs := [t] + more;
      assert cs[1..] == more;
    }
  }

  lemma FirstIs(cfg: Spec.Config, doc: bytes, i: nat, cs: seq<Token>, t: Token)
    requires StandsBehind(doc, i, cs, t) && (cs != [] ==> cfg.allowComments)
    ensures i <= |doc| && Spec.FirstToken(cfg, doc, i) == t
  {
    hide Lexer.ReadToken, SkipComments;
    SkipOver(doc, i, cs, t);
  }

  // ---- Strings ----

  lemma StringToken(doc: bytes, i: nat)
    requires i <= |doc| && Lexer.ReadToken(doc, i).kind == String
    ensures var t := Lexer.ReadToken(doc, i);
            && t.start + 2 <= t.end && doc[t.start] == QUOTE && doc[t.end - 1] == QUOTE
            && Closed(doc[t.start + 1..t.end - 1])
  {
    hide ScanString;
    TokenForms.ScanIsClosed(doc, Lexer.ReadToken(doc, i).start + 1);
  }

  lemma RunStep(doc: bytes, i: nat, last: nat, soFar: nat) returns (next: nat)
    requires i < last <= |doc| && HexRun(doc, i, last, soFar).Unit?
    ensures HexDigitMeaning(doc[i]).Some? && doc[i] != QUOTE && doc[i] != BACKSLASH
    ensures HexRun(doc, i + 1, last, next).Unit?
  {
    HexDigits(doc[i]);
    next := soFar * 16 + HexValue(doc[i]).value;
  }

  /** The hex digits that a run is read from. */
  lemma RunDigits(doc: bytes, i: nat)
    requires i + 4 <= |doc| && HexRun(doc, i, i + 4, 0).Unit?
    ensures Spelled(Hex(doc[i..i + 4]))
    ensures forall k | i <= k < i + 4 :: doc[k] != QUOTE && doc[k] != BACKSLASH
  {
    hide HexRun, HexDigitMeaning;
    var a := RunStep(doc, i, i + 4, 0);
    var b := RunStep(doc, i + 1, i + 4, a);
    var c := RunStep(doc, i + 2, i + 4, b);
    var _ := RunStep(doc, i + 3, i + 4, c);
    var ds := doc[i..i + 4];
    assert ds[0] == doc[i] && ds[1] == doc[i + 1] && ds[2] == doc[i + 2] && ds[3] == doc[i + 3];
  }

  lemma {:induction false} ClosedTail(text: bytes, n: nat)
    requires Closed(text) && n <= |text| && forall k | 0 <= k < n :: text[k] != BACKSLASH && text[k] != QUOTE
    ensures Closed(text[n..])
    decreases n
  {
    if n > 0 {
      ClosedTail(text[1..], n - 1);
      assert text[1..][n - 1..] == text[n..];
    }
  }

  /** The first character of a text that decodes, and what is left of it. */
  lemma SpellOne(doc: bytes, p: nat, end: nat) returns (c: Char)
    requires p < end <= |doc| && Closed(doc[p..end]) && Decode(doc, p, end).Decoded?
    ensures Spelled(c) && p + |CharText(c)| <= end && doc[p..p + |CharText(c)|] == CharText(c)
    ensures Closed(doc[p + |CharText(c)|..end])
    ensures !IsHigh(c) ==> Decode(doc, p + |CharText(c)|, end).Decoded?
  {
    hide EscapeSequence, CodePointToUTF8, EscapeMeaning, Unescape, HexCode;
    var text := doc[p..end];
    if doc[p] != BACKSLASH {
      c := Plain(doc[p]);
      assert text[1..] == doc[p + 1..end];
    } else {
      assert text[2..] == doc[p + 2..end] && text[1] == doc[p + 1];
      if doc[p + 1] == 117 {
        c := SpellHex(doc, p, end);
      } else {
        c := Short(doc[p + 1]);
        EscapeLetters(doc[p + 1]);
      }
    }
  }

  lemma SpellHex(doc: bytes, p: nat, end: nat) returns (c: Char)
    requires p + 1 < end <= |doc| && Closed(doc[p + 2..end]) && Decode(doc, p, end).Decoded?
    requires doc[p] == BACKSLASH && doc[p + 1] == 117
    ensures c.Hex? && Spelled(c) && p + 6 <= end && doc[p..p + 6] == CharText(c) && |CharText(c)| == 6
    ensures Closed(doc[p + 6..end])
    ensures !IsHigh(c) ==> Decode(doc, p + 6, end).Decoded?
  {
    hide HexRun, HexCode, CodePointToUTF8, HexDigitMeaning;
    assert CodePoint(doc, p + 2, end).Unit?;
    assert EscapeSequence(doc, p + 2, end).Unit?;
    RunDigits(doc, p + 2);
    c := Hex(doc[p + 2..p + 6]);
    assert doc[p..p + 6] == CharText(c);
    ClosedTail(doc[p + 2..end], 4);
    assert doc[p + 2..end][4..] == doc[p + 6..end];
    EscapeSequenceOfDigits(doc, p + 2, end, doc[p + 2..p + 6]);
  }

  /** Behind a high surrogate escape that decodes stands another escape. */
  lemma SpellSecond(doc: bytes, p: nat, end: nat, high: Char) returns (c: Char)
    requires p + 6 <= end <= |doc| && Spelled(high) && IsHigh(high) && doc[p..p + 6] == CharText(high)
    requires Closed(doc[p + 6..end]) && Decode(doc, p, end).Decoded?
    ensures c.Hex? && Spelled(c) && p + 12 <= end && doc[p + 6..p + 12] == CharText(c) && |CharText(c)| == 6
    ensures Closed(doc[p + 12..end]) && Decode(doc, p + 12, end).Decoded?
  {
    hide HexRun, HexCode, CodePointToUTF8, HexDigitMeaning;
    HexAt(doc, p, end, high);
    assert CodePoint(doc, p + 2, end).Unit?;
    assert EscapeSequence(doc, p + 8, end).Unit?;
    RunDigits(doc, p + 8);
    c := Hex(doc[p + 8..p + 12]);
    assert doc[p + 6..p + 12] == CharText(c);
    assert doc[p + 6..end][2..] == doc[p + 8..end];
    ClosedTail(doc[p + 8..end], 4);
    assert doc[p + 8..end][4..] == doc[p + 12..end];
  }

  /** A text between quotes that decodes is spelled by characters. */
  lemma {:induction false} Spell(doc: bytes, p: nat, end: nat) returns (cs: seq<Char>)
    requires p <= end <= |doc| && Closed(doc[p..end]) && Decode(doc, p, end).Decoded?
    ensures AllSpelled(cs) && CharsText(cs) == doc[p..end]
    decreases end - p
  {
    hide Decode, CharText, Spelled, IsHigh, Closed;
    cs := [];
    if p < end {
      var c := SpellOne(doc, p, end);
      var q := p + |CharText(c)|;
      TextSome(c);
      assert doc[p..end] == doc[p..q] + doc[q..end];
      if !IsHigh(c) {
        var more := Spell(doc, q, end);
        cs := [c] + more;
        assert cs[1..] == more;
      } else {
        HighLength(c);
        var second := SpellSecond(doc, p, end, c);
        var more := Spell(doc, p + 12, end);
        cs := [c] + ([second] + more);
        assert cs[1..] == [second] + more && cs[1..][1..] == more;
        assert doc[q..end] == doc[q..q + 6] + doc[p + 12..end];
      }
    } else {
      assert doc[p..end] == [];
    }
  }

  lemma TextSome(c: Char)
    ensures CharText(c) != []
  {
  }

  lemma HighLength(c: Char)
    requires IsHigh(c)
    ensures |CharText(c)| == 6
  {
  }

  lemma Within(doc: bytes, a: nat, b: nat, i: nat, j: nat)
    requires i <= j && a + j <= b <= |doc|
    ensures doc[a..b][i..j] == doc[a + i..a + j]
  {
    var r, x := doc[a..b][i..j], doc[a + i..a + j];
    assert |r| == |x| && forall k | 0 <= k < |r| :: r[k] == x[k];
  }

  /** A token decodes to what it spells, and only to that. */
  lemma SpelledText(doc: bytes, t: Token, cs: seq<Char>)
    requires SpelledBy(doc, t, cs) && t.start + 2 <= t.end <= |doc|
    ensures Spec.StringText(doc, t) == Decoded(Meaning(cs))
  {
    hide Decode, CharsText, AllSpelled, Paired, Meaning;
    var text := CharsText(cs);
    assert TokenText(doc, t) == doc[t.start..t.end] == [34] + (text + [34]);
    assert t.end == t.start + |text| + 2;
    Within(doc, t.start, t.end, 1, |text| + 1);
    assert ([34] + (text + [34]))[1..|text| + 1] == text;
    DecodeChars(doc, t.start + 1, t.end - 1, cs);
  }

  lemma SpellToken(doc: bytes, i: nat, t: Token) returns (cs: seq<Char>)
    requires StandsAs(doc, i, t, String) && Spec.StringText(doc, t).Decoded?
    ensures SpelledBy(doc, t, cs)
  {
    hide Decode, CharsText, AllSpelled, Paired, Meaning, Closed, Lexer.ReadToken;
    StringToken(doc, i);
    cs := Spell(doc, t.start + 1, t.end - 1);
    DecodeChars(doc, t.start + 1, t.end - 1, cs);
    assert TokenText(doc, t) == [34] + (doc[t.start + 1..t.end - 1] + [34]);
  }

  // ---- Numbers ----

  lemma NumberValueIs(cfg: Spec.Config, text: bytes)
    requires text != []
    ensures Spec.NumberValue(cfg, text) == LooseNumber(cfg.toDouble, text)
  {
  }

  lemma SeparatorWidth(doc: bytes, i: nat)
    requires i <= |doc| && Lexer.ReadToken(doc, i).kind in {ArraySeparator, ObjectEnd, ArrayEnd}
    ensures Lexer.ReadToken(doc, i).end == Lexer.ReadToken(doc, i).start + 1
  {
  }

  lemma BracketToken(doc: bytes, i: nat)
    requires i <= |doc|
    ensures var p := SkipSpaces(doc, i);
            && (Lexer.ReadToken(doc, i).kind == ArrayEnd <==> p < |doc| && doc[p] == RBRACKET)
            && (p < |doc| && doc[p] == RBRACKET ==> Lexer.ReadToken(doc, i).end == p + 1)
  {
  }

  // ---- What is derived is read ----

  ghost predicate Gives(r: Spec.Outcome, x: Value, end: nat) {
    r.ok && r.value == x && r.end == end
  }

  /** The first token of a value. */
  function FirstOf(b: Loose): Token {
    match b
    case LLiteral(t) => t
    case LNumber(t) => t
    case LString(t, _) => t
    case LDropped(t) => t
    case LEmptyArray(open, _) => open
    case LArray(open, _) => open
    case LObject(open, _, _) => open
  }

  lemma FirstOfBody(l: Leniency, doc: bytes, i: nat, b: Loose)
    requires DerivesBody(l, doc, i, b)
    ensures var t := FirstOf(b);
            && Stands(doc, i, t) && t.kind != Comment
            && (t.kind == ObjectBegin <==> b.LObject?) && (t.kind == ArrayBegin <==> b.LEmptyArray? || b.LArray?)
  {
    hide Lexer.ReadToken, DerivesItems, DerivesMembers, LooseNumber, TokenText;
  }

  lemma {:induction false} ReadDerived(cfg: Spec.Config, doc: bytes, i: nat, v: LValue, cur: Value)
    requires Derives(Lenient(cfg), doc, i, v)
    ensures i <= |doc| && Gives(Spec.ReadValue(cfg, doc, i, cur), LooseMeaning(Lenient(cfg), doc, v.body), EndOf(v.body))
    decreases v
  {
    hide Lexer.ReadToken, SkipComments, Spec.FirstToken, Spec.ReadMembers, Spec.ReadElements, Spec.ReadScalar, LooseNumber, SpelledBy;
    hide DerivesMembers, LooseMembers, LooseItems, TokenText, Meaning, Comments, Spec.ReadArray;
    var p := Behind(i, v.comments);
    FirstOfBody(Lenient(cfg), doc, p, v.body);
    FirstIs(cfg, doc, i, v.comments, FirstOf(v.body));
    match v.body
    case LEmptyArray(_, _) => ReadArrayDerived(cfg, doc, p, v.body);
    case LArray(_, _) => ReadArrayDerived(cfg, doc, p, v.body);
    case LObject(open, members, ending) =>
      ReadMembersDerived(cfg, doc, open.end, members, ending, [], []);
    case _ => ReadScalarDerived(cfg, doc, p, v.body, cur);
  }

  lemma ReadArrayDerived(cfg: Spec.Config, doc: bytes, i: nat, b: Loose)
    requires DerivesBody(Lenient(cfg), doc, i, b) && (b.LEmptyArray? || b.LArray?)
    ensures b.open.end <= |doc|
    ensures Gives(Spec.ReadArray(cfg, doc, b.open.end), LooseMeaning(Lenient(cfg), doc, b), EndOf(b))
    decreases b
  {
    hide Lexer.ReadToken, Spec.ReadElements, LooseItems;
    BracketToken(doc, b.open.end);
    if b.LArray? {
      ReadItemsDerived(cfg, doc, SkipSpaces(doc, b.open.end), b.items, []);
      assert [] + LooseItems(Lenient(cfg), doc, b.items, 0) == LooseItems(Lenient(cfg), doc, b.items, 0);
    }
  }

  lemma ReadScalarDerived(cfg: Spec.Config, doc: bytes, i: nat, b: Loose, cur: Value)
    requires DerivesBody(Lenient(cfg), doc, i, b) && !b.LEmptyArray? && !b.LArray? && !b.LObject?
    ensures var t := FirstOf(b);
            && t.start <= t.end <= |doc| && (t.kind == Number ==> t.start < t.end) && (t.kind == String ==> t.start + 2 <= t.end)
            && (cfg.allowDroppedNullPlaceholders && t.kind in {ArraySeparator, ObjectEnd, ArrayEnd} ==> t.start < t.end)
            && Gives(Spec.ReadScalar(cfg, doc, t, cur), LooseMeaning(Lenient(cfg), doc, b), EndOf(b))
  {
    hide Lexer.ReadToken, LooseNumber, SpelledBy, Meaning, Spec.NumberValue, Spec.StringText;
    match b
    case LNumber(t) => NumberValueIs(cfg, TokenText(doc, t));
    case LString(t, cs) =>
      StringKind(doc, t, cs);
      SpelledText(doc, t, cs);
    case LDropped(t) => SeparatorWidth(doc, i);
    case _ =>
  }

  lemma StringKind(doc: bytes, t: Token, cs: seq<Char>)
    requires SpelledBy(doc, t, cs)
    ensures t.kind == String
  {
  }

  lemma {:induction false} ReadItemsDerived(cfg: Spec.Config, doc: bytes, i: nat, items: seq<LItem>, done: seq<Member>)
    requires DerivesItems(Lenient(cfg), doc, i, items) && Keyed(done, 0)
    ensures i <= |doc|
    ensures Gives(Spec.ReadElements(cfg, doc, i, Array(done), |done|),
                  Array(done + LooseItems(Lenient(cfg), doc, items, |done|)), items[|items| - 1].sep.end)
    decreases items, 1
  {
    hide Lexer.ReadToken, SkipComments, Spec.ReadElement, DerivesItem, ItemMeaning, Keyed;
    var x := ItemMeaning(Lenient(cfg), doc, items[0]);
    ReadItemDerived(cfg, doc, i, items[0], done);
    var done' := done + [Member(Index(|done|), x)];
    NextKey(done, x);
    if |items| > 1 {
      ReadItemsDerived(cfg, doc, items[0].sep.end, items[1..], done');
    } else {
      assert items[1..] == [];
    }
    assert done' + LooseItems(Lenient(cfg), doc, items[1..], |done| + 1) == done + LooseItems(Lenient(cfg), doc, items, |done|);
  }

  lemma ReadItemDerived(cfg: Spec.Config, doc: bytes, i: nat, item: LItem, done: seq<Member>)
    requires DerivesItem(Lenient(cfg), doc, i, item) && Keyed(done, 0)
    ensures i <= |doc| && item.sep.end <= |doc|
    ensures var step := Spec.ReadElement(cfg, doc, i, Array(done), |done|);
            var arr := Array(done + [Member(Index(|done|), ItemMeaning(Lenient(cfg), doc, item))]);
            && (item.sep.kind == ArrayEnd ==> step.Done? && Gives(step.outcome, arr, item.sep.end))
            && (item.sep.kind == ArraySeparator ==> step.Continue? && step.value == arr && step.end == item.sep.end)
    decreases item
  {
    hide Lexer.ReadToken, SkipComments, Spec.ReadValue, Derives, LooseMeaning, EndOf, Put, LowerBound, Keyed;
    ReadDerived(cfg, doc, i, item.value, Child(Array(done), Index(|done|)));
    NextKey(done, ItemMeaning(Lenient(cfg), doc, item));
    SkipOver(doc, EndOf(item.value.body), item.comments, item.sep);
    TokenInside(doc, Behind(EndOf(item.value.body), item.comments));
  }

  lemma TokenInside(doc: bytes, i: nat)
    requires i <= |doc|
    ensures Lexer.ReadToken(doc, i).end <= |doc|
  {
  }

  lemma {:induction false} ReadMembersDerived(cfg: Spec.Config, doc: bytes, i: nat, members: seq<LMember>, ending: Ending,
                                              done: seq<Member>, name: bytes)
    requires DerivesMembers(Lenient(cfg), doc, i, name, members, ending)
    ensures i <= |doc|
    ensures Gives(Spec.ReadMembers(cfg, doc, i, Object(done), name),
                  Object(LooseMembers(Lenient(cfg), doc, members, done)), EndOfMembers(i, members, ending))
    decreases members, 1
  {
    hide Lexer.ReadToken, SkipComments, Spec.ReadMember, DerivesMember, MemberMeaning, Put, Meaning;
    if members == [] {
      SkipOver(doc, i, ending.comments, ending.close);
    } else {
      var m := members[0];
      ReadMemberDerived(cfg, doc, i, m, done, name);
      var done' := Put(done, Name(Meaning(m.chars)), MemberMeaning(Lenient(cfg), doc, m));
      if m.sep.kind != ObjectEnd {
        ReadMembersDerived(cfg, doc, m.sep.end, members[1..], ending, done', Meaning(m.chars));
      } else {
        assert members[1..] == [];
      }
    }
  }

  lemma ReadMemberDerived(cfg: Spec.Config, doc: bytes, i: nat, m: LMember, done: seq<Member>, name: bytes)
    requires DerivesMember(Lenient(cfg), doc, i, m)
    ensures i <= |doc| && m.name.end <= |doc| && m.sep.end <= |doc|
    ensures Spec.ReadName(doc, i, Object(done), name) == Spec.NameRead(Meaning(m.chars), m.name.end)
    ensures var step := Spec.ReadMember(cfg, doc, m.name.end, Object(done), Meaning(m.chars));
            var obj := Object(Put(done, Name(Meaning(m.chars)), MemberMeaning(Lenient(cfg), doc, m)));
            && (m.sep.kind == ObjectEnd ==> step.Done? && Gives(step.outcome, obj, m.sep.end))
            && (m.sep.kind != ObjectEnd ==> step.Continue? && step.value == obj && step.end == m.sep.end)
    decreases m
  {
    hide Lexer.ReadToken, SkipComments, Spec.ReadValue, Derives, LooseMeaning, EndOf, Put, LowerBound, Meaning, SpelledBy, Spec.AfterMember;
    var named := Meaning(m.chars);
    SkipOver(doc, i, m.before, m.name);
    StringKind(doc, m.name, m.chars);
    SpelledText(doc, m.name, m.chars);
    ReadDerived(cfg, doc, m.colon.end, m.value, Child(Object(done), Name(named)));
    Separated(doc, EndOf(m.value.body), m.behind, m.sep,
              Object(Put(done, Name(named), MemberMeaning(Lenient(cfg), doc, m))),
              Spec.ReadValue(cfg, doc, m.colon.end, Child(Object(done), Name(named))).depth);
  }

  lemma Separated(doc: bytes, i: nat, cs: seq<Token>, sep: Token, obj: Value, depth: nat)
    requires StandsBehind(doc, i, cs, sep) && (cs == [] ==> sep.kind in {ArraySeparator, ObjectEnd})
    ensures i <= |doc| && sep.end <= |doc|
    ensures Spec.AfterMember(doc, i, obj, depth)
         == if sep.kind == ObjectEnd then Spec.Done(Spec.Outcome(true, obj, sep.end, [], depth)) else Spec.Continue(obj, sep.end, depth)
  {
    hide Lexer.ReadToken, SkipComments;
    SkipOver(doc, i, cs, sep);
    TokenInside(doc, Behind(i, cs));
  }

  // ---- What is read is derived ----

  lemma {:induction false} Derivation(cfg: Spec.Config, doc: bytes, i: nat, cur: Value) returns (v: LValue)
    requires i <= |doc| && Spec.ReadValue(cfg, doc, i, cur).ok
    ensures Derives(Lenient(cfg), doc, i, v)
    decreases |doc| - i, 0
  {
    hide Lexer.ReadToken, SkipComments, Spec.ReadMembers, Spec.ReadElements, Spec.ReadScalar, Spec.FirstToken, Comments;
    hide LooseNumber, SpelledBy, DerivesItems, DerivesMembers;
    var cs := [];
    if cfg.allowComments {
      cs := CommentsTo(doc, i);
    }
    var t := Spec.FirstToken(cfg, doc, i);
    var p := Behind(i, cs);
    FirstStands(cfg, doc, i, cs);
    if t.kind == ObjectBegin {
      var members, ending := MembersDerivation(cfg, doc, t.end, Object([]), []);
      v := LValue(cs, LObject(t, members, ending));
    } else if t.kind == ArrayBegin {
      BracketToken(doc, t.end);
      var q := SkipSpaces(doc, t.end);
      if q < |doc| && doc[q] == RBRACKET {
        v := LValue(cs, LEmptyArray(t, Lexer.ReadToken(doc, t.end)));
      } else {
        var items := ItemsDerivation(cfg, doc, q, Array([]), 0);
        v := LValue(cs, LArray(t, items));
      }
    } else {
      var b := ScalarDerivation(cfg, doc, p, t, cur);
      v := LValue(cs, b);
    }
  }

  lemma ScalarDerivation(cfg: Spec.Config, doc: bytes, p: nat, t: Token, cur: Value) returns (b: Loose)
    requires Stands(doc, p, t) && t.kind != ObjectBegin && t.kind != ArrayBegin && Spec.ReadScalar(cfg, doc, t, cur).ok
    ensures DerivesBody(Lenient(cfg), doc, p, b)
  {
    hide Lexer.ReadToken, LooseNumber, SpelledBy, Spec.NumberValue, Spec.StringText;
    if t.kind == String {
      var chars := SpellToken(doc, p, t);
      b := LString(t, chars);
    } else if t.kind == Number {
      NumberValueIs(cfg, TokenText(doc, t));
      b := LNumber(t);
    } else if t.kind in {True, False, NullToken} {
      b := LLiteral(t);
    } else {
      b := LDropped(t);
    }
  }

  lemma FirstStands(cfg: Spec.Config, doc: bytes, i: nat, cs: seq<Token>)
    requires i <= |doc|
    requires if cfg.allowComments then StandsBehind(doc, i, cs, SkipComments(doc, i)) else cs == []
    ensures Comments(doc, i, cs) && Stands(doc, Behind(i, cs), Spec.FirstToken(cfg, doc, i))
    ensures var t := Spec.FirstToken(cfg, doc, i);
            i <= t.start <= t.end <= |doc| && (t.kind != EndOfStream ==> t.start < t.end)
  {
    hide Lexer.ReadToken, SkipComments;
  }

  lemma {:induction false} ItemsDerivation(cfg: Spec.Config, doc: bytes, i: nat, arr: Value, index: nat) returns (items: seq<LItem>)
    requires i <= |doc| && Spec.ReadElements(cfg, doc, i, arr, index).ok
    ensures DerivesItems(Lenient(cfg), doc, i, items)
    decreases |doc| - i, 1
  {
    hide Lexer.ReadToken, SkipComments, Spec.ReadValue, Derives, EndOf;
    var cur := Child(arr, Index(index));
    var r := Spec.ReadValue(cfg, doc, i, cur);
    var v := Derivation(cfg, doc, i, cur);
    ReadDerived(cfg, doc, i, v, cur);
    var cs := CommentsTo(doc, r.end);
    var sep := SkipComments(doc, r.end);
    items := [LItem(v, cs, sep)];
    if sep.kind != ArrayEnd {
      var more := ItemsDerivation(cfg, doc, sep.end, PutChild(arr, Index(index), r.value), index + 1);
      items := items + more;
      assert items[1..] == more;
    }
  }

  lemma {:induction false} MembersDerivation(cfg: Spec.Config, doc: bytes, i: nat, obj: Value, name: bytes)
    returns (members: seq<LMember>, ending: Ending)
    requires i <= |doc| && Spec.ReadMembers(cfg, doc, i, obj, name).ok
    ensures DerivesMembers(Lenient(cfg), doc, i, name, members, ending)
    decreases |doc| - i, 1
  {
    hide Lexer.ReadToken, SkipComments, Spec.ReadValue, Spec.ReadMember, Derives, EndOf, SpelledBy, Meaning, Spec.StringText, RecoverEnd;
    var cs := CommentsTo(doc, i);
    var t := SkipComments(doc, i);
    if t.kind == ObjectEnd && name == [] {
      members, ending := [], AtBrace(cs, t);
    } else {
      var m := MemberDerivation(cfg, doc, i, obj, name, cs);
      members, ending := [m], AtSeparator;
      SpelledName(doc, m, Behind(i, cs));
      var step := Spec.ReadMember(cfg, doc, m.name.end, obj, Meaning(m.chars));
      if m.sep.kind != ObjectEnd {
        var more, end := MembersDerivation(cfg, doc, m.sep.end, step.value, Meaning(m.chars));
        members, ending := members + more, end;
        assert members[1..] == more;
      } else {
        assert members[1..] == [];
      }
    }
  }

  lemma SpelledName(doc: bytes, m: LMember, i: nat)
    requires StandsAs(doc, i, m.name, String) && SpelledBy(doc, m.name, m.chars)
    ensures Spec.StringText(doc, m.name) == Decoded(Meaning(m.chars))
  {
    hide Lexer.ReadToken, SpelledBy, Meaning, Spec.StringText;
    StringToken(doc, i);
    SpelledText(doc, m.name, m.chars);
  }

  lemma MemberDerivation(cfg: Spec.Config, doc: bytes, i: nat, obj: Value, name: bytes, cs: seq<Token>) returns (m: LMember)
    requires i <= |doc| && StandsBehind(doc, i, cs, SkipComments(doc, i))
    requires Spec.ReadMembers(cfg, doc, i, obj, name).ok && !(SkipComments(doc, i).kind == ObjectEnd && name == [])
    ensures m.before == cs && m.name == SkipComments(doc, i) && i < m.sep.end <= |doc|
    ensures DerivesMember(Lenient(cfg), doc, i, m)
    ensures Spec.ReadName(doc, i, obj, name) == Spec.NameRead(Meaning(m.chars), m.name.end)
    ensures var step := Spec.ReadMember(cfg, doc, m.name.end, obj, Meaning(m.chars));
            if m.sep.kind == ObjectEnd then step.Done? else step.Continue? && step.end == m.sep.end
    decreases |doc| - i, 0
  {
    hide Lexer.ReadToken, SkipComments, Spec.ReadValue, Derives, EndOf, SpelledBy, Meaning, Spec.StringText, RecoverEnd;
    var t := SkipComments(doc, i);
    var chars := SpellToken(doc, Behind(i, cs), t);
    StringToken(doc, Behind(i, cs));
    SpelledText(doc, t, chars);
    var named := Meaning(chars);
    var colon := Lexer.ReadToken(doc, t.end);
    var cur := Child(obj, Name(named));
    var r := Spec.ReadValue(cfg, doc, colon.end, cur);
    var v := Derivation(cfg, doc, colon.end, cur);
    ReadDerived(cfg, doc, colon.end, v, cur);
    var behind := CommentsTo(doc, r.end);
    var sep := SkipComments(doc, r.end);
    m := LMember(cs, t, chars, colon, v, behind, sep);
  }

  // ---- Exactly the loose texts ----

  predicate IsContainer(b: Loose) {
    b.LEmptyArray? || b.LArray? || b.LObject?
  }

  /**
   Any text whatever is accepted if and only if it begins with a derivation, whose root is
   a container if the reader insists on one; and the value left behind is what it denotes.
   */
  lemma AcceptedIff(cfg: Spec.Config, doc: bytes, root: Value)
    ensures Spec.Parse(cfg, doc, root).ok
       <==> exists v :: Derives(Lenient(cfg), doc, 0, v) && (cfg.strictRoot ==> IsContainer(v.body))
    ensures forall v | Derives(Lenient(cfg), doc, 0, v) :: Spec.Parse(cfg, doc, root).value == LooseMeaning(Lenient(cfg), doc, v.body)
  {
    hide Spec.ReadValue, Derives, LooseMeaning, Spec.FirstToken;
    forall v | Derives(Lenient(cfg), doc, 0, v)
      ensures Gives(Spec.ReadValue(cfg, doc, 0, root), LooseMeaning(Lenient(cfg), doc, v.body), EndOf(v.body))
      ensures LooseMeaning(Lenient(cfg), doc, v.body).Array? || LooseMeaning(Lenient(cfg), doc, v.body).Object? <==> IsContainer(v.body)
    {
      ReadDerived(cfg, doc, 0, v, root);
      ContainerDenoted(Lenient(cfg), doc, 0, v);
    }
    if Spec.ReadValue(cfg, doc, 0, root).ok {
      var v := Derivation(cfg, doc, 0, root);
    }
  }

  lemma ContainerDenoted(l: Leniency, doc: bytes, i: nat, v: LValue)
    requires Derives(l, doc, i, v)
    ensures var x := LooseMeaning(l, doc, v.body);
            x.Array? || x.Object? <==> IsContainer(v.body)
  {
  }
}
