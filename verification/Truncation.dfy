/**
 A text that is cut short: no proper part of an object or array of RFC 8259, wherever it
 is cut, is accepted.
 */
module Truncation {
  import opened Bytes
  import opened Values
  import opened Quoting
  import opened Lexer
  import opened JsonText
  import opened JsonGrammar
  import opened GrammarReading
  import opened LooseGrammar
  import opened LooseReading
  import Spec = ReaderSpec

  // ---- Tokens do not change when a text goes on ----

  lemma {:induction false} SpacesGoOn(doc: bytes, full: bytes, i: nat)
    requires doc <= full && i <= |doc| && SkipSpaces(doc, i) < |doc|
    ensures SkipSpaces(full, i) == SkipSpaces(doc, i)
    decreases |doc| - i
  {
    if IsSpace(doc[i]) {
      SpacesGoOn(doc, full, i + 1);
    }
  }

  lemma {:induction false} DigitsGoOn(doc: bytes, full: bytes, i: nat)
    requires doc <= full && i <= |doc| && SkipDigits(doc, i) < |doc|
    ensures SkipDigits(full, i) == SkipDigits(doc, i)
    decreases |doc| - i
  {
    if IsDigit(doc[i]) {
      DigitsGoOn(doc, full, i + 1);
    }
  }

  lemma {:induction false} ScanGoesOn(doc: bytes, full: bytes, i: nat)
    requires doc <= full && i <= |doc| && ScanString(doc, i).0
    ensures ScanString(full, i) == ScanString(doc, i)
    decreases |doc| - i
  {
    if doc[i] == BACKSLASH {
      ScanGoesOn(doc, full, i + 2);
    } else if doc[i] != QUOTE {
      ScanGoesOn(doc, full, i + 1);
    }
  }

  lemma NumberGoesOn(doc: bytes, full: bytes, i: nat)
    requires doc <= full && i <= |doc| && NumberEnd(doc, i) < |doc|
    ensures NumberEnd(full, i) == NumberEnd(doc, i)
  {
    hide SkipDigits;
    var j := SkipDigits(doc, i);
    var k := FractionEnd(doc, j);
    DigitsGoOn(doc, full, i);
    if doc[j] == DOT {
      DigitsGoOn(doc, full, j + 1);
    }
    if doc[k] == 101 || doc[k] == 69 {
      DigitsGoOn(doc, full, SkipSign(doc, k + 1));
    }
  }

  lemma MatchGoesOn(doc: bytes, full: bytes, i: nat, pattern: bytes)
    requires doc <= full && i <= |doc| && Match(doc, i, pattern).0
    ensures Match(full, i, pattern) == Match(doc, i, pattern)
  {
    assert full[i..i + |pattern|] == doc[i..i + |pattern|];
  }

  /** A number could go on; no other token that is no error or comment does. */
  lemma TokenGoesOn(doc: bytes, full: bytes, i: nat, t: Token)
    requires doc <= full && Stands(doc, i, t) && t.kind !in {EndOfStream, ErrorToken, Comment}
    requires t.kind == Number ==> t.end < |doc|
    ensures Stands(full, i, t)
  {
    hide SkipSpaces, ScanString, NumberEnd, CommentEnd, Match;
    var p := SkipSpaces(doc, i);
    StartsInside(doc, i);
    SpacesGoOn(doc, full, i);
    if t.kind == String {
      ScanGoesOn(doc, full, p + 1);
    } else if t.kind == Number {
      NumberGoesOn(doc, full, p + 1);
    } else if t.kind == True {
      MatchGoesOn(doc, full, p + 1, TRUE_TEXT[1..]);
    } else if t.kind == False {
      MatchGoesOn(doc, full, p + 1, FALSE_TEXT[1..]);
    } else if t.kind == NullToken {
      MatchGoesOn(doc, full, p + 1, NULL_TEXT[1..]);
    }
  }

  lemma StartsInside(doc: bytes, i: nat)
    requires i <= |doc|
    ensures var t := Lexer.ReadToken(doc, i);
            && t.start == SkipSpaces(doc, i) && (t.kind != EndOfStream ==> t.start < |doc|)
            && (t.kind == Comment ==> doc[t.start] == SLASH)
  {
    hide ScanString, NumberEnd, CommentEnd, Match;
  }

  lemma SlashKind(full: bytes, i: nat)
    requires i <= |full| && SkipSpaces(full, i) < |full| && full[SkipSpaces(full, i)] == SLASH
    ensures Lexer.ReadToken(full, i).kind in {Comment, ErrorToken}
  {
    hide SkipSpaces, CommentEnd;
  }

  // ---- Derivations do not change either ----

  /** From here on the text has no comments and no bad tokens. */
  ghost predicate Clear(doc: bytes, i: nat)
    decreases |doc| - i
  {
    && i <= |doc|
    && var t := Lexer.ReadToken(doc, i);
    && t.kind != Comment && t.kind != ErrorToken && (t.kind != EndOfStream ==> Clear(doc, t.end))
  }

  lemma ClearBehind(doc: bytes, i: nat, t: Token)
    requires Clear(doc, i) && Stands(doc, i, t) && t.kind != EndOfStream
    ensures Clear(doc, t.end) && Clear(doc, t.start)
  {
    hide SkipSpaces, TokenAt;
    SkippedAgain(doc, i);
  }

  lemma SkippedAgain(doc: bytes, i: nat)
    requires i <= |doc|
    ensures Lexer.ReadToken(doc, SkipSpaces(doc, i)) == Lexer.ReadToken(doc, i)
    ensures Lexer.ReadToken(doc, i).start == SkipSpaces(doc, i)
  {
    hide TokenAt;
  }

  lemma NoComments(doc: bytes, full: bytes, i: nat, cs: seq<Token>)
    requires doc <= full && Comments(doc, i, cs) && Clear(full, i)
    ensures cs == []
  {
    hide Lexer.ReadToken, SkipSpaces;
    if cs != [] {
      StartsInside(doc, i);
      SpacesGoOn(doc, full, i);
      SlashKind(full, i);
    }
  }

  /** A number in front of another token ends inside the text. */
  lemma EndsBefore(doc: bytes, i: nat, cs: seq<Token>, t: Token)
    requires StandsBehind(doc, i, cs, t) && t.kind != EndOfStream
    ensures i < |doc|
  {
    hide Lexer.ReadToken, SkipSpaces;
    if cs == [] {
      StartsInside(doc, i);
    } else {
      StartsInside(doc, i);
    }
  }

  predicate InsideNumber(doc: bytes, b: Loose) {
    b.LNumber? ==> b.t.end < |doc|
  }

  lemma {:induction false} DerivationGoesOn(l: Leniency, doc: bytes, full: bytes, i: nat, v: LValue)
    requires doc <= full && Derives(l, doc, i, v) && Clear(full, i) && InsideNumber(doc, v.body)
    ensures Derives(l, full, i, v) && Clear(full, EndOf(v.body)) && EndOf(v.body) <= |doc|
    decreases v
  {
    hide Lexer.ReadToken, Clear, SkipSpaces, LooseNumber, TokenText, SpelledBy;
    NoComments(doc, full, i, v.comments);
    FirstOfBody(l, doc, i, v.body);
    BodyKind(l, doc, i, v.body);
    var t := FirstOf(v.body);
    TokenGoesOn(doc, full, i, t);
    ClearBehind(full, i, t);
    SameText(doc, full, i, t);
    match v.body
    case LString(_, cs) => SameSpelling(doc, full, i, t, cs);
    case LEmptyArray(_, close) =>
      TokenGoesOn(doc, full, t.end, close);
      ClearBehind(full, t.end, close);
      TokenInside(doc, t.end);
    case LArray(_, items) => ArrayGoesOn(l, doc, full, t, items);
    case LObject(_, members, ending) => MembersGoOn(l, doc, full, t.end, [], members, ending);
    case _ =>
  }

  lemma BodyKind(l: Leniency, doc: bytes, i: nat, b: Loose)
    requires DerivesBody(l, doc, i, b)
    ensures FirstOf(b).kind !in {EndOfStream, ErrorToken, Comment} && (FirstOf(b).kind == Number ==> b.LNumber?)
  {
    hide Lexer.ReadToken, DerivesItems, DerivesMembers, LooseNumber, TokenText;
  }

  lemma SameText(doc: bytes, full: bytes, i: nat, t: Token)
    requires doc <= full && Stands(doc, i, t)
    ensures t.start <= t.end <= |doc| && TokenText(full, t) == TokenText(doc, t)
  {
    hide Lexer.ReadToken;
    TokenOrder(doc, i);
    assert full[t.start..t.end] == doc[t.start..t.end];
  }

  lemma TokenOrder(doc: bytes, i: nat)
    requires i <= |doc|
    ensures Lexer.ReadToken(doc, i).start <= Lexer.ReadToken(doc, i).end <= |doc|
  {
  }

  lemma SameSpelling(doc: bytes, full: bytes, i: nat, t: Token, cs: seq<Char>)
    requires doc <= full && Stands(doc, i, t) && SpelledBy(doc, t, cs)
    ensures SpelledBy(full, t, cs)
  {
    hide Lexer.ReadToken, TokenText;
    SameText(doc, full, i, t);
  }

  lemma ArrayGoesOn(l: Leniency, doc: bytes, full: bytes, open: Token, items: seq<LItem>)
    requires doc <= full && open.end <= |doc| && Clear(full, open.end)
    requires Lexer.ReadToken(doc, open.end).kind != ArrayEnd && DerivesItems(l, doc, SkipSpaces(doc, open.end), items)
    ensures Lexer.ReadToken(full, open.end).kind != ArrayEnd && DerivesItems(l, full, SkipSpaces(full, open.end), items)
    ensures Clear(full, items[|items| - 1].sep.end) && items[|items| - 1].sep.end <= |doc|
    decreases items, 1
  {
    hide Lexer.ReadToken, Clear, SkipSpaces, DerivesItems;
    ItemsBegin(l, doc, SkipSpaces(doc, open.end), items);
    SkippedAgain(doc, open.end);
    StartsInside(doc, open.end);
    SpacesGoOn(doc, full, open.end);
    SkippedAgain(full, open.end);
    BracketToken(doc, open.end);
    BracketToken(full, open.end);
    ClearAgain(full, open.end);
    ItemsGoOn(l, doc, full, SkipSpaces(doc, open.end), items);
  }

  lemma ClearAgain(doc: bytes, i: nat)
    requires Clear(doc, i)
    ensures Clear(doc, SkipSpaces(doc, i))
  {
    hide SkipSpaces, TokenAt;
    SkippedAgain(doc, i);
  }

  /** There is a token where elements begin. */
  lemma ItemsBegin(l: Leniency, doc: bytes, i: nat, items: seq<LItem>)
    requires DerivesItems(l, doc, i, items)
    ensures i <= |doc| && Lexer.ReadToken(doc, i).kind != EndOfStream
  {
    hide Lexer.ReadToken, LooseNumber, TokenText, SpelledBy;
    var v := items[0].value;
    assert DerivesItem(l, doc, i, items[0]) && Derives(l, doc, i, v);
    FirstOfBody(l, doc, Behind(i, v.comments), v.body);
    BodyKind(l, doc, Behind(i, v.comments), v.body);
  }

  lemma {:induction false} ItemsGoOn(l: Leniency, doc: bytes, full: bytes, i: nat, items: seq<LItem>)
    requires doc <= full && DerivesItems(l, doc, i, items) && Clear(full, i)
    ensures DerivesItems(l, full, i, items)
    ensures Clear(full, items[|items| - 1].sep.end) && items[|items| - 1].sep.end <= |doc|
    decreases items, 0
  {
    hide Lexer.ReadToken, Clear, Derives, EndOf;
    var item := items[0];
    var e := EndOf(item.value.body);
    EndsBefore(doc, e, item.comments, item.sep);
    NumberInside(doc, item.value.body);
    ItemGoesOn(l, doc, full, i, item);
    if |items| > 1 {
      ItemsGoOn(l, doc, full, item.sep.end, items[1..]);
    }
  }

  lemma NumberInside(doc: bytes, b: Loose)
    requires EndOf(b) < |doc|
    ensures InsideNumber(doc, b)
  {
  }

  lemma ItemGoesOn(l: Leniency, doc: bytes, full: bytes, i: nat, item: LItem)
    requires doc <= full && DerivesItem(l, doc, i, item) && Clear(full, i) && InsideNumber(doc, item.value.body)
    requires item.sep.kind in {ArraySeparator, ArrayEnd}
    ensures DerivesItem(l, full, i, item) && Clear(full, item.sep.end) && item.sep.end <= |doc|
    decreases item
  {
    hide Lexer.ReadToken, Clear, Derives, EndOf, InsideNumber;
    DerivationGoesOn(l, doc, full, i, item.value);
    var e := EndOf(item.value.body);
    NoComments(doc, full, e, item.comments);
    TokenGoesOn(doc, full, e, item.sep);
    ClearBehind(full, e, item.sep);
    TokenInside(doc, e);
  }

  lemma {:induction false} MembersGoOn(l: Leniency, doc: bytes, full: bytes, i: nat, name: bytes, members: seq<LMember>, ending: Ending)
    requires doc <= full && DerivesMembers(l, doc, i, name, members, ending) && Clear(full, i)
    ensures DerivesMembers(l, full, i, name, members, ending)
    ensures Clear(full, EndOfMembers(i, members, ending)) && EndOfMembers(i, members, ending) <= |doc|
    decreases members, 1
  {
    hide Lexer.ReadToken, Clear, DerivesMember, Meaning;
    if members == [] {
      NoComments(doc, full, i, ending.comments);
      TokenGoesOn(doc, full, i, ending.close);
      ClearBehind(full, i, ending.close);
      TokenInside(doc, i);
    } else {
      var m := members[0];
      MemberGoesOn(l, doc, full, i, m);
      if m.sep.kind != ObjectEnd {
        MembersGoOn(l, doc, full, m.sep.end, Meaning(m.chars), members[1..], ending);
      }
    }
  }

  lemma MemberGoesOn(l: Leniency, doc: bytes, full: bytes, i: nat, m: LMember)
    requires doc <= full && DerivesMember(l, doc, i, m) && Clear(full, i)
    ensures DerivesMember(l, full, i, m) && Clear(full, m.sep.end) && m.sep.end <= |doc|
    decreases m
  {
    hide Lexer.ReadToken, Clear, Derives, EndOf, SpelledBy, InsideNumber;
    NoComments(doc, full, i, m.before);
    StringKind(doc, m.name, m.chars);
    TokenGoesOn(doc, full, i, m.name);
    ClearBehind(full, i, m.name);
    SameSpelling(doc, full, i, m.name, m.chars);
    TokenGoesOn(doc, full, m.name.end, m.colon);
    ClearBehind(full, m.name.end, m.colon);
    var e := EndOf(m.value.body);
    NumberStops(l, doc, m.colon.end, m.value, m.behind, m.sep);
    DerivationGoesOn(l, doc, full, m.colon.end, m.value);
    NoComments(doc, full, e, m.behind);
    TokenGoesOn(doc, full, e, m.sep);
    ClearBehind(full, e, m.sep);
    TokenInside(doc, e);
  }

  lemma NumberStops(l: Leniency, doc: bytes, i: nat, v: LValue, cs: seq<Token>, sep: Token)
    requires Derives(l, doc, i, v) && StandsBehind(doc, EndOf(v.body), cs, sep)
    requires cs == [] ==> sep.kind in {ArraySeparator, ObjectEnd}
    ensures InsideNumber(doc, v.body)
  {
    hide Lexer.ReadToken, Derives, EndOf;
    var e := EndOf(v.body);
    if cs == [] {
      EndsBefore(doc, e, cs, sep);
    } else {
      StartsInside(doc, e);
      TokenOrder(doc, e);
      assert cs[0] == Lexer.ReadToken(doc, e);
      StartBehind(doc, e);
    }
    NumberInside(doc, v.body);
  }

  lemma StartBehind(doc: bytes, i: nat)
    requires i <= |doc| && Lexer.ReadToken(doc, i).kind != EndOfStream
    ensures i < |doc|
  {
  }

  // ---- The texts of the grammar are clear ----

  /** A lexeme of the grammar. */
  ghost predicate IsLexeme(x: bytes) {
    || x in [[LBRACE], [RBRACE], [LBRACKET], [RBRACKET], [COMMA], [COLON], TRUE_TEXT, FALSE_TEXT, NULL_TEXT]
    || (exists cs :: GoodChars(cs) && x == StringLiteral(cs))
    || IsNumberText(x)
  }

  ghost predicate IsNumberText(x: bytes) {
    exists n :: GoodNumber(n) && x == NumberText(n)
  }

  /** Lexemes of the grammar in which nothing continues a number. */
  ghost predicate LexemeList(xs: seq<bytes>) {
    xs != [] ==> IsLexeme(xs[0]) && (IsNumberText(xs[0]) ==> EndsValue(xs[1..])) && LexemeList(xs[1..])
  }

  lemma {:induction false} TreeLexemes(j: Json, rest: seq<bytes>)
    requires Grammatical(j) && LexemeList(rest) && EndsValue(rest)
    ensures LexemeList(Tokens(j) + rest)
    decreases j
  {
    hide LexemeList, EndsValue;
    match j
    case JArray(items) =>
      Punctuated(RBRACKET, rest);
      ItemLexemes(items, [[RBRACKET]] + rest);
      Punctuated(LBRACKET, ItemTokens(items) + ([[RBRACKET]] + rest));
      assert Tokens(j) + rest == [[LBRACKET]] + (ItemTokens(items) + ([[RBRACKET]] + rest));
    case JObject(fields) =>
      Punctuated(RBRACE, rest);
      FieldLexemes(fields, [[RBRACE]] + rest);
      Punctuated(LBRACE, FieldTokens(fields) + ([[RBRACE]] + rest));
      assert Tokens(j) + rest == [[LBRACE]] + (FieldTokens(fields) + ([[RBRACE]] + rest));
    case _ => ScalarLexemes(j, rest);
  }

  lemma ScalarLexemes(j: Json, rest: seq<bytes>)
    requires Grammatical(j) && !j.JArray? && !j.JObject? && LexemeList(rest) && EndsValue(rest)
    ensures LexemeList(Tokens(j) + rest)
  {
    hide IsLexeme, IsNumberText, Tokens;
    ScalarLexeme(j);
    assert (Tokens(j) + rest)[1..] == rest;
  }

  lemma ScalarLexeme(j: Json)
    requires Grammatical(j) && !j.JArray? && !j.JObject?
    ensures |Tokens(j)| == 1 && IsLexeme(Tokens(j)[0])
  {
  }

  lemma Punctuated(c: byte, rest: seq<bytes>)
    requires c in {LBRACE, RBRACE, LBRACKET, RBRACKET, COMMA, COLON} && LexemeList(rest)
    ensures LexemeList([[c]] + rest)
    ensures c in {RBRACE, RBRACKET, COMMA} ==> EndsValue([[c]] + rest)
  {
    assert ([[c]] + rest)[1..] == rest;
    NoNumber(c);
  }

  lemma NoNumber(c: byte)
    requires c in {LBRACE, RBRACE, LBRACKET, RBRACKET, COMMA, COLON}
    ensures !IsNumberText([c])
  {
    hide NumberText;
    forall n | GoodNumber(n)
      ensures NumberText(n) != [c]
    {
      FirstByte(n);
    }
  }

  lemma {:induction false} ItemLexemes(items: seq<Json>, rest: seq<bytes>)
    requires GrammaticalItems(items) && LexemeList(rest) && EndsValue(rest)
    ensures LexemeList(ItemTokens(items) + rest)
    decreases items
  {
    hide LexemeList, Tokens;
    if items == [] {
      assert ItemTokens(items) + rest == rest;
    } else {
      ItemTokensSplit(items, rest);
      if |items| == 1 {
        TreeLexemes(items[0], rest);
      } else {
        ItemLexemes(items[1..], rest);
        var others := ItemTokens(items[1..]) + rest;
        Punctuated(COMMA, others);
        TreeLexemes(items[0], [[COMMA]] + others);
      }
    }
  }

  lemma {:induction false} FieldLexemes(fields: seq<Field>, rest: seq<bytes>)
    requires GrammaticalFields(fields) && LexemeList(rest) && EndsValue(rest)
    ensures LexemeList(FieldTokens(fields) + rest)
    decreases fields
  {
    hide LexemeList, Tokens;
    if fields == [] {
      assert FieldTokens(fields) + rest == rest;
    } else {
      FieldTokensSplit(fields, rest);
      if |fields| == 1 {
        FieldLexeme(fields[0], rest);
      } else {
        FieldLexemes(fields[1..], rest);
        var others := FieldTokens(fields[1..]) + rest;
        Punctuated(COMMA, others);
        FieldLexeme(fields[0], [[COMMA]] + others);
      }
    }
  }

  lemma FieldLexeme(f: Field, rest: seq<bytes>)
    requires GrammaticalField(f) && LexemeList(rest) && EndsValue(rest)
    ensures LexemeList([StringLiteral(f.name), [COLON]] + (Tokens(f.value) + rest))
    decreases f
  {
    hide IsLexeme, IsNumberText, Tokens, StringLiteral, Grammatical, GoodChars;
    TreeLexemes(f.value, rest);
    Punctuated(COLON, Tokens(f.value) + rest);
    Quoted(f.name);
    var xs := [StringLiteral(f.name), [COLON]] + (Tokens(f.value) + rest);
    assert xs[1..] == [[COLON]] + (Tokens(f.value) + rest);
  }

  lemma Quoted(cs: seq<Char>)
    requires GoodChars(cs)
    ensures IsLexeme(StringLiteral(cs)) && !IsNumberText(StringLiteral(cs))
  {
    forall n | GoodNumber(n)
      ensures NumberText(n) != StringLiteral(cs)
    {
      FirstByte(n);
    }
  }

  lemma FirstByte(n: Numeral)
    requires GoodNumber(n)
    ensures NumberText(n) != [] && (NumberText(n)[0] == MINUS || IsDigit(NumberText(n)[0]))
  {
  }

  lemma NoLexemes()
    ensures LexemeList([])
  {
  }

  /** One lexeme is one good token. */
  lemma LexemeToken(doc: bytes, pos: nat, ps: seq<Piece>) returns (qs: seq<Piece>)
    requires Sees(doc, pos, ps) && Lexemes(ps) != [] && LexemeList(Lexemes(ps))
    ensures var t := Lexer.ReadToken(doc, pos);
            t.kind !in {Comment, ErrorToken, EndOfStream} && Sees(doc, t.end, qs) && Lexemes(qs) == Lexemes(ps)[1..]
  {
    hide Lexer.ReadToken, SkipComments, Sees, Lexemes, NumberText, GoodNumber, StringLiteral, GoodChars, LexemeList;
    var x, rest := Lexemes(ps)[0], Lexemes(ps)[1..];
    FirstLexeme(Lexemes(ps));
    assert Lexemes(ps) == [x] + rest;
    if IsNumberText(x) {
      var n :| GoodNumber(n) && x == NumberText(n);
      var cfg := Spec.Config(true, false, false, _ => None);
      qs := ReadNumberText(cfg, doc, pos, ps, n, rest);
    } else if exists cs :: GoodChars(cs) && x == StringLiteral(cs) {
      var cs :| GoodChars(cs) && x == StringLiteral(cs);
      qs := ReadStringLiteral(doc, pos, ps, cs, rest);
    } else if x == TRUE_TEXT {
      qs := ReadLiteral(doc, pos, ps, x, True, rest);
    } else if x == FALSE_TEXT {
      qs := ReadLiteral(doc, pos, ps, x, False, rest);
    } else if x == NULL_TEXT {
      qs := ReadLiteral(doc, pos, ps, x, NullToken, rest);
    } else {
      qs := ReadPunctuation(doc, pos, ps, x[0], PunctuationType(x[0]).value, rest);
    }
  }

  lemma FirstLexeme(xs: seq<bytes>)
    requires xs != [] && LexemeList(xs)
    ensures IsLexeme(xs[0]) && (IsNumberText(xs[0]) ==> EndsValue(xs[1..])) && LexemeList(xs[1..])
  {
  }

  lemma {:induction false} TextClear(doc: bytes, pos: nat, ps: seq<Piece>)
    requires Sees(doc, pos, ps) && LexemeList(Lexemes(ps))
    ensures Clear(doc, pos)
    decreases |Lexemes(ps)|
  {
    hide Lexer.ReadToken, Sees, Lexemes, LexemeList;
    if Lexemes(ps) == [] {
      EndReached(doc, pos, ps);
    } else {
      FirstLexeme(Lexemes(ps));
      var qs := LexemeToken(doc, pos, ps);
      InText(doc, pos, ps);
      TextClear(doc, Lexer.ReadToken(doc, pos).end, qs);
    }
  }

  lemma InText(doc: bytes, pos: nat, ps: seq<Piece>)
    requires Sees(doc, pos, ps)
    ensures pos <= |doc|
  {
  }

  lemma EndReached(doc: bytes, pos: nat, ps: seq<Piece>)
    requires Sees(doc, pos, ps) && Lexemes(ps) == []
    ensures pos <= |doc| && Lexer.ReadToken(doc, pos) == Token(EndOfStream, |doc|, |doc|)
  {
    SpacesToEnd(doc, pos, ps);
  }

  // ---- Cut short ----

  lemma {:induction false} AllSkipped(doc: bytes, i: nat)
    requires i <= |doc| && SkipSpaces(doc, i) == |doc|
    ensures i < |doc| ==> IsSpace(doc[|doc| - 1])
    decreases |doc| - i
  {
    if i < |doc| {
      AllSkipped(doc, i + 1);
    }
  }

  /** A container that is accepted ends with the text's last lexeme, so with the text if no whitespace follows. */
  lemma ReadsToLast(cfg: Spec.Config, j: Json, ps: seq<Piece>, root: Value)
    requires Grammatical(j) && Blank(ps) && Lexemes(ps) == Tokens(j) && Flatten(ps) != [] && !IsSpace(Flatten(ps)[|Flatten(ps)| - 1])
    ensures var r := Spec.ReadValue(cfg, Flatten(ps), 0, root);
            r.ok ==> r.end == |Flatten(ps)|
  {
    hide Flatten, Lexemes, Tokens, Denote, Readable, Nesting, Spec.ReadValue, Grammatical;
    var doc := Flatten(ps);
    assert doc[0..] == doc && Tokens(j) + [] == Tokens(j);
    var qs := ReadTree(cfg, doc, 0, ps, j, [], root);
    var r := Spec.ReadValue(cfg, doc, 0, root);
    if Readable(cfg.toDouble, j) {
      SpacesToEnd(doc, r.end, qs);
      AllSkipped(doc, r.end);
    }
  }

  /**
   An array or object of RFC 8259 in any layout, cut anywhere before its last byte: it is
   rejected, by readers of every kind.
   */
  lemma CutRejected(cfg: Spec.Config, j: Json, ps: seq<Piece>, n: nat, root: Value)
    requires Grammatical(j) && (j.JArray? || j.JObject?) && Blank(ps) && Lexemes(ps) == Tokens(j)
    requires n < |Flatten(ps)| && !IsSpace(Flatten(ps)[|Flatten(ps)| - 1])
    ensures !Spec.Parse(cfg, Flatten(ps)[..n], root).ok
  {
    hide Flatten, Lexemes, Tokens, Spec.ReadValue, Spec.FirstToken, Grammatical, Derives, LexemeList, Clear, EndOf, LooseMeaning;
    var full, doc := Flatten(ps), Flatten(ps)[..n];
    if Spec.ReadValue(cfg, doc, 0, root).ok {
      var v := Derivation(cfg, doc, 0, root);
      assert full[0..] == full && Tokens(j) + [] == Tokens(j);
      NoLexemes();
      TreeLexemes(j, []);
      TextClear(full, 0, ps);
      ContainerBegun(Lenient(cfg), j, ps, doc, v);
      DerivationGoesOn(Lenient(cfg), doc, full, 0, v);
      ReadDerived(cfg, full, 0, v, root);
      ReadsToLast(cfg, j, ps, root);
    }
  }

  /** What begins as a container is no number. */
  lemma ContainerBegun(l: Leniency, j: Json, ps: seq<Piece>, doc: bytes, v: LValue)
    requires Grammatical(j) && (j.JArray? || j.JObject?) && Blank(ps) && Lexemes(ps) == Tokens(j) && doc <= Flatten(ps)
    requires Derives(l, doc, 0, v) && Clear(Flatten(ps), 0)
    ensures InsideNumber(doc, v.body)
  {
    hide Flatten, Lexemes, Lexer.ReadToken, SkipSpaces, Clear;
    var full := Flatten(ps);
    NoComments(doc, full, 0, v.comments);
    FirstOfBody(l, doc, 0, v.body);
    if v.body.LNumber? {
      assert full[0..] == full;
      var c := if j.JArray? then LBRACKET else LBRACE;
      var p, _ := Next(full, 0, ps, [c], Lexemes(ps)[1..]);
      StartsInside(doc, 0);
      SpacesGoOn(doc, full, 0);
      NumberByte(doc, 0);
    }
  }

  lemma NumberByte(doc: bytes, i: nat)
    requires i <= |doc| && Lexer.ReadToken(doc, i).kind == Number
    ensures var p := SkipSpaces(doc, i);
            p < |doc| && (doc[p] == MINUS || IsDigit(doc[p]))
  {
    hide SkipSpaces, ScanString, NumberEnd, CommentEnd, Match;
  }
}
