/**
 The text of a JSON value: a sequence of lexemes with whitespace between them.
 Which lexemes there are depends only on the value; the whitespace is layout.
 */
module JsonText {
  import opened Bytes
  import opened Values
  import opened ValueArray
  import opened Quoting
  import opened Decimal

  // ---- Pieces of text ----

  datatype Piece = Gap(spaces: bytes) | Lexeme(text: bytes)

  function Flatten(ps: seq<Piece>): bytes {
    if ps == [] then []
    else PieceText(ps[0]) + Flatten(ps[1..])
  }

  function PieceText(p: Piece): bytes {
    match p
    case Gap(s) => s
    case Lexeme(t) => t
  }

  function Lexemes(ps: seq<Piece>): seq<bytes> {
    if ps == [] then []
    else if ps[0].Lexeme? then [ps[0].text] + Lexemes(ps[1..])
    else Lexemes(ps[1..])
  }

  predicate Blank(ps: seq<Piece>) {
    forall i | 0 <= i < |ps| && ps[i].Gap? :: AllSpaces(ps[i].spaces)
  }

  lemma {:induction false} PiecesConcat(a: seq<Piece>, b: seq<Piece>)
    ensures Flatten(a + b) == Flatten(a) + Flatten(b)
    ensures Lexemes(a + b) == Lexemes(a) + Lexemes(b)
    ensures Blank(a) && Blank(b) ==> Blank(a + b)
  {
    FlattenConcat(a, b);
    LexemesConcat(a, b);
  }

  lemma {:induction false} FlattenConcat(a: seq<Piece>, b: seq<Piece>)
    ensures Flatten(a + b) == Flatten(a) + Flatten(b)
    decreases |a|
  {
    if a == [] {
      assert a + b == b;
    } else {
      assert (a + b)[1..] == a[1..] + b;
      FlattenConcat(a[1..], b);
      assert PieceText(a[0]) + (Flatten(a[1..]) + Flatten(b)) == (PieceText(a[0]) + Flatten(a[1..])) + Flatten(b);
    }
  }

  lemma {:induction false} LexemesConcat(a: seq<Piece>, b: seq<Piece>)
    ensures Lexemes(a + b) == Lexemes(a) + Lexemes(b)
    decreases |a|
  {
    if a == [] {
      assert a + b == b;
    } else {
      assert (a + b)[1..] == a[1..] + b;
      LexemesConcat(a[1..], b);
    }
  }

  // ---- Dense values ----

  /** The value as const access sees it: missing array slots read as null. */
  function Fill(v: Value): Value {
    match v
    case Array(es) => Array(FillSlots(es, 0, Size(es)))
    case Object(es) => Object(FillEntries(es))
    case _ => v
  }

  function FillMember(m: Member): Member {
    Member(m.key, Fill(m.value))
  }

  function FillSlots(es: seq<Member>, i: nat, size: nat): (r: seq<Member>)
    requires i <= size
    ensures |r| == size - i
    decreases es, size - i
  {
    if i == size then []
    else [Member(Index(i), FillSlot(es, i))] + FillSlots(es, i + 1, size)
  }

  function FillSlot(es: seq<Member>, i: nat): Value
    decreases es, 0
  {
    if Has(es, Index(i)) then FillMember(es[LowerBound(es, Index(i))]).value else Null
  }

  function FillEntries(es: seq<Member>): (r: seq<Member>)
    ensures |r| == |es|
  {
    if es == [] then [] else [FillMember(es[0])] + FillEntries(es[1..])
  }

  lemma {:induction false} FillSlotsAt(es: seq<Member>, i: nat, size: nat, k: nat)
    requires i <= k < size
    ensures FillSlots(es, i, size)[k - i] == Member(Index(k), Fill(Child(Array(es), Index(k))))
    decreases size - i
  {
    if Has(es, Index(k)) {
      var m := es[LowerBound(es, Index(k))];
      assert FillMember(m).value == Fill(m.value);
    }
    if i < k {
      FillSlotsAt(es, i + 1, size, k);
    }
  }

  lemma {:induction false} FillEntriesAt(es: seq<Member>, k: nat)
    requires k < |es|
    ensures FillEntries(es)[k] == Member(es[k].key, Fill(es[k].value))
    decreases k
  {
    assert FillMember(es[0]) == Member(es[0].key, Fill(es[0].value));
    if k > 0 {
      FillEntriesAt(es[1..], k - 1);
    }
  }

  // ---- Lexemes of a value ----

  datatype TextConfig = TextConfig(charIsSigned: bool, nullText: bytes, realText: nat -> bytes)

  /** The text of a value that is not a container. */
  function ScalarText(tc: TextConfig, v: Value): bytes
    requires !v.Array? && !v.Object?
  {
    match v
    case Null => tc.nullText
    case Int(i) => IntText(i)
    case UInt(u) => IntText(u)
    case Real(bits) => tc.realText(bits)
    case Str(s) => Quoted(s, tc.charIsSigned)
    case Bool(b) => if b then TRUE_TEXT else FALSE_TEXT
  }

  function KeyText(tc: TextConfig, k: Key): bytes {
    match k
    case Name(s) => Quoted(s, tc.charIsSigned)
    case Index(_) => []
  }

  function LexemesOf(tc: TextConfig, v: Value): seq<bytes> {
    match v
    case Array(es) => [[LBRACKET]] + ElementLexemes(tc, es) + [[RBRACKET]]
    case Object(es) => [[LBRACE]] + MemberLexemes(tc, es) + [[RBRACE]]
    case _ => [ScalarText(tc, v)]
  }

  function ValueLexemes(tc: TextConfig, m: Member): seq<bytes> {
    LexemesOf(tc, m.value)
  }

  function ElementLexemes(tc: TextConfig, es: seq<Member>): seq<bytes> {
    if es == [] then []
    else if |es| == 1 then ValueLexemes(tc, es[0])
    else ValueLexemes(tc, es[0]) + ([[COMMA]] + ElementLexemes(tc, es[1..]))
  }

  function MemberLexemes(tc: TextConfig, es: seq<Member>): seq<bytes> {
    if es == [] then []
    else if |es| == 1 then [KeyText(tc, es[0].key), [COLON]] + ValueLexemes(tc, es[0])
    else [KeyText(tc, es[0].key), [COLON]] + ValueLexemes(tc, es[0]) + ([[COMMA]] + MemberLexemes(tc, es[1..]))
  }

  // ---- The plain recursive printer ----

  function FastText(tc: TextConfig, colon: bytes, v: Value): bytes {
    match v
    case Array(es) => [LBRACKET] + FastElements(tc, colon, es) + [RBRACKET]
    case Object(es) => [LBRACE] + FastMembers(tc, colon, es) + [RBRACE]
    case _ => ScalarText(tc, v)
  }

  function FastValue(tc: TextConfig, colon: bytes, m: Member): bytes {
    FastText(tc, colon, m.value)
  }

  function FastElements(tc: TextConfig, colon: bytes, es: seq<Member>): bytes {
    if es == [] then []
    else if |es| == 1 then FastValue(tc, colon, es[0])
    else FastValue(tc, colon, es[0]) + ([COMMA] + FastElements(tc, colon, es[1..]))
  }

  function FastMembers(tc: TextConfig, colon: bytes, es: seq<Member>): bytes {
    if es == [] then []
    else if |es| == 1 then KeyText(tc, es[0].key) + colon + FastValue(tc, colon, es[0])
    else KeyText(tc, es[0].key) + colon + FastValue(tc, colon, es[0]) + ([COMMA] + FastMembers(tc, colon, es[1..]))
  }

  // ---- The styled printer ----

  const RIGHT_MARGIN: nat := 74

  /** allComments is commentStyle "All"; the colon symbol is a colon between two runs of spaces. */
  datatype Layout = Layout(indentation: bytes, allComments: bool, colonBefore: bytes, colonAfter: bytes) {
    predicate Valid() {
      AllSpaces(indentation) && AllSpaces(colonBefore) && AllSpaces(colonAfter)
    }

    function ColonSymbol(): bytes {
      colonBefore + [COLON] + colonAfter
    }

    /** The separator inside a one-line array. */
    function Padding(): seq<Piece> {
      if indentation == [] then [] else [Gap([SPACE])]
    }

    function NewLine(indent: bytes, indented: bool): seq<Piece> {
      if indented || indentation == [] then [] else [Gap([LF] + indent)]
    }

    function ColonPieces(): seq<Piece> {
      [Gap(colonBefore), Lexeme([COLON]), Gap(colonAfter)]
    }
  }

  /** A value written on the line it starts on: a scalar or an empty container. */
  predicate Flat(v: Value) {
    (v.Array? || v.Object?) ==> v.entries == []
  }

  predicate AllFlat(es: seq<Member>) {
    forall i | 0 <= i < |es| :: Flat(es[i].value)
  }

  function FlatPieces(tc: TextConfig, v: Value): seq<Piece>
    requires Flat(v)
  {
    match v
    case Array(_) => [Lexeme([LBRACKET]), Lexeme([RBRACKET])]
    case Object(_) => [Lexeme([LBRACE]), Lexeme([RBRACE])]
    case _ => [Lexeme(ScalarText(tc, v))]
  }

  function FlatText(tc: TextConfig, v: Value): bytes
    requires Flat(v)
  {
    Flatten(FlatPieces(tc, v))
  }

  /** The text lengths of the elements, added up. */
  function TextLength(tc: TextConfig, es: seq<Member>): nat
    requires AllFlat(es)
  {
    if es == [] then 0 else TextLength(tc, es[..|es| - 1]) + |FlatText(tc, es[|es| - 1].value)|
  }

  /** isMultilineArray, in the 32-bit arithmetic of ArrayIndex. */
  predicate TooLong(tc: TextConfig, es: seq<Member>) {
    || |es| * 3 % ARRAY_INDEX_RANGE >= RIGHT_MARGIN
    || !AllFlat(es)
    || (4 + (|es| - 1) * 2 + TextLength(tc, es)) % ARRAY_INDEX_RANGE >= RIGHT_MARGIN
  }

  /** The pieces written for a value at the given indent; indented says that the cursor is already in place. */
  function Styled(tc: TextConfig, ly: Layout, v: Value, indent: bytes, indented: bool): seq<Piece> {
    if Flat(v) then FlatPieces(tc, v)
    else match v
      case Array(es) =>
        if ly.allComments || TooLong(tc, es) then
          ly.NewLine(indent, indented) + [Lexeme([LBRACKET])]
          + StyledElements(tc, ly, es, indent + ly.indentation)
          + ly.NewLine(indent, false) + [Lexeme([RBRACKET])]
        else
          [Lexeme([LBRACKET])] + ly.Padding() + LineElements(tc, ly, es) + ly.Padding() + [Lexeme([RBRACKET])]
      case Object(es) =>
        ly.NewLine(indent, indented) + [Lexeme([LBRACE])]
        + StyledMembers(tc, ly, es, indent + ly.indentation)
        + ly.NewLine(indent, false) + [Lexeme([RBRACE])]
  }

  function StyledValue(tc: TextConfig, ly: Layout, m: Member, indent: bytes, indented: bool): seq<Piece> {
    Styled(tc, ly, m.value, indent, indented)
  }

  /** The elements of an array spread over lines. */
  function StyledElements(tc: TextConfig, ly: Layout, es: seq<Member>, indent: bytes): seq<Piece> {
    if es == [] then []
    else
      var first := ly.NewLine(indent, false) + StyledValue(tc, ly, es[0], indent, true);
      if |es| == 1 then first
      else first + ([Lexeme([COMMA])] + StyledElements(tc, ly, es[1..], indent))
  }

  /** The elements of an array on one line. */
  function LineElements(tc: TextConfig, ly: Layout, es: seq<Member>): seq<Piece>
    requires AllFlat(es)
  {
    if es == [] then []
    else if |es| == 1 then FlatPieces(tc, es[0].value)
    else FlatPieces(tc, es[0].value) + ([Lexeme([COMMA])] + ly.Padding() + LineElements(tc, ly, es[1..]))
  }

  function StyledMembers(tc: TextConfig, ly: Layout, es: seq<Member>, indent: bytes): seq<Piece> {
    if es == [] then []
    else
      var first := ly.NewLine(indent, false) + [Lexeme(KeyText(tc, es[0].key))] + ly.ColonPieces()
                   + StyledValue(tc, ly, es[0], indent, false);
      if |es| == 1 then first
      else first + ([Lexeme([COMMA])] + StyledMembers(tc, ly, es[1..], indent))
  }

  // ---- Layout is only layout ----

  /** These pieces are the given lexemes with whitespace in between. */
  ghost predicate Spells(ps: seq<Piece>, lexemes: seq<bytes>) {
    Lexemes(ps) == lexemes && Blank(ps)
  }

  lemma SpellsConcat(a: seq<Piece>, x: seq<bytes>, b: seq<Piece>, y: seq<bytes>)
    requires Spells(a, x) && Spells(b, y)
    ensures Spells(a + b, x + y)
  {
    PiecesConcat(a, b);
  }

  lemma SpellsOne(text: bytes)
    ensures Spells([Lexeme(text)], [text])
  {
    assert [Lexeme(text)][1..] == [];
  }

  lemma SpellsGap(spaces: bytes)
    requires AllSpaces(spaces)
    ensures Spells([Gap(spaces)], [])
  {
    assert [Gap(spaces)][1..] == [];
  }

  lemma SpellsPunctuated(a: seq<Piece>, b: seq<Piece>, x: seq<bytes>, c: seq<Piece>, open: bytes, close: bytes)
    requires Spells(a, []) && Spells(b, x) && Spells(c, [])
    ensures Spells(a + [Lexeme(open)] + b + c + [Lexeme(close)], [open] + x + [close])
  {
    SpellsOne(open);
    SpellsOne(close);
    SpellsConcat(a, [], [Lexeme(open)], [open]);
    SpellsConcat(a + [Lexeme(open)], [] + [open], b, x);
    SpellsConcat(a + [Lexeme(open)] + b, [] + [open] + x, c, []);
    SpellsConcat(a + [Lexeme(open)] + b + c, [] + [open] + x + [], [Lexeme(close)], [close]);
    assert [] + [open] + x + [] + [close] == [open] + x + [close];
  }

  lemma NewLineBlank(ly: Layout, indent: bytes, indented: bool)
    requires ly.Valid() && AllSpaces(indent)
    ensures Spells(ly.NewLine(indent, indented), [])
    ensures Spells(ly.Padding(), [])
  {
    SpellsGap([LF] + indent);
    SpellsGap([SPACE]);
  }

  lemma FlatSpells(tc: TextConfig, v: Value)
    requires Flat(v)
    ensures Spells(FlatPieces(tc, v), LexemesOf(tc, v))
  {
    var ps := FlatPieces(tc, v);
    if v.Array? || v.Object? {
      assert ps == [ps[0]] + [ps[1]];
      SpellsOne(ps[0].text);
      SpellsOne(ps[1].text);
      SpellsConcat([ps[0]], [ps[0].text], [ps[1]], [ps[1].text]);
    } else {
      SpellsOne(ps[0].text);
    }
  }

  /** Whatever the layout, the styled text consists of the value's lexemes and whitespace. */
  lemma {:induction false} StyledSpells(tc: TextConfig, ly: Layout, v: Value, indent: bytes, indented: bool)
    requires ly.Valid() && AllSpaces(indent)
    ensures Spells(Styled(tc, ly, v, indent, indented), LexemesOf(tc, v))
    decreases v
  {
    if Flat(v) {
      FlatSpells(tc, v);
    } else {
      NewLineBlank(ly, indent, indented);
      NewLineBlank(ly, indent, false);
      if v.Object? {
        StyledMembersSpell(tc, ly, v.entries, indent + ly.indentation);
        SpellsPunctuated(ly.NewLine(indent, indented), StyledMembers(tc, ly, v.entries, indent + ly.indentation),
                         MemberLexemes(tc, v.entries), ly.NewLine(indent, false), [LBRACE], [RBRACE]);
      } else if ly.allComments || TooLong(tc, v.entries) {
        StyledElementsSpell(tc, ly, v.entries, indent + ly.indentation);
        SpellsPunctuated(ly.NewLine(indent, indented), StyledElements(tc, ly, v.entries, indent + ly.indentation),
                         ElementLexemes(tc, v.entries), ly.NewLine(indent, false), [LBRACKET], [RBRACKET]);
      } else {
        LineSpells(tc, ly, v.entries);
      }
    }
  }

  lemma LineSpells(tc: TextConfig, ly: Layout, es: seq<Member>)
    requires ly.Valid() && AllFlat(es)
    ensures Spells([Lexeme([LBRACKET])] + ly.Padding() + LineElements(tc, ly, es) + ly.Padding() + [Lexeme([RBRACKET])],
                   [[LBRACKET]] + ElementLexemes(tc, es) + [[RBRACKET]])
  {
    NewLineBlank(ly, [], false);
    LineElementsSpell(tc, ly, es);
    SpellsConcat(ly.Padding(), [], LineElements(tc, ly, es), ElementLexemes(tc, es));
    SpellsPunctuated([], ly.Padding() + LineElements(tc, ly, es), [] + ElementLexemes(tc, es), ly.Padding(), [LBRACKET], [RBRACKET]);
    assert [] + [Lexeme([LBRACKET])] + (ly.Padding() + LineElements(tc, ly, es))
        == [Lexeme([LBRACKET])] + ly.Padding() + LineElements(tc, ly, es);
  }

  lemma StyledValueSpells(tc: TextConfig, ly: Layout, m: Member, indent: bytes, indented: bool)
    requires ly.Valid() && AllSpaces(indent)
    ensures Spells(StyledValue(tc, ly, m, indent, indented), ValueLexemes(tc, m))
    decreases m
  {
    StyledSpells(tc, ly, m.value, indent, indented);
  }

  lemma {:induction false} StyledElementsSpell(tc: TextConfig, ly: Layout, es: seq<Member>, indent: bytes)
    requires ly.Valid() && AllSpaces(indent)
    ensures Spells(StyledElements(tc, ly, es, indent), ElementLexemes(tc, es))
    decreases es
  {
    if es != [] {
      StyledValueSpells(tc, ly, es[0], indent, true);
      NewLineBlank(ly, indent, false);
      var value := StyledValue(tc, ly, es[0], indent, true);
      SpellsConcat(ly.NewLine(indent, false), [], value, ValueLexemes(tc, es[0]));
      if |es| > 1 {
        StyledElementsSpell(tc, ly, es[1..], indent);
        SpellsSeparated(ly.NewLine(indent, false) + value, [] + ValueLexemes(tc, es[0]),
                        [], StyledElements(tc, ly, es[1..], indent), ElementLexemes(tc, es[1..]));
      }
    }
  }

  lemma SpellsSeparated(a: seq<Piece>, x: seq<bytes>, pad: seq<Piece>, b: seq<Piece>, y: seq<bytes>)
    requires Spells(a, x) && Spells(pad, []) && Spells(b, y)
    ensures Spells(a + ([Lexeme([COMMA])] + pad + b), x + ([[COMMA]] + y))
    ensures pad == [] ==> Spells(a + ([Lexeme([COMMA])] + b), x + ([[COMMA]] + y))
  {
    SpellsOne([COMMA]);
    SpellsConcat([Lexeme([COMMA])], [[COMMA]], pad, []);
    SpellsConcat([Lexeme([COMMA])] + pad, [[COMMA]] + [], b, y);
    SpellsConcat(a, x, [Lexeme([COMMA])] + pad + b, [[COMMA]] + [] + y);
    assert [[COMMA]] + [] + y == [[COMMA]] + y;
    if pad == [] {
      assert [Lexeme([COMMA])] + pad == [Lexeme([COMMA])];
    }
  }

  lemma {:induction false} LineElementsSpell(tc: TextConfig, ly: Layout, es: seq<Member>)
    requires ly.Valid() && AllFlat(es)
    ensures Spells(LineElements(tc, ly, es), ElementLexemes(tc, es))
    decreases |es|
  {
    if es != [] {
      assert Flat(es[0].value);
      FlatSpells(tc, es[0].value);
      assert ValueLexemes(tc, es[0]) == LexemesOf(tc, es[0].value);
      if |es| > 1 {
        LineElementsSpell(tc, ly, es[1..]);
        NewLineBlank(ly, [], false);
        SpellsSeparated(FlatPieces(tc, es[0].value), ValueLexemes(tc, es[0]),
                        ly.Padding(), LineElements(tc, ly, es[1..]), ElementLexemes(tc, es[1..]));
      }
    }
  }

  lemma ColonSpells(ly: Layout)
    requires ly.Valid()
    ensures Spells(ly.ColonPieces(), [[COLON]])
  {
    SpellsGap(ly.colonBefore);
    SpellsOne([COLON]);
    SpellsGap(ly.colonAfter);
    SpellsConcat([Gap(ly.colonBefore)], [], [Lexeme([COLON])], [[COLON]]);
    SpellsConcat([Gap(ly.colonBefore)] + [Lexeme([COLON])], [] + [[COLON]], [Gap(ly.colonAfter)], []);
    assert ly.ColonPieces() == [Gap(ly.colonBefore)] + [Lexeme([COLON])] + [Gap(ly.colonAfter)];
  }

  lemma {:induction false} StyledMembersSpell(tc: TextConfig, ly: Layout, es: seq<Member>, indent: bytes)
    requires ly.Valid() && AllSpaces(indent)
    ensures Spells(StyledMembers(tc, ly, es, indent), MemberLexemes(tc, es))
    decreases es
  {
    if es != [] {
      StyledValueSpells(tc, ly, es[0], indent, false);
      var first := FirstMemberSpells(tc, ly, es[0], indent);
      if |es| > 1 {
        StyledMembersSpell(tc, ly, es[1..], indent);
        SpellsSeparated(first, [KeyText(tc, es[0].key), [COLON]] + ValueLexemes(tc, es[0]),
                        [], StyledMembers(tc, ly, es[1..], indent), MemberLexemes(tc, es[1..]));
      }
    }
  }

  lemma FirstMemberSpells(tc: TextConfig, ly: Layout, m: Member, indent: bytes) returns (first: seq<Piece>)
    requires ly.Valid() && AllSpaces(indent)
    requires Spells(StyledValue(tc, ly, m, indent, false), ValueLexemes(tc, m))
    ensures first == ly.NewLine(indent, false) + [Lexeme(KeyText(tc, m.key))] + ly.ColonPieces() + StyledValue(tc, ly, m, indent, false)
    ensures Spells(first, [KeyText(tc, m.key), [COLON]] + ValueLexemes(tc, m))
  {
    var nl, key, colon, value :=
      ly.NewLine(indent, false), [Lexeme(KeyText(tc, m.key))], ly.ColonPieces(), StyledValue(tc, ly, m, indent, false);
    NewLineBlank(ly, indent, false);
    SpellsOne(KeyText(tc, m.key));
    ColonSpells(ly);
    SpellsConcat(nl, [], key, [KeyText(tc, m.key)]);
    SpellsConcat(nl + key, [] + [KeyText(tc, m.key)], colon, [[COLON]]);
    SpellsConcat(nl + key + colon, [] + [KeyText(tc, m.key)] + [[COLON]], value, ValueLexemes(tc, m));
    first := nl + key + colon + value;
    assert [] + [KeyText(tc, m.key)] + [[COLON]] == [KeyText(tc, m.key), [COLON]];
  }

  // ---- Without indentation the styled printer is the plain one ----

  lemma FlattenThree(a: seq<Piece>, b: seq<Piece>, c: seq<Piece>)
    ensures Flatten(a + b + c) == Flatten(a) + Flatten(b) + Flatten(c)
  {
    PiecesConcat(a + b, c);
    PiecesConcat(a, b);
  }

  lemma FlattenOne(text: bytes)
    ensures Flatten([Lexeme(text)]) == text && Flatten([Gap(text)]) == text
  {
    assert [Lexeme(text)][1..] == [] && [Gap(text)][1..] == [];
  }

  lemma FlattenColon(ly: Layout)
    ensures Flatten(ly.ColonPieces()) == ly.ColonSymbol()
  {
    assert ly.ColonPieces() == [Gap(ly.colonBefore)] + [Lexeme([COLON])] + [Gap(ly.colonAfter)];
    FlattenThree([Gap(ly.colonBefore)], [Lexeme([COLON])], [Gap(ly.colonAfter)]);
    FlattenOne(ly.colonBefore);
    FlattenOne([COLON]);
    FlattenOne(ly.colonAfter);
  }

  lemma FlatIsFast(tc: TextConfig, colon: bytes, v: Value)
    requires Flat(v)
    ensures FlatText(tc, v) == FastText(tc, colon, v)
  {
    var ps := FlatPieces(tc, v);
    if v.Array? || v.Object? {
      assert ps == [ps[0]] + [ps[1]];
      PiecesConcat([ps[0]], [ps[1]]);
      FlattenOne(ps[0].text);
      FlattenOne(ps[1].text);
    } else {
      FlattenOne(ps[0].text);
    }
  }

  /** With empty indentation the styled text is, byte for byte, the plain printer's. */
  lemma {:induction false} StyledIsFast(tc: TextConfig, ly: Layout, v: Value, indent: bytes, indented: bool)
    requires ly.indentation == []
    ensures Flatten(Styled(tc, ly, v, indent, indented)) == FastText(tc, ly.ColonSymbol(), v)
    decreases v
  {
    var colon := ly.ColonSymbol();
    if Flat(v) {
      FlatIsFast(tc, colon, v);
    } else if v.Object? {
      StyledMembersAreFast(tc, ly, v.entries, indent);
      Bracketed(StyledMembers(tc, ly, v.entries, indent), [LBRACE], [RBRACE]);
      assert indent + ly.indentation == indent;
    } else if ly.allComments || TooLong(tc, v.entries) {
      StyledElementsAreFast(tc, ly, v.entries, indent);
      Bracketed(StyledElements(tc, ly, v.entries, indent), [LBRACKET], [RBRACKET]);
      assert indent + ly.indentation == indent;
    } else {
      LineElementsAreFast(tc, ly, v.entries);
      Bracketed(LineElements(tc, ly, v.entries), [LBRACKET], [RBRACKET]);
    }
  }

  lemma Bracketed(inner: seq<Piece>, open: bytes, close: bytes)
    ensures var e: seq<Piece> := [];
            && Flatten(e + [Lexeme(open)] + inner + e + [Lexeme(close)]) == open + Flatten(inner) + close
            && Flatten([Lexeme(open)] + e + inner + e + [Lexeme(close)]) == open + Flatten(inner) + close
  {
    hide Flatten;
    var e: seq<Piece> := [];
    FlattenThree([Lexeme(open)], inner, [Lexeme(close)]);
    FlattenOne(open);
    FlattenOne(close);
    assert e + [Lexeme(open)] + inner + e + [Lexeme(close)] == [Lexeme(open)] + inner + [Lexeme(close)];
    assert [Lexeme(open)] + e + inner + e + [Lexeme(close)] == [Lexeme(open)] + inner + [Lexeme(close)];
  }

  lemma StyledValueIsFast(tc: TextConfig, ly: Layout, m: Member, indent: bytes, indented: bool)
    requires ly.indentation == []
    ensures Flatten(StyledValue(tc, ly, m, indent, indented)) == FastValue(tc, ly.ColonSymbol(), m)
    decreases m
  {
    StyledIsFast(tc, ly, m.value, indent, indented);
  }

  lemma SeparatedFlatten(first: seq<Piece>, rest: seq<Piece>)
    ensures var e: seq<Piece> := [];
            && Flatten(first + ([Lexeme([COMMA])] + rest)) == Flatten(first) + ([COMMA] + Flatten(rest))
            && Flatten(first + ([Lexeme([COMMA])] + e + rest)) == Flatten(first) + ([COMMA] + Flatten(rest))
  {
    hide Flatten;
    var e: seq<Piece> := [];
    PiecesConcat(first, [Lexeme([COMMA])] + rest);
    PiecesConcat([Lexeme([COMMA])], rest);
    FlattenOne([COMMA]);
    assert [Lexeme([COMMA])] + e + rest == [Lexeme([COMMA])] + rest;
  }

  lemma {:induction false} StyledElementsAreFast(tc: TextConfig, ly: Layout, es: seq<Member>, indent: bytes)
    requires ly.indentation == []
    ensures Flatten(StyledElements(tc, ly, es, indent)) == FastElements(tc, ly.ColonSymbol(), es)
    decreases es
  {
    if es != [] {
      StyledValueIsFast(tc, ly, es[0], indent, true);
      var first := ly.NewLine(indent, false) + StyledValue(tc, ly, es[0], indent, true);
      assert first == StyledValue(tc, ly, es[0], indent, true);
      if |es| > 1 {
        StyledElementsAreFast(tc, ly, es[1..], indent);
        SeparatedFlatten(first, StyledElements(tc, ly, es[1..], indent));
      }
    }
  }

  lemma {:induction false} LineElementsAreFast(tc: TextConfig, ly: Layout, es: seq<Member>)
    requires ly.indentation == [] && AllFlat(es)
    ensures Flatten(LineElements(tc, ly, es)) == FastElements(tc, ly.ColonSymbol(), es)
    decreases |es|
  {
    if es != [] {
      var v := es[0].value;
      assert Flat(v);
      FlatIsFast(tc, ly.ColonSymbol(), v);
      assert FastValue(tc, ly.ColonSymbol(), es[0]) == FastText(tc, ly.ColonSymbol(), v);
      if |es| > 1 {
        LineElementsAreFast(tc, ly, es[1..]);
        SeparatedFlatten(FlatPieces(tc, v), LineElements(tc, ly, es[1..]));
      }
    }
  }

  lemma {:induction false} StyledMembersAreFast(tc: TextConfig, ly: Layout, es: seq<Member>, indent: bytes)
    requires ly.indentation == []
    ensures Flatten(StyledMembers(tc, ly, es, indent)) == FastMembers(tc, ly.ColonSymbol(), es)
    decreases es
  {
    if es != [] {
      StyledValueIsFast(tc, ly, es[0], indent, false);
      var key, value := [Lexeme(KeyText(tc, es[0].key))], StyledValue(tc, ly, es[0], indent, false);
      var first := ly.NewLine(indent, false) + key + ly.ColonPieces() + value;
      assert first == key + ly.ColonPieces() + value;
      FlattenThree(key, ly.ColonPieces(), value);
      FlattenOne(KeyText(tc, es[0].key));
      FlattenColon(ly);
      if |es| > 1 {
        StyledMembersAreFast(tc, ly, es[1..], indent);
        SeparatedFlatten(first, StyledMembers(tc, ly, es[1..], indent));
      }
    }
  }
}
