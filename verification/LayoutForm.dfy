/**
 The layout of styled text: every line is indented by the nesting it begins in.
 */
module LayoutForm {
  import opened Bytes
  import opened Values
  import opened ValueArray
  import opened Quoting
  import opened Decimal
  import opened JsonText

  function Repeat(s: bytes, n: nat): bytes {
    if n == 0 then [] else Repeat(s, n - 1) + s
  }

  predicate Opens(p: Piece) {
    p == Lexeme([91]) || p == Lexeme([123])
  }

  predicate Closes(p: Piece) {
    p == Lexeme([93]) || p == Lexeme([125])
  }

  /** How many containers are open behind these pieces. */
  function Nested(ps: seq<Piece>, depth: int): int {
    if ps == [] then depth
    else Nested(ps[1..], if Opens(ps[0]) then depth + 1 else if Closes(ps[0]) then depth - 1 else depth)
  }

  /**
   A line break is followed by one indentation for each container that is open, not
   counting one whose closing bracket or brace comes next.
   */
  predicate Tidy(indentation: bytes, ps: seq<Piece>, depth: int) {
    ps != [] ==>
      && (ps[0].Gap? && 10 in ps[0].spaces ==>
            var level := if |ps| > 1 && Closes(ps[1]) then depth - 1 else depth;
            level >= 0 && ps[0].spaces == [10] + Repeat(indentation, level))
      && Tidy(indentation, ps[1..], if Opens(ps[0]) then depth + 1 else if Closes(ps[0]) then depth - 1 else depth)
  }

  /** Pieces that may stand in front of anything, and do not begin with a closing bracket. */
  predicate Solid(ps: seq<Piece>) {
    ps != [] && ps[|ps| - 1].Lexeme? && !Closes(ps[0])
  }

  lemma {:induction false} TidyConcat(indentation: bytes, a: seq<Piece>, b: seq<Piece>, depth: int)
    requires Tidy(indentation, a, depth) && Tidy(indentation, b, Nested(a, depth))
    requires a == [] || a[|a| - 1].Lexeme? || b == [] || !Closes(b[0])
    ensures Tidy(indentation, a + b, depth) && Nested(a + b, depth) == Nested(b, Nested(a, depth))
    decreases |a|
  {
    hide Repeat;
    if a == [] {
      assert a + b == b;
    } else {
      var next := if Opens(a[0]) then depth + 1 else if Closes(a[0]) then depth - 1 else depth;
      assert (a + b)[1..] == a[1..] + b;
      TidyConcat(indentation, a[1..], b, next);
    }
  }

  /** Three things that are shown of each part of the text. */
  predicate Fits(indentation: bytes, ps: seq<Piece>, depth: int) {
    Tidy(indentation, ps, depth) && Nested(ps, depth) == depth && Solid(ps)
  }

  lemma FitsConcat(indentation: bytes, a: seq<Piece>, b: seq<Piece>, depth: int)
    requires Fits(indentation, a, depth) && Fits(indentation, b, depth)
    ensures Fits(indentation, a + b, depth)
  {
    TidyConcat(indentation, a, b, depth);
  }

  /** Whitespace, or a line break, in front of a part. */
  lemma GapThen(indentation: bytes, gap: seq<Piece>, b: seq<Piece>, depth: int)
    requires Fits(indentation, b, depth) && |gap| <= 1
    requires gap != [] ==> gap[0].Gap? && (10 in gap[0].spaces ==> depth >= 0 && gap[0].spaces == [10] + Repeat(indentation, depth))
    ensures Fits(indentation, gap + b, depth)
  {
    if gap != [] {
      assert gap[1..] == [];
    }
    TidyConcat(indentation, gap, b, depth);
    assert gap + b == if gap == [] then b else gap + b;
  }

  lemma LexemeFits(indentation: bytes, text: bytes, depth: int)
    requires !Opens(Lexeme(text)) && !Closes(Lexeme(text))
    ensures Fits(indentation, [Lexeme(text)], depth)
  {
    assert [Lexeme(text)][1..] == [];
  }

  /** Brackets around a part that is one level deeper, with whitespace before the closing one. */
  lemma Bracketed(indentation: bytes, open: byte, inner: seq<Piece>, gap: seq<Piece>, close: byte, depth: int)
    requires (open == 91 && close == 93) || (open == 123 && close == 125)
    requires Fits(indentation, inner, depth + 1) && |gap| <= 1
    requires gap != [] ==> gap[0].Gap? && (10 in gap[0].spaces ==> depth >= 0 && gap[0].spaces == [10] + Repeat(indentation, depth))
    ensures Fits(indentation, [Lexeme([open])] + inner + gap + [Lexeme([close])], depth)
  {
    hide Repeat, Opens, Closes;
    var first, last := [Lexeme([open])], [Lexeme([close])];
    BracketKinds(open, close);
    OneLexeme(indentation, [open], depth);
    TidyConcat(indentation, first, inner, depth);
    ClosingLine(indentation, gap, close, depth);
    TidyConcat(indentation, first + inner, gap + last, depth);
    assert first + inner + gap + last == first + inner + (gap + last);
  }

  lemma BracketKinds(open: byte, close: byte)
    requires (open == 91 && close == 93) || (open == 123 && close == 125)
    ensures Opens(Lexeme([open])) && !Closes(Lexeme([open])) && Closes(Lexeme([close])) && !Opens(Lexeme([close]))
  {
  }

  lemma OneLexeme(indentation: bytes, text: bytes, depth: int)
    ensures Tidy(indentation, [Lexeme(text)], depth)
    ensures Nested([Lexeme(text)], depth)
         == if Opens(Lexeme(text)) then depth + 1 else if Closes(Lexeme(text)) then depth - 1 else depth
  {
    assert [Lexeme(text)][1..] == [];
  }

  lemma ClosingLine(indentation: bytes, gap: seq<Piece>, close: byte, depth: int)
    requires close == 93 || close == 125
    requires |gap| <= 1
    requires gap != [] ==> gap[0].Gap? && (10 in gap[0].spaces ==> depth >= 0 && gap[0].spaces == [10] + Repeat(indentation, depth))
    ensures var end := gap + [Lexeme([close])];
            Tidy(indentation, end, depth + 1) && Nested(end, depth + 1) == depth
  {
    hide Repeat;
    var last := [Lexeme([close])];
    OneLexeme(indentation, [close], depth + 1);
    assert (gap + last)[1..] == if gap == [] then [] else last;
    assert gap == [] ==> gap + last == last;
    assert gap != [] ==> (gap + last)[1] == last[0];
  }

  lemma FlatFits(tc: TextConfig, ly: Layout, v: Value, depth: nat)
    requires Flat(v) && PlainTexts(tc)
    ensures Fits(ly.indentation, FlatPieces(tc, v), depth)
  {
    var ps := FlatPieces(tc, v);
    if v.Array? || v.Object? {
      OneLexeme(ly.indentation, ps[0].text, depth);
      OneLexeme(ly.indentation, ps[1].text, depth + 1);
      assert ps[1..] == [ps[1]];
    } else {
      ScalarPlain(tc, v);
      LexemeFits(ly.indentation, ps[0].text, depth);
    }
  }

  /** The texts for null and for doubles are no brackets. */
  ghost predicate PlainTexts(tc: TextConfig) {
    IsPlain(tc.nullText) && forall bits :: IsPlain(tc.realText(bits))
  }

  predicate IsPlain(text: bytes) {
    !Opens(Lexeme(text)) && !Closes(Lexeme(text))
  }

  lemma ScalarPlain(tc: TextConfig, v: Value)
    requires PlainTexts(tc) && !v.Array? && !v.Object?
    ensures IsPlain(ScalarText(tc, v))
  {
    hide Digits, Body;
    match v
    case Int(i) => IntPlain(i);
    case UInt(i) => IntPlain(i);
    case _ =>
  }

  lemma IntPlain(i: int)
    ensures IsPlain(IntText(i))
  {
    var t := IntText(i);
    assert t[0] == MINUS || IsDigit(t[0]);
  }

  /** The colon symbol holds no line breaks. */
  predicate OneLineColon(ly: Layout) {
    10 !in ly.colonBefore && 10 !in ly.colonAfter
  }

  /** The whole text of a value, at the indent of its depth. */
  lemma {:induction false} StyledTidy(tc: TextConfig, ly: Layout, v: Value, depth: nat, indented: bool)
    requires PlainTexts(tc) && OneLineColon(ly)
    ensures Fits(ly.indentation, Styled(tc, ly, v, Repeat(ly.indentation, depth), indented), depth)
    decreases v
  {
    hide Fits, TooLong, PlainTexts, FlatPieces;
    var indent := Repeat(ly.indentation, depth);
    if Flat(v) {
      FlatFits(tc, ly, v, depth);
    } else {
      var es := v.entries;
      assert indent + ly.indentation == Repeat(ly.indentation, depth + 1);
      if v.Object? {
        MembersTidy(tc, ly, es, depth + 1);
        Bracketed(ly.indentation, 123, StyledMembers(tc, ly, es, indent + ly.indentation), ly.NewLine(indent, false), 125, depth);
        OnNewLine(ly, depth, indented, [Lexeme([LBRACE])] + StyledMembers(tc, ly, es, indent + ly.indentation) + ly.NewLine(indent, false) + [Lexeme([RBRACE])]);
        Grouped(ly.NewLine(indent, indented), [Lexeme([LBRACE])], StyledMembers(tc, ly, es, indent + ly.indentation), ly.NewLine(indent, false), [Lexeme([RBRACE])]);
      } else if ly.allComments || TooLong(tc, es) {
        ElementsTidy(tc, ly, es, depth + 1);
        Bracketed(ly.indentation, 91, StyledElements(tc, ly, es, indent + ly.indentation), ly.NewLine(indent, false), 93, depth);
        OnNewLine(ly, depth, indented, [Lexeme([LBRACKET])] + StyledElements(tc, ly, es, indent + ly.indentation) + ly.NewLine(indent, false) + [Lexeme([RBRACKET])]);
        Grouped(ly.NewLine(indent, indented), [Lexeme([LBRACKET])], StyledElements(tc, ly, es, indent + ly.indentation), ly.NewLine(indent, false), [Lexeme([RBRACKET])]);
      } else {
        NotTooLong(tc, es);
        LineTidy(tc, ly, es, depth);
      }
    }
  }

  lemma NotTooLong(tc: TextConfig, es: seq<Member>)
    requires !TooLong(tc, es)
    ensures AllFlat(es)
  {
  }

  lemma Grouped(a: seq<Piece>, b: seq<Piece>, c: seq<Piece>, d: seq<Piece>, e: seq<Piece>)
    ensures a + b + c + d + e == a + (b + c + d + e)
  {
  }

  lemma OnNewLine(ly: Layout, depth: nat, indented: bool, ps: seq<Piece>)
    requires Fits(ly.indentation, ps, depth)
    ensures Fits(ly.indentation, ly.NewLine(Repeat(ly.indentation, depth), indented) + ps, depth)
  {
    GapThen(ly.indentation, ly.NewLine(Repeat(ly.indentation, depth), indented), ps, depth);
  }

  lemma LineTidy(tc: TextConfig, ly: Layout, es: seq<Member>, depth: nat)
    requires PlainTexts(tc) && es != [] && AllFlat(es)
    ensures Fits(ly.indentation, [Lexeme([LBRACKET])] + ly.Padding() + LineElements(tc, ly, es) + ly.Padding() + [Lexeme([RBRACKET])], depth)
  {
    hide Fits, PlainTexts;
    LineElementsTidy(tc, ly, es, depth + 1);
    GapThen(ly.indentation, ly.Padding(), LineElements(tc, ly, es), depth + 1);
    Bracketed(ly.indentation, 91, ly.Padding() + LineElements(tc, ly, es), ly.Padding(), 93, depth);
    assert [Lexeme([LBRACKET])] + (ly.Padding() + LineElements(tc, ly, es))
        == [Lexeme([LBRACKET])] + ly.Padding() + LineElements(tc, ly, es);
  }

  lemma {:induction false} LineElementsTidy(tc: TextConfig, ly: Layout, es: seq<Member>, depth: nat)
    requires PlainTexts(tc) && es != [] && AllFlat(es)
    ensures Fits(ly.indentation, LineElements(tc, ly, es), depth)
    decreases |es|
  {
    hide Fits, PlainTexts, FlatPieces;
    FlatFits(tc, ly, es[0].value, depth);
    if |es| > 1 {
      LineElementsTidy(tc, ly, es[1..], depth);
      GapThen(ly.indentation, ly.Padding(), LineElements(tc, ly, es[1..]), depth);
      Separated(ly, FlatPieces(tc, es[0].value), ly.Padding() + LineElements(tc, ly, es[1..]), depth);
      assert [Lexeme([COMMA])] + (ly.Padding() + LineElements(tc, ly, es[1..]))
          == [Lexeme([COMMA])] + ly.Padding() + LineElements(tc, ly, es[1..]);
    }
  }

  lemma Separated(ly: Layout, a: seq<Piece>, b: seq<Piece>, depth: nat)
    requires Fits(ly.indentation, a, depth) && Fits(ly.indentation, b, depth)
    ensures Fits(ly.indentation, a + ([Lexeme([COMMA])] + b), depth)
  {
    hide Fits;
    LexemeFits(ly.indentation, [COMMA], depth);
    FitsConcat(ly.indentation, [Lexeme([COMMA])], b, depth);
    FitsConcat(ly.indentation, a, [Lexeme([COMMA])] + b, depth);
  }

  lemma ValueTidy(tc: TextConfig, ly: Layout, m: Member, depth: nat, indented: bool)
    requires PlainTexts(tc) && OneLineColon(ly)
    ensures Fits(ly.indentation, StyledValue(tc, ly, m, Repeat(ly.indentation, depth), indented), depth)
    decreases m
  {
    hide Fits, PlainTexts, Styled;
    StyledTidy(tc, ly, m.value, depth, indented);
  }

  lemma {:induction false} ElementsTidy(tc: TextConfig, ly: Layout, es: seq<Member>, depth: nat)
    requires PlainTexts(tc) && OneLineColon(ly) && es != []
    ensures Fits(ly.indentation, StyledElements(tc, ly, es, Repeat(ly.indentation, depth)), depth)
    decreases es
  {
    hide Fits, PlainTexts, StyledValue;
    var indent := Repeat(ly.indentation, depth);
    ValueTidy(tc, ly, es[0], depth, true);
    OnNewLine(ly, depth, false, StyledValue(tc, ly, es[0], indent, true));
    if |es| > 1 {
      ElementsTidy(tc, ly, es[1..], depth);
      Separated(ly, ly.NewLine(indent, false) + StyledValue(tc, ly, es[0], indent, true), StyledElements(tc, ly, es[1..], indent), depth);
    }
  }

  lemma {:induction false} MembersTidy(tc: TextConfig, ly: Layout, es: seq<Member>, depth: nat)
    requires PlainTexts(tc) && OneLineColon(ly) && es != []
    ensures Fits(ly.indentation, StyledMembers(tc, ly, es, Repeat(ly.indentation, depth)), depth)
    decreases es
  {
    hide Fits, PlainTexts, StyledValue, KeyText;
    var indent := Repeat(ly.indentation, depth);
    var name, value := [Lexeme(KeyText(tc, es[0].key))], StyledValue(tc, ly, es[0], indent, false);
    ValueTidy(tc, ly, es[0], depth, false);
    KeyPlain(tc, es[0].key);
    LexemeFits(ly.indentation, KeyText(tc, es[0].key), depth);
    ColonTidy(ly, name, value, depth);
    OnNewLine(ly, depth, false, name + (ly.ColonPieces() + value));
    var first := ly.NewLine(indent, false) + name + ly.ColonPieces() + value;
    assert first == ly.NewLine(indent, false) + (name + (ly.ColonPieces() + value));
    if |es| > 1 {
      MembersTidy(tc, ly, es[1..], depth);
      Separated(ly, first, StyledMembers(tc, ly, es[1..], indent), depth);
    }
  }

  lemma KeyPlain(tc: TextConfig, k: Key)
    ensures IsPlain(KeyText(tc, k))
  {
    hide Body;
  }

  lemma ColonTidy(ly: Layout, name: seq<Piece>, value: seq<Piece>, depth: nat)
    requires Fits(ly.indentation, name, depth) && Fits(ly.indentation, value, depth) && OneLineColon(ly)
    ensures Fits(ly.indentation, name + (ly.ColonPieces() + value), depth)
  {
    hide Fits;
    GapThen(ly.indentation, [Gap(ly.colonAfter)], value, depth);
    LexemeFits(ly.indentation, [COLON], depth);
    FitsConcat(ly.indentation, [Lexeme([COLON])], [Gap(ly.colonAfter)] + value, depth);
    GapThen(ly.indentation, [Gap(ly.colonBefore)], [Lexeme([COLON])] + ([Gap(ly.colonAfter)] + value), depth);
    assert [Gap(ly.colonBefore)] + ([Lexeme([COLON])] + ([Gap(ly.colonAfter)] + value)) == ly.ColonPieces() + value;
    FitsConcat(ly.indentation, name, ly.ColonPieces() + value, depth);
  }

  /** An array stands on one line exactly if it has at most 24 elements, none of them a filled container, and fits into 73 columns. */
  lemma OneLineIff(tc: TextConfig, es: seq<Member>)
    requires es != [] && |es| < 0x1000_0000 && (AllFlat(es) ==> TextLength(tc, es) < 0x4000_0000)
    ensures !TooLong(tc, es) <==> |es| <= 24 && AllFlat(es) && 2 + |es| * 2 + TextLength(tc, es) <= 73
  {
  }

  // ---- A text ----

  const TAB_LAYOUT: Layout := Layout([9], false, [32], [32])

  lemma NameText(tc: TextConfig)
    ensures KeyText(tc, Name([97])) == [34, 97, 34]
  {
    var s: bytes := [97];
    assert RequiresQuoting(s[0], tc.charIsSigned);
    assert Escaped(s, 1) == [];
    assert Escaped(s, 0) == [97];
  }

  /** `[ 1, 2 ]`: a short array stands on one line, with spaces inside the brackets. */
  lemma ShortArray(tc: TextConfig, indent: bytes, indented: bool)
    ensures Styled(tc, TAB_LAYOUT, Array([Member(Index(0), Int(1)), Member(Index(1), Int(2))]), indent, indented)
         == [Lexeme([91]), Gap([32]), Lexeme([49]), Lexeme([44]), Gap([32]), Lexeme([50]), Gap([32]), Lexeme([93])]
  {
    var es := [Member(Index(0), Int(1)), Member(Index(1), Int(2))];
    assert IntText(1) == [49] && IntText(2) == [50];
    var one, two := FlatPieces(tc, es[0].value), FlatPieces(tc, es[1].value);
    assert one[1..] == [] && two[1..] == [] && Flatten([]) == [];
    assert es[..1] == [es[0]] && es[1..] == [es[1]] && es[..1][..0] == [];
    assert FlatText(tc, Int(1)) == [49] && FlatText(tc, Int(2)) == [50];
    assert TextLength(tc, es[..1][..0]) == 0 && TextLength(tc, es[..1]) == 1 && TextLength(tc, es) == 2;
    assert LineElements(tc, TAB_LAYOUT, es[1..]) == two;
  }

  lemma TabLines()
    ensures TAB_LAYOUT.NewLine([9], false) == [Gap([10, 9])] && TAB_LAYOUT.NewLine([9] + [9], false) == [Gap([10, 9, 9])]
    ensures TAB_LAYOUT.NewLine([], true) == [] && TAB_LAYOUT.NewLine([], false) == [Gap([10])]
    ensures TAB_LAYOUT.ColonPieces() == [Gap([32]), Lexeme([58]), Gap([32])]
  {
    assert [LF] + [9] == [10, 9] && [LF] + ([9] + [9]) == [10, 9, 9] && [LF] + [] == [10];
  }

  /** A member stands on its own line, and a filled object below its name. */
  lemma InnerObject(tc: TextConfig)
    ensures Styled(tc, TAB_LAYOUT, Object([Member(Name([97]), Bool(true))]), [9], false)
         == [Gap([10, 9]), Lexeme([123]), Gap([10, 9, 9]), Lexeme([34, 97, 34]), Gap([32]), Lexeme([58]), Gap([32]),
             Lexeme([116, 114, 117, 101]), Gap([10, 9]), Lexeme([125])]
  {
    hide KeyText;
    NameText(tc);
    TabLines();
    var m := Member(Name([97]), Bool(true));
    assert StyledValue(tc, TAB_LAYOUT, m, [9] + [9], false) == [Lexeme([116, 114, 117, 101])];
  }

  /** The layout of `{"a":{"a":true}}` with a tab for indentation. */
  lemma StyledExample(tc: TextConfig)
    ensures Styled(tc, TAB_LAYOUT, Object([Member(Name([97]), Object([Member(Name([97]), Bool(true))]))]), [], true)
         == [Lexeme([123]), Gap([10, 9]), Lexeme([34, 97, 34]), Gap([32]), Lexeme([58]), Gap([32])]
            + [Gap([10, 9]), Lexeme([123]), Gap([10, 9, 9]), Lexeme([34, 97, 34]), Gap([32]), Lexeme([58]), Gap([32]),
               Lexeme([116, 114, 117, 101]), Gap([10, 9]), Lexeme([125])]
            + [Gap([10]), Lexeme([125])]
  {
    hide KeyText;
    NameText(tc);
    TabLines();
    InnerObject(tc);
    assert [] + [9] == [9];
    var m := Member(Name([97]), Object([Member(Name([97]), Bool(true))]));
    assert StyledValue(tc, TAB_LAYOUT, m, [9], false) == Styled(tc, TAB_LAYOUT, m.value, [9], false);
  }
}
