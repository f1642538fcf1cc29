/**
 Every text of the grammar of RFC 8259, with any whitespace between its lexemes, is read
 as the value it denotes, or is rejected if a number does not convert or a high surrogate
 escape stands alone.
 */
module GrammarReading {
  import opened Bytes
  import opened Values
  import opened ValueArray
  import opened Quoting
  import opened Decimal
  import opened Lexer
  import opened JsonText
  import opened JsonGrammar
  import Spec = ReaderSpec

  // ---- Walking through the pieces ----

  /** From pos on, the document is exactly these pieces. */
  ghost predicate Sees(doc: bytes, pos: nat, ps: seq<Piece>) {
    pos <= |doc| && doc[pos..] == Flatten(ps) && Blank(ps)
  }

  lemma SeesRest(doc: bytes, pos: nat, ps: seq<Piece>)
    requires Sees(doc, pos, ps) && ps != []
    ensures Holds(doc, pos, PieceText(ps[0]))
    ensures Sees(doc, pos + |PieceText(ps[0])|, ps[1..])
  {
    var t := PieceText(ps[0]);
    assert doc[pos..] == t + Flatten(ps[1..]);
    assert doc[pos..pos + |t|] == doc[pos..][..|t|] == t;
    assert doc[pos + |t|..] == doc[pos..][|t|..] == Flatten(ps[1..]);
  }

  predicate StartsToken(x: bytes) {
    x != [] && !IsSpace(x[0]) && x[0] != SLASH
  }

  /** Skipping the whitespace before the next lexeme. */
  lemma {:induction false} Strip(doc: bytes, pos: nat, ps: seq<Piece>) returns (qs: seq<Piece>)
    requires Sees(doc, pos, ps) && Lexemes(ps) != [] && StartsToken(Lexemes(ps)[0])
    ensures var p := SkipSpaces(doc, pos);
            && Sees(doc, p, qs) && Lexemes(qs) == Lexemes(ps)
            && qs != [] && qs[0] == Lexeme(Lexemes(ps)[0])
            && SkipSpaces(doc, p) == p < |doc| && doc[p] == Lexemes(ps)[0][0]
    decreases |ps|
  {
    hide Flatten, Holds;
    SeesRest(doc, pos, ps);
    if ps[0].Gap? {
      SkipSpacesOver(doc, pos, ps[0].spaces);
      qs := Strip(doc, pos + |ps[0].spaces|, ps[1..]);
    } else {
      qs := ps;
      HoldsAt(doc, pos, ps[0].text);
      assert doc[pos + 0] == ps[0].text[0];
    }
  }

  /** The next lexeme is found where the whitespace ends, and the rest follows it. */
  lemma Next(doc: bytes, pos: nat, ps: seq<Piece>, x: bytes, rest: seq<bytes>) returns (p: nat, qs: seq<Piece>)
    requires Sees(doc, pos, ps) && Lexemes(ps) == [x] + rest && StartsToken(x)
    ensures p == SkipSpaces(doc, pos) < |doc| && Holds(doc, p, x) && doc[p] == x[0]
    ensures Sees(doc, p + |x|, qs) && Lexemes(qs) == rest
  {
    var stripped := Strip(doc, pos, ps);
    p := SkipSpaces(doc, pos);
    SeesRest(doc, p, stripped);
    qs := stripped[1..];
    assert Lexemes(stripped)[1..] == rest;
  }

  /** What may follow a value inside a document. */
  predicate EndsValue(rest: seq<bytes>) {
    rest != [] ==> rest[0] in [[COMMA], [RBRACKET], [RBRACE]]
  }

  lemma {:induction false} NothingContinues(doc: bytes, pos: nat, ps: seq<Piece>)
    requires Sees(doc, pos, ps) && EndsValue(Lexemes(ps))
    ensures EndsNumber(doc, pos)
    decreases |ps|
  {
    if ps == [] {
      assert doc[pos..] == [];
    } else {
      SeesRest(doc, pos, ps);
      var t := PieceText(ps[0]);
      if t == [] {
        NothingContinues(doc, pos, ps[1..]);
      } else {
        HoldsAt(doc, pos, t);
        assert doc[pos + 0] == t[0];
      }
    }
  }

  /** Whitespace up to the end is skipped. */
  lemma {:induction false} SpacesToEnd(doc: bytes, pos: nat, ps: seq<Piece>)
    requires Sees(doc, pos, ps) && Lexemes(ps) == []
    ensures SkipSpaces(doc, pos) == |doc|
    decreases |ps|
  {
    if ps == [] {
      assert |doc[pos..]| == 0;
    } else {
      hide Flatten, Holds;
      SeesRest(doc, pos, ps);
      SkipSpacesOver(doc, pos, ps[0].spaces);
      SpacesToEnd(doc, pos + |ps[0].spaces|, ps[1..]);
    }
  }

  // ---- Punctuation and literals ----

  lemma ReadPunctuation(doc: bytes, pos: nat, ps: seq<Piece>, c: byte, kind: TokenType, rest: seq<bytes>)
    returns (qs: seq<Piece>)
    requires Sees(doc, pos, ps) && Lexemes(ps) == [[c]] + rest
    requires PunctuationType(c) == Some(kind) && kind != EndOfStream
    ensures var t := Lexer.ReadToken(doc, pos);
            t.kind == kind && Sees(doc, t.end, qs) && Lexemes(qs) == rest && SkipComments(doc, pos) == t
  {
    var p;
    p, qs := Next(doc, pos, ps, [c], rest);
  }

  lemma ReadLiteral(doc: bytes, pos: nat, ps: seq<Piece>, text: bytes, kind: TokenType, rest: seq<bytes>) returns (qs: seq<Piece>)
    requires Sees(doc, pos, ps) && Lexemes(ps) == [text] + rest
    requires (text, kind) in [(TRUE_TEXT, True), (FALSE_TEXT, False), (NULL_TEXT, NullToken)]
    ensures var t := Lexer.ReadToken(doc, pos);
            t.kind == kind && Sees(doc, t.end, qs) && Lexemes(qs) == rest && SkipComments(doc, pos) == t
  {
    var p;
    p, qs := Next(doc, pos, ps, text, rest);
    LiteralTokenAt(doc, p, text, kind);
  }

  // ---- Strings ----

  lemma {:induction false} CharsClosed(cs: seq<Char>)
    requires AllSpelled(cs)
    ensures Closed(CharsText(cs))
    decreases |cs|
  {
    if cs != [] {
      CharClosed(cs[0]);
      CharsClosed(cs[1..]);
      ClosedConcat(CharText(cs[0]), CharsText(cs[1..]));
    }
  }

  lemma CharClosed(c: Char)
    requires Spelled(c)
    ensures Closed(CharText(c))
  {
    var text := CharText(c);
    if c.Plain? {
      assert text[1..] == [];
    } else if c.Short? {
      assert text[2..] == [];
    } else {
      PlainClosed(c.digits);
      assert text[2..] == c.digits;
    }
  }

  /** The reader's tables are those of the grammar. */
  lemma EscapeLetters(letter: byte)
    ensures Unescape(letter) == EscapeMeaning(letter)
  {
  }

  lemma HexDigits(c: byte)
    ensures HexValue(c) == HexDigitMeaning(c)
  {
  }

  lemma Encoded(cp: nat)
    requires cp < 0x11_0000
    ensures CodePointToUTF8(cp) == Utf8(cp)
  {
  }

  lemma EscapeSequenceOfDigits(doc: bytes, p: nat, end: nat, ds: bytes)
    requires Spelled(Hex(ds)) && Holds(doc, p, ds) && p + 4 <= end <= |doc|
    ensures EscapeSequence(doc, p, end) == Unit(HexCode(ds), p + 4)
  {
    hide HexValue, HexDigitMeaning;
    HoldsAt(doc, p, ds);
    HexDigits(ds[0]);
    HexDigits(ds[1]);
    HexDigits(ds[2]);
    HexDigits(ds[3]);
    var a, b, c, d := DigitOf(ds[0]), DigitOf(ds[1]), DigitOf(ds[2]), DigitOf(ds[3]);
    assert doc[p + 0] == ds[0] && doc[p + 1] == ds[1] && doc[p + 2] == ds[2] && doc[p + 3] == ds[3];
    assert HexRun(doc, p + 4, p + 4, ((a * 16 + b) * 16 + c) * 16 + d) == Unit(HexCode(ds), p + 4);
    assert HexRun(doc, p + 2, p + 4, a * 16 + b) == Unit(HexCode(ds), p + 4);
    assert HexRun(doc, p, p + 4, 0) == HexRun(doc, p + 1, p + 4, a);
  }

  /** A \u escape at this place. */
  lemma HexAt(doc: bytes, p: nat, end: nat, c: Char)
    requires c.Hex? && Spelled(c) && Holds(doc, p, CharText(c)) && p + 6 <= end <= |doc|
    ensures doc[p] == BACKSLASH && doc[p + 1] == 117
    ensures EscapeSequence(doc, p + 2, end) == Unit(HexCode(c.digits), p + 6)
  {
    HoldsSplit(doc, p, [BACKSLASH, 117], c.digits);
    HoldsAt(doc, p, [BACKSLASH, 117]);
    assert doc[p + 0] == BACKSLASH && doc[p + 1] == 117;
    EscapeSequenceOfDigits(doc, p + 2, end, c.digits);
  }

  /** One character that is not half of a pair. */
  lemma DecodeChar(doc: bytes, p: nat, end: nat, c: Char)
    requires Spelled(c) && !IsHigh(c) && Holds(doc, p, CharText(c)) && p + |CharText(c)| <= end <= |doc|
    ensures Decode(doc, p, end) == Prepend(CharMeaning(c), Decode(doc, p + |CharText(c)|, end))
  {
    hide EscapeSequence, CodePointToUTF8, Utf8, EscapeMeaning, Unescape;
    HoldsAt(doc, p, CharText(c));
    assert doc[p + 0] == CharText(c)[0];
    if c.Short? {
      assert doc[p + 1] == CharText(c)[1];
      EscapeLetters(c.letter);
      NoEscapeU();
    } else if c.Hex? {
      HexAt(doc, p, end, c);
      HexCodeBound(c.digits);
      Encoded(HexCode(c.digits));
    }
  }

  lemma NoEscapeU()
    ensures EscapeMeaning(117).None?
  {
  }

  lemma CodePointOfPair(doc: bytes, p: nat, end: nat, high: Char, low: Char)
    requires Spelled(high) && Spelled(low) && IsHigh(high) && low.Hex?
    requires Holds(doc, p, CharText(high)) && Holds(doc, p + 6, CharText(low)) && p + 12 <= end <= |doc|
    ensures doc[p] == BACKSLASH && doc[p + 1] == 117
    ensures CodePoint(doc, p + 2, end) == Unit(PairCode(HexCode(high.digits), HexCode(low.digits)), p + 12)
  {
    hide EscapeSequence, HexCode, Holds, Spelled, CharText;
    HexAt(doc, p, end, high);
    HexAt(doc, p + 6, end, low);
    assert HexCode(high.digits) % 1024 == HexCode(high.digits) - 0xD800;
  }

  lemma DecodePair(doc: bytes, p: nat, end: nat, high: Char, low: Char)
    requires Spelled(high) && Spelled(low) && IsHigh(high) && low.Hex?
    requires Holds(doc, p, CharText(high)) && Holds(doc, p + 6, CharText(low)) && p + 12 <= end <= |doc|
    ensures Decode(doc, p, end)
         == Prepend(Utf8(PairCode(HexCode(high.digits), HexCode(low.digits))), Decode(doc, p + 12, end))
  {
    hide CodePoint, CodePointToUTF8, Utf8, HexCode, PairCode, Holds, Spelled, CharText;
    CodePointOfPair(doc, p, end, high, low);
    Encoded(PairCode(HexCode(high.digits), HexCode(low.digits)));
  }

  lemma CharStart(doc: bytes, p: nat, cs: seq<Char>)
    requires cs != [] && AllSpelled(cs) && Holds(doc, p, CharsText(cs))
    ensures p < |doc|
    ensures cs[0].Plain? ==> doc[p] == cs[0].c != BACKSLASH
    ensures cs[0].Short? ==> p + 1 < |doc| && doc[p] == BACKSLASH && doc[p + 1] == cs[0].letter != 117
  {
    CharsSplit(doc, p, cs);
    HoldsAt(doc, p, CharText(cs[0]));
    assert doc[p + 0] == CharText(cs[0])[0];
    assert cs[0].Short? ==> doc[p + 1] == CharText(cs[0])[1];
  }

  lemma CodePointOfLone(doc: bytes, p: nat, end: nat, high: Char, rest: seq<Char>)
    requires Spelled(high) && IsHigh(high) && AllSpelled(rest) && (rest != [] ==> !rest[0].Hex?)
    requires Holds(doc, p, CharText(high)) && Holds(doc, p + 6, CharsText(rest)) && end == p + 6 + |CharsText(rest)|
    ensures end <= |doc| && doc[p] == BACKSLASH && doc[p + 1] == 117
    ensures CodePoint(doc, p + 2, end).BadUnit?
  {
    hide EscapeSequence, HexCode, Spelled, AllSpelled, CharText;
    HexAt(doc, p, end, high);
    if rest != [] {
      CharStart(doc, p + 6, rest);
    }
  }

  /** A high surrogate escape with nothing, or something else, behind it. */
  lemma DecodeLone(doc: bytes, p: nat, end: nat, high: Char, rest: seq<Char>)
    requires Spelled(high) && IsHigh(high) && AllSpelled(rest) && (rest != [] ==> !rest[0].Hex?)
    requires Holds(doc, p, CharText(high)) && Holds(doc, p + 6, CharsText(rest)) && end == p + 6 + |CharsText(rest)|
    ensures Decode(doc, p, end).Undecodable?
  {
    hide CodePoint, HexCode, Spelled, AllSpelled, CharText, CharsText, Holds;
    CodePointOfLone(doc, p, end, high, rest);
  }

  /** The text of a string decodes to its meaning if its surrogate escapes are paired, and to nothing if they are not. */
  lemma {:induction false} DecodeChars(doc: bytes, p: nat, end: nat, cs: seq<Char>)
    requires AllSpelled(cs) && Holds(doc, p, CharsText(cs)) && end == p + |CharsText(cs)|
    ensures Paired(cs) ==> Decode(doc, p, end) == Decoded(Meaning(cs))
    ensures !Paired(cs) ==> Decode(doc, p, end).Undecodable?
    decreases |cs|
  {
    hide Decode, Utf8, HexCode, PairCode, CharText, Spelled;
    if cs == [] {
      DecodeNothing(doc, p);
    } else {
      CharsSplit(doc, p, cs);
      var q := p + |CharText(cs[0])|;
      if !IsHigh(cs[0]) {
        DecodeChar(doc, p, end, cs[0]);
        DecodeChars(doc, q, end, cs[1..]);
      } else {
        HexLength(cs[0]);
        if |cs| > 1 && cs[1].Hex? {
          CharsSplit(doc, q, cs[1..]);
          HexLength(cs[1]);
          assert cs[1..][1..] == cs[2..];
          DecodePair(doc, p, end, cs[0], cs[1]);
          DecodeChars(doc, p + 12, end, cs[2..]);
        } else {
          DecodeLone(doc, p, end, cs[0], cs[1..]);
        }
      }
    }
  }

  lemma DecodeNothing(doc: bytes, p: nat)
    requires p <= |doc|
    ensures Decode(doc, p, p) == Decoded([])
  {
  }

  lemma HexLength(c: Char)
    requires Spelled(c) && c.Hex?
    ensures |CharText(c)| == 6
  {
  }

  lemma CharsSplit(doc: bytes, p: nat, cs: seq<Char>)
    requires cs != [] && Holds(doc, p, CharsText(cs))
    ensures Holds(doc, p, CharText(cs[0])) && Holds(doc, p + |CharText(cs[0])|, CharsText(cs[1..]))
    ensures |CharsText(cs)| == |CharText(cs[0])| + |CharsText(cs[1..])|
  {
    hide CharText, Holds;
    HoldsSplit(doc, p, CharText(cs[0]), CharsText(cs[1..]));
  }

  lemma GoodSpelled(cs: seq<Char>)
    requires GoodChars(cs)
    ensures AllSpelled(cs)
  {
  }

  /** One string token, with what it decodes to. */
  lemma ReadStringLiteral(doc: bytes, pos: nat, ps: seq<Piece>, cs: seq<Char>, rest: seq<bytes>) returns (qs: seq<Piece>)
    requires Sees(doc, pos, ps) && GoodChars(cs) && Lexemes(ps) == [StringLiteral(cs)] + rest
    ensures var t := Lexer.ReadToken(doc, pos);
            && t.kind == String && Sees(doc, t.end, qs) && Lexemes(qs) == rest && SkipComments(doc, pos) == t
            && (Paired(cs) ==> Spec.StringText(doc, t) == Decoded(Meaning(cs)))
            && (!Paired(cs) ==> Spec.StringText(doc, t).Undecodable?)
  {
    hide Decode, CharsText, Meaning, Paired, TokenAt, Sees, Lexemes, GoodChars, AllSpelled;
    var p;
    p, qs := Next(doc, pos, ps, StringLiteral(cs), rest);
    GoodSpelled(cs);
    CharsClosed(cs);
    StringTokenAt(doc, p, CharsText(cs));
    HoldsSplit(doc, p, [QUOTE], CharsText(cs) + [QUOTE]);
    HoldsSplit(doc, p + 1, CharsText(cs), [QUOTE]);
    DecodeChars(doc, p + 1, p + 1 + |CharsText(cs)|, cs);
  }

  // ---- Numbers ----

  /** Digits end where something else follows. */
  lemma DigitsEnd(doc: bytes, i: nat, digits: bytes)
    requires AllDigits(digits) && Holds(doc, i, digits)
    requires i + |digits| < |doc| ==> !IsDigit(doc[i + |digits|])
    ensures SkipDigits(doc, i) == i + |digits|
  {
    SkipDigitsOver(doc, i, digits);
  }

  lemma FractionEndAt(doc: bytes, i: nat, fraction: bytes)
    requires IsFraction(fraction) && Holds(doc, i, fraction)
    requires i + |fraction| < |doc| ==> !IsDigit(doc[i + |fraction|]) && doc[i + |fraction|] != DOT
    ensures FractionEnd(doc, i) == i + |fraction|
    ensures i < |doc| ==> !IsDigit(doc[i])
  {
    if fraction != [] {
      assert fraction == [DOT] + fraction[1..];
      HoldsSplit(doc, i, [DOT], fraction[1..]);
      assert doc[i] == doc[i..i + 1][0];
      DigitsEnd(doc, i + 1, fraction[1..]);
    }
  }

  lemma ExponentEndAt(doc: bytes, i: nat, exponent: bytes)
    requires IsExponent(exponent) && Holds(doc, i, exponent) && EndsNumber(doc, i + |exponent|)
    ensures ExponentEnd(doc, i) == i + |exponent|
    ensures i < |doc| ==> !IsDigit(doc[i]) && doc[i] != DOT
  {
    hide SkipDigits, Holds;
    if exponent != [] {
      var n := SignLength(exponent);
      ExponentSplit(doc, i, exponent, n);
      DigitsEnd(doc, i + n, exponent[n..]);
    }
  }

  /** The letter of an exponent and its sign, if it has one. */
  function SignLength(exponent: bytes): nat
    requires |exponent| > 1
  {
    if exponent[1] == PLUS || exponent[1] == MINUS then 2 else 1
  }

  lemma ExponentSplit(doc: bytes, i: nat, exponent: bytes, n: nat)
    requires exponent != [] && IsExponent(exponent) && Holds(doc, i, exponent) && n == SignLength(exponent)
    ensures i + 1 < |doc| && doc[i] == exponent[0] && doc[i + 1] == exponent[1]
    ensures Holds(doc, i + n, exponent[n..]) && AllDigits(exponent[n..])
    ensures n == 1 ==> IsDigit(doc[i + 1])
  {
    HoldsAt(doc, i, exponent);
    assert doc[i + 0] == exponent[0] && doc[i + 1] == exponent[1];
    assert exponent == exponent[..n] + exponent[n..];
    HoldsSplit(doc, i, exponent[..n], exponent[n..]);
    assert n == 1 ==> IsDigit(exponent[1..][0]);
  }

  /** The text of a number is one number token, if nothing that continues it follows. */
  lemma NumberTokenAt(doc: bytes, p: nat, n: Numeral)
    requires GoodNumber(n) && Holds(doc, p, NumberText(n)) && EndsNumber(doc, p + |NumberText(n)|)
    ensures TokenAt(doc, p) == Token(Number, p, p + |NumberText(n)|)
  {
    hide FractionEnd, ExponentEnd, SkipDigits, IsExponent, IsFraction, Holds, EndsNumber, TokenAt, NumberText, AllDigits;
    NumberParts(doc, p, n);
    var j := p + |Sign(n)| + |n.whole|;
    ExponentEndAt(doc, j + |n.fraction|, n.exponent);
    FractionEndAt(doc, j, n.fraction);
    WholeEnd(doc, p, Sign(n), n.whole);
    NumberBegins(doc, p);
  }

  lemma NumberParts(doc: bytes, p: nat, n: Numeral)
    requires Holds(doc, p, NumberText(n))
    ensures var i := p + |Sign(n)|;
            var j := i + |n.whole|;
            && Holds(doc, p, Sign(n)) && Holds(doc, i, n.whole) && Holds(doc, j, n.fraction) && Holds(doc, j + |n.fraction|, n.exponent)
            && p + |NumberText(n)| == j + |n.fraction| + |n.exponent|
  {
    hide Holds;
    var i := p + |Sign(n)|;
    HoldsSplit(doc, p, Sign(n), n.whole + (n.fraction + n.exponent));
    HoldsSplit(doc, i, n.whole, n.fraction + n.exponent);
    HoldsSplit(doc, i + |n.whole|, n.fraction, n.exponent);
  }

  lemma NumberBegins(doc: bytes, p: nat)
    requires p < |doc| && (doc[p] == MINUS || IsDigit(doc[p]))
    ensures TokenAt(doc, p) == Token(Number, p, NumberEnd(doc, p + 1))
  {
    hide NumberEnd;
  }

  lemma WholeEnd(doc: bytes, p: nat, sign: bytes, whole: bytes)
    requires SomeDigits(whole) && sign in {[], [MINUS]}
    requires Holds(doc, p, sign) && Holds(doc, p + |sign|, whole)
    requires var j := p + |sign| + |whole|;
             j < |doc| ==> !IsDigit(doc[j])
    ensures p < |doc| && (doc[p] == MINUS || IsDigit(doc[p])) && SkipDigits(doc, p + 1) == p + |sign| + |whole|
  {
    hide SkipDigits;
    if sign == [MINUS] {
      HoldsAt(doc, p, sign);
      assert doc[p + 0] == MINUS;
      DigitsEnd(doc, p + 1, whole);
    } else {
      FirstDigit(doc, p, whole);
      DigitsEnd(doc, p + 1, whole[1..]);
    }
  }

  lemma FirstDigit(doc: bytes, p: nat, digits: bytes)
    requires SomeDigits(digits) && Holds(doc, p, digits)
    ensures p < |doc| && IsDigit(doc[p]) && Holds(doc, p + 1, digits[1..]) && AllDigits(digits[1..])
  {
    assert digits == [digits[0]] + digits[1..];
    HoldsSplit(doc, p, [digits[0]], digits[1..]);
    assert doc[p] == doc[p..p + 1][0];
  }

  /** decodeNumber gives what the number means. */
  lemma NumberDecoded(cfg: Spec.Config, n: Numeral)
    requires GoodNumber(n)
    ensures NumberText(n) != [] && Spec.NumberValue(cfg, NumberText(n)) == NumberMeaning(cfg.toDouble, n)
  {
    var text := NumberText(n);
    var behind := n.fraction + n.exponent;
    var ds := if n.negative then text[1..] else text;
    assert ds == n.whole + behind && IsDigit(ds[0]);
    assert n.negative ==> text[0] == MINUS;
    assert !n.negative ==> text[0] == ds[0];
    if behind == [] {
      assert ds == n.whole;
    } else {
      assert ds[|n.whole|] == behind[0] && !IsDigit(behind[0]);
    }
  }

  lemma ReadNumberText(cfg: Spec.Config, doc: bytes, pos: nat, ps: seq<Piece>, n: Numeral, rest: seq<bytes>) returns (qs: seq<Piece>)
    requires Sees(doc, pos, ps) && GoodNumber(n) && Lexemes(ps) == [NumberText(n)] + rest && EndsValue(rest)
    ensures var t := Lexer.ReadToken(doc, pos);
            && t.kind == Number && t.start < t.end && Sees(doc, t.end, qs) && Lexemes(qs) == rest
            && SkipComments(doc, pos) == t && Spec.NumberValue(cfg, Spec.Text(doc, t)) == NumberMeaning(cfg.toDouble, n)
  {
    hide TokenAt, Sees, Lexemes, NumberText, Spec.NumberValue, NumberMeaning, IsExponent, IsFraction;
    NumberStarts(n);
    var p;
    p, qs := Next(doc, pos, ps, NumberText(n), rest);
    NothingContinues(doc, p + |NumberText(n)|, qs);
    NumberTokenAt(doc, p, n);
    NumberDecoded(cfg, n);
  }

  lemma NumberStarts(n: Numeral)
    requires GoodNumber(n)
    ensures StartsToken(NumberText(n)) && NumberText(n)[0] != RBRACKET
  {
  }

  // ---- Values ----

  /** r is a successful reading of v that leaves the remaining pieces. */
  ghost predicate Reads(r: Spec.Outcome, doc: bytes, v: Value, depth: nat, qs: seq<Piece>, rest: seq<bytes>) {
    r.ok && r.value == v && r.depth <= depth && Sees(doc, r.end, qs) && Lexemes(qs) == rest
  }

  lemma ReadScalarTokens(cfg: Spec.Config, doc: bytes, pos: nat, ps: seq<Piece>, j: Json, rest: seq<bytes>, cur: Value)
    returns (qs: seq<Piece>)
    requires Sees(doc, pos, ps) && Grammatical(j) && !j.JArray? && !j.JObject?
    requires Lexemes(ps) == Tokens(j) + rest && EndsValue(rest)
    ensures Readable(cfg.toDouble, j) ==> Reads(Spec.ReadValue(cfg, doc, pos, cur), doc, Denote(cfg.toDouble, j), Nesting(j), qs, rest)
    ensures !Readable(cfg.toDouble, j) ==> !Spec.ReadValue(cfg, doc, pos, cur).ok
  {
    hide SkipComments, Lexer.ReadToken, Sees, Lexemes, NumberText, StringLiteral, Spec.NumberValue, NumberMeaning, Meaning, Paired;
    hide GoodChars, GoodNumber, Spec.StringText;
    match j
    case JNull => qs := ReadLiteral(doc, pos, ps, NULL_TEXT, NullToken, rest);
    case JTrue => qs := ReadLiteral(doc, pos, ps, TRUE_TEXT, True, rest);
    case JFalse => qs := ReadLiteral(doc, pos, ps, FALSE_TEXT, False, rest);
    case JNumber(n) => qs := ReadNumberText(cfg, doc, pos, ps, n, rest);
    case JString(cs) => qs := ReadStringLiteral(doc, pos, ps, cs, rest);
  }

  /** The first lexeme of a value starts a token, and is not a closing bracket. */
  lemma FirstToken(j: Json)
    requires Grammatical(j)
    ensures Tokens(j) != [] && StartsToken(Tokens(j)[0]) && Tokens(j)[0][0] != RBRACKET
  {
    hide NumberText, GoodNumber;
    if j.JNumber? {
      NumberStarts(j.number);
    }
  }

  /** Reading the lexemes of any value of the grammar, wherever they stand and whatever whitespace separates them. */
  lemma {:induction false} ReadTree(cfg: Spec.Config, doc: bytes, pos: nat, ps: seq<Piece>, j: Json, rest: seq<bytes>, cur: Value)
    returns (qs: seq<Piece>)
    requires Sees(doc, pos, ps) && Grammatical(j) && Lexemes(ps) == Tokens(j) + rest && EndsValue(rest)
    ensures Readable(cfg.toDouble, j) ==> Reads(Spec.ReadValue(cfg, doc, pos, cur), doc, Denote(cfg.toDouble, j), Nesting(j), qs, rest)
    ensures !Readable(cfg.toDouble, j) ==> !Spec.ReadValue(cfg, doc, pos, cur).ok
    decreases j, 1
  {
    hide Spec.ReadValue, Sees, Lexemes;
    if j.JArray? {
      qs := ReadArrayTokens(cfg, doc, pos, ps, j, rest, cur);
    } else if j.JObject? {
      qs := ReadObjectTokens(cfg, doc, pos, ps, j, rest, cur);
    } else {
      qs := ReadScalarTokens(cfg, doc, pos, ps, j, rest, cur);
    }
  }

  // ---- Arrays ----

  predicate Keyed(es: seq<Member>, first: nat) {
    forall i | 0 <= i < |es| :: es[i].key == Index(first + i)
  }

  /** The next array key goes to the end of the entries, and the keys stay consecutive. */
  lemma NextKey(done: seq<Member>, x: Value)
    requires Keyed(done, 0)
    ensures Put(done, Index(|done|), x) == done + [Member(Index(|done|), x)]
    ensures Keyed(done + [Member(Index(|done|), x)], 0)
  {
    PutAppends(done, Index(|done|), x);
  }

  lemma ReadArrayTokens(cfg: Spec.Config, doc: bytes, pos: nat, ps: seq<Piece>, j: Json, rest: seq<bytes>, cur: Value)
    returns (qs: seq<Piece>)
    requires Sees(doc, pos, ps) && j.JArray? && Grammatical(j) && Lexemes(ps) == Tokens(j) + rest && EndsValue(rest)
    ensures Readable(cfg.toDouble, j) ==> Reads(Spec.ReadValue(cfg, doc, pos, cur), doc, Denote(cfg.toDouble, j), Nesting(j), qs, rest)
    ensures !Readable(cfg.toDouble, j) ==> !Spec.ReadValue(cfg, doc, pos, cur).ok
    decreases j, 0
  {
    hide Lexer.ReadToken, SkipComments, Flatten, Blank, Spec.ReadElements, Spec.ReadScalar, Lexemes, Holds;
    var items := j.items;
    var inner := ItemTokens(items) + ([[RBRACKET]] + rest);
    assert Lexemes(ps) == [[LBRACKET]] + inner;
    var open := ReadPunctuation(doc, pos, ps, LBRACKET, ArrayBegin, inner);
    var t := Lexer.ReadToken(doc, pos);
    if items == [] {
      assert inner == [[RBRACKET]] + rest;
      var p;
      p, qs := Next(doc, t.end, open, [RBRACKET], rest);
    } else {
      FirstToken(items[0]);
      var stripped := Strip(doc, t.end, open);
      qs := ReadItems(cfg, doc, SkipSpaces(doc, t.end), stripped, items, [], rest);
      assert [] + DenoteItems(cfg.toDouble, items, 0) == DenoteItems(cfg.toDouble, items, 0);
    }
  }

  /** One turn of readArray's loop: the element is appended, and the pieces behind its separator remain. */
  lemma ReadItemTurn(cfg: Spec.Config, doc: bytes, pos: nat, ps: seq<Piece>, items: seq<Json>, done: seq<Member>, rest: seq<bytes>)
    returns (qs: seq<Piece>, r: Spec.Outcome)
    requires Sees(doc, pos, ps) && items != [] && GrammaticalItems(items) && Keyed(done, 0)
    requires Lexemes(ps) == ItemTokens(items) + ([[RBRACKET]] + rest)
    ensures r.end <= |doc| && (Readable(cfg.toDouble, items[0]) ==> r.depth <= Nesting(items[0]))
    ensures var step := Spec.ReadElement(cfg, doc, pos, Array(done), |done|);
            var end := Lexer.ReadToken(doc, r.end).end;
            var arr := Array(done + [Member(Index(|done|), Denote(cfg.toDouble, items[0]))]);
            && (!Readable(cfg.toDouble, items[0]) ==> step.Done? && !step.outcome.ok)
            && (Readable(cfg.toDouble, items[0]) ==>
                  && step == (if |items| == 1 then Spec.Done(Spec.Outcome(true, arr, end, [], r.depth)) else Spec.Continue(arr, end, r.depth))
                  && Sees(doc, end, qs)
                  && Lexemes(qs) == (if |items| == 1 then rest else ItemTokens(items[1..]) + ([[RBRACKET]] + rest)))
    decreases items, 0
  {
    hide Lexer.ReadToken, SkipComments, Spec.ReadValue, Spec.ReadElement, Tokens, ItemTokens, Sees, Lexemes, LowerBound, Keyed;
    hide Denote, Readable, Nesting;
    var others := ItemTokens(items[1..]) + ([[RBRACKET]] + rest);
    var follow := if |items| == 1 then [[RBRACKET]] + rest else [[COMMA]] + others;
    ItemTokensSplit(items, [[RBRACKET]] + rest);
    var cur := Child(Array(done), Index(|done|));
    var behind := ReadTree(cfg, doc, pos, ps, items[0], follow, cur);
    r := Spec.ReadValue(cfg, doc, pos, cur);
    qs := behind;
    if Readable(cfg.toDouble, items[0]) {
      NextKey(done, r.value);
      if |items| == 1 {
        qs := ReadPunctuation(doc, r.end, behind, RBRACKET, ArrayEnd, rest);
      } else {
        qs := ReadPunctuation(doc, r.end, behind, COMMA, ArraySeparator, others);
      }
      AnElement(cfg, doc, pos, Array(done), |done|, Array(done + [Member(Index(|done|), r.value)]));
    } else {
      BadElement(cfg, doc, pos, Array(done), |done|);
    }
  }

  /** The loop of readArray, from any element on. */
  lemma {:induction false} ReadItems(cfg: Spec.Config, doc: bytes, pos: nat, ps: seq<Piece>, items: seq<Json>, done: seq<Member>,
                                     rest: seq<bytes>)
    returns (qs: seq<Piece>)
    requires Sees(doc, pos, ps) && items != [] && GrammaticalItems(items) && Keyed(done, 0)
    requires Lexemes(ps) == ItemTokens(items) + ([[RBRACKET]] + rest)
    ensures var r := Spec.ReadElements(cfg, doc, pos, Array(done), |done|);
            && (ReadableItems(cfg.toDouble, items) ==>
                  Reads(r, doc, Array(done + DenoteItems(cfg.toDouble, items, |done|)), ItemsNesting(items), qs, rest))
            && (!ReadableItems(cfg.toDouble, items) ==> !r.ok)
    decreases items, 1
  {
    hide Lexer.ReadToken, SkipComments, Spec.ReadElement, ItemTokens, Sees, Lexemes, Keyed, Denote, Readable, Nesting;
    var next, r := ReadItemTurn(cfg, doc, pos, ps, items, done, rest);
    qs := next;
    assert |items| == 1 ==> items[1..] == [];
    assert ReadableItems(cfg.toDouble, items) <==> Readable(cfg.toDouble, items[0]) && ReadableItems(cfg.toDouble, items[1..]);
    var x := Denote(cfg.toDouble, items[0]);
    var done' := done + [Member(Index(|done|), x)];
    if Readable(cfg.toDouble, items[0]) {
      NextKey(done, x);
      if |items| > 1 {
        qs := ReadItems(cfg, doc, Lexer.ReadToken(doc, r.end).end, next, items[1..], done', rest);
      }
      assert done' + DenoteItems(cfg.toDouble, items[1..], |done| + 1) == done + DenoteItems(cfg.toDouble, items, |done|);
    }
  }

  /** An element that is read ends the array before a bracket and leads to the next before a comma. */
  lemma AnElement(cfg: Spec.Config, doc: bytes, i: nat, arr: Value, index: nat, arr': Value)
    requires i <= |doc|
    requires var r := Spec.ReadValue(cfg, doc, i, Child(arr, Index(index)));
             && r.ok && PutChild(arr, Index(index), r.value) == arr'
             && SkipComments(doc, r.end) == Lexer.ReadToken(doc, r.end)
    ensures var r := Spec.ReadValue(cfg, doc, i, Child(arr, Index(index)));
            var t := Lexer.ReadToken(doc, r.end);
            && (t.kind == ArrayEnd ==>
                  Spec.ReadElement(cfg, doc, i, arr, index) == Spec.Done(Spec.Outcome(true, arr', t.end, [], r.depth)))
            && (t.kind == ArraySeparator ==>
                  Spec.ReadElement(cfg, doc, i, arr, index) == Spec.Continue(arr', t.end, r.depth))
  {
    hide Lexer.ReadToken, SkipComments, Spec.ReadValue, PutChild, Child;
  }

  lemma BadElement(cfg: Spec.Config, doc: bytes, i: nat, arr: Value, index: nat)
    requires i <= |doc| && !Spec.ReadValue(cfg, doc, i, Child(arr, Index(index))).ok
    ensures var step := Spec.ReadElement(cfg, doc, i, arr, index);
            step.Done? && !step.outcome.ok
  {
    hide Spec.ReadValue, PutChild, Child;
  }

  // ---- Objects ----

  lemma ReadObjectTokens(cfg: Spec.Config, doc: bytes, pos: nat, ps: seq<Piece>, j: Json, rest: seq<bytes>, cur: Value)
    returns (qs: seq<Piece>)
    requires Sees(doc, pos, ps) && j.JObject? && Grammatical(j) && Lexemes(ps) == Tokens(j) + rest && EndsValue(rest)
    ensures Readable(cfg.toDouble, j) ==> Reads(Spec.ReadValue(cfg, doc, pos, cur), doc, Denote(cfg.toDouble, j), Nesting(j), qs, rest)
    ensures !Readable(cfg.toDouble, j) ==> !Spec.ReadValue(cfg, doc, pos, cur).ok
    decreases j, 0
  {
    hide Lexer.ReadToken, SkipComments, Sees, Lexemes, Spec.ReadMember, Spec.ReadScalar;
    var fields := j.fields;
    var inner := FieldTokens(fields) + ([[RBRACE]] + rest);
    assert Lexemes(ps) == [[LBRACE]] + inner;
    var open := ReadPunctuation(doc, pos, ps, LBRACE, ObjectBegin, inner);
    var t := Lexer.ReadToken(doc, pos);
    if fields == [] {
      assert inner == [[RBRACE]] + rest;
      qs := ReadPunctuation(doc, t.end, open, RBRACE, ObjectEnd, rest);
    } else {
      qs := ReadFields(cfg, doc, t.end, open, fields, [], [], rest);
    }
  }

  /** One name and its colon. */
  lemma ReadNameTokens(doc: bytes, pos: nat, ps: seq<Piece>, cs: seq<Char>, obj: Value, name: bytes, rest: seq<bytes>)
    returns (qs: seq<Piece>)
    requires Sees(doc, pos, ps) && GoodChars(cs) && Lexemes(ps) == [StringLiteral(cs), [COLON]] + rest
    ensures var step := Spec.ReadName(doc, pos, obj, name);
            && (!Paired(cs) ==> step.NoName? && !step.outcome.ok)
            && (Paired(cs) ==>
                  && step.NameRead? && step.name == Meaning(cs)
                  && var colon := Lexer.ReadToken(doc, step.end);
                  && colon.kind == MemberSeparator && Sees(doc, colon.end, qs) && Lexemes(qs) == rest)
  {
    hide Lexer.ReadToken, SkipComments, Spec.StringText, StringLiteral, Meaning, Paired, GoodChars, RecoverEnd;
    assert Lexemes(ps) == [StringLiteral(cs)] + ([[COLON]] + rest);
    var named := ReadStringLiteral(doc, pos, ps, cs, [[COLON]] + rest);
    qs := ReadPunctuation(doc, Lexer.ReadToken(doc, pos).end, named, COLON, MemberSeparator, rest);
  }

  /** One turn of readObject's loop, before a brace or a comma: the member is put among the earlier ones. */
  lemma ReadFieldTurn(cfg: Spec.Config, doc: bytes, pos: nat, ps: seq<Piece>, fields: seq<Field>, done: seq<Member>, name: bytes,
                      close: byte, rest: seq<bytes>)
    returns (qs: seq<Piece>, named: nat, r: Spec.Outcome)
    requires Sees(doc, pos, ps) && fields != [] && GrammaticalFields(fields) && close in {RBRACE, COMMA}
    requires Lexemes(ps) == FieldTokens(fields) + ([[close]] + rest)
    ensures !Paired(fields[0].name) ==>
              var step := Spec.ReadName(doc, pos, Object(done), name);
              step.NoName? && !step.outcome.ok
    ensures named <= |doc| && r.end <= |doc| && (ReadableField(cfg.toDouble, fields[0]) ==> r.depth <= FieldNesting(fields[0]))
    ensures Paired(fields[0].name) ==>
              var next := Meaning(fields[0].name);
              var step := Spec.ReadMember(cfg, doc, named, Object(done), next);
              var end := Lexer.ReadToken(doc, r.end).end;
              var obj := Object(Put(done, Name(next), DenoteField(cfg.toDouble, fields[0])));
              && Spec.ReadName(doc, pos, Object(done), name) == Spec.NameRead(next, named)
              && (!ReadableField(cfg.toDouble, fields[0]) ==> step.Done? && !step.outcome.ok)
              && (ReadableField(cfg.toDouble, fields[0]) ==>
                    && step == (if |fields| == 1 && close == RBRACE then Spec.Done(Spec.Outcome(true, obj, end, [], r.depth))
                                else Spec.Continue(obj, end, r.depth))
                    && Sees(doc, end, qs)
                    && Lexemes(qs) == (if |fields| == 1 then rest else FieldTokens(fields[1..]) + ([[close]] + rest)))
    decreases fields, 0
  {
    hide Lexer.ReadToken, SkipComments, Spec.ReadValue, Spec.ReadName, Spec.ReadMember, Tokens, FieldTokens, Sees, Lexemes;
    hide StringLiteral, LowerBound, Put, Denote, Readable, Nesting, Meaning, Paired, Grammatical;
    var f := fields[0];
    var others := FieldTokens(fields[1..]) + ([[close]] + rest);
    var follow := if |fields| == 1 then [[close]] + rest else [[COMMA]] + others;
    FieldTokensSplit(fields, [[close]] + rest);
    var value := ReadNameTokens(doc, pos, ps, f.name, Object(done), name, Tokens(f.value) + follow);
    named, r, qs := 0, Spec.Outcome(true, Null, 0, [], 0), value;
    if Paired(f.name) {
      var next := Meaning(f.name);
      named := Spec.ReadName(doc, pos, Object(done), name).end;
      var colon := Lexer.ReadToken(doc, named);
      var cur := Child(Object(done), Name(next));
      var behind := ReadFieldValue(cfg, doc, colon.end, value, f, follow, cur);
      r := Spec.ReadValue(cfg, doc, colon.end, cur);
      if Readable(cfg.toDouble, f.value) {
        if |fields| == 1 && close == RBRACE {
          qs := ReadPunctuation(doc, r.end, behind, RBRACE, ObjectEnd, rest);
        } else {
          qs := ReadPunctuation(doc, r.end, behind, COMMA, ArraySeparator, if |fields| == 1 then rest else others);
        }
        AMember(cfg, doc, named, Object(done), next, Object(Put(done, Name(next), r.value)));
      } else {
        BadMember(cfg, doc, named, Object(done), next);
      }
    }
  }

  lemma ReadFieldValue(cfg: Spec.Config, doc: bytes, pos: nat, ps: seq<Piece>, f: Field, rest: seq<bytes>, cur: Value)
    returns (qs: seq<Piece>)
    requires Sees(doc, pos, ps) && GrammaticalField(f) && Lexemes(ps) == Tokens(f.value) + rest && EndsValue(rest)
    ensures Readable(cfg.toDouble, f.value) ==>
              Reads(Spec.ReadValue(cfg, doc, pos, cur), doc, DenoteField(cfg.toDouble, f), FieldNesting(f), qs, rest)
    ensures !Readable(cfg.toDouble, f.value) ==> !Spec.ReadValue(cfg, doc, pos, cur).ok
    decreases f
  {
    hide Spec.ReadValue, Sees, Lexemes, Tokens, Readable, Denote, Nesting, Grammatical;
    qs := ReadTree(cfg, doc, pos, ps, f.value, rest, cur);
  }

  /** The loop of readObject, from any member on. */
  lemma {:induction false} ReadFields(cfg: Spec.Config, doc: bytes, pos: nat, ps: seq<Piece>, fields: seq<Field>, done: seq<Member>,
                                      name: bytes, rest: seq<bytes>)
    returns (qs: seq<Piece>)
    requires Sees(doc, pos, ps) && fields != [] && GrammaticalFields(fields)
    requires Lexemes(ps) == FieldTokens(fields) + ([[RBRACE]] + rest)
    ensures var r := Spec.ReadMembers(cfg, doc, pos, Object(done), name);
            && (ReadableFields(cfg.toDouble, fields) ==>
                  Reads(r, doc, Object(DenoteFields(cfg.toDouble, fields, done)), FieldsNesting(fields), qs, rest))
            && (!ReadableFields(cfg.toDouble, fields) ==> !r.ok)
    decreases fields, 1
  {
    hide Lexer.ReadToken, SkipComments, Spec.ReadName, Spec.ReadMember, FieldTokens, Sees, Lexemes, Put, Meaning, Paired;
    hide DenoteField, Readable, FieldNesting, GrammaticalField;
    var next, named, r := ReadFieldTurn(cfg, doc, pos, ps, fields, done, name, RBRACE, rest);
    qs := next;
    assert |fields| == 1 ==> fields[1..] == [];
    assert ReadableFields(cfg.toDouble, fields) <==> ReadableField(cfg.toDouble, fields[0]) && ReadableFields(cfg.toDouble, fields[1..]);
    if ReadableField(cfg.toDouble, fields[0]) && |fields| > 1 {
      var done' := Put(done, Name(Meaning(fields[0].name)), DenoteField(cfg.toDouble, fields[0]));
      qs := ReadFields(cfg, doc, Lexer.ReadToken(doc, r.end).end, next, fields[1..], done', Meaning(fields[0].name), rest);
    }
  }

  /** A member that is read ends the object before a brace and leads to the next before a comma. */
  lemma AMember(cfg: Spec.Config, doc: bytes, i: nat, obj: Value, name: bytes, obj': Value)
    requires i <= |doc| && Lexer.ReadToken(doc, i).kind == MemberSeparator
    requires var r := Spec.ReadValue(cfg, doc, Lexer.ReadToken(doc, i).end, Child(obj, Name(name)));
             && r.ok && PutChild(obj, Name(name), r.value) == obj'
             && SkipComments(doc, r.end) == Lexer.ReadToken(doc, r.end)
    ensures var r := Spec.ReadValue(cfg, doc, Lexer.ReadToken(doc, i).end, Child(obj, Name(name)));
            var t := Lexer.ReadToken(doc, r.end);
            && (t.kind == ObjectEnd ==>
                  Spec.ReadMember(cfg, doc, i, obj, name) == Spec.Done(Spec.Outcome(true, obj', t.end, [], r.depth)))
            && (t.kind == ArraySeparator ==>
                  Spec.ReadMember(cfg, doc, i, obj, name) == Spec.Continue(obj', t.end, r.depth))
  {
    hide Lexer.ReadToken, SkipComments, Spec.ReadValue, PutChild, Child;
  }

  lemma BadMember(cfg: Spec.Config, doc: bytes, i: nat, obj: Value, name: bytes)
    requires i <= |doc| && Lexer.ReadToken(doc, i).kind == MemberSeparator
    requires !Spec.ReadValue(cfg, doc, Lexer.ReadToken(doc, i).end, Child(obj, Name(name))).ok
    ensures var step := Spec.ReadMember(cfg, doc, i, obj, name);
            step.Done? && !step.outcome.ok
  {
    hide Lexer.ReadToken, Spec.ReadValue, PutChild, Child, RecoverEnd;
  }
}
