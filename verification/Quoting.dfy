/**
 JSON string text: how the writer escapes a byte string and how the reader
 undoes it. Bit masks and shifts of the source are written as / and %.
 */
module Quoting {
  import opened Bytes

  // ---- UTF-8 (RFC 3629, section 3) ----

  predicate IsTail(c: byte) {
    0x80 <= c <= 0xBF
  }

  /** Length of the well-formed UTF-8 sequence at s[i], 0 if there is none. */
  function Utf8Length(s: bytes, i: nat): (n: nat)
    requires i < |s|
    ensures i + n <= |s|
  {
    var c := s[i];
    var left := |s| - i;
    if c <= 0x7F then 1
    else if 0xC2 <= c <= 0xDF && left >= 2 && IsTail(s[i + 1]) then 2
    else if left >= 3 && IsTail(s[i + 2]) && (
           || (c == 0xE0 && 0xA0 <= s[i + 1] <= 0xBF)
           || (0xE1 <= c <= 0xEC && IsTail(s[i + 1]))
           || (c == 0xED && 0x80 <= s[i + 1] <= 0x9F)
           || (0xEE <= c <= 0xEF && IsTail(s[i + 1]))) then 3
    else if left >= 4 && IsTail(s[i + 2]) && IsTail(s[i + 3]) && (
           || (c == 0xF0 && 0x90 <= s[i + 1] <= 0xBF)
           || (0xF1 <= c <= 0xF3 && IsTail(s[i + 1]))
           || (c == 0xF4 && 0x80 <= s[i + 1] <= 0x8F)) then 4
    else 0
  }

  predicate ValidUtf8From(s: bytes, i: nat)
    requires i <= |s|
    decreases |s| - i
  {
    i == |s| || (Utf8Length(s, i) > 0 && ValidUtf8From(s, i + Utf8Length(s, i)))
  }

  predicate ValidUtf8(s: bytes) {
    ValidUtf8From(s, 0)
  }

  function CodePointToUTF8(cp: nat): bytes {
    if cp <= 0x7f then [cp]
    else if cp <= 0x7FF then [0xC0 + cp / 64 % 32, 0x80 + cp % 64]
    else if cp <= 0xFFFF then [0xE0 + cp / 4096 % 16, 0x80 + cp / 64 % 64, 0x80 + cp % 64]
    else if cp <= 0x10FFFF then
      [0xF0 + cp / 262144 % 8, 0x80 + cp / 4096 % 64, 0x80 + cp / 64 % 64, 0x80 + cp % 64]
    else []
  }

  const REPLACEMENT_CHARACTER: nat := 0xFFFD

  /** The code point read at s[i], and the position of the last byte consumed. */
  function Utf8ToCodepoint(s: bytes, i: nat): (r: (nat, nat))
    requires i < |s|
    ensures r.0 < 0x20_0000 && i <= r.1 < |s|
    ensures r.0 < 0x80 <==> s[i] < 0x80
  {
    var c := s[i];
    var left := |s| - i;
    if c < 0x80 then (c, i)
    else if c < 0xE0 then
      if left < 2 then (REPLACEMENT_CHARACTER, i)
      else
        var calculated := c % 32 * 64 + s[i + 1] % 64;
        (if calculated < 0x80 then REPLACEMENT_CHARACTER else calculated, i + 1)
    else if c < 0xF0 then
      if left < 3 then (REPLACEMENT_CHARACTER, i)
      else
        var calculated := c % 16 * 4096 + s[i + 1] % 64 * 64 + s[i + 2] % 64;
        (if 0xD800 <= calculated <= 0xDFFF || calculated < 0x800 then REPLACEMENT_CHARACTER else calculated, i + 2)
    else if c < 0xF8 then
      if left < 4 then (REPLACEMENT_CHARACTER, i)
      else
        var calculated := c % 8 * 262144 + s[i + 1] % 64 * 4096 + s[i + 2] % 64 * 64 + s[i + 3] % 64;
        (if calculated < 0x10000 then REPLACEMENT_CHARACTER else calculated, i + 3)
    else (REPLACEMENT_CHARACTER, i)
  }

  /** On a well-formed sequence the decoder consumes exactly it, and encoding gives it back. */
  ghost predicate RoundTripsAt(s: bytes, i: nat)
    requires i < |s|
  {
    var (cp, last) := Utf8ToCodepoint(s, i);
    && last + 1 == i + Utf8Length(s, i)
    && CodePointToUTF8(cp) == s[i..last + 1]
    && cp <= 0x10FFFF && !(0xD800 <= cp <= 0xDFFF)
  }

  lemma CodepointRoundTrip(s: bytes, i: nat)
    requires i < |s| && Utf8Length(s, i) > 0
    ensures RoundTripsAt(s, i)
  {
    var n := Utf8Length(s, i);
    if n == 2 {
      TwoByteRoundTrip(s, i);
    } else if n == 3 {
      ThreeByteRoundTrip(s, i);
    } else if n == 4 {
      FourByteRoundTrip(s, i);
    }
  }

  lemma TwoByteRoundTrip(s: bytes, i: nat)
    requires i < |s| && Utf8Length(s, i) == 2
    ensures RoundTripsAt(s, i)
  {
    var a: nat, b: nat := s[i] - 0xC0, s[i + 1] - 0x80;
    assert s[i] % 32 == a && s[i + 1] % 64 == b;
    var cp := a * 64 + b;
    assert Utf8ToCodepoint(s, i) == (cp, i + 1);
    assert cp / 64 == a && cp % 64 == b;
    assert CodePointToUTF8(cp) == [s[i], s[i + 1]] == s[i..i + 2];
  }

  lemma ThreeByteRoundTrip(s: bytes, i: nat)
    requires i < |s| && Utf8Length(s, i) == 3
    ensures RoundTripsAt(s, i)
  {
    var a: nat, b: nat, c: nat := s[i] - 0xE0, s[i + 1] - 0x80, s[i + 2] - 0x80;
    assert a < 16 && b < 64 && c < 64;
    assert (a == 0 ==> b >= 32) && (a == 13 ==> b < 32);
    ThreeByteDecode(s, i, a, b, c);
    ThreeByteParts(a, b, c);
    assert [s[i], s[i + 1], s[i + 2]] == s[i..i + 3];
  }

  lemma ThreeByteDecode(s: bytes, i: nat, a: nat, b: nat, c: nat)
    requires i + 3 <= |s| && a < 16 && b < 64 && c < 64 && (a == 0 ==> b >= 32) && (a == 13 ==> b < 32)
    requires s[i] == 0xE0 + a && s[i + 1] == 0x80 + b && s[i + 2] == 0x80 + c
    ensures Utf8ToCodepoint(s, i) == (a * 4096 + b * 64 + c, i + 2)
  {
    assert s[i] % 16 == a && s[i + 1] % 64 == b && s[i + 2] % 64 == c;
  }

  lemma FourByteRoundTrip(s: bytes, i: nat)
    requires i < |s| && Utf8Length(s, i) == 4
    ensures RoundTripsAt(s, i)
  {
    var a: nat, b: nat, c: nat, d: nat := s[i] - 0xF0, s[i + 1] - 0x80, s[i + 2] - 0x80, s[i + 3] - 0x80;
    FourByteShape(s, i);
    FourByteDecode(s, i, a, b, c, d);
    FourByteEncode(a, b, c, d);
    assert [s[i], s[i + 1], s[i + 2], s[i + 3]] == s[i..i + 4];
  }

  lemma FourByteShape(s: bytes, i: nat)
    requires i < |s| && Utf8Length(s, i) == 4
    ensures i + 4 <= |s| && 0xF0 <= s[i] <= 0xF4 && IsTail(s[i + 1]) && IsTail(s[i + 2]) && IsTail(s[i + 3])
    ensures (s[i] == 0xF0 ==> s[i + 1] >= 0x90) && (s[i] == 0xF4 ==> s[i + 1] <= 0x8F)
  {
  }

  lemma FourByteDecode(s: bytes, i: nat, a: nat, b: nat, c: nat, d: nat)
    requires i + 4 <= |s| && a < 5 && b < 64 && c < 64 && d < 64 && (a == 0 ==> b >= 16)
    requires s[i] == 0xF0 + a && s[i + 1] == 0x80 + b && s[i + 2] == 0x80 + c && s[i + 3] == 0x80 + d
    ensures Utf8ToCodepoint(s, i) == (a * 262144 + b * 4096 + c * 64 + d, i + 3)
  {
    assert s[i] % 8 == a && s[i + 1] % 64 == b && s[i + 2] % 64 == c && s[i + 3] % 64 == d;
  }

  lemma FourByteEncode(a: nat, b: nat, c: nat, d: nat)
    requires a < 5 && b < 64 && c < 64 && d < 64 && (a == 0 ==> b >= 16) && (a == 4 ==> b < 16)
    ensures var cp := a * 262144 + b * 4096 + c * 64 + d;
            0x10000 <= cp <= 0x10FFFF && CodePointToUTF8(cp) == [0xF0 + a, 0x80 + b, 0x80 + c, 0x80 + d]
  {
    FourByteParts(a, b, c, d);
  }

  lemma ThreeByteParts(a: nat, b: nat, c: nat)
    requires a < 16 && b < 64 && c < 64
    ensures var cp := a * 4096 + b * 64 + c;
            cp / 4096 == a && cp / 64 % 64 == b && cp % 64 == c
  {
    var cp := a * 4096 + b * 64 + c;
    assert cp / 64 == a * 64 + b;
  }

  lemma FourByteParts(a: nat, b: nat, c: nat, d: nat)
    requires a < 8 && b < 64 && c < 64 && d < 64
    ensures var cp := a * 262144 + b * 4096 + c * 64 + d;
            cp / 262144 == a && cp / 4096 % 64 == b && cp / 64 % 64 == c && cp % 64 == d
  {
    var cp := a * 262144 + b * 4096 + c * 64 + d;
    assert cp / 64 == a * 4096 + b * 64 + c;
    assert cp / 4096 == a * 64 + b;
  }

  // ---- Escaping ----

  /** One entry of the hex2 table. */
  function HexDigit(d: nat): byte
    requires d < 16
  {
    if d < 10 then 48 + d else 87 + d
  }

  function ToHex16Bit(x: nat): (r: bytes)
    ensures |r| == 4
  {
    var hi := x / 256 % 256;
    var lo := x % 256;
    [HexDigit(hi / 16), HexDigit(hi % 16), HexDigit(lo / 16), HexDigit(lo % 16)]
  }

  function UnicodeEscape(x: nat): (r: bytes)
    ensures |r| == 6
  {
    [BACKSLASH, 117] + ToHex16Bit(x)
  }

  /** The letter of the two-character escape of a byte, if it has one. */
  function ShortEscape(c: byte): Option<byte> {
    if c == QUOTE then Some(QUOTE)
    else if c == BACKSLASH then Some(BACKSLASH)
    else if c == BS then Some(98)
    else if c == FF then Some(102)
    else if c == LF then Some(110)
    else if c == CR then Some(114)
    else if c == TAB then Some(116)
    else None
  }

  function CodePointText(cp: nat): bytes {
    if 0x20 <= cp < 0x80 then [cp]
    else if cp < 0x10000 then UnicodeEscape(cp)
    else UnicodeEscape((cp - 0x10000) / 1024 + 0xD800) + UnicodeEscape((cp - 0x10000) % 1024 + 0xDC00)
  }

  /** The text for the character at s[i], and where the next character starts. */
  function EscapeAt(s: bytes, i: nat): (r: (bytes, nat))
    requires i < |s|
    ensures i < r.1 <= |s|
  {
    var short := ShortEscape(s[i]);
    if short.Some? then ([BACKSLASH, short.value], i + 1)
    else
      var (cp, last) := Utf8ToCodepoint(s, i);
      (CodePointText(cp), last + 1)
  }

  function Escaped(s: bytes, i: nat): bytes
    requires i <= |s|
    decreases |s| - i
  {
    if i == |s| then []
    else
      var (text, next) := EscapeAt(s, i);
      text + Escaped(s, next)
  }

  /** `*cur < ' '` depends on whether plain char is signed. */
  predicate RequiresQuoting(c: byte, charIsSigned: bool) {
    c == BACKSLASH || c == QUOTE || (if charIsSigned && c >= 0x80 then true else c < SPACE) || c < 0x80
  }

  predicate AnyRequiresQuoting(s: bytes, charIsSigned: bool) {
    exists i | 0 <= i < |s| :: RequiresQuoting(s[i], charIsSigned)
  }

  /** The text between the quotes. */
  function Body(s: bytes, charIsSigned: bool): bytes {
    if AnyRequiresQuoting(s, charIsSigned) then Escaped(s, 0) else s
  }

  function Quoted(s: bytes, charIsSigned: bool): bytes {
    [QUOTE] + Body(s, charIsSigned) + [QUOTE]
  }

  /** isAnyCharRequiredQuoting. */
  method IsAnyCharRequiredQuoting(s: bytes, charIsSigned: bool) returns (any: bool)
    ensures any <==> AnyRequiresQuoting(s, charIsSigned)
  {
    var cur := 0;
    while cur < |s|
      invariant cur <= |s|
      invariant forall i | 0 <= i < cur :: !RequiresQuoting(s[i], charIsSigned)
    {
      if RequiresQuoting(s[cur], charIsSigned) {
        return true;
      }
      cur := cur + 1;
    }
    any := false;
  }

  lemma EscapedGrows(result: bytes, s: bytes, i: nat)
    requires i < |s|
    ensures result + Escaped(s, i) == (result + EscapeAt(s, i).0) + Escaped(s, EscapeAt(s, i).1)
  {
  }

  /** valueToQuotedStringN. An unescaped string holds no NUL, so copying it as a C string copies all of it. */
  method ValueToQuotedStringN(value: bytes, charIsSigned: bool) returns (result: bytes)
    ensures result == Quoted(value, charIsSigned)
  {
    hide Utf8ToCodepoint, CodePointText;
    var any := IsAnyCharRequiredQuoting(value, charIsSigned);
    if !any {
      assert NulFree(value);
      return [QUOTE] + value + [QUOTE];
    }
    result := [QUOTE];
    var c := 0;
    while c != |value|
      invariant c <= |value|
      invariant result + Escaped(value, c) == [QUOTE] + Escaped(value, 0)
      decreases |value| - c
    {
      ghost var (text, next) := EscapeAt(value, c);
      EscapedGrows(result, value, c);
      var short := ShortEscape(value[c]);
      if short.Some? {
        result := result + [BACKSLASH, short.value];
        c := c + 1;
      } else {
        var (cp, last) := Utf8ToCodepoint(value, c);
        result := result + CodePointText(cp);
        c := last + 1;
      }
    }
    result := result + [QUOTE];
  }

  // ---- Unescaping ----

  datatype StringError =
    | EmptyEscape
    | BadEscape
    | FourDigitsExpected
    | HexDigitExpected
    | SixMoreExpected
    | SecondSurrogateExpected

  datatype Decoding = Decoded(text: bytes) | Undecodable(error: StringError, extra: nat)

  datatype CodeUnit = Unit(value: nat, next: nat) | BadUnit(error: StringError, extra: nat)

  function HexValue(c: byte): Option<nat> {
    if ZERO <= c <= NINE then Some(c - ZERO)
    else if 97 <= c <= 102 then Some(c - 97 + 10)
    else if 65 <= c <= 70 then Some(c - 65 + 10)
    else None
  }

  /** Hex digits doc[i..last], continuing from the value read so far. */
  function HexRun(doc: bytes, i: nat, last: nat, soFar: nat): (r: CodeUnit)
    requires i <= last <= |doc|
    ensures r.Unit? ==> r.next == last
    decreases last - i
  {
    if i == last then Unit(soFar, i)
    else
      var d := HexValue(doc[i]);
      if d.None? then BadUnit(HexDigitExpected, i + 1)
      else HexRun(doc, i + 1, last, soFar * 16 + d.value)
  }

  /** decodeUnicodeEscapeSequence on the characters from i up to end. */
  function EscapeSequence(doc: bytes, i: nat, end: nat): (r: CodeUnit)
    requires i <= end <= |doc|
    ensures r.Unit? ==> r.next == i + 4 <= end
  {
    if end - i < 4 then BadUnit(FourDigitsExpected, i) else HexRun(doc, i, i + 4, 0)
  }

  /** decodeUnicodeCodePoint: a high surrogate takes the next escape with it. */
  function CodePoint(doc: bytes, i: nat, end: nat): (r: CodeUnit)
    requires i <= end <= |doc|
    ensures r.Unit? ==> i < r.next <= end
  {
    var first := EscapeSequence(doc, i, end);
    if first.BadUnit? || !(0xD800 <= first.value <= 0xDBFF) then first
    else
      var j := first.next;
      if end - j < 6 then BadUnit(SixMoreExpected, j)
      else if doc[j] != BACKSLASH then BadUnit(SecondSurrogateExpected, j + 1)
      else if doc[j + 1] != 117 then BadUnit(SecondSurrogateExpected, j + 2)
      else
        var second := EscapeSequence(doc, j + 2, end);
        if second.BadUnit? then second
        else Unit(0x10000 + first.value % 1024 * 1024 + second.value % 1024, second.next)
  }

  /** The byte a two-character escape stands for. */
  function Unescape(c: byte): Option<byte> {
    if c == QUOTE then Some(QUOTE)
    else if c == SLASH then Some(SLASH)
    else if c == BACKSLASH then Some(BACKSLASH)
    else if c == 98 then Some(BS)
    else if c == 102 then Some(FF)
    else if c == 110 then Some(LF)
    else if c == 114 then Some(CR)
    else if c == 116 then Some(TAB)
    else None
  }

  function Prepend(text: bytes, d: Decoding): Decoding {
    if d.Decoded? then Decoded(text + d.text) else d
  }

  /** decodeString on the characters from i up to end, the position of the closing quote. */
  function Decode(doc: bytes, i: nat, end: nat): Decoding
    requires i <= end <= |doc|
    decreases end - i
  {
    if i == end || doc[i] == QUOTE then Decoded([])
    else if doc[i] != BACKSLASH then Prepend([doc[i]], Decode(doc, i + 1, end))
    else if i + 1 == end then Undecodable(EmptyEscape, i + 1)
    else if doc[i + 1] == 117 then
      var cp := CodePoint(doc, i + 2, end);
      if cp.BadUnit? then Undecodable(cp.error, cp.extra)
      else Prepend(CodePointToUTF8(cp.value), Decode(doc, cp.next, end))
    else
      var u := Unescape(doc[i + 1]);
      if u.None? then Undecodable(BadEscape, i + 2)
      else Prepend([u.value], Decode(doc, i + 2, end))
  }

  /** readString: the position after the closing quote, or the end of the text and failure. */
  function ScanString(doc: bytes, i: nat): (r: (bool, nat))
    requires i <= |doc|
    ensures i <= r.1 <= |doc|
    ensures r.0 ==> r.1 > i && doc[r.1 - 1] == QUOTE
    decreases |doc| - i
  {
    if i == |doc| then (false, i)
    else if doc[i] == BACKSLASH then
      if i + 1 == |doc| then (false, i + 1) else ScanString(doc, i + 2)
    else if doc[i] == QUOTE then (true, i + 1)
    else ScanString(doc, i + 1)
  }

  // ---- Round trip ----

  /** doc holds text at position p. */
  predicate Holds(doc: bytes, p: nat, text: bytes) {
    p + |text| <= |doc| && doc[p..p + |text|] == text
  }

  lemma HoldsSplit(doc: bytes, p: nat, a: bytes, b: bytes)
    requires Holds(doc, p, a + b)
    ensures Holds(doc, p, a) && Holds(doc, p + |a|, b)
  {
    assert doc[p..p + |a|] == (a + b)[..|a|];
    assert doc[p + |a|..p + |a| + |b|] == (a + b)[|a|..];
  }

  lemma HoldsAt(doc: bytes, p: nat, text: bytes)
    requires Holds(doc, p, text)
    ensures forall k | 0 <= k < |text| :: doc[p + k] == text[k]
  {
    forall k | 0 <= k < |text|
      ensures doc[p + k] == text[k]
    {
      assert doc[p..p + |text|][k] == doc[p + k];
    }
  }

  lemma HexDigitValue(d: nat)
    requires d < 16
    ensures HexValue(HexDigit(d)) == Some(d)
  {
  }

  lemma EscapeSequenceOfHex(doc: bytes, p: nat, end: nat, x: nat)
    requires x < 0x10000 && Holds(doc, p, ToHex16Bit(x)) && p + 4 <= end <= |doc|
    ensures EscapeSequence(doc, p, end) == Unit(x, p + 4)
  {
    HoldsAt(doc, p, ToHex16Bit(x));
    var a, b, c, d := x / 256 % 256 / 16, x / 256 % 256 % 16, x % 256 / 16, x % 256 % 16;
    HexDigitValue(a);
    HexDigitValue(b);
    HexDigitValue(c);
    HexDigitValue(d);
    assert doc[p] == HexDigit(a) && doc[p + 1] == HexDigit(b) && doc[p + 2] == HexDigit(c) && doc[p + 3] == HexDigit(d);
    assert HexRun(doc, p + 4, p + 4, ((a * 16 + b) * 16 + c) * 16 + d) == Unit(x, p + 4);
    assert HexRun(doc, p + 2, p + 4, a * 16 + b) == Unit(x, p + 4);
    assert HexRun(doc, p, p + 4, 0) == HexRun(doc, p + 1, p + 4, a);
  }

  lemma DecodeUnicodeEscape(doc: bytes, p: nat, end: nat, cp: nat)
    requires cp < 0x10000 && !(0xD800 <= cp <= 0xDBFF)
    requires Holds(doc, p, UnicodeEscape(cp)) && p + 6 <= end <= |doc|
    ensures Decode(doc, p, end) == Prepend(CodePointToUTF8(cp), Decode(doc, p + 6, end))
  {
    HoldsSplit(doc, p, [BACKSLASH, 117], ToHex16Bit(cp));
    HoldsAt(doc, p, [BACKSLASH, 117]);
    assert doc[p] == BACKSLASH && doc[p + 1] == 117;
    EscapeSequenceOfHex(doc, p + 2, end, cp);
  }

  lemma CodePointOfPair(doc: bytes, p: nat, end: nat, hi: nat, lo: nat)
    requires 0xD800 <= hi <= 0xDBFF && 0xDC00 <= lo <= 0xDFFF
    requires Holds(doc, p, UnicodeEscape(hi) + UnicodeEscape(lo)) && p + 12 <= end <= |doc|
    ensures doc[p] == BACKSLASH && doc[p + 1] == 117
    ensures CodePoint(doc, p + 2, end) == Unit(0x10000 + hi % 1024 * 1024 + lo % 1024, p + 12)
  {
    HoldsSplit(doc, p, UnicodeEscape(hi), UnicodeEscape(lo));
    HoldsSplit(doc, p, [BACKSLASH, 117], ToHex16Bit(hi));
    HoldsSplit(doc, p + 6, [BACKSLASH, 117], ToHex16Bit(lo));
    HoldsAt(doc, p, [BACKSLASH, 117]);
    HoldsAt(doc, p + 6, [BACKSLASH, 117]);
    assert doc[p] == BACKSLASH && doc[p + 1] == 117 && doc[p + 6] == BACKSLASH && doc[p + 7] == 117;
    EscapeSequenceOfHex(doc, p + 2, end, hi);
    EscapeSequenceOfHex(doc, p + 8, end, lo);
  }

  lemma DecodeSurrogatePair(doc: bytes, p: nat, end: nat, hi: nat, lo: nat)
    requires 0xD800 <= hi <= 0xDBFF && 0xDC00 <= lo <= 0xDFFF
    requires Holds(doc, p, UnicodeEscape(hi) + UnicodeEscape(lo)) && p + 12 <= end <= |doc|
    ensures Decode(doc, p, end)
         == Prepend(CodePointToUTF8(0x10000 + (hi - 0xD800) * 1024 + (lo - 0xDC00)), Decode(doc, p + 12, end))
  {
    hide CodePoint, Holds, CodePointToUTF8;
    CodePointOfPair(doc, p, end, hi, lo);
    assert hi % 1024 == hi - 0xD800 && lo % 1024 == lo - 0xDC00;
  }

  lemma DecodePlainByte(doc: bytes, p: nat, end: nat, c: byte)
    requires c != QUOTE && c != BACKSLASH && Holds(doc, p, [c]) && p + 1 <= end <= |doc|
    ensures Decode(doc, p, end) == Prepend([c], Decode(doc, p + 1, end))
  {
    HoldsAt(doc, p, [c]);
    assert doc[p + 0] == c;
  }

  /** The escape of one scalar value decodes to its UTF-8 form. */
  lemma DecodeCodePointText(doc: bytes, p: nat, end: nat, cp: nat)
    requires cp <= 0x10FFFF && !(0xD800 <= cp <= 0xDFFF) && cp != QUOTE && cp != BACKSLASH
    requires Holds(doc, p, CodePointText(cp)) && p + |CodePointText(cp)| <= end <= |doc|
    ensures Decode(doc, p, end) == Prepend(CodePointToUTF8(cp), Decode(doc, p + |CodePointText(cp)|, end))
  {
    hide Decode, ToHex16Bit, Holds;
    if 0x20 <= cp < 0x80 {
      DecodePlainByte(doc, p, end, cp);
    } else if cp < 0x10000 {
      DecodeUnicodeEscape(doc, p, end, cp);
    } else {
      DecodeSurrogatePair(doc, p, end, (cp - 0x10000) / 1024 + 0xD800, (cp - 0x10000) % 1024 + 0xDC00);
    }
  }

  /** The text for one character of a valid string decodes to the bytes of that character. */
  lemma DecodeEscapeAt(doc: bytes, p: nat, end: nat, s: bytes, i: nat)
    requires i < |s| && Utf8Length(s, i) > 0
    requires Holds(doc, p, EscapeAt(s, i).0) && p + |EscapeAt(s, i).0| <= end <= |doc|
    ensures EscapeAt(s, i).1 == i + Utf8Length(s, i)
    ensures Decode(doc, p, end) == Prepend(s[i..EscapeAt(s, i).1], Decode(doc, p + |EscapeAt(s, i).0|, end))
  {
    CodepointRoundTrip(s, i);
    var short := ShortEscape(s[i]);
    if short.Some? {
      HoldsAt(doc, p, [BACKSLASH, short.value]);
      assert doc[p + 0] == BACKSLASH && doc[p + 1] == short.value;
      assert Unescape(short.value) == Some(s[i]) && s[i..i + 1] == [s[i]];
    } else {
      DecodeCodePointText(doc, p, end, Utf8ToCodepoint(s, i).0);
    }
  }

  lemma EscapedFirst(doc: bytes, p: nat, s: bytes, i: nat) returns (q: nat)
    requires i < |s| && Utf8Length(s, i) > 0 && Holds(doc, p, Escaped(s, i))
    ensures var next := i + Utf8Length(s, i);
            && Holds(doc, q, Escaped(s, next))
            && q + |Escaped(s, next)| == p + |Escaped(s, i)|
            && Decode(doc, p, p + |Escaped(s, i)|) == Prepend(s[i..next], Decode(doc, q, q + |Escaped(s, next)|))
  {
    hide Utf8ToCodepoint, Utf8Length, CodePointText, Decode;
    var (text, next) := EscapeAt(s, i);
    assert Escaped(s, i) == text + Escaped(s, next);
    HoldsSplit(doc, p, text, Escaped(s, next));
    DecodeEscapeAt(doc, p, p + |Escaped(s, i)|, s, i);
    q := p + |text|;
  }

  /** Decoding the escaped form of the rest of a valid UTF-8 string gives that rest. */
  lemma {:induction false} DecodeEscaped(doc: bytes, p: nat, s: bytes, i: nat)
    requires i <= |s| && ValidUtf8From(s, i) && Holds(doc, p, Escaped(s, i))
    ensures Decode(doc, p, p + |Escaped(s, i)|) == Decoded(s[i..])
    decreases |s| - i
  {
    hide Utf8ToCodepoint, Utf8Length, EscapeAt;
    if i < |s| {
      var next := i + Utf8Length(s, i);
      var q := EscapedFirst(doc, p, s, i);
      DecodeEscaped(doc, q, s, next);
      assert s[i..] == s[i..next] + s[next..];
    }
  }

  /** Bytes that are neither a quote nor a backslash decode to themselves. */
  lemma {:induction false} DecodePlain(doc: bytes, p: nat, s: bytes)
    requires Holds(doc, p, s) && forall i | 0 <= i < |s| :: s[i] != QUOTE && s[i] != BACKSLASH
    ensures Decode(doc, p, p + |s|) == Decoded(s)
    decreases |s|
  {
    if s != [] {
      assert s == [s[0]] + s[1..];
      HoldsSplit(doc, p, [s[0]], s[1..]);
      assert doc[p] == doc[p..p + 1][0];
      DecodePlain(doc, p + 1, s[1..]);
    }
  }

  /** decodeString undoes valueToQuotedStringN on every valid UTF-8 string. */
  lemma StringRoundTrip(doc: bytes, p: nat, s: bytes, charIsSigned: bool)
    requires ValidUtf8(s) && Holds(doc, p, Quoted(s, charIsSigned))
    ensures Decode(doc, p + 1, p + |Quoted(s, charIsSigned)| - 1) == Decoded(s)
  {
    hide Decode, Escaped, ValidUtf8From;
    assert Quoted(s, charIsSigned) == [QUOTE] + Body(s, charIsSigned) + [QUOTE];
    HoldsSplit(doc, p, [QUOTE] + Body(s, charIsSigned), [QUOTE]);
    HoldsSplit(doc, p, [QUOTE], Body(s, charIsSigned));
    if AnyRequiresQuoting(s, charIsSigned) {
      DecodeEscaped(doc, p + 1, s, 0);
    } else {
      DecodePlain(doc, p + 1, s);
    }
  }

  // ---- Strings that are not UTF-8 ----

  lemma LengthFromHere(s: bytes, i: nat)
    requires i < |s|
    ensures Utf8Length(s, i) == Utf8Length(s[i..], 0)
  {
  }

  /** The bytes a scalar value is encoded in are a valid sequence, whatever follows. */
  lemma EncodedIsValid(cp: nat, rest: bytes)
    requires cp <= 0x10FFFF && !(0xD800 <= cp <= 0xDFFF)
    ensures var u := CodePointToUTF8(cp);
            u != [] && Utf8Length(u + rest, 0) == |u|
  {
    if 0x80 <= cp <= 0x7FF {
      assert cp / 64 % 32 == cp / 64;
    } else if 0x800 <= cp <= 0xFFFF {
      ThreeByteShape(cp);
    } else if 0x10000 <= cp {
      FourByteForm(cp);
    }
  }

  lemma ThreeByteShape(cp: nat)
    requires 0x800 <= cp <= 0xFFFF && !(0xD800 <= cp <= 0xDFFF)
    ensures var a, b := cp / 4096 % 16, cp / 64 % 64;
            (a == 0 ==> b >= 32) && (a == 13 ==> b < 32)
  {
    var a, b, c := cp / 4096, cp / 64 % 64, cp % 64;
    assert cp == a * 4096 + b * 64 + c;
  }

  lemma FourByteForm(cp: nat)
    requires 0x10000 <= cp <= 0x10FFFF
    ensures var a, b := cp / 262144 % 8, cp / 4096 % 64;
            a <= 4 && (a == 0 ==> b >= 16) && (a == 4 ==> b < 16)
  {
    var a, b := cp / 262144, cp / 4096 % 64;
    assert a * 262144 + b * 4096 <= cp < a * 262144 + b * 4096 + 4096;
  }

  /** Where a string is not UTF-8, the text for it decodes to something that the string does not start with. */
  lemma DecodeBadAt(doc: bytes, p: nat, end: nat, s: bytes, i: nat)
    requires i < |s| && Utf8Length(s, i) == 0
    requires Holds(doc, p, EscapeAt(s, i).0) && p + |EscapeAt(s, i).0| <= end <= |doc|
    ensures Decode(doc, p, end) != Decoded(s[i..])
  {
    hide Decode, CodePointToUTF8, Utf8ToCodepoint, Utf8Length, CodePointText, EscapeAt, Holds;
    var cp := Utf8ToCodepoint(s, i).0;
    BadCodepoint(s, i);
    if cp <= 0x10FFFF {
      DecodeCodePointText(doc, p, end, cp);
      NotEncoded(s, i, cp, Decode(doc, p + |CodePointText(cp)|, end));
    } else {
      DecodeTooLarge(doc, p, end, cp, s[i..]);
    }
  }

  /** Beyond the last code point the writer's pair begins with a low surrogate, which is decoded by itself. */
  lemma DecodeTooLarge(doc: bytes, p: nat, end: nat, cp: nat, s: bytes)
    requires 0x10FFFF < cp < 0x20_0000 && s != [] && s[0] >= 0xF0
    requires Holds(doc, p, CodePointText(cp)) && p + |CodePointText(cp)| <= end <= |doc|
    ensures Decode(doc, p, end) != Decoded(s)
  {
    hide Decode, ToHex16Bit, Holds;
    var hi, lo := (cp - 0x10000) / 1024 + 0xD800, (cp - 0x10000) % 1024 + 0xDC00;
    HoldsSplit(doc, p, UnicodeEscape(hi), UnicodeEscape(lo));
    DecodeUnicodeEscape(doc, p, end, hi);
    assert hi / 4096 == 13;
    var u := CodePointToUTF8(hi);
    assert u[0] == 0xED;
    var rest := Decode(doc, p + 6, end);
    assert rest.Decoded? ==> (u + rest.text)[0] == u[0];
  }

  lemma BadCodepoint(s: bytes, i: nat)
    requires i < |s| && Utf8Length(s, i) == 0
    ensures var cp := Utf8ToCodepoint(s, i).0;
            && s[i] >= 0x80 && cp >= 0x80 && !(0xD800 <= cp <= 0xDFFF) && ShortEscape(s[i]).None?
            && EscapeAt(s, i).0 == CodePointText(cp) && (cp >= 0x10000 ==> s[i] >= 0xF0)
  {
  }

  lemma NotEncoded(s: bytes, i: nat, cp: nat, rest: Decoding)
    requires i < |s| && Utf8Length(s, i) == 0 && cp <= 0x10FFFF && !(0xD800 <= cp <= 0xDFFF)
    ensures Prepend(CodePointToUTF8(cp), rest) != Decoded(s[i..])
  {
    hide CodePointToUTF8, Utf8Length;
    LengthFromHere(s, i);
    if rest.Decoded? {
      EncodedIsValid(cp, rest.text);
    }
  }

  lemma PrependDiffers(a: bytes, d: Decoding, b: bytes)
    requires d != Decoded(b)
    ensures Prepend(a, d) != Decoded(a + b)
  {
    if d.Decoded? {
      assert (a + d.text)[|a|..] == d.text && (a + b)[|a|..] == b;
    }
  }

  lemma {:induction false} DecodeInvalid(doc: bytes, p: nat, s: bytes, i: nat)
    requires i <= |s| && !ValidUtf8From(s, i) && Holds(doc, p, Escaped(s, i))
    ensures Decode(doc, p, p + |Escaped(s, i)|) != Decoded(s[i..])
    decreases |s| - i
  {
    hide Utf8ToCodepoint, Utf8Length, EscapeAt, Decode;
    if Utf8Length(s, i) > 0 {
      var next := i + Utf8Length(s, i);
      var q := EscapedFirst(doc, p, s, i);
      DecodeInvalid(doc, q, s, next);
      assert s[i..] == s[i..next] + s[next..];
      PrependDiffers(s[i..next], Decode(doc, q, q + |Escaped(s, next)|), s[next..]);
    } else {
      HoldsSplit(doc, p, EscapeAt(s, i).0, Escaped(s, EscapeAt(s, i).1));
      DecodeBadAt(doc, p, p + |Escaped(s, i)|, s, i);
    }
  }

  /** A quoted string decodes to itself if and only if it is valid UTF-8 or was written without escapes. */
  lemma StringRoundTripIff(doc: bytes, p: nat, s: bytes, charIsSigned: bool)
    requires Holds(doc, p, Quoted(s, charIsSigned))
    ensures Decode(doc, p + 1, p + |Quoted(s, charIsSigned)| - 1) == Decoded(s)
       <==> ValidUtf8(s) || !AnyRequiresQuoting(s, charIsSigned)
  {
    hide Decode, Escaped, ValidUtf8From;
    if ValidUtf8(s) {
      StringRoundTrip(doc, p, s, charIsSigned);
    } else {
      assert Quoted(s, charIsSigned) == [QUOTE] + Body(s, charIsSigned) + [QUOTE];
      HoldsSplit(doc, p, [QUOTE] + Body(s, charIsSigned), [QUOTE]);
      HoldsSplit(doc, p, [QUOTE], Body(s, charIsSigned));
      assert s[0..] == s;
      if AnyRequiresQuoting(s, charIsSigned) {
        DecodeInvalid(doc, p + 1, s, 0);
      } else {
        DecodePlain(doc, p + 1, s);
      }
    }
  }

  /** Every quote in the text is escaped, and no escape is cut off at its end. */
  predicate Closed(text: bytes) {
    if text == [] then true
    else if text[0] == QUOTE then false
    else if text[0] == BACKSLASH then |text| >= 2 && Closed(text[2..])
    else Closed(text[1..])
  }

  lemma {:induction false} ClosedConcat(a: bytes, b: bytes)
    requires Closed(a) && Closed(b)
    ensures Closed(a + b)
    decreases |a|
  {
    if a == [] {
      assert a + b == b;
    } else if a[0] == BACKSLASH {
      assert (a + b)[2..] == a[2..] + b;
      ClosedConcat(a[2..], b);
    } else {
      assert (a + b)[1..] == a[1..] + b;
      ClosedConcat(a[1..], b);
    }
  }

  lemma {:induction false} PlainClosed(text: bytes)
    requires forall i | 0 <= i < |text| :: text[i] != QUOTE && text[i] != BACKSLASH
    ensures Closed(text)
    decreases |text|
  {
    if text != [] {
      PlainClosed(text[1..]);
    }
  }

  lemma UnicodeEscapeClosed(x: nat)
    ensures Closed(UnicodeEscape(x))
  {
    PlainClosed(ToHex16Bit(x));
    assert UnicodeEscape(x)[2..] == ToHex16Bit(x);
  }

  lemma {:induction false} EscapedClosed(s: bytes, i: nat)
    requires i <= |s|
    ensures Closed(Escaped(s, i))
    decreases |s| - i
  {
    if i < |s| {
      var (text, next) := EscapeAt(s, i);
      var cp := Utf8ToCodepoint(s, i).0;
      if ShortEscape(s[i]).Some? {
        assert text[2..] == [];
      } else if 0x20 <= cp < 0x80 {
        PlainClosed(text);
      } else if cp < 0x10000 {
        UnicodeEscapeClosed(cp);
      } else {
        UnicodeEscapeClosed((cp - 0x10000) / 1024 + 0xD800);
        UnicodeEscapeClosed((cp - 0x10000) % 1024 + 0xDC00);
        ClosedConcat(UnicodeEscape((cp - 0x10000) / 1024 + 0xD800), UnicodeEscape((cp - 0x10000) % 1024 + 0xDC00));
      }
      EscapedClosed(s, next);
      ClosedConcat(text, Escaped(s, next));
    }
  }

  lemma {:induction false} ScanClosed(doc: bytes, p: nat, text: bytes)
    requires Closed(text) && Holds(doc, p, text + [QUOTE])
    ensures ScanString(doc, p) == (true, p + |text| + 1)
    decreases |text|
  {
    HoldsAt(doc, p, text + [QUOTE]);
    assert doc[p] == (text + [QUOTE])[0];
    if text != [] {
      var n := if text[0] == BACKSLASH then 2 else 1;
      assert text + [QUOTE] == text[..n] + (text[n..] + [QUOTE]);
      HoldsSplit(doc, p, text[..n], text[n..] + [QUOTE]);
      ScanClosed(doc, p + n, text[n..]);
    }
  }

  /** readString stops exactly behind the closing quote, whatever bytes were quoted. */
  lemma ScanQuoted(doc: bytes, p: nat, s: bytes, charIsSigned: bool)
    requires Holds(doc, p, Quoted(s, charIsSigned))
    ensures ScanString(doc, p + 1) == (true, p + |Quoted(s, charIsSigned)|)
  {
    var body := Body(s, charIsSigned);
    assert Quoted(s, charIsSigned) == [QUOTE] + (body + [QUOTE]);
    HoldsSplit(doc, p, [QUOTE], body + [QUOTE]);
    if AnyRequiresQuoting(s, charIsSigned) {
      EscapedClosed(s, 0);
    } else {
      PlainClosed(body);
    }
    ScanClosed(doc, p + 1, body);
  }
}
