/**
 The tokens of Json::Reader, as functions of the text and a position in it.
 */
module Lexer {
  import opened Bytes
  import opened Quoting

  datatype TokenType =
    | EndOfStream | ObjectBegin | ObjectEnd | ArrayBegin | ArrayEnd | String | Number
    | True | False | NullToken | ArraySeparator | MemberSeparator | Comment | ErrorToken

  datatype Token = Token(kind: TokenType, start: nat, end: nat)

  function SkipSpaces(doc: bytes, i: nat): (p: nat)
    requires i <= |doc|
    ensures i <= p <= |doc|
    ensures p < |doc| ==> !IsSpace(doc[p])
    decreases |doc| - i
  {
    if i < |doc| && IsSpace(doc[i]) then SkipSpaces(doc, i + 1) else i
  }

  function SkipDigits(doc: bytes, i: nat): (p: nat)
    requires i <= |doc|
    ensures i <= p <= |doc|
    decreases |doc| - i
  {
    if i < |doc| && IsDigit(doc[i]) then SkipDigits(doc, i + 1) else i
  }

  /** readNumber: any digits, then an optional fraction and an optional exponent, each with any digits. */
  function NumberEnd(doc: bytes, i: nat): (p: nat)
    requires i <= |doc|
    ensures i <= p <= |doc|
  {
    ExponentEnd(doc, FractionEnd(doc, SkipDigits(doc, i)))
  }

  function FractionEnd(doc: bytes, i: nat): (p: nat)
    requires i <= |doc|
    ensures i <= p <= |doc|
  {
    if i < |doc| && doc[i] == DOT then SkipDigits(doc, i + 1) else i
  }

  function ExponentEnd(doc: bytes, i: nat): (p: nat)
    requires i <= |doc|
    ensures i <= p <= |doc|
  {
    if i < |doc| && (doc[i] == 101 || doc[i] == 69) then SkipDigits(doc, SkipSign(doc, i + 1)) else i
  }

  function SkipSign(doc: bytes, i: nat): (p: nat)
    requires i <= |doc|
    ensures i <= p <= |doc|
  {
    if i < |doc| && (doc[i] == PLUS || doc[i] == MINUS) then i + 1 else i
  }

  /** match(): the position after the pattern, or the position unchanged. */
  function Match(doc: bytes, i: nat, pattern: bytes): (r: (bool, nat))
    requires i <= |doc|
    ensures i <= r.1 <= |doc|
  {
    if i + |pattern| <= |doc| && doc[i..i + |pattern|] == pattern then (true, i + |pattern|) else (false, i)
  }

  /**
   readCStyleComment, from the position after the opening slash and star. The loop stops one
   byte before the end, so a lone slash there also closes the comment.
   */
  function CStyleEnd(doc: bytes, i: nat): (r: (bool, nat))
    requires i <= |doc|
    ensures i <= r.1 <= |doc|
    decreases |doc| - i
  {
    if i + 1 < |doc| then
      if doc[i] == STAR && doc[i + 1] == SLASH then (true, i + 2)
      else CStyleEnd(doc, i + 1)
    else if i < |doc| then (doc[i] == SLASH, i + 1)
    else (false, i)
  }

  /** readCppStyleComment. */
  function CppStyleEnd(doc: bytes, i: nat): (p: nat)
    requires i <= |doc|
    ensures i <= p <= |doc|
    decreases |doc| - i
  {
    if i == |doc| then i
    else if doc[i] == LF then i + 1
    else if doc[i] == CR then (if i + 1 < |doc| && doc[i + 1] == LF then i + 2 else i + 1)
    else CppStyleEnd(doc, i + 1)
  }

  /** readComment, from the position after the first slash. */
  function CommentEnd(doc: bytes, i: nat): (r: (bool, nat))
    requires i <= |doc|
    ensures i <= r.1 <= |doc|
  {
    if i == |doc| then (false, i)
    else if doc[i] == STAR then CStyleEnd(doc, i + 1)
    else if doc[i] == SLASH then (true, CppStyleEnd(doc, i + 1))
    else (false, i + 1)
  }

  /** The type of a token that is one character long; a NUL byte reads as the end of the text. */
  function PunctuationType(c: byte): Option<TokenType> {
    if c == LBRACE then Some(ObjectBegin)
    else if c == RBRACE then Some(ObjectEnd)
    else if c == LBRACKET then Some(ArrayBegin)
    else if c == RBRACKET then Some(ArrayEnd)
    else if c == COMMA then Some(ArraySeparator)
    else if c == COLON then Some(MemberSeparator)
    else if c == NUL then Some(EndOfStream)
    else None
  }

  function Finished(kind: TokenType, start: nat, r: (bool, nat)): Token {
    Token(if r.0 then kind else ErrorToken, start, r.1)
  }

  /** readToken after the spaces: the token that starts with the character at p. */
  function TokenAt(doc: bytes, p: nat): (t: Token)
    requires p < |doc|
    ensures t.start == p < t.end <= |doc|
  {
    var c := doc[p];
    var kind := PunctuationType(c);
    if kind.Some? then Token(kind.value, p, p + 1)
    else if c == QUOTE then Finished(String, p, ScanString(doc, p + 1))
    else if c == SLASH then Finished(Comment, p, CommentEnd(doc, p + 1))
    else if IsDigit(c) || c == MINUS then Token(Number, p, NumberEnd(doc, p + 1))
    else if c == TRUE_TEXT[0] then Finished(True, p, Match(doc, p + 1, TRUE_TEXT[1..]))
    else if c == FALSE_TEXT[0] then Finished(False, p, Match(doc, p + 1, FALSE_TEXT[1..]))
    else if c == NULL_TEXT[0] then Finished(NullToken, p, Match(doc, p + 1, NULL_TEXT[1..]))
    else Token(ErrorToken, p, p + 1)
  }

  /** readToken. Only the end of the text yields an empty token. */
  function ReadToken(doc: bytes, i: nat): (t: Token)
    requires i <= |doc|
    ensures i <= t.start <= t.end <= |doc|
    ensures t.kind != EndOfStream ==> t.start < t.end
    ensures t.start == t.end ==> t.end == |doc|
    ensures t.kind == String ==> t.start + 2 <= t.end && doc[t.start] == QUOTE && doc[t.end - 1] == QUOTE
  {
    var p := SkipSpaces(doc, i);
    if p == |doc| then Token(EndOfStream, p, p) else TokenAt(doc, p)
  }

  /** The first token at or after i that is not a comment. */
  function SkipComments(doc: bytes, i: nat): (t: Token)
    requires i <= |doc|
    ensures i <= t.start <= t.end <= |doc|
    ensures t.kind != Comment
    ensures t.kind != EndOfStream ==> t.start < t.end
    ensures t.kind == String ==> t.start + 2 <= t.end && doc[t.start] == QUOTE && doc[t.end - 1] == QUOTE
    decreases |doc| - i
  {
    var t := ReadToken(doc, i);
    if t.kind == Comment then SkipComments(doc, t.end) else t
  }

  /** recoverFromError: behind the first token of the wanted type, or at an end of stream. */
  function RecoverEnd(doc: bytes, i: nat, skipUntil: TokenType): (p: nat)
    requires i <= |doc|
    ensures i <= p <= |doc|
    decreases |doc| - i
  {
    var t := ReadToken(doc, i);
    if t.kind == skipUntil || t.kind == EndOfStream then t.end else RecoverEnd(doc, t.end, skipUntil)
  }

  // ---- Recognising printed tokens ----

  lemma {:induction false} SkipSpacesOver(doc: bytes, i: nat, gap: bytes)
    requires AllSpaces(gap) && Holds(doc, i, gap)
    ensures SkipSpaces(doc, i) == SkipSpaces(doc, i + |gap|)
    decreases |gap|
  {
    if gap != [] {
      assert gap == [gap[0]] + gap[1..];
      HoldsSplit(doc, i, [gap[0]], gap[1..]);
      assert doc[i..i + 1][0] == gap[0];
      SkipSpacesOver(doc, i + 1, gap[1..]);
    }
  }

  lemma {:induction false} SkipDigitsOver(doc: bytes, i: nat, digits: bytes)
    requires AllDigits(digits) && Holds(doc, i, digits)
    ensures SkipDigits(doc, i) == SkipDigits(doc, i + |digits|)
    decreases |digits|
  {
    if digits != [] {
      assert digits == [digits[0]] + digits[1..];
      HoldsSplit(doc, i, [digits[0]], digits[1..]);
      assert doc[i..i + 1][0] == digits[0];
      SkipDigitsOver(doc, i + 1, digits[1..]);
    }
  }

  /** What may follow a printed number: anything that does not continue it. */
  predicate EndsNumber(doc: bytes, i: nat) {
    i < |doc| ==> !IsDigit(doc[i]) && doc[i] != DOT && doc[i] != 101 && doc[i] != 69
  }

  lemma LiteralTokenAt(doc: bytes, p: nat, text: bytes, kind: TokenType)
    requires Holds(doc, p, text)
    requires (text, kind) in [(TRUE_TEXT, True), (FALSE_TEXT, False), (NULL_TEXT, NullToken)]
    ensures TokenAt(doc, p) == Token(kind, p, p + |text|)
  {
    assert text == [text[0]] + text[1..];
    HoldsSplit(doc, p, [text[0]], text[1..]);
    assert doc[p..p + 1][0] == text[0];
  }

  /** Text without a bare quote or a cut escape, between quotes, is one string token. */
  lemma StringTokenAt(doc: bytes, p: nat, text: bytes)
    requires Closed(text) && Holds(doc, p, [QUOTE] + (text + [QUOTE]))
    ensures TokenAt(doc, p) == Token(String, p, p + |text| + 2)
  {
    hide TokenAt, ScanString, Closed;
    HoldsSplit(doc, p, [QUOTE], text + [QUOTE]);
    assert doc[p] == doc[p..p + 1][0];
    ScanClosed(doc, p + 1, text);
    QuoteBegins(doc, p);
  }

  lemma QuoteBegins(doc: bytes, p: nat)
    requires p < |doc| && doc[p] == QUOTE
    ensures TokenAt(doc, p) == Finished(String, p, ScanString(doc, p + 1))
  {
    hide ScanString;
  }
}
