/**
 What the tokens of the reader are, byte by byte: which bytes make which token, and
 where it ends.
 */
module TokenForms {
  import opened Bytes
  import opened Quoting
  import opened Lexer

  predicate IsBlankByte(c: byte) {
    c == 32 || c == 9 || c == 10 || c == 13
  }

  lemma {:induction false} SpacesSkipped(doc: bytes, i: nat)
    requires i <= |doc|
    ensures forall k | i <= k < SkipSpaces(doc, i) :: IsBlankByte(doc[k])
    ensures SkipSpaces(doc, i) < |doc| ==> !IsBlankByte(doc[SkipSpaces(doc, i)])
    decreases |doc| - i
  {
    if i < |doc| && IsSpace(doc[i]) {
      SpacesSkipped(doc, i + 1);
    }
  }

  /** Spaces, tabs, line feeds and carriage returns are passed over, and nothing else. */
  lemma TokenStart(doc: bytes, i: nat)
    requires i <= |doc|
    ensures var t := Lexer.ReadToken(doc, i);
            && (forall k | i <= k < t.start :: IsBlankByte(doc[k]))
            && (t.start < |doc| ==> !IsBlankByte(doc[t.start]))
            && (t.start == |doc| ==> t.kind == EndOfStream && t.end == |doc|)
  {
    hide SkipSpaces, TokenAt;
    SpacesSkipped(doc, i);
  }

  /** Each punctuation token is its own byte, and a NUL is the end of the text. */
  lemma PunctuationForm(doc: bytes, p: nat)
    requires p < |doc|
    ensures var t := TokenAt(doc, p);
            && (t.kind == ObjectBegin <==> doc[p] == 123) && (t.kind == ObjectEnd <==> doc[p] == 125)
            && (t.kind == ArrayBegin <==> doc[p] == 91) && (t.kind == ArrayEnd <==> doc[p] == 93)
            && (t.kind == ArraySeparator <==> doc[p] == 44) && (t.kind == MemberSeparator <==> doc[p] == 58)
            && (t.kind == EndOfStream <==> doc[p] == 0)
            && (doc[p] in {123, 125, 91, 93, 44, 58, 0} ==> t.end == p + 1)
  {
    hide ScanString, CommentEnd, NumberEnd, Match;
  }

  /** The three literals are those texts, whatever follows. */
  lemma LiteralForm(doc: bytes, p: nat)
    requires p < |doc|
    ensures var t := TokenAt(doc, p);
            && (t.kind == True <==> Holds(doc, p, [116, 114, 117, 101]))
            && (t.kind == False <==> Holds(doc, p, [102, 97, 108, 115, 101]))
            && (t.kind == NullToken <==> Holds(doc, p, [110, 117, 108, 108]))
            && (t.kind == True || t.kind == NullToken ==> t.end == p + 4) && (t.kind == False ==> t.end == p + 5)
  {
    hide ScanString, CommentEnd, NumberEnd;
    LiteralTail(doc, p, [116, 114, 117, 101]);
    LiteralTail(doc, p, [102, 97, 108, 115, 101]);
    LiteralTail(doc, p, [110, 117, 108, 108]);
  }

  lemma LiteralTail(doc: bytes, p: nat, text: bytes)
    requires p < |doc| && text != []
    ensures Holds(doc, p, text) <==> doc[p] == text[0] && Match(doc, p + 1, text[1..]).0
    ensures Match(doc, p + 1, text[1..]).0 ==> Match(doc, p + 1, text[1..]).1 == p + |text|
  {
    assert text == [text[0]] + text[1..];
    if p + |text| <= |doc| {
      assert doc[p..p + |text|] == [doc[p]] + doc[p + 1..p + |text|];
    }
  }

  /** A string token is closed text between two quotes, and any closed text between quotes is one. */
  lemma StringForm(doc: bytes, p: nat)
    requires p < |doc|
    ensures var t := TokenAt(doc, p);
            && (t.kind == String ==>
                  t.end >= p + 2 && doc[p] == 34 && doc[t.end - 1] == 34 && Closed(doc[p + 1..t.end - 1]))
            && (forall text: bytes | Closed(text) && Holds(doc, p, [34] + (text + [34])) :: t.kind == String && t.end == p + |text| + 2)
  {
    hide ScanString, CommentEnd, NumberEnd, Match, Closed;
    if TokenAt(doc, p).kind == String {
      ScanIsClosed(doc, p + 1);
    }
    forall text: bytes | Closed(text) && Holds(doc, p, [34] + (text + [34]))
      ensures TokenAt(doc, p) == Token(String, p, p + |text| + 2)
    {
      StringTokenAt(doc, p, text);
    }
  }

  lemma {:induction false} ScanIsClosed(doc: bytes, p: nat)
    requires p <= |doc| && ScanString(doc, p).0
    ensures p < ScanString(doc, p).1 && Closed(doc[p..ScanString(doc, p).1 - 1])
    decreases |doc| - p
  {
    var end := ScanString(doc, p).1;
    if doc[p] != QUOTE {
      var n := if doc[p] == BACKSLASH then 2 else 1;
      ScanIsClosed(doc, p + n);
      assert doc[p..end - 1][n..] == doc[p + n..end - 1];
    } else {
      assert doc[p..end - 1] == [];
    }
  }

  // ---- Numbers ----

  predicate DigitsOnly(s: bytes) {
    forall i | 0 <= i < |s| :: 48 <= s[i] <= 57
  }

  predicate DigitAt(doc: bytes, i: nat) {
    i < |doc| && 48 <= doc[i] <= 57
  }

  predicate ByteAt(doc: bytes, i: nat, cs: set<byte>) {
    i < |doc| && doc[i] in cs
  }

  lemma {:induction false} DigitsSkipped(doc: bytes, i: nat)
    requires i <= |doc|
    ensures DigitsOnly(doc[i..SkipDigits(doc, i)]) && !DigitAt(doc, SkipDigits(doc, i))
    decreases |doc| - i
  {
    if i < |doc| && IsDigit(doc[i]) {
      DigitsSkipped(doc, i + 1);
      var e := SkipDigits(doc, i + 1);
      assert doc[i..e] == [doc[i]] + doc[i + 1..e];
    }
  }

  /** A number token begins with a digit or a minus sign. */
  lemma NumberKind(doc: bytes, p: nat)
    requires p < |doc|
    ensures var t := TokenAt(doc, p);
            && (t.kind == Number <==> doc[p] == 45 || 48 <= doc[p] <= 57)
            && (t.kind == Number ==> t.end == NumberEnd(doc, p + 1))
  {
    hide NumberEnd, ScanString, CommentEnd, Match;
  }

  /**
   Behind it stand any digits, a fraction of any digits and an exponent of any digits, each
   as long as it can be.
   */
  lemma NumberForm(doc: bytes, i: nat) returns (whole: nat, fraction: nat)
    requires i <= |doc|
    ensures var end := NumberEnd(doc, i);
            && i <= whole <= fraction <= end <= |doc|
            && DigitsOnly(doc[i..whole]) && !DigitAt(doc, whole)
            && (if ByteAt(doc, whole, {46}) then fraction > whole && DigitsOnly(doc[whole + 1..fraction]) && !DigitAt(doc, fraction)
                else fraction == whole)
            && (if ByteAt(doc, fraction, {101, 69}) then
                  var sign := if ByteAt(doc, fraction + 1, {43, 45}) then fraction + 2 else fraction + 1;
                  sign <= end && DigitsOnly(doc[sign..end]) && !DigitAt(doc, end)
                else end == fraction)
  {
    hide SkipDigits, DigitsOnly;
    DigitsSkipped(doc, i);
    whole := SkipDigits(doc, i);
    fraction := FractionEnd(doc, whole);
    if ByteAt(doc, whole, {46}) {
      DigitsSkipped(doc, whole + 1);
    }
    if ByteAt(doc, fraction, {101, 69}) {
      DigitsSkipped(doc, SkipSign(doc, fraction + 1));
    }
  }

  // ---- Comments ----

  /** A star and a slash end here. */
  predicate ClosesAt(doc: bytes, from: nat, e: nat) {
    from + 2 <= e <= |doc| && doc[e - 2] == 42 && doc[e - 1] == 47
  }

  /** A block comment ends at the first star and slash; if there are none, a slash at the very end of the text ends it too. */
  lemma {:induction false} BlockForm(doc: bytes, i: nat)
    requires i <= |doc|
    ensures var r := CStyleEnd(doc, i);
            && (r.0 ==> (ClosesAt(doc, i, r.1) && forall e: nat | e < r.1 :: !ClosesAt(doc, i, e))
                        || (r.1 == |doc| > i && doc[|doc| - 1] == 47 && forall e: nat :: !ClosesAt(doc, i, e)))
            && (!r.0 ==> (forall e: nat :: !ClosesAt(doc, i, e)) && (i < |doc| ==> doc[|doc| - 1] != 47))
    decreases |doc| - i
  {
    if i + 1 < |doc| && !(doc[i] == STAR && doc[i + 1] == SLASH) {
      BlockForm(doc, i + 1);
      assert forall e: nat :: ClosesAt(doc, i, e) ==> e == i + 2 || ClosesAt(doc, i + 1, e);
      assert !ClosesAt(doc, i, i + 2);
    }
  }

  predicate BreakAt(doc: bytes, k: nat) {
    k < |doc| && (doc[k] == 10 || doc[k] == 13)
  }

  /** A line comment ends behind the first line feed, carriage return, or both in this order, or with the text. */
  lemma {:induction false} LineForm(doc: bytes, i: nat) returns (k: nat)
    requires i <= |doc|
    ensures i <= k <= |doc| && (forall j | i <= j < k :: !BreakAt(doc, j)) && (k < |doc| ==> BreakAt(doc, k))
    ensures CppStyleEnd(doc, i)
         == if k == |doc| then k
            else if doc[k] == 13 && k + 1 < |doc| && doc[k + 1] == 10 then k + 2
            else k + 1
    decreases |doc| - i
  {
    if i < |doc| && !BreakAt(doc, i) {
      k := LineForm(doc, i + 1);
    } else {
      k := i;
    }
  }

  /** Comments begin with two slashes, or with a slash and a star and are closed. */
  lemma CommentForm(doc: bytes, p: nat)
    requires p < |doc|
    ensures var t := TokenAt(doc, p);
            && (t.kind == Comment <==>
                  doc[p] == 47 && (ByteAt(doc, p + 1, {47}) || (ByteAt(doc, p + 1, {42}) && CStyleEnd(doc, p + 2).0)))
            && (t.kind == Comment ==>
                  t.end == if doc[p + 1] == 47 then CppStyleEnd(doc, p + 2) else CStyleEnd(doc, p + 2).1)
  {
    hide ScanString, CStyleEnd, CppStyleEnd, NumberEnd, Match;
  }
}
