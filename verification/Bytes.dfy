/**
 Bytes, the ASCII characters the JSON and HTTP code name, and the byte-string
 order that `memcmp` followed by a length comparison defines.
 */
module Bytes {
  type byte = x: int | 0 <= x < 256
  type bytes = seq<byte>

  datatype Option<+T> = None | Some(value: T)

  const NUL: byte := 0
  const BS: byte := 8
  const TAB: byte := 9
  const LF: byte := 10
  const FF: byte := 12
  const CR: byte := 13
  const SPACE: byte := 32
  const QUOTE: byte := 34
  const STAR: byte := 42
  const PLUS: byte := 43
  const COMMA: byte := 44
  const MINUS: byte := 45
  const DOT: byte := 46
  const SLASH: byte := 47
  const ZERO: byte := 48
  const NINE: byte := 57
  const COLON: byte := 58
  const LBRACKET: byte := 91
  const BACKSLASH: byte := 92
  const RBRACKET: byte := 93
  const LBRACE: byte := 123
  const RBRACE: byte := 125

  const CRLF: bytes := [13, 10]

  // "true", "false" and "null"
  const TRUE_TEXT: bytes := [116, 114, 117, 101]
  const FALSE_TEXT: bytes := [102, 97, 108, 115, 101]
  const NULL_TEXT: bytes := [110, 117, 108, 108]

  predicate IsSpace(c: byte) {
    c == SPACE || c == TAB || c == CR || c == LF
  }

  predicate IsDigit(c: byte) {
    ZERO <= c <= NINE
  }

  predicate AllSpaces(s: bytes) {
    forall i | 0 <= i < |s| :: IsSpace(s[i])
  }

  predicate AllDigits(s: bytes) {
    forall i | 0 <= i < |s| :: IsDigit(s[i])
  }

  predicate NulFree(s: bytes) {
    NUL !in s
  }

  function ToLower(c: byte): byte {
    if 65 <= c <= 90 then c + 32 else c
  }

  function Lower(s: bytes): (r: bytes)
    ensures |r| == |s|
  {
    seq(|s|, i requires 0 <= i < |s| => ToLower(s[i]))
  }

  function Min(a: int, b: int): int {
    if a < b then a else b
  }

  /** The sign of `memcmp` over the first n bytes. */
  function MemCmp(a: bytes, b: bytes, n: nat): int
    requires n <= |a| && n <= |b|
    decreases n
  {
    if n == 0 then 0
    else if a[0] != b[0] then a[0] - b[0]
    else MemCmp(a[1..], b[1..], n - 1)
  }

  /** Byte strings compared as std::map<CZString, ...> and std::map<string, ...> compare their keys. */
  predicate BytesLess(a: bytes, b: bytes) {
    var n := if |a| < |b| then |a| else |b|;
    var comp := MemCmp(a, b, n);
    if comp < 0 then true
    else if comp > 0 then false
    else |a| < |b|
  }

  lemma {:induction false} BytesLessStep(a: bytes, b: bytes)
    ensures a != [] && b != [] && a[0] == b[0] ==> BytesLess(a, b) == BytesLess(a[1..], b[1..])
    ensures a != [] && b != [] && a[0] != b[0] ==> (BytesLess(a, b) <==> a[0] < b[0])
    ensures a == [] ==> (BytesLess(a, b) <==> b != [])
    ensures b == [] ==> !BytesLess(a, b)
  {
  }

  /** Exactly one of a < b, a == b, b < a. */
  lemma {:induction false} BytesTrichotomy(a: bytes, b: bytes)
    ensures BytesLess(a, b) ==> a != b && !BytesLess(b, a)
    ensures !BytesLess(a, b) && !BytesLess(b, a) ==> a == b
    decreases |a|
  {
    BytesLessStep(a, b);
    BytesLessStep(b, a);
    if a != [] && b != [] && a[0] == b[0] {
      BytesTrichotomy(a[1..], b[1..]);
      assert a == [a[0]] + a[1..] && b == [b[0]] + b[1..];
    }
  }

  lemma {:induction false} BytesTransitive(a: bytes, b: bytes, c: bytes)
    requires BytesLess(a, b) && BytesLess(b, c)
    ensures BytesLess(a, c)
    decreases |a|
  {
    BytesLessStep(a, b);
    BytesLessStep(b, c);
    BytesLessStep(a, c);
    if a != [] && b != [] && c != [] && a[0] == b[0] == c[0] {
      BytesTransitive(a[1..], b[1..], c[1..]);
    }
  }

  /** They agree up to here, where the first ends or has the smaller byte. */
  predicate BelowAt(a: bytes, b: bytes, k: nat) {
    && k <= |a| && k < |b| && a[..k] == b[..k]
    && (k == |a| || a[k] < b[k])
  }

  lemma PrefixStarts(a: bytes, b: bytes, k: nat)
    requires k <= |a| && k <= |b| && a[..k] == b[..k]
    ensures k > 0 ==> a[0] == b[0]
  {
    assert k > 0 ==> a[..k][0] == b[..k][0];
  }

  lemma BelowStep(a: bytes, b: bytes, k: int)
    requires a != [] && b != [] && a[0] == b[0] && k >= -1
    ensures k >= 0 ==> (BelowAt(a, b, k + 1) <==> BelowAt(a[1..], b[1..], k))
    ensures k == -1 ==> !BelowAt(a, b, k + 1)
  {
    if 0 <= k <= |a[1..]| && k <= |b[1..]| {
      assert a[..k + 1] == [a[0]] + a[1..][..k] && b[..k + 1] == [b[0]] + b[1..][..k];
      assert a[..k + 1][1..] == a[1..][..k] && b[..k + 1][1..] == b[1..][..k];
    }
  }

  /** The order of the dictionary, with bytes from 0 to 255. */
  lemma {:induction false} BytesLessIff(a: bytes, b: bytes)
    ensures BytesLess(a, b) <==> exists k: nat :: BelowAt(a, b, k)
    decreases |a|
  {
    BytesLessStep(a, b);
    if a == [] {
      assert b != [] ==> BelowAt(a, b, 0);
    } else if b != [] {
      if a[0] == b[0] {
        BytesLessIff(a[1..], b[1..]);
        if BytesLess(a, b) {
          var k: nat :| BelowAt(a[1..], b[1..], k);
          BelowStep(a, b, k);
        }
        if exists k: nat :: BelowAt(a, b, k) {
          var k: nat :| BelowAt(a, b, k);
          BelowStep(a, b, k - 1);
          assert BelowAt(a[1..], b[1..], k - 1);
        }
      } else {
        assert a[0] < b[0] ==> BelowAt(a, b, 0);
        forall k: nat | BelowAt(a, b, k)
          ensures k == 0
        {
          PrefixStarts(a, b, k);
        }
      }
    }
  }
}
