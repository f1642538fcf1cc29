/**
 Decimal text of 64-bit integers: the printer that fills a buffer from its end,
 and the reader's accumulator with its overflow guard.
 */
module Decimal {
  import opened Bytes
  import opened Values

  // ---- Specification ----

  function Digits(n: nat): (s: bytes)
    ensures s != [] && AllDigits(s)
  {
    if n < 10 then [ZERO + n] else Digits(n / 10) + [ZERO + n % 10]
  }

  function DecimalValue(s: bytes): nat
    requires AllDigits(s)
  {
    if s == [] then 0
    else DecimalValue(s[..|s| - 1]) * 10 + (s[|s| - 1] - ZERO)
  }

  function IntText(i: int): bytes {
    if i < 0 then [MINUS] + Digits(-i) else Digits(i)
  }

  /** The largest magnitude an integer token of this sign may have. */
  function MaxMagnitude(negative: bool): nat {
    if negative then MAX_INT64 + 1 else MAX_UINT64
  }

  /** The integer Value built for a sign and a magnitude. */
  function IntegerValue(negative: bool, n: nat): Value {
    if negative then Int(0 - n)
    else if n <= MAX_INT32 then Int(n)
    else UInt(n)
  }

  /** The integer a token denotes, if it is one and it fits; otherwise the token goes to decodeDouble. */
  function DecodeInteger(token: bytes): Option<Value>
    requires token != []
  {
    var negative := token[0] == MINUS;
    var ds := if negative then token[1..] else token;
    if AllDigits(ds) && DecimalValue(ds) <= MaxMagnitude(negative)
    then Some(IntegerValue(negative, DecimalValue(ds)))
    else None
  }

  // ---- Properties ----

  lemma {:induction false} DigitsValue(n: nat)
    ensures DecimalValue(Digits(n)) == n
  {
    if n >= 10 {
      DigitsValue(n / 10);
      assert Digits(n)[..|Digits(n)| - 1] == Digits(n / 10);
    }
  }

  lemma {:induction false} DigitsLength(n: nat, k: nat, bound: nat)
    requires n < bound && bound == Pow10(k) && k > 0
    ensures |Digits(n)| <= k
    decreases k
  {
    if n >= 10 {
      DigitsLength(n / 10, k - 1, Pow10(k - 1));
    }
  }

  function Pow10(k: nat): nat {
    if k == 0 then 1 else 10 * Pow10(k - 1)
  }

  /** A 64-bit magnitude needs at most 20 digits. */
  lemma DigitsFit(n: nat)
    requires n <= MAX_UINT64
    ensures |Digits(n)| <= 20
  {
    assert Pow10(5) == 100000;
    assert Pow10(10) == 10000000000;
    assert Pow10(15) == 1000000000000000;
    assert Pow10(20) == 100000000000000000000;
    DigitsLength(n, 20, Pow10(20));
  }

  /** Later digits only make the value larger. */
  lemma {:induction false} PrefixValue(s: bytes, k: nat)
    requires AllDigits(s) && k <= |s|
    ensures DecimalValue(s[..k]) <= DecimalValue(s)
    ensures k < |s| ==> DecimalValue(s[..k]) * 10 <= DecimalValue(s)
    decreases |s|
  {
    if k < |s| {
      PrefixValue(s[..|s| - 1], k);
      assert s[..|s| - 1][..k] == s[..k];
    } else {
      assert s[..k] == s;
    }
  }

  /** Reading back a printed 64-bit integer gives that integer, in the reader's choice of type. */
  lemma DecodeIntText(i: int)
    requires MIN_INT64 <= i <= MAX_UINT64
    ensures DecodeInteger(IntText(i)) == Some(if i <= MAX_INT32 then Int(i) else UInt(i))
  {
    var n: nat := if i < 0 then -i else i;
    DigitsValue(n);
    if i < 0 {
      assert IntText(i)[1..] == Digits(n);
    } else {
      assert IsDigit(Digits(n)[0]);
    }
  }

  /**
   A token of an optional '-' and any digits is read as an integer exactly when
   the number it writes lies in [-2^63, 2^64 - 1], and then exactly as that number.
   */
  lemma ExactIffInRange(negative: bool, ds: bytes)
    requires AllDigits(ds) && (negative || ds != [])
    ensures var token := if negative then [MINUS] + ds else ds;
            var number: int := if negative then 0 - DecimalValue(ds) else DecimalValue(ds);
            && (DecodeInteger(token).Some? <==> MIN_INT64 <= number <= MAX_UINT64)
            && (DecodeInteger(token).Some? ==>
                  var v := DecodeInteger(token).value;
                  (v.Int? && v.i == number) || (v.UInt? && v.u == number > MAX_INT32))
  {
    if negative {
      assert ([MINUS] + ds)[1..] == ds;
    } else {
      assert IsDigit(ds[0]);
    }
  }

  // ---- The printer ----

  const BUFFER_SIZE: nat := 3 * 8 + 1

  /** uintToString: fills the buffer downwards from `end`, which must leave BUFFER_SIZE bytes free. */
  method UintToString(value: nat, buffer: array<byte>, end: nat) returns (current: nat)
    requires value <= MAX_UINT64 && BUFFER_SIZE <= end <= buffer.Length
    modifies buffer
    ensures end - 21 <= current < end && buffer[current..end] == Digits(value) + [NUL]
    ensures buffer[..current] == old(buffer[..current]) && buffer[end..] == old(buffer[end..])
  {
    DigitsFit(value);
    current := end - 1;
    buffer[current] := NUL;
    var rest := value;
    current := current - 1;
    buffer[current] := rest % 10 + ZERO;
    rest := rest / 10;
    while rest != 0
      invariant 0 <= rest && current < end
      invariant Written(value, rest, buffer[current..end])
      invariant buffer[..current] == old(buffer[..current]) && buffer[end..] == old(buffer[end..])
    {
      ghost var before := buffer[current..end];
      assert |before| <= 21;
      current := current - 1;
      buffer[current] := rest % 10 + ZERO;
      assert buffer[current..end] == [rest % 10 + ZERO] + before;
      WrittenStep(value, rest, before);
      rest := rest / 10;
    }
  }

  /** The text so far, preceded by the digits of what is left, is the whole number. */
  ghost predicate Written(value: nat, rest: nat, text: bytes) {
    (if rest == 0 then [] else Digits(rest)) + text == Digits(value) + [NUL]
  }

  lemma WrittenStep(value: nat, rest: nat, text: bytes)
    requires rest > 0 && Written(value, rest, text)
    ensures Written(value, rest / 10, [rest % 10 + ZERO] + text)
  {
    if rest < 10 {
      assert Digits(rest) == [rest % 10 + ZERO];
    } else {
      assert Digits(rest) + text == Digits(rest / 10) + ([rest % 10 + ZERO] + text);
    }
  }

  /** valueToString(LargestInt): the text stays inside the 25-byte buffer. */
  method ValueToStringInt(value: int) returns (text: bytes)
    requires MIN_INT64 <= value <= MAX_INT64
    ensures text == IntText(value)
  {
    var buffer := new byte[BUFFER_SIZE];
    var current := buffer.Length;
    if value < 0 {
      var magnitude := if value == MIN_INT64 then MAX_INT64 + 1 else -value;
      current := UintToString(magnitude, buffer, current);
      current := PushMinus(buffer, current, Digits(magnitude) + [NUL]);
      assert [MINUS] + (Digits(magnitude) + [NUL]) == IntText(value) + [NUL];
    } else {
      current := UintToString(value, buffer, current);
    }
    text := CString(buffer, current, IntText(value));
  }

  /** `*--current = '-'` in front of text that ends the buffer. */
  method PushMinus(buffer: array<byte>, end: nat, ghost tail: bytes) returns (current: nat)
    requires 0 < end <= buffer.Length && buffer[end..buffer.Length] == tail
    modifies buffer
    ensures current == end - 1 && buffer[current..buffer.Length] == [MINUS] + tail
  {
    current := end - 1;
    buffer[current] := MINUS;
    assert buffer[end..buffer.Length] == tail;
  }

  /** The C string that starts at current and ends with the buffer's last byte. */
  method CString(buffer: array<byte>, current: nat, ghost expected: bytes) returns (text: bytes)
    requires current < buffer.Length && buffer[current..buffer.Length] == expected + [NUL]
    ensures text == expected
  {
    text := buffer[current..buffer.Length - 1];
    assert text == buffer[current..buffer.Length][..|expected|];
  }

  /** valueToString(LargestUInt). */
  method ValueToStringUInt(value: nat) returns (text: bytes)
    requires value <= MAX_UINT64
    ensures text == IntText(value)
  {
    var buffer := new byte[BUFFER_SIZE];
    var current := UintToString(value, buffer, buffer.Length);
    text := CString(buffer, current, IntText(value));
  }

  // ---- The reader's accumulator ----

  /** What makes the guard give up: the digits read so far already exceed the limit, or will. */
  lemma GuardIsExact(ds: bytes, k: nat, max: nat)
    requires max >= 100 && k < |ds| && AllDigits(ds[..k + 1])
    ensures DecimalValue(ds[..k + 1]) == DecimalValue(ds[..k]) * 10 + (ds[k] - ZERO)
    ensures var value := DecimalValue(ds[..k]);
            AllDigits(ds) && value >= max / 10
            && (value > max / 10 || k + 1 != |ds| || ds[k] - ZERO > max % 10)
            ==> DecimalValue(ds) > max
  {
    assert ds[..k + 1][..k] == ds[..k];
    if AllDigits(ds) {
      PrefixValue(ds, k + 1);
    }
  }

  /** Reader::decodeNumber on the text of a number token. */
  method DecodeNumber(token: bytes) returns (decoded: Option<Value>)
    requires token != []
    ensures decoded == DecodeInteger(token)
  {
    var isNegative := token[0] == MINUS;
    ghost var ds := if isNegative then token[1..] else token;
    var current := if isNegative then 1 else 0;
    ghost var first := current;
    var maxIntegerValue := if isNegative then MAX_INT64 + 1 else MAX_UINT64;
    var threshold := maxIntegerValue / 10;
    var value := 0;
    while current < |token|
      invariant first <= current <= |token| && |ds| == |token| - first
      invariant AllDigits(ds[..current - first])
      invariant value == DecimalValue(ds[..current - first]) <= maxIntegerValue
    {
      ghost var k := current - first;
      var c := token[current];
      assert c == ds[k];
      current := current + 1;
      if c < ZERO || c > NINE {
        return None;
      }
      assert AllDigits(ds[..k + 1]);
      GuardIsExact(ds, k, maxIntegerValue);
      var digit := c - ZERO;
      if value >= threshold {
        if value > threshold || current != |token| || digit > maxIntegerValue % 10 {
          return None;
        }
      }
      // the 64-bit accumulator does not wrap
      assert value * 10 + digit <= maxIntegerValue;
      value := value * 10 + digit;
    }
    assert ds[..|ds|] == ds;
    if isNegative && value == maxIntegerValue {
      decoded := Some(Int(MIN_INT64));
    } else if isNegative {
      decoded := Some(Int(-value));
    } else if value <= MAX_INT32 {
      decoded := Some(Int(value));
    } else {
      decoded := Some(UInt(value));
    }
  }
}
