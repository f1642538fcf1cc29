/**
 HttpResponse: header and body fragments arrive through parser callbacks and are
 glued together.
 */
module HttpResponse {
  import opened Bytes
  import opened Decimal
  import opened HttpBuilder

  const TWO_32 := 0x1_0000_0000

  // ---- Reading the length ----

  /** The character at a position of a C string, with the NUL that ends it. */
  function CharAt(s: bytes, i: nat): byte {
    if i < |s| then s[i] else NUL
  }

  /** strcicmp: zero for C strings that differ in nothing but case. */
  method StrICmp(a: bytes, b: bytes) returns (d: int)
    requires NulFree(a) && NulFree(b)
    ensures d == 0 <==> Lower(a) == Lower(b)
  {
    var i := 0;
    while true
      invariant i <= |a| && i <= |b|
      invariant forall j | 0 <= j < i :: ToLower(a[j]) == ToLower(b[j])
      decreases |a| - i
    {
      d := ToLower(CharAt(a, i)) - ToLower(CharAt(b, i));
      if d != 0 || CharAt(a, i) == NUL {
        if d != 0 && i < |a| && i < |b| {
          assert Lower(a)[i] != Lower(b)[i];
        }
        return;
      }
      i := i + 1;
    }
  }

  lemma LowerName()
    ensures Lower(LENGTH_NAME) == LENGTH_NAME && NulFree(LENGTH_NAME)
  {
  }

  predicate IsCSpace(c: byte) {
    c == SPACE || 9 <= c <= 13
  }

  function SkipCSpaces(s: bytes): bytes {
    if s != [] && IsCSpace(s[0]) then SkipCSpaces(s[1..]) else s
  }

  function LeadingDigits(s: bytes): (r: bytes)
    ensures AllDigits(r)
  {
    if s != [] && IsDigit(s[0]) then [s[0]] + LeadingDigits(s[1..]) else []
  }

  /** atoi, for texts whose number it can represent. */
  function Atoi(s: bytes): int {
    var t := SkipCSpaces(s);
    if t != [] && t[0] == MINUS then 0 - DecimalValue(LeadingDigits(t[1..]))
    else if t != [] && t[0] == PLUS then DecimalValue(LeadingDigits(t[1..]))
    else DecimalValue(LeadingDigits(t))
  }

  predicate IsLengthField(field: bytes) {
    Lower(CStr(field)) == LENGTH_NAME
  }

  /** The first length field counts; without one the length stays what it was. */
  function ContentLength(fields: seq<bytes>, values: seq<bytes>, otherwise: nat): nat
    requires |fields| <= |values|
  {
    if fields == [] then otherwise
    else if IsLengthField(fields[0]) then Atoi(CStr(values[0])) % TWO_32
    else ContentLength(fields[1..], values[1..], otherwise)
  }

  // "content-length"
  const LENGTH_LETTERS: bytes := [99, 111, 110, 116, 101, 110, 116, 45, 108, 101, 110, 103, 116, 104]

  /** A field is a length field exactly if its name, in lower case, is that. */
  lemma LengthFieldIff(field: bytes)
    requires NulFree(field)
    ensures IsLengthField(field) <==> Lower(field) == LENGTH_LETTERS
  {
  }

  /** A length printed in decimal is read as that number, in the first field of that name in any case. */
  lemma LengthReadBack(fields: seq<bytes>, values: seq<bytes>, i: nat, n: nat, otherwise: nat)
    requires i < |fields| <= |values| && n < 0x8000_0000 && forall j | 0 <= j <= i :: NulFree(fields[j])
    requires Lower(fields[i]) == LENGTH_LETTERS && (forall j | 0 <= j < i :: Lower(fields[j]) != LENGTH_LETTERS)
    requires values[i] == Digits(n)
    ensures ContentLength(fields, values, otherwise) == n
    decreases i
  {
    hide IsLengthField, NulFree;
    LengthFieldIff(fields[0]);
    if i == 0 {
      assert NulFree(Digits(n)) by { DigitsNulFree(n); }
      AtoiReads([], Digits(n), []);
      assert [] + Digits(n) + [] == Digits(n);
      DigitsValue(n);
    } else {
      LengthReadBack(fields[1..], values[1..], i - 1, n, otherwise);
    }
  }

  lemma DigitsNulFree(n: nat)
    ensures NulFree(Digits(n))
  {
  }

  /** Without a field of that name the length stays as it was. */
  lemma {:induction false} NoLengthKept(fields: seq<bytes>, values: seq<bytes>, otherwise: nat)
    requires |fields| <= |values| && forall j | 0 <= j < |fields| :: NulFree(fields[j]) && Lower(fields[j]) != LENGTH_LETTERS
    ensures ContentLength(fields, values, otherwise) == otherwise
    decreases |fields|
  {
    hide IsLengthField, NulFree, Lower;
    if fields != [] {
      LengthFieldIff(fields[0]);
      NoLengthKept(fields[1..], values[1..], otherwise);
    }
  }

  /** The number of the digits behind any whitespace, up to what is no digit. */
  lemma {:induction false} AtoiReads(spaces: bytes, digits: bytes, rest: bytes)
    requires forall i | 0 <= i < |spaces| :: spaces[i] == 32 || 9 <= spaces[i] <= 13
    requires digits != [] && AllDigits(digits) && (rest != [] ==> !IsDigit(rest[0]))
    ensures Atoi(spaces + digits + rest) == DecimalValue(digits)
    decreases |spaces|
  {
    var s := spaces + digits + rest;
    if spaces == [] {
      assert s == digits + rest;
      assert SkipCSpaces(s) == s;
      LeadingDigitsOf(digits, rest);
    } else {
      assert s[1..] == spaces[1..] + digits + rest;
      AtoiReads(spaces[1..], digits, rest);
    }
  }

  lemma {:induction false} LeadingDigitsOf(digits: bytes, rest: bytes)
    requires AllDigits(digits) && (rest != [] ==> !IsDigit(rest[0]))
    ensures LeadingDigits(digits + rest) == digits
    decreases |digits|
  {
    if digits == [] {
      assert digits + rest == rest;
    } else {
      assert (digits + rest)[1..] == digits[1..] + rest;
      LeadingDigitsOf(digits[1..], rest);
    }
  }

  // ---- The callbacks ----

  datatype Callback =
    | OnField(text: bytes)
    | OnValue(text: bytes)
    | OnHeadersComplete
    | OnChunkHeader
    | OnBody(text: bytes)
    | OnMessageComplete

  datatype Response = Response(
    fields: seq<bytes>,
    values: seq<bytes>,
    concatField: bool,
    concatValue: bool,
    expected: nat,
    isChunked: bool,
    received: bytes,
    complete: bool)

  const FRESH := Response([], [], false, false, 0, false, [], false)

  /** Appends to the last string, or starts a new one. */
  function Glue(list: seq<bytes>, text: bytes, concat: bool): (r: seq<bytes>)
    ensures |r| >= |list|
  {
    if concat && list != [] then list[..|list| - 1] + [list[|list| - 1] + text] else list + [text]
  }

  predicate Ready(r: Response) {
    && (r.concatField ==> r.fields != []) && (r.concatValue ==> r.values != [])
  }

  function Step(r: Response, c: Callback): Response {
    match c
    case OnField(text) => r.(concatValue := false, fields := Glue(r.fields, text, r.concatField), concatField := true)
    case OnValue(text) => r.(concatField := false, values := Glue(r.values, text, r.concatValue), concatValue := true)
    case OnHeadersComplete =>
      if |r.fields| <= |r.values| then r.(expected := ContentLength(r.fields, r.values, r.expected)) else r
    case OnChunkHeader => r.(isChunked := true)
    case OnBody(text) => r.(isChunked := r.isChunked || (r.expected == 0 && text != []), received := r.received + text)
    case OnMessageComplete => r.(complete := true)
  }

  function Feed(r: Response, cs: seq<Callback>): Response
    decreases |cs|
  {
    if cs == [] then r else Feed(Step(r, cs[0]), cs[1..])
  }

  /** The bytes that do not fit. */
  function Over(total: nat, room: nat): nat {
    if total <= room then 0 else total - room
  }

  /** memcpy into a buffer; what lies past its end is only counted. */
  method CopyIn(buffer: array<byte>, offset: nat, at: bytes) returns (ghost lost: nat)
    modifies buffer
    ensures lost == Over(offset + |at|, buffer.Length) - Over(offset, buffer.Length)
    ensures offset + |at| <= buffer.Length ==> buffer[..] == old(buffer[..offset]) + at + old(buffer[offset + |at|..])
  {
    ghost var was := buffer[..];
    lost := Over(offset + |at|, buffer.Length) - Over(offset, buffer.Length);
    var i := 0;
    while i < |at| && offset + i < buffer.Length
      invariant i <= |at| && (i == 0 || offset + i <= buffer.Length)
      invariant offset + i <= buffer.Length ==> buffer[..] == was[..offset] + at[..i] + was[offset + i..]
    {
      buffer[offset + i] := at[i];
      i := i + 1;
    }
    assert i == |at| ==> at[..i] == at;
  }

  class HttpResponse {
    var headerFields: seq<bytes>
    var headerValues: seq<bytes>
    var concatHeaderField: bool
    var concatHeaderValue: bool
    var expectedContentLength: nat
    var isChunked: bool
    var isMessageCompleted: bool
    var body: array?<byte>
    var bodyOffset: nat
    /** Every body byte handed over, and how many of them were written past the end of the buffer. */
    ghost var received: bytes
    ghost var outside: nat

    ghost predicate Valid()
      reads this, body
    {
      && bodyOffset == |received|
      && (body == null ==> received == [] && outside == 0)
      && (body != null && outside == 0 ==> |received| <= body.Length && body[..|received|] == received)
      && (body != null && !isChunked ==> body.Length == expectedContentLength && outside == Over(|received|, expectedContentLength))
      && (expectedContentLength == 0 ==> outside == 0)
      && (concatHeaderField ==> headerFields != []) && (concatHeaderValue ==> headerValues != [])
    }

    ghost function State(): Response
      reads this
    {
      Response(headerFields, headerValues, concatHeaderField, concatHeaderValue, expectedContentLength, isChunked,
               received, isMessageCompleted)
    }

    constructor ()
      ensures Valid() && State() == FRESH && body == null && outside == 0
    {
      headerFields, headerValues := [], [];
      concatHeaderField, concatHeaderValue, isChunked, isMessageCompleted := false, false, false, false;
      expectedContentLength, bodyOffset := 0, 0;
      body := null;
      received, outside := [], 0;
    }

    method SetHeaderField(field: bytes)
      requires Valid()
      modifies this`concatHeaderValue, this`headerFields, this`concatHeaderField
      ensures Valid() && State() == Step(old(State()), OnField(field))
    {
      concatHeaderValue := false;
      if concatHeaderField {
        var last := |headerFields| - 1;
        headerFields := headerFields[..last] + [headerFields[last] + field];
      } else {
        headerFields := headerFields + [field];
      }
      concatHeaderField := true;
    }

    method SetHeaderValue(value: bytes)
      requires Valid()
      modifies this`concatHeaderField, this`headerValues, this`concatHeaderValue
      ensures Valid() && State() == Step(old(State()), OnValue(value))
    {
      concatHeaderField := false;
      if concatHeaderValue {
        var last := |headerValues| - 1;
        headerValues := headerValues[..last] + [headerValues[last] + value];
      } else {
        headerValues := headerValues + [value];
      }
      concatHeaderValue := true;
    }

    /** Called before any of the body, with a value for every field. */
    method SetHeadersComplete()
      requires Valid() && body == null && |headerFields| <= |headerValues|
      modifies this`expectedContentLength
      ensures Valid() && State() == Step(old(State()), OnHeadersComplete)
    {
      hide Lower, CStr, Atoi, Glue;
      LowerName();
      var name := LENGTH_NAME;
      assert headerFields[0..] == headerFields && headerValues[0..] == headerValues;
      for ix := 0 to |headerFields|
        invariant expectedContentLength == old(expectedContentLength)
        invariant ContentLength(headerFields[ix..], headerValues[ix..], expectedContentLength)
               == ContentLength(headerFields, headerValues, expectedContentLength)
      {
        assert headerFields[ix..][1..] == headerFields[ix + 1..] && headerValues[ix..][1..] == headerValues[ix + 1..];
        var d := StrICmp(CStr(headerFields[ix]), name);
        if d == 0 {
          expectedContentLength := Atoi(CStr(headerValues[ix])) % TWO_32;
          break;
        }
      }
    }

    method SetChunked()
      requires Valid()
      modifies this`isChunked
      ensures Valid() && State() == Step(old(State()), OnChunkHeader)
    {
      isChunked := true;
    }

    method SetMessageComplete()
      requires Valid()
      modifies this`isMessageCompleted
      ensures Valid() && State() == Step(old(State()), OnMessageComplete)
    {
      isMessageCompleted := true;
    }

    /** realloc: a buffer of the new size with the old contents in front. */
    method Realloc(from: array<byte>, size: nat) returns (to: array<byte>)
      ensures fresh(to) && to.Length == size
      ensures forall i | 0 <= i < size && i < from.Length :: to[i] == from[i]
    {
      to := new byte[size](_ => NUL);
      for i := 0 to if size < from.Length then size else from.Length
        invariant forall j | 0 <= j < i :: to[j] == from[j]
      {
        to[i] := from[i];
      }
    }

    /** The buffer for the next fragment: allocated at the announced length, or grown in chunked mode. */
    method MakeRoom(length: nat)
      requires Valid()
      modifies this`isChunked, this`body
      ensures isChunked == (old(isChunked) || (expectedContentLength == 0 && length > 0))
      ensures body != null && (fresh(body) || (body == old(body) && body[..] == old(if body == null then [] else body[..])))
      ensures isChunked ==> body.Length == bodyOffset + length
      ensures !isChunked ==> body.Length == expectedContentLength && outside == Over(|received|, expectedContentLength)
      ensures outside == 0 ==> |received| <= body.Length && body[..|received|] == received
    {
      if expectedContentLength == 0 && length > 0 {
        isChunked := true;
      }
      if body == null && !isChunked {
        body := new byte[expectedContentLength](_ => NUL);
      }
      if isChunked {
        if body == null {
          body := new byte[length](_ => NUL);
        } else {
          body := Realloc(body, bodyOffset + length);
        }
      }
    }

    method SetBody(at: bytes)
      requires Valid()
      modifies this`isChunked, this`body, this`bodyOffset, this`received, this`outside, body
      ensures Valid() && State() == Step(old(State()), OnBody(at)) && body != null
      ensures isChunked ==> outside == old(outside)
      ensures fresh(body) || body == old(body)
    {
      hide Glue, ContentLength;
      MakeRoom(|at|);
      ghost var now := body[..];
      ghost var lost := CopyIn(body, bodyOffset, at);
      outside := outside + lost;
      assert outside == 0 ==> body[..|received + at|] == now[..|received|] + at;
      received := received + at;
      bodyOffset := bodyOffset + |at|;
    }

    /** One callback of the header part or of the body part. */
    method Dispatch(c: Callback)
      requires Valid() && !c.OnHeadersComplete?
      modifies this, body
      ensures Valid() && State() == Step(old(State()), c)
      ensures fresh(body) || body == old(body)
      ensures isChunked ==> outside == old(outside)
      ensures !c.OnBody? ==> body == old(body)
    {
      hide Glue;
      if c.OnField? {
        SetHeaderField(c.text);
      } else if c.OnValue? {
        SetHeaderValue(c.text);
      } else if c.OnChunkHeader? {
        SetChunked();
      } else if c.OnBody? {
        SetBody(c.text);
      } else {
        SetMessageComplete();
      }
    }

    /** The header callbacks of a message or of its trailer. */
    method ReceiveHeaders(hs: seq<HeaderParts>)
      requires Valid()
      modifies this
      ensures Valid() && State() == Feed(old(State()), HeaderCallbacks(hs))
      ensures body == old(body) && outside == old(outside) && bodyOffset == old(bodyOffset)
    {
      hide Step, HeaderCallbacks;
      var cs := HeaderCallbacks(hs);
      HeadersOnly(hs);
      assert cs[0..] == cs;
      for i := 0 to |cs|
        invariant Valid() && Feed(State(), cs[i..]) == Feed(old(State()), cs)
        invariant body == old(body) && outside == old(outside) && bodyOffset == old(bodyOffset)
      {
        assert cs[i..][1..] == cs[i + 1..] && cs[i] in HeaderCallbacks(hs);
        if cs[i].OnField? {
          SetHeaderField(cs[i].text);
        } else {
          SetHeaderValue(cs[i].text);
        }
      }
    }

    /** The body callbacks. */
    method ReceiveBody(parts: seq<Callback>)
      requires Valid() && BodyOnly(parts) && body == null && !isChunked
      modifies this
      ensures Valid() && State() == Feed(old(State()), parts)
      ensures outside == Misplaced(parts, expectedContentLength) && expectedContentLength == old(expectedContentLength)
      ensures body == null || fresh(body)
    {
      hide Step, BodyOf, Valid, Misplaced, HasChunkHeader, Over, BodyOnly;
      PlainStart(expectedContentLength);
      NothingYet();
      assert parts[0..] == parts && parts[..0] == [];
      for i := 0 to |parts|
        invariant Valid() && (body == null || fresh(body)) && Feed(State(), parts[i..]) == Feed(old(State()), parts)
        invariant expectedContentLength == old(expectedContentLength)
        invariant isChunked ==> expectedContentLength == 0 || HasChunkHeader(parts[..i])
        invariant !isChunked ==> !HasChunkHeader(parts[..i]) && received == BodyOf(parts[..i])
        invariant outside == Misplaced(parts[..i], expectedContentLength)
      {
        assert parts[i..][1..] == parts[i + 1..] && parts[..i + 1] == parts[..i] + [parts[i]];
        OneOfBody(parts, i);
        MisplacedStep(parts[..i], parts[i], expectedContentLength);
        StepFacts(State(), parts[i]);
        Dispatch(parts[i]);
        OutsideFacts();
      }
      assert parts[..|parts|] == parts;
    }

    /** What Valid says about the bytes outside. */
    lemma OutsideFacts()
      requires Valid()
      ensures expectedContentLength == 0 ==> outside == 0
      ensures !isChunked ==> outside == Over(|received|, expectedContentLength)
    {
    }

    lemma NothingYet()
      requires Valid() && body == null
      ensures received == [] && outside == 0
    {
    }

    /**
     All callbacks of one message. The bytes written outside the buffer are exactly those
     that arrive before the first chunk header and beyond the announced length.
     */
    method Receive(hs: seq<HeaderParts>, parts: seq<Callback>, trailer: seq<HeaderParts>)
      requires Valid() && State() == FRESH && body == null && Whole(hs) && Whole(trailer) && BodyOnly(parts)
      modifies this
      ensures Valid() && State() == Assembled(hs, parts, trailer)
      ensures outside == Misplaced(parts, ContentLength(Names(hs), Contents(hs), 0))
    {
      hide Step, ContentLength, Names, Contents, BodyOf, HeaderCallbacks, Misplaced;
      ReceiveHeaders(hs);
      HeadersFed(hs);
      SetHeadersComplete();
      CompleteFacts(Feed(FRESH, HeaderCallbacks(hs)));
      ReceiveBody(parts);
      ReceiveHeaders(trailer);
      SetMessageComplete();
      MessageFed(hs, parts, trailer);
      Reassembled(hs, parts, trailer);
    }

    method GetBodyAsString() returns (s: bytes)
      requires Valid() && outside == 0
      ensures s == received
    {
      s := if body == null then [] else body[..bodyOffset];
    }
  }

  // ---- Fragmentation ----

  function Join(parts: seq<bytes>): bytes {
    if parts == [] then [] else parts[0] + Join(parts[1..])
  }

  function Fields(parts: seq<bytes>): seq<Callback> {
    seq(|parts|, i requires 0 <= i < |parts| => OnField(parts[i]))
  }

  function Values(parts: seq<bytes>): seq<Callback> {
    seq(|parts|, i requires 0 <= i < |parts| => OnValue(parts[i]))
  }

  /** The fragments in which a header's name and value arrive; there is at least one of each. */
  datatype HeaderParts = HeaderParts(field: seq<bytes>, value: seq<bytes>)

  predicate Whole(hs: seq<HeaderParts>) {
    forall i | 0 <= i < |hs| :: hs[i].field != [] && hs[i].value != []
  }

  function HeaderCallbacks(hs: seq<HeaderParts>): seq<Callback> {
    if hs == [] then [] else Fields(hs[0].field) + Values(hs[0].value) + HeaderCallbacks(hs[1..])
  }

  function Names(hs: seq<HeaderParts>): (r: seq<bytes>)
    ensures |r| == |hs|
  {
    seq(|hs|, i requires 0 <= i < |hs| => Join(hs[i].field))
  }

  function Contents(hs: seq<HeaderParts>): (r: seq<bytes>)
    ensures |r| == |hs|
  {
    seq(|hs|, i requires 0 <= i < |hs| => Join(hs[i].value))
  }

  /** The body callbacks: fragments, and in chunked mode the chunk headers between them. */
  predicate BodyOnly(cs: seq<Callback>) {
    forall i | 0 <= i < |cs| :: cs[i].OnBody? || cs[i].OnChunkHeader?
  }

  function BodyOf(cs: seq<Callback>): bytes {
    if cs == [] then [] else (if cs[0].OnBody? then cs[0].text else []) + BodyOf(cs[1..])
  }

  lemma {:induction false} FeedAppend(r: Response, a: seq<Callback>, b: seq<Callback>)
    ensures Feed(r, a + b) == Feed(Feed(r, a), b)
    decreases |a|
  {
    hide Step;
    if a == [] {
      assert a + b == b;
    } else {
      assert (a + b)[1..] == a[1..] + b;
      FeedAppend(Step(r, a[0]), a[1..], b);
    }
  }

  /** Further fragments of a name are appended to it. */
  lemma {:induction false} MoreField(r: Response, parts: seq<bytes>)
    requires r.concatField && r.fields != []
    ensures var n := |r.fields| - 1;
            Feed(r, Fields(parts)) == if parts == [] then r else r.(concatValue := false, fields := r.fields[..n] + [r.fields[n] + Join(parts)])
    decreases |parts|
  {
    if parts != [] {
      var next := Step(r, OnField(parts[0]));
      assert Fields(parts)[1..] == Fields(parts[1..]);
      MoreField(next, parts[1..]);
      var n := |r.fields| - 1;
      assert r.fields[n] + parts[0] + Join(parts[1..]) == r.fields[n] + Join(parts);
      assert parts[1..] == [] ==> parts[0] + Join(parts[1..]) == parts[0];
    }
  }

  lemma {:induction false} MoreValue(r: Response, parts: seq<bytes>)
    requires r.concatValue && r.values != []
    ensures var n := |r.values| - 1;
            Feed(r, Values(parts)) == if parts == [] then r else r.(concatField := false, values := r.values[..n] + [r.values[n] + Join(parts)])
    decreases |parts|
  {
    if parts != [] {
      var next := Step(r, OnValue(parts[0]));
      assert Values(parts)[1..] == Values(parts[1..]);
      MoreValue(next, parts[1..]);
      var n := |r.values| - 1;
      assert r.values[n] + parts[0] + Join(parts[1..]) == r.values[n] + Join(parts);
      assert parts[1..] == [] ==> parts[0] + Join(parts[1..]) == parts[0];
    }
  }

  /** However a header is split, it becomes one entry in each list. */
  lemma OneHeader(r: Response, h: HeaderParts)
    requires !r.concatField && h.field != [] && h.value != []
    ensures Feed(r, Fields(h.field) + Values(h.value))
         == r.(concatField := false, concatValue := true, fields := r.fields + [Join(h.field)], values := r.values + [Join(h.value)])
  {
    FeedAppend(r, Fields(h.field), Values(h.value));
    FirstField(r, h.field);
    FirstValue(Feed(r, Fields(h.field)), h.value);
  }

  lemma FirstField(r: Response, parts: seq<bytes>)
    requires !r.concatField && parts != []
    ensures Feed(r, Fields(parts)) == r.(concatValue := false, concatField := true, fields := r.fields + [Join(parts)])
  {
    var next := Step(r, OnField(parts[0]));
    assert Fields(parts)[1..] == Fields(parts[1..]);
    MoreField(next, parts[1..]);
    assert next.fields[..|r.fields|] == r.fields;
    assert parts[1..] == [] ==> parts[0] + Join(parts[1..]) == parts[0];
  }

  lemma FirstValue(r: Response, parts: seq<bytes>)
    requires !r.concatValue && parts != []
    ensures Feed(r, Values(parts)) == r.(concatField := false, concatValue := true, values := r.values + [Join(parts)])
  {
    var next := Step(r, OnValue(parts[0]));
    assert Values(parts)[1..] == Values(parts[1..]);
    MoreValue(next, parts[1..]);
    assert next.values[..|r.values|] == r.values;
    assert parts[1..] == [] ==> parts[0] + Join(parts[1..]) == parts[0];
  }

  lemma {:induction false} AllHeaders(r: Response, hs: seq<HeaderParts>)
    requires !r.concatField && Whole(hs)
    ensures Feed(r, HeaderCallbacks(hs))
         == if hs == [] then r
            else r.(concatField := false, concatValue := true, fields := r.fields + Names(hs), values := r.values + Contents(hs))
    decreases |hs|
  {
    hide Fields, Values, Join, Step;
    if hs != [] {
      var one := Fields(hs[0].field) + Values(hs[0].value);
      FeedAppend(r, one, HeaderCallbacks(hs[1..]));
      OneHeader(r, hs[0]);
      AllHeaders(Feed(r, one), hs[1..]);
      assert r.fields + Names(hs) == r.fields + [Names(hs)[0]] + Names(hs[1..]);
      assert r.values + Contents(hs) == r.values + [Contents(hs)[0]] + Contents(hs[1..]);
      assert hs[1..] == [] ==> Names(hs[1..]) == [] && Contents(hs[1..]) == [];
    }
  }

  predicate HasChunkHeader(cs: seq<Callback>) {
    OnChunkHeader in cs
  }

  /** The body callbacks before the first chunk header. */
  function Plain(cs: seq<Callback>): seq<Callback> {
    if cs == [] || cs[0].OnChunkHeader? then [] else [cs[0]] + Plain(cs[1..])
  }

  /** The bytes that do not fit into a buffer of the announced length, while that is the buffer in use. */
  function Misplaced(parts: seq<Callback>, length: nat): nat {
    if length == 0 then 0 else Over(|BodyOf(Plain(parts))|, length)
  }

  lemma PlainStart(length: nat)
    ensures BodyOf([]) == [] && Misplaced([], length) == 0 && !HasChunkHeader([])
  {
  }

  lemma {:induction false} PlainAppend(cs: seq<Callback>, c: Callback)
    ensures HasChunkHeader(cs + [c]) <==> HasChunkHeader(cs) || c.OnChunkHeader?
    ensures Plain(cs + [c]) == if HasChunkHeader(cs) then Plain(cs) else if c.OnChunkHeader? then cs else cs + [c]
    ensures !HasChunkHeader(cs) ==> Plain(cs) == cs
    ensures BodyOf(cs + [c]) == BodyOf(cs) + if c.OnBody? then c.text else []
    decreases |cs|
  {
    if cs != [] {
      assert (cs + [c])[1..] == cs[1..] + [c];
      assert cs == [cs[0]] + cs[1..];
      PlainAppend(cs[1..], c);
    } else {
      assert cs + [c] == [c] && [c][1..] == [];
    }
  }

  /** One more callback misplaces bytes only while the buffer of the announced length is in use. */
  lemma MisplacedStep(cs: seq<Callback>, c: Callback, length: nat)
    ensures HasChunkHeader(cs + [c]) <==> HasChunkHeader(cs) || c.OnChunkHeader?
    ensures BodyOf(cs + [c]) == BodyOf(cs) + if c.OnBody? then c.text else []
    ensures Misplaced(cs + [c], length)
         == if length == 0 then 0
            else if HasChunkHeader(cs) || c.OnChunkHeader? then Misplaced(cs, length)
            else Over(|BodyOf(cs + [c])|, length)
  {
    PlainAppend(cs, c);
  }

  lemma OneOfBody(cs: seq<Callback>, i: nat)
    requires BodyOnly(cs) && i < |cs|
    ensures cs[i].OnBody? || cs[i].OnChunkHeader?
  {
  }

  lemma StepFacts(r: Response, c: Callback)
    requires c.OnBody? || c.OnChunkHeader?
    ensures var s := Step(r, c);
            && s.expected == r.expected
            && s.isChunked == (r.isChunked || c.OnChunkHeader? || (r.expected == 0 && c.text != []))
            && s.received == r.received + if c.OnBody? then c.text else []
  {
    assert r.received + [] == r.received;
  }

  lemma {:induction false} AllBody(r: Response, cs: seq<Callback>)
    requires BodyOnly(cs)
    ensures Feed(r, cs) == r.(
              received := r.received + BodyOf(cs),
              isChunked := r.isChunked || HasChunkHeader(cs) || (r.expected == 0 && BodyOf(cs) != []))
    decreases |cs|
  {
    if cs != [] {
      hide ContentLength, Glue;
      AllBody(Step(r, cs[0]), cs[1..]);
      assert HasChunkHeader(cs) <==> cs[0] == OnChunkHeader || HasChunkHeader(cs[1..]);
      assert r.received + (if cs[0].OnBody? then cs[0].text else []) + BodyOf(cs[1..]) == r.received + BodyOf(cs);
      assert r.received + [] == r.received;
      assert [] + BodyOf(cs[1..]) == BodyOf(cs[1..]);
    } else {
      assert r.received + [] == r.received;
    }
  }

  function MessageCallbacks(hs: seq<HeaderParts>, body: seq<Callback>, trailer: seq<HeaderParts>): seq<Callback> {
    HeaderCallbacks(hs) + ([OnHeadersComplete] + (body + (HeaderCallbacks(trailer) + [OnMessageComplete])))
  }

  /** What the message is, however it was split: the fields with those of the trailer, the announced length, and the body. */
  function Assembled(hs: seq<HeaderParts>, body: seq<Callback>, trailer: seq<HeaderParts>): Response {
    var length := ContentLength(Names(hs), Contents(hs), 0);
    Response(
      Names(hs) + Names(trailer), Contents(hs) + Contents(trailer), false, hs != [] || trailer != [], length,
      HasChunkHeader(body) || (length == 0 && BodyOf(body) != []), BodyOf(body), true)
  }

  /**
   However the names, the values, the body and the trailer of a message are split, the
   response ends up with one entry for each header, the announced length and the whole body.
   */
  lemma Reassembled(hs: seq<HeaderParts>, body: seq<Callback>, trailer: seq<HeaderParts>)
    requires Whole(hs) && Whole(trailer) && BodyOnly(body)
    ensures Feed(FRESH, MessageCallbacks(hs, body, trailer)) == Assembled(hs, body, trailer)
  {
    hide HeaderCallbacks, Names, Contents, BodyOf, ContentLength, BodyOnly, Whole, MessageCallbacks, HasChunkHeader;
    MessageFed(hs, body, trailer);
    HeadersFed(hs);
    var r := Step(Feed(FRESH, HeaderCallbacks(hs)), OnHeadersComplete);
    AllBody(r, body);
    assert [] + BodyOf(body) == BodyOf(body);
    AllHeaders(Feed(r, body), trailer);
    NoEntries();
    assert Names(hs) + [] == Names(hs) && Contents(hs) + [] == Contents(hs);
  }

  lemma NoEntries()
    ensures Names([]) == [] && Contents([]) == []
  {
  }

  lemma HeadersFed(hs: seq<HeaderParts>)
    requires Whole(hs)
    ensures Feed(FRESH, HeaderCallbacks(hs)) == FRESH.(fields := Names(hs), values := Contents(hs), concatValue := hs != [])
  {
    AllHeaders(FRESH, hs);
    assert [] + Names(hs) == Names(hs) && [] + Contents(hs) == Contents(hs);
  }

  lemma CompleteFacts(r: Response)
    ensures Step(r, OnHeadersComplete).isChunked == r.isChunked
    ensures |r.fields| <= |r.values| ==> Step(r, OnHeadersComplete).expected == ContentLength(r.fields, r.values, r.expected)
  {
  }

  lemma MessageFed(hs: seq<HeaderParts>, body: seq<Callback>, trailer: seq<HeaderParts>)
    ensures Feed(FRESH, MessageCallbacks(hs, body, trailer))
         == Step(Feed(Feed(Step(Feed(FRESH, HeaderCallbacks(hs)), OnHeadersComplete), body), HeaderCallbacks(trailer)), OnMessageComplete)
  {
    hide HeaderCallbacks, Step;
    var last := HeaderCallbacks(trailer) + [OnMessageComplete];
    var tail := [OnHeadersComplete] + (body + last);
    FeedAppend(FRESH, HeaderCallbacks(hs), tail);
    var r := Feed(FRESH, HeaderCallbacks(hs));
    assert tail[1..] == body + last;
    var r1 := Step(r, OnHeadersComplete);
    FeedAppend(r1, body, last);
    FeedAppend(Feed(r1, body), HeaderCallbacks(trailer), [OnMessageComplete]);
    assert [OnMessageComplete][1..] == [];
  }

  lemma {:induction false} HeadersOnly(hs: seq<HeaderParts>)
    ensures forall c | c in HeaderCallbacks(hs) :: c.OnField? || c.OnValue?
    decreases |hs|
  {
    if hs != [] {
      HeadersOnly(hs[1..]);
    }
  }

  /** Two ways to split the same message give the same response. */
  lemma FragmentationIndependent(hs: seq<HeaderParts>, body: seq<Callback>, trailer: seq<HeaderParts>,
                                 hs': seq<HeaderParts>, body': seq<Callback>, trailer': seq<HeaderParts>)
    requires Whole(hs) && Whole(hs') && BodyOnly(body) && BodyOnly(body') && Whole(trailer) && Whole(trailer')
    requires Names(hs) == Names(hs') && Contents(hs) == Contents(hs')
    requires Names(trailer) == Names(trailer') && Contents(trailer) == Contents(trailer')
    requires BodyOf(body) == BodyOf(body') && HasChunkHeader(body) == HasChunkHeader(body')
    ensures Feed(FRESH, MessageCallbacks(hs, body, trailer)) == Feed(FRESH, MessageCallbacks(hs', body', trailer'))
  {
    Reassembled(hs, body, trailer);
    Reassembled(hs', body', trailer');
    assert |Names(hs)| == |hs| && |Names(hs')| == |hs'| && |Names(trailer)| == |trailer| && |Names(trailer')| == |trailer'|;
  }
}
