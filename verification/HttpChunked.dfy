/**
 HttpRequestBase: sending a buffer through a socket that may take less than it is
 given, and the chunked transfer coding of section 4.1 of RFC 7230.
 */
module HttpChunked {
  import opened Bytes
  import opened HttpBuilder

  // ---- The socket ----

  /** What the socket answers at most to its first, second, ... send: an error, nothing, or a number of bytes. */
  type Answers = nat -> int

  /** The result of a send of n bytes. */
  function Answer(answers: Answers, sends: nat, n: nat): (r: int)
    ensures r <= n
  {
    if answers(sends) < n then answers(sends) else n
  }

  /** What send_buffer comes to: bytes sent, return value, request log, and the sends made so far. */
  datatype Sending = Sending(count: nat, rc: int, log: bytes, sends: nat)

  function Logged(log: bytes, logSize: nat, slice: bytes): bytes {
    if |log| + |slice| < logSize then log + slice else log
  }

  /** send_buffer from the point where this much of the buffer has been sent. */
  function SendFrom(buffer: bytes, sent: nat, answers: Answers, sends: nat, log: bytes, logSize: nat): (s: Sending)
    requires sent <= |buffer|
    ensures sent <= s.count <= |buffer| && sends <= s.sends
    decreases |buffer| - sent
  {
    if sent == |buffer| then Sending(sent, sent, log, sends)
    else
      var r := Answer(answers, sends, |buffer| - sent);
      var logged := Logged(log, logSize, buffer[sent..]);
      if r < 0 then Sending(sent, r, logged, sends + 1)
      else if r == 0 then Sending(sent, sent, logged, sends + 1)
      else SendFrom(buffer, sent + r, answers, sends + 1, logged, logSize)
  }

  // ---- The chunked coding ----

  const LAST_CHUNK: bytes := [ZERO, CR, LF, CR, LF]

  function HexDigit(d: nat): byte
    requires d < 16
  {
    if d < 10 then ZERO + d else 55 + d
  }

  /** %X. */
  function Hex(n: nat): (s: bytes)
    ensures s != []
  {
    if n < 16 then [HexDigit(n)] else Hex(n / 16) + [HexDigit(n % 16)]
  }

  function SizeLine(n: nat): bytes {
    Hex(n) + CRLF
  }

  function ChunkText(chunk: bytes): bytes {
    SizeLine(|chunk|) + chunk + CRLF
  }

  /** The callback ends the body with a chunk of size zero. */
  function Chunks(cs: seq<bytes>): bytes {
    if cs == [] || cs[0] == [] then [] else ChunkText(cs[0]) + Chunks(cs[1..])
  }

  function Encoding(cs: seq<bytes>): bytes {
    Chunks(cs) + LAST_CHUNK
  }

  function Payload(cs: seq<bytes>): bytes {
    if cs == [] || cs[0] == [] then [] else cs[0] + Payload(cs[1..])
  }

  // ---- A series of buffers ----

  datatype Outcome = Outcome(rc: int, out: bytes, sends: nat, log: bytes)

  /**
   send_buffer on one buffer after the other. An error ends the series; a send that
   takes nothing only ends its own buffer, and the series goes on.
   */
  function SendParts(parts: seq<bytes>, answers: Answers, sends: nat, log: bytes, logSize: nat): (o: Outcome)
    ensures sends <= o.sends
  {
    if parts == [] then Outcome(0, [], sends, log)
    else
      var s := SendFrom(parts[0], 0, answers, sends, log, logSize);
      var out := parts[0][..s.count];
      if s.rc < 0 then Outcome(s.rc, out, s.sends, s.log)
      else After(out, SendParts(parts[1..], answers, s.sends, s.log, logSize))
  }

  function After(out: bytes, more: Outcome): Outcome {
    more.(out := out + more.out)
  }

  function ChunkParts(cs: seq<bytes>): seq<bytes> {
    if cs == [] || cs[0] == [] then [LAST_CHUNK]
    else [SizeLine(|cs[0]|), cs[0], CRLF] + ChunkParts(cs[1..])
  }

  function Flatten(parts: seq<bytes>): bytes {
    if parts == [] then [] else parts[0] + Flatten(parts[1..])
  }

  lemma {:induction false} FlattenChunks(cs: seq<bytes>)
    ensures Flatten(ChunkParts(cs)) == Encoding(cs)
    decreases |cs|
  {
    hide SizeLine;
    var parts := ChunkParts(cs);
    if cs == [] || cs[0] == [] {
      assert Flatten(parts) == LAST_CHUNK + Flatten([]);
    } else {
      FlattenChunks(cs[1..]);
      var line, chunk, more := SizeLine(|cs[0]|), cs[0], ChunkParts(cs[1..]);
      var two, one := parts[1..], parts[1..][1..];
      assert one == [CRLF] + more && one[1..] == more;
      assert Flatten(one) == CRLF + Flatten(more);
      assert Flatten(two) == chunk + Flatten(one);
      assert Flatten(parts) == line + Flatten(two);
    }
  }

  class HttpRequestBase {
    const answers: Answers
    var sends: nat
    var wire: bytes
    /** The request log: its capacity, if there is one, and what it holds. */
    const logSize: nat
    var log: bytes

    ghost predicate Valid()
      reads this
    {
      |log| <= logSize
    }

    constructor (answers: Answers, logSize: nat)
      ensures Valid() && this.answers == answers && sends == 0 && wire == [] && log == [] && this.logSize == logSize
    {
      this.answers, this.logSize, sends, wire, log := answers, logSize, 0, [], [];
    }

    /** Socket::send. */
    method SocketSend(slice: bytes) returns (rc: int)
      modifies this`sends, this`wire
      ensures rc == Answer(answers, old(sends), |slice|) && sends == old(sends) + 1
      ensures wire == old(wire) + if rc > 0 then slice[..rc] else []
    {
      rc := Answer(answers, sends, |slice|);
      sends := sends + 1;
      wire := wire + if rc > 0 then slice[..rc] else [];
    }

    /** send_buffer: every byte goes out at most once, in order, from the front. */
    method SendBuffer(buffer: bytes) returns (rc: int)
      requires Valid()
      modifies this`sends, this`wire, this`log
      ensures Valid()
      ensures var s := SendFrom(buffer, 0, answers, old(sends), old(log), logSize);
              rc == s.rc && sends == s.sends && log == s.log && wire == old(wire) + buffer[..s.count]
    {
      hide SendFrom, Logged, Answer;
      rc := 0;
      ghost var all := SendFrom(buffer, 0, answers, sends, log, logSize);
      while rc < |buffer|
        invariant 0 <= rc <= |buffer| && Valid()
        invariant wire == old(wire) + buffer[..rc]
        invariant all == SendFrom(buffer, rc, answers, sends, log, logSize)
        decreases |buffer| - rc
      {
        var slice := buffer[rc..];
        SendStep(buffer, rc, answers, sends, log, logSize);
        log := Logged(log, logSize, slice);
        var result := SocketSend(slice);
        if result < 0 {
          rc := result;
          break;
        }
        if result == 0 {
          break;
        }
        assert buffer[..rc + result] == buffer[..rc] + slice[..result];
        rc := rc + result;
      }
      if rc == |buffer| {
        SendDone(buffer, answers, sends, log, logSize);
      }
    }

    /** The next buffer of a series whose whole outcome is known. */
    method SendPart(part: bytes, ghost start: bytes, ghost parts: seq<bytes>, ghost whole: Outcome) returns (rc: int)
      requires Valid() && InSeries(wire, start, parts, answers, sends, log, logSize, whole)
      requires parts != [] && parts[0] == part
      modifies this`sends, this`wire, this`log
      ensures Valid()
      ensures rc >= 0 ==> InSeries(wire, start, parts[1..], answers, sends, log, logSize, whole)
      ensures rc < 0 ==> rc == whole.rc && wire == start + whole.out && sends == whole.sends && log == whole.log
    {
      rc := SendBuffer(part);
    }

    /** The chunks, until the callback gives one of size zero, and the last chunk. */
    method SendChunks(chunks: seq<bytes>, ghost start: bytes, ghost whole: Outcome) returns (rc: int)
      requires Valid() && SizesFit(chunks)
      requires InSeries(wire, start, ChunkParts(chunks), answers, sends, log, logSize, whole)
      modifies this`sends, this`wire, this`log
      ensures Valid() && wire == start + whole.out && sends == whole.sends && log == whole.log
      ensures rc == whole.rc <= 0
    {
      hide InSeries, SizeLine;
      var i := 0;
      assert chunks[0..] == chunks;
      while i < |chunks| && chunks[i] != []
        invariant i <= |chunks| && Valid() && SizesFit(chunks[i..])
        invariant InSeries(wire, start, ChunkParts(chunks[i..]), answers, sends, log, logSize, whole)
      {
        var buffer := chunks[i];
        ghost var parts := ChunkParts(chunks[i..]);
        assert chunks[i..][1..] == chunks[i + 1..];
        assert parts[1..][1..][1..] == ChunkParts(chunks[i + 1..]);
        var line := SizeText(|buffer|);
        rc := SendPart(line, start, parts, whole);
        if rc < 0 {
          return;
        }
        rc := SendPart(buffer, start, parts[1..], whole);
        if rc < 0 {
          return;
        }
        rc := SendPart(CRLF, start, parts[1..][1..], whole);
        if rc < 0 {
          return;
        }
        i := i + 1;
      }
      assert ChunkParts(chunks[i..]) == [LAST_CHUNK];
      rc := SendPart(LAST_CHUNK, start, [LAST_CHUNK], whole);
      if rc >= 0 {
        assert [LAST_CHUNK][1..] == [];
        SeriesEnd(wire, start, answers, sends, log, logSize, whole);
        rc := 0;
      }
    }

    /**
     send with a body: the request is built, and as much of it as was reserved is sent in
     one buffer. The body of a chunked request is not among that, and a header with a NUL
     is printed up to it.
     */
    method Send(builder: HttpRequestBuilder, connection: int, body: bytes) returns (rc: int)
      requires Valid() && builder.Valid()
      modifies this`sends, this`wire, this`log, builder`headers
      ensures Valid() && builder.Valid()
      ensures connection != 0 ==> rc == connection && wire == old(wire)
      ensures connection == 0 ==>
        && builder.headers == WithLength(old(builder.headers), builder.method_, |body|)
        && (NulFreeHeaders(builder.headers) <==>
              Printed(builder.method_, builder.url, builder.headers) == HeadText(builder.method_, builder.url, builder.headers))
        && var request := Printed(builder.method_, builder.url, builder.headers) + if IsChunked(builder.headers) then [] else body;
           var s := SendFrom(request, 0, answers, old(sends), [], logSize);
           rc == s.rc && wire == old(wire) + request[..s.count] && sends == s.sends && log == s.log
    {
      hide HeadText, Printed, NulFreeHeaders, IsChunked, SendFrom;
      if connection != 0 {
        return connection;
      }
      log := [];
      var request, size, _ := builder.Build(body);
      PrintedIff(builder.method_, builder.url, builder.headers);
      assert request[..size] == Printed(builder.method_, builder.url, builder.headers) + if IsChunked(builder.headers) then [] else body;
      rc := SendBuffer(request[..size]);
    }

    /** send with a callback: the head of a chunked request, then the chunks. */
    method SendChunked(builder: HttpRequestBuilder, connection: int, chunks: seq<bytes>) returns (rc: int)
      requires Valid() && builder.Valid() && SizesFit(chunks)
      modifies this`sends, this`wire, this`log, builder`headers
      ensures Valid() && builder.Valid()
      ensures connection != 0 ==> rc == connection && wire == old(wire)
      ensures connection == 0 ==>
        && builder.headers == PutHeader(old(builder.headers), TRANSFER_ENCODING, CHUNKED)
        && HeaderMap(builder.headers) == HeaderMap(old(builder.headers))[TRANSFER_ENCODING := CHUNKED]
        && var o := SendParts([Printed(builder.method_, builder.url, builder.headers)] + ChunkParts(chunks), answers, old(sends), [], logSize);
           rc == o.rc <= 0 && wire == old(wire) + o.out && sends == o.sends && log == o.log
    {
      hide Printed, NulFreeHeaders, IsChunked, PutHeader, InSeries;
      if connection != 0 {
        return connection;
      }
      log := [];
      PutHeaderIsUpdate(builder.headers, TRANSFER_ENCODING, CHUNKED);
      builder.SetHeader(TRANSFER_ENCODING, CHUNKED);
      PutChunked(old(builder.headers));
      var request, size, _ := builder.Build([]);
      ghost var head := Printed(builder.method_, builder.url, builder.headers);
      assert request[..size] == head;
      ghost var parts := [head] + ChunkParts(chunks);
      ghost var whole := SendParts(parts, answers, sends, log, logSize);
      SeriesStart(wire, parts, answers, sends, log, logSize, whole);
      rc := SendPart(request[..size], old(wire), parts, whole);
      if rc < 0 {
        return;
      }
      assert parts[1..] == ChunkParts(chunks);
      rc := SendChunks(chunks, old(wire), whole);
    }
  }

  lemma SendStep(buffer: bytes, sent: nat, answers: Answers, sends: nat, log: bytes, logSize: nat)
    requires sent < |buffer|
    ensures var r := Answer(answers, sends, |buffer[sent..]|);
            var logged := Logged(log, logSize, buffer[sent..]);
            && r <= |buffer| - sent && (|log| <= logSize ==> |logged| <= logSize)
            && SendFrom(buffer, sent, answers, sends, log, logSize)
               == if r < 0 then Sending(sent, r, logged, sends + 1)
                  else if r == 0 then Sending(sent, sent, logged, sends + 1)
                  else SendFrom(buffer, sent + r, answers, sends + 1, logged, logSize)
  {
  }

  lemma SendDone(buffer: bytes, answers: Answers, sends: nat, log: bytes, logSize: nat)
    ensures SendFrom(buffer, |buffer|, answers, sends, log, logSize) == Sending(|buffer|, |buffer|, log, sends)
  {
  }

  /** start, what has been sent since, and what the parts to come will add make up the whole outcome. */
  ghost predicate InSeries(wire: bytes, start: bytes, parts: seq<bytes>, answers: Answers, sends: nat, log: bytes, logSize: nat,
      whole: Outcome)
  {
    start <= wire && whole == After(wire[|start|..], SendParts(parts, answers, sends, log, logSize))
  }

  lemma SeriesStart(wire: bytes, parts: seq<bytes>, answers: Answers, sends: nat, log: bytes, logSize: nat, whole: Outcome)
    requires whole == SendParts(parts, answers, sends, log, logSize)
    ensures InSeries(wire, wire, parts, answers, sends, log, logSize, whole)
  {
    assert [] + whole.out == whole.out;
  }

  /** Once the chunked coding is asked for, the request counts as chunked; a length set before stays in the headers. */
  lemma PutChunked(hs: seq<Header>)
    ensures IsChunked(PutHeader(hs, TRANSFER_ENCODING, CHUNKED))
  {
    hide PutHeader;
    var r := PutHeader(hs, TRANSFER_ENCODING, CHUNKED);
    assert NulFree(TRANSFER_ENCODING) && NulFree(CHUNKED);
    PutMembers(hs, TRANSFER_ENCODING, CHUNKED);
    var i :| 0 <= i < |r| && r[i] == Header(TRANSFER_ENCODING, CHUNKED);
    assert HeaderIs(r[i], TRANSFER_ENCODING, Some(CHUNKED));
  }

  lemma SeriesEnd(wire: bytes, start: bytes, answers: Answers, sends: nat, log: bytes, logSize: nat, whole: Outcome)
    requires InSeries(wire, start, [], answers, sends, log, logSize, whole)
    ensures whole.rc == 0 && wire == start + whole.out && sends == whole.sends && log == whole.log
  {
  }

  predicate SizesFit(chunks: seq<bytes>) {
    chunks != [] && chunks[0] != [] ==> |chunks[0]| < 0x1000_0000 && SizesFit(chunks[1..])
  }

  /** sprintf of the size line into size_buff. */
  method SizeText(n: nat) returns (line: bytes)
    requires n < 0x1000_0000
    ensures line == SizeLine(n)
  {
    SizeLineFits(n);
    var sizeBuff := new byte[10];
    Print(sizeBuff, 0, SizeLine(n));
    line := sizeBuff[..|SizeLine(n)|];
    assert line == sizeBuff[..][..|SizeLine(n)|];
  }

  /** The ten characters of size_buff hold the size line if and only if the chunk is below 2^28 bytes. */
  lemma SizeLineFits(n: nat)
    ensures |SizeLine(n)| + 1 <= 10 <==> n < 0x1000_0000
  {
    HexLength(n, 7);
  }

  function Pow16(k: nat): (r: nat)
    ensures r >= 1
  {
    if k == 0 then 1 else 16 * Pow16(k - 1)
  }

  lemma {:induction false} HexLength(n: nat, k: nat)
    requires k >= 1
    ensures |Hex(n)| <= k <==> n < Pow16(k)
    ensures k == 7 ==> Pow16(k) == 0x1000_0000
    decreases k
  {
    assert k == 7 ==> Pow16(2) == 256 && Pow16(4) == 65536 && Pow16(6) == 0x100_0000;
    if k > 1 && n >= 16 {
      HexLength(n / 16, k - 1);
    }
  }

  // ---- What arrives ----

  /** What k answers from here on add up to. */
  ghost function Total(answers: Answers, from: nat, k: nat): int
    decreases k
  {
    if k == 0 then 0 else answers(from) + Total(answers, from + 1, k - 1)
  }

  /** The answers from here on are positive and add up to n bytes or more at the k-th, and not before. */
  ghost predicate Takes(answers: Answers, from: nat, k: nat, n: nat) {
    && (forall i | from <= i < from + k :: answers(i) > 0)
    && Total(answers, from, k) >= n
    && (k > 0 ==> Total(answers, from, k - 1) < n)
  }

  /** The answers take one buffer of these sizes after the other. */
  ghost predicate TakesAll(answers: Answers, from: nat, parts: seq<bytes>)
    decreases |parts|
  {
    parts == [] || exists k: nat :: Takes(answers, from, k, |parts[0]|) && TakesAll(answers, from + k, parts[1..])
  }

  lemma TakesStep(answers: Answers, from: nat, k: nat, n: nat)
    requires k > 0 && 0 < answers(from) < n
    ensures Takes(answers, from, k, n) <==> Takes(answers, from + 1, k - 1, n - answers(from))
  {
    assert (forall i | from <= i < from + k :: answers(i) > 0)
      <==> answers(from) > 0 && forall i | from + 1 <= i < from + 1 + (k - 1) :: answers(i) > 0;
  }

  lemma {:induction false} TakesNothing(answers: Answers, from: nat, k: nat)
    requires Takes(answers, from, k, 0)
    ensures k == 0
  {
    if k > 0 {
      TotalPositive(answers, from, k - 1);
    }
  }

  lemma {:induction false} TotalPositive(answers: Answers, from: nat, k: nat)
    requires forall i | from <= i < from + k :: answers(i) > 0
    ensures Total(answers, from, k) >= k
    decreases k
  {
    if k > 0 {
      TotalPositive(answers, from + 1, k - 1);
    }
  }

  /** With a first answer that is no progress nothing is taken; with one that covers everything, all is taken at once. */
  lemma TakesFirst(answers: Answers, from: nat, k: nat, n: nat)
    requires n > 0
    ensures answers(from) <= 0 ==> !Takes(answers, from, k, n)
    ensures answers(from) >= n ==> (Takes(answers, from, k, n) <==> k == 1)
  {
    if Takes(answers, from, k, n) && answers(from) >= n && k > 1 {
      TotalPositive(answers, from + 1, k - 2);
    }
    assert Total(answers, from, 1) == answers(from) + Total(answers, from + 1, 0);
  }

  /**
   A buffer goes out whole exactly if the answers to come are positive until they add up
   to its length, and then it takes that many sends; only then, or after a send that takes
   nothing, is there no error.
   */
  lemma {:induction false} SendWholeIff(buffer: bytes, sent: nat, n: nat, answers: Answers, sends: nat, log: bytes, logSize: nat)
    requires sent + n == |buffer|
    ensures var s := SendFrom(buffer, sent, answers, sends, log, logSize);
            && (s.count == |buffer| ==> Takes(answers, sends, s.sends - sends, n))
            && (forall k: nat | Takes(answers, sends, k, n) :: s.count == |buffer| && s.sends == sends + k)
            && (s.rc < 0 || s.rc == s.count) && (s.rc < 0 ==> s.count < |buffer|)
    decreases n
  {
    hide SendFrom, Logged, Takes, Total;
    var s := SendFrom(buffer, sent, answers, sends, log, logSize);
    if n > 0 {
      SendStep(buffer, sent, answers, sends, log, logSize);
      var r := answers(sends);
      forall k: nat
        ensures r <= 0 ==> !Takes(answers, sends, k, n)
        ensures r >= n ==> (Takes(answers, sends, k, n) <==> k == 1)
        ensures Takes(answers, sends, k, n) ==> k > 0
        ensures 0 < r < n && k > 0 ==> (Takes(answers, sends, k, n) <==> Takes(answers, sends + 1, k - 1, n - r))
      {
        TakesFirst(answers, sends, k, n);
        TakesSome(answers, sends, k, n);
        if 0 < r < n && k > 0 {
          TakesStep(answers, sends, k, n);
        }
      }
      if r >= n {
        SendDone(buffer, answers, sends + 1, Logged(log, logSize, buffer[sent..]), logSize);
      } else if r > 0 {
        SendWholeIff(buffer, sent + r, n - r, answers, sends + 1, Logged(log, logSize, buffer[sent..]), logSize);
      }
    } else {
      SendDone(buffer, answers, sends, log, logSize);
      TakesZero(answers, sends);
      forall k: nat | Takes(answers, sends, k, 0)
        ensures k == 0
      {
        TakesNothing(answers, sends, k);
      }
    }
  }

  lemma TakesSome(answers: Answers, from: nat, k: nat, n: nat)
    requires n > 0
    ensures Takes(answers, from, k, n) ==> k > 0
  {
  }

  lemma TakesZero(answers: Answers, from: nat)
    ensures Takes(answers, from, 0, 0)
  {
  }

  /** The buffers all go out, joined together and without an error, exactly if the answers to come take one after the other. */
  lemma {:induction false} SeriesArrives(parts: seq<bytes>, answers: Answers, sends: nat, log: bytes, logSize: nat)
    ensures var o := SendParts(parts, answers, sends, log, logSize);
            && (o.rc == 0 && o.out == Flatten(parts) <==> TakesAll(answers, sends, parts))
            && |o.out| <= |Flatten(parts)| && o.rc <= 0
    decreases |parts|
  {
    if parts != [] {
      hide SendFrom, Takes;
      var s := SendFrom(parts[0], 0, answers, sends, log, logSize);
      SendWholeIff(parts[0], 0, |parts[0]|, answers, sends, log, logSize);
      if s.rc >= 0 {
        SeriesArrives(parts[1..], answers, s.sends, s.log, logSize);
        var more := SendParts(parts[1..], answers, s.sends, s.log, logSize);
        Joined(parts[0], s.count, more.out, Flatten(parts[1..]));
        assert s.sends == sends + (s.sends - sends);
      }
    }
  }

  /** So a socket that always makes progress gets everything. */
  lemma ProgressSendsAll(parts: seq<bytes>, answers: Answers, sends: nat, log: bytes, logSize: nat)
    requires forall i: nat :: i >= sends ==> answers(i) > 0
    ensures var o := SendParts(parts, answers, sends, log, logSize);
            o.rc == 0 && o.out == Flatten(parts)
  {
    ProgressTakesAll(answers, sends, parts);
    SeriesArrives(parts, answers, sends, log, logSize);
  }

  lemma {:induction false} ProgressTakesAll(answers: Answers, from: nat, parts: seq<bytes>)
    requires forall i: nat :: i >= from ==> answers(i) > 0
    ensures TakesAll(answers, from, parts)
    decreases |parts|
  {
    if parts != [] {
      hide Takes;
      var k := ProgressTakes(answers, from, |parts[0]|);
      ProgressTakesAll(answers, from + k, parts[1..]);
    }
  }

  lemma {:induction false} ProgressTakes(answers: Answers, from: nat, n: nat) returns (k: nat)
    requires forall i: nat :: i >= from ==> answers(i) > 0
    ensures Takes(answers, from, k, n)
    decreases n
  {
    hide Takes;
    if n == 0 {
      TakesZero(answers, from);
      k := 0;
    } else if answers(from) >= n {
      TakesFirst(answers, from, 1, n);
      k := 1;
    } else {
      var more := ProgressTakes(answers, from + 1, n - answers(from));
      k := more + 1;
      TakesStep(answers, from, k, n);
    }
  }

  lemma Joined(part: bytes, k: nat, out: bytes, rest: bytes)
    requires k <= |part| && |out| <= |rest|
    ensures part[..k] + out == part + rest <==> k == |part| && out == rest
  {
    if k == |part| {
      assert (part + out)[k..] == out && (part + rest)[k..] == rest;
    }
  }

  function HexDigitValue(c: byte): Option<nat> {
    if 48 <= c <= 57 then Some(c - 48)
    else if 65 <= c <= 70 then Some(c - 55)
    else if 97 <= c <= 102 then Some(c - 87)
    else None
  }

  /** 1*HEXDIG. */
  function HexNumber(s: bytes): Option<nat> {
    if s == [] then None
    else
      var d := HexDigitValue(s[|s| - 1]);
      if d.None? then None
      else if |s| == 1 then d
      else
        var high := HexNumber(s[..|s| - 1]);
        if high.None? then None else Some(high.value * 16 + d.value)
  }

  lemma {:induction false} HexReadBack(n: nat)
    ensures HexNumber(Hex(n)) == Some(n)
    ensures CR !in Hex(n)
  {
    if n >= 16 {
      HexReadBack(n / 16);
      assert Hex(n)[..|Hex(n)| - 1] == Hex(n / 16);
    }
  }

  /** A chunked body without extensions and trailers, and what follows it (section 4.1 of RFC 7230). */
  function Dechunk(s: bytes): Option<(bytes, bytes)>
    decreases |s|
  {
    var line := ReadLine(s);
    if line.None? then None
    else
      var size := HexNumber(line.value.0);
      var rest := line.value.1;
      if size.None? then None
      else if size.value == 0 then if [13, 10] <= rest then Some(([], rest[2..])) else None
      else
        var n := size.value;
        if |rest| < n + 2 || rest[n..n + 2] != [13, 10] || |rest| > |s| then None
        else
          var more := Dechunk(rest[n + 2..]);
          if more.None? then None else Some((rest[..n] + more.value.0, more.value.1))
  }

  lemma ZeroSize()
    ensures Hex(0) == [ZERO]
  {
  }

  /** Decoding the chunked form gives the chunks joined together. */
  lemma {:induction false} DechunkEncoding(cs: seq<bytes>, rest: bytes)
    ensures Dechunk(Encoding(cs) + rest) == Some((Payload(cs), rest))
    decreases |cs|
  {
    hide ReadLine, HexNumber, Hex;
    var s := Encoding(cs) + rest;
    if cs == [] || cs[0] == [] {
      assert s == [ZERO] + CRLF + (CRLF + rest);
      LineRead([ZERO], CRLF + rest);
      HexReadBack(0);
      assert Hex(0) == [ZERO] by { ZeroSize(); }
      assert (CRLF + rest)[2..] == rest && (CRLF + rest)[..2] == CRLF;
    } else {
      var chunk := cs[0];
      var behind := Encoding(cs[1..]) + rest;
      var body := chunk + CRLF + behind;
      HexReadBack(|chunk|);
      assert s == Hex(|chunk|) + CRLF + body;
      LineRead(Hex(|chunk|), body);
      assert body[|chunk|..|chunk| + 2] == CRLF && body[|chunk| + 2..] == behind && body[..|chunk|] == chunk;
      DechunkEncoding(cs[1..], rest);
    }
  }

  /**
   A chunked request: it goes out without an error as the head and a body that decodes
   to the chunks joined together, if and only if the answers take head and parts one by one.
   */
  lemma ChunkedArrives(head: bytes, cs: seq<bytes>, answers: Answers, sends: nat, log: bytes, logSize: nat, rest: bytes)
    ensures var o := SendParts([head] + ChunkParts(cs), answers, sends, log, logSize);
            && (o.rc == 0 && o.out == head + Encoding(cs) <==> TakesAll(answers, sends, [head] + ChunkParts(cs)))
            && (TakesAll(answers, sends, [head] + ChunkParts(cs)) ==> Dechunk(o.out[|head|..] + rest) == Some((Payload(cs), rest)))
  {
    SeriesArrives([head] + ChunkParts(cs), answers, sends, log, logSize);
    FlattenChunks(cs);
    assert ([head] + ChunkParts(cs))[1..] == ChunkParts(cs);
    assert (head + Encoding(cs))[|head|..] == Encoding(cs);
    DechunkEncoding(cs, rest);
  }

  /** A buffer that goes out in one send is logged as a whole if the log has room for it and a byte more, and not at all otherwise. */
  lemma LoggedWhole(buffer: bytes, answers: Answers, sends: nat, log: bytes, logSize: nat)
    requires buffer != [] && answers(sends) >= |buffer|
    ensures var s := SendFrom(buffer, 0, answers, sends, log, logSize);
            s.count == |buffer| && s.log == if |log| + |buffer| < logSize then log + buffer else log
  {
    assert buffer[0..] == buffer;
    SendStep(buffer, 0, answers, sends, log, logSize);
    SendDone(buffer, answers, sends + 1, Logged(log, logSize, buffer), logSize);
  }

  /** The request log repeats what a partial send left over: it is not what went over the wire. */
  lemma LogRepeatsPartialSends(buffer: bytes, answers: Answers, sends: nat, logSize: nat)
    requires 0 < answers(sends) < |buffer| && answers(sends + 1) >= |buffer| - answers(sends)
    requires |buffer| + |buffer| - answers(sends) < logSize
    ensures var s := SendFrom(buffer, 0, answers, sends, [], logSize);
            s.count == |buffer| && s.log == buffer + buffer[answers(sends)..] != buffer
  {
    var r := answers(sends);
    assert buffer[0..] == buffer;
    SendStep(buffer, 0, answers, sends, [], logSize);
    SendStep(buffer, r, answers, sends + 1, buffer, logSize);
  }
}
