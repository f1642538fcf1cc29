/**
 Packets of MQTT::Client on the wire: sending a buffer through partial writes, the
 remaining-length field of section 2.2.3 of MQTT 3.1.1, and reading one packet.
 */
module MqttPackets {
  import opened Bytes
  import opened MqttSession

  const BUFFER_OVERFLOW: int := -2

  const MAX_NO_OF_REMAINING_LENGTH_BYTES := 4

  const MAX_REMAINING_LENGTH := 268435455

  // ---- The network ----

  /** How one write turns out: what it returns at most, and whether the timer has expired after it. */
  datatype Attempt = Attempt(rc: int, expired: bool)

  /** What still comes in, and how many bytes the coming reads return at most (or their error). */
  datatype Line = Line(incoming: bytes, grants: seq<int>)

  /** The return code of reading up to n bytes. */
  function ReadCode(l: Line, n: nat): (rc: int)
    ensures rc <= n && rc <= |l.incoming|
  {
    if l.grants == [] then -1 else Min(l.grants[0], Min(n, |l.incoming|))
  }

  /** The line after the read. */
  function AfterRead(l: Line, n: nat): Line {
    var rc := ReadCode(l, n);
    Line(if rc > 0 then l.incoming[rc..] else l.incoming, if l.grants == [] then [] else l.grants[1..])
  }

  function Got(l: Line, n: nat): bytes {
    var rc := ReadCode(l, n);
    if rc > 0 then l.incoming[..rc] else []
  }

  class Network {
    var line: Line
    var plan: seq<Attempt>
    var wire: bytes

    constructor (line: Line, plan: seq<Attempt>)
      ensures this.line == line && this.plan == plan && wire == []
    {
      this.line, this.plan, wire := line, plan, [];
    }

    /** Reads up to n bytes into buffer from index start. */
    method Read(buffer: array<byte>, start: nat, n: nat) returns (rc: int)
      requires start + n <= buffer.Length
      modifies this`line, buffer
      ensures rc == old(ReadCode(line, n)) && line == old(AfterRead(line, n))
      ensures buffer[..] == old(buffer[..start] + Got(line, n)) + old(buffer[..])[start + |old(Got(line, n))|..]
    {
      ghost var was := buffer[..];
      var got := Got(line, n);
      rc := ReadCode(line, n);
      for i := 0 to |got|
        invariant forall j | 0 <= j < i :: buffer[start + j] == got[j]
        invariant forall j | 0 <= j < buffer.Length && !(start <= j < start + i) :: buffer[j] == was[j]
        invariant line == old(line)
      {
        buffer[start + i] := got[i];
      }
      assert buffer[..] == was[..start] + got + was[start + |got|..];
      line := AfterRead(line, n);
    }

    /** Writes up to n bytes of buffer from index start. */
    method Write(buffer: array<byte>, start: nat, n: nat) returns (rc: int, expired: bool)
      requires start + n <= buffer.Length
      modifies this`plan, this`wire
      ensures rc <= n && wire == old(wire) + (if rc > 0 then buffer[start..start + rc] else [])
      ensures old(plan) == [] ==> rc < 0
      ensures old(plan) != [] ==> plan == old(plan)[1..] && rc == Min(old(plan)[0].rc, n) && expired == old(plan)[0].expired
    {
      if plan == [] {
        return -1, true;
      }
      rc, expired := Min(plan[0].rc, n), plan[0].expired;
      plan := plan[1..];
      if rc > 0 {
        wire := wire + buffer[start..start + rc];
      }
    }
  }

  /** How many of the bytes still to send leave under this plan. */
  function Leaving(length: nat, plan: seq<Attempt>): (k: nat)
    ensures k <= length
    decreases |plan|
  {
    if length == 0 || plan == [] || plan[0].rc < 0 then 0
    else
      var k := Min(plan[0].rc, length);
      if plan[0].expired then k else k + Leaving(length - k, plan[1..])
  }

  /** sendPacket: each byte leaves at most once and in order, and SUCCESS says that all of them did. */
  method SendPacket(net: Network, sendbuf: array<byte>, length: nat) returns (rc: int)
    requires length <= sendbuf.Length
    modifies net`plan, net`wire
    ensures net.wire == old(net.wire) + sendbuf[..old(Leaving(length, net.plan))]
    ensures rc == if old(Leaving(length, net.plan)) == length then SUCCESS else FAILURE
  {
    var sent := 0;
    ghost var total := Leaving(length, net.plan);
    while sent < length
      invariant sent <= length
      invariant net.wire == old(net.wire) + sendbuf[..sent]
      invariant sent + Leaving(length - sent, net.plan) == total
      decreases |net.plan|
    {
      var n, expired := net.Write(sendbuf, sent, length - sent);
      if n < 0 {
        break;
      }
      assert sendbuf[..sent + n] == sendbuf[..sent] + sendbuf[sent..sent + n];
      sent := sent + n;
      if expired {
        break;
      }
    }
    rc := if sent == length then SUCCESS else FAILURE;
  }

  /** What k writes return together. */
  ghost function Written(plan: seq<Attempt>, k: nat): int
    requires k <= |plan|
    decreases k
  {
    if k == 0 then 0 else plan[0].rc + Written(plan[1..], k - 1)
  }

  /** The k-th write is the one that completes the packet: none before it failed, and the timer had not expired. */
  ghost predicate CompletesAt(length: nat, plan: seq<Attempt>, k: nat) {
    && k <= |plan|
    && (forall i | 0 <= i < k :: plan[i].rc >= 0)
    && (forall i | 0 <= i < k - 1 :: !plan[i].expired)
    && Written(plan, k) >= length
    && (k > 0 ==> Written(plan, k - 1) < length)
  }

  /** The packet is sent exactly if some write completes it. */
  lemma {:induction false} SendSucceedsIff(length: nat, plan: seq<Attempt>)
    ensures Leaving(length, plan) == length <==> exists k: nat :: CompletesAt(length, plan, k)
    decreases |plan|
  {
    hide CompletesAt;
    if length == 0 || plan == [] || plan[0].rc < 0 || plan[0].rc >= length || plan[0].expired {
      AtOnce(length, plan);
    } else {
      var rc := plan[0].rc;
      SendSucceedsIff(length - rc, plan[1..]);
      if Leaving(length, plan) == length {
        var k: nat :| CompletesAt(length - rc, plan[1..], k);
        LaterWrite(length, plan, k);
      }
      if exists k: nat :: CompletesAt(length, plan, k) {
        var k: nat :| CompletesAt(length, plan, k);
        SomeWrite(length, plan, k);
        LaterWrite(length, plan, k - 1);
      }
    }
  }

  lemma AtOnce(length: nat, plan: seq<Attempt>)
    requires length == 0 || plan == [] || plan[0].rc < 0 || plan[0].rc >= length || plan[0].expired
    ensures Leaving(length, plan) == length <==> exists k: nat :: CompletesAt(length, plan, k)
  {
    if length == 0 {
      assert CompletesAt(length, plan, 0);
    } else if plan != [] {
      assert Written(plan[1..], 0) == 0 && Written(plan, 1) == plan[0].rc;
      if plan[0].rc >= length {
        assert CompletesAt(length, plan, 1);
      } else {
        forall k: nat
          ensures !CompletesAt(length, plan, k)
        {
          assert k == 1 || k == 0 || k > |plan| || plan[0].rc < 0 || plan[0].expired;
        }
      }
    }
  }

  lemma SomeWrite(length: nat, plan: seq<Attempt>, k: nat)
    requires length > 0 && CompletesAt(length, plan, k)
    ensures k > 0
  {
  }

  lemma LaterWrite(length: nat, plan: seq<Attempt>, k: nat)
    requires plan != [] && 0 <= plan[0].rc < length && !plan[0].expired
    ensures CompletesAt(length, plan, k + 1) <==> CompletesAt(length - plan[0].rc, plan[1..], k)
  {
    if k + 1 <= |plan| {
      assert forall i | 0 <= i < k :: plan[1..][i] == plan[i + 1];
      if forall i | 0 <= i < k :: plan[1..][i].rc >= 0 {
        assert forall i | 0 < i < k + 1 :: plan[i] == plan[1..][i - 1];
      }
      if forall i | 0 <= i < k - 1 :: !plan[1..][i].expired {
        assert forall i | 0 < i < k :: plan[i] == plan[1..][i - 1];
      }
    }
  }

  /** With no error and no expiry before the last byte, enough progress sends everything. */
  lemma {:induction false} PatientSendSucceeds(length: nat, plan: seq<Attempt>)
    requires length <= |plan| && forall i | 0 <= i < length :: plan[i].rc > 0 && !plan[i].expired
    ensures Leaving(length, plan) == length
    decreases length
  {
    if length > 0 {
      PatientSendSucceeds(length - Min(plan[0].rc, length), plan[1..]);
    }
  }

  // ---- The remaining length ----

  /** MQTTPacket_encode: seven bits a byte, lowest first. */
  function EncodeLength(n: nat): (b: bytes)
    ensures b != []
  {
    if n < 128 then [n] else [128 + n % 128] + EncodeLength(n / 128)
  }

  /** MQTTPacket_encode into a buffer, at index 1. */
  method EncodeInto(buffer: array<byte>, length: nat) returns (rc: nat)
    requires 1 + |EncodeLength(length)| <= buffer.Length
    modifies buffer
    ensures rc == |EncodeLength(length)|
    ensures buffer[..] == old(buffer[..1]) + EncodeLength(length) + old(buffer[1 + |EncodeLength(length)|..])
  {
    hide EncodeLength;
    ghost var was := buffer[..];
    ghost var code := EncodeLength(length);
    var n := length;
    rc := 0;
    while true
      invariant rc < |code| && code[rc..] == EncodeLength(n)
      invariant forall i | 0 <= i < rc :: buffer[1 + i] == code[i]
      invariant forall i | 0 <= i < buffer.Length && !(1 <= i < 1 + rc) :: buffer[i] == was[i]
      decreases n
    {
      EncodeStep(n);
      var d := n % 128;
      n := n / 128;
      assert code[rc..][0] == code[rc] && code[rc..][1..] == code[rc + 1..];
      buffer[1 + rc] := if n > 0 then d + 128 else d;
      rc := rc + 1;
      if n == 0 {
        break;
      }
    }
    assert buffer[1..1 + rc] == code;
  }

  lemma EncodeStep(n: nat)
    ensures EncodeLength(n)[0] == if n / 128 > 0 then n % 128 + 128 else n % 128
    ensures EncodeLength(n)[1..] == if n / 128 > 0 then EncodeLength(n / 128) else []
  {
  }

  /** decodePacket with k bytes still allowed: the value, and the line behind the field. */
  function DecodeLength(l: Line, k: nat): (nat, Line)
    decreases k
  {
    if k == 0 then (0, l)
    else if ReadCode(l, 1) != 1 then (0, AfterRead(l, 1))
    else
      var c := l.incoming[0];
      if c < 128 then (c, AfterRead(l, 1))
      else
        var rest := DecodeLength(AfterRead(l, 1), k - 1);
        (c - 128 + 128 * rest.0, rest.1)
  }

  lemma {:induction false} DecodedBound(l: Line, k: nat)
    requires k <= 4
    ensures Power128(4) == MAX_REMAINING_LENGTH + 1
    ensures DecodeLength(l, k).0 < Power128(k)
    decreases k
  {
    if k > 0 {
      DecodedBound(AfterRead(l, 1), k - 1);
    }
  }

  function Power128(k: nat): (r: nat)
    requires k <= 4
    ensures r >= 1 && (k > 0 ==> r == 128 * Power128(k - 1))
  {
    if k == 0 then 1 else if k == 1 then 128 else if k == 2 then 16384 else if k == 3 then 2097152 else 268435456
  }

  /** decodePacket. Its own result, the number of bytes read, is ignored by its only caller. */
  method DecodePacket(net: Network) returns (value: nat)
    modifies net`line
    ensures (value, net.line) == old(DecodeLength(net.line, MAX_NO_OF_REMAINING_LENGTH_BYTES))
    ensures value <= MAX_REMAINING_LENGTH
  {
    hide AfterRead, DecodeLength, Total, ReadCode, Got, Power128;
    var c := new byte[1];
    var multiplier: nat := 1;
    var len := 0;
    value := 0;
    ghost var all := DecodeLength(net.line, 4);
    DecodedBound(net.line, 4);
    Whole(all.0);
    while true
      invariant len <= 4
      invariant Total(value, multiplier, DecodeLength(net.line, 4 - len).0) == all.0
      invariant DecodeLength(net.line, 4 - len).1 == all.1
      invariant fresh(c) && c.Length == 1
      decreases 4 - len
    {
      ghost var before := net.line;
      len := len + 1;
      if len > MAX_NO_OF_REMAINING_LENGTH_BYTES {
        DecodeEnd(before, 0, value, multiplier);
        return;
      }
      var rc := net.Read(c, 0, 1);
      if rc != 1 {
        DecodeEnd(before, 5 - len, value, multiplier);
        return;
      }
      ReadByte(before, c[..]);
      DecodeStep(before, 5 - len, value, multiplier);
      var more := c[0] >= 128;
      value := Total(value, multiplier, c[0] % 128);
      multiplier := multiplier * 128;
      if !more {
        return;
      }
    }
  }

  lemma Whole(n: nat)
    ensures Total(0, 1, n) == n
  {
  }

  lemma ReadByte(l: Line, buffer: bytes)
    requires ReadCode(l, 1) == 1 && |buffer| == 1 && buffer == Got(l, 1) + buffer[|Got(l, 1)|..]
    ensures buffer[0] == l.incoming[0]
  {
  }

  /** The value so far, and what the bytes still to come add to it at this multiplier. */
  function Total(value: nat, multiplier: nat, coming: nat): nat {
    value + multiplier * coming
  }

  lemma DecodeEnd(l: Line, k: nat, value: nat, m: nat)
    requires k == 0 || ReadCode(l, 1) != 1
    ensures Total(value, m, DecodeLength(l, k).0) == value
    ensures DecodeLength(l, k).1 == if k == 0 then l else AfterRead(l, 1)
  {
  }

  /** One byte of the length under the multiplier of its place. */
  lemma DecodeStep(l: Line, k: nat, value: nat, m: nat)
    requires k > 0 && ReadCode(l, 1) == 1
    ensures var c := l.incoming[0];
            var rest := DecodeLength(AfterRead(l, 1), k - 1);
            && Total(value, m, DecodeLength(l, k).0)
               == (if c < 128 then Total(value, m, c % 128) else Total(Total(value, m, c % 128), m * 128, rest.0))
            && DecodeLength(l, k).1 == if c < 128 then AfterRead(l, 1) else rest.1
  {
    hide AfterRead;
    var c := l.incoming[0];
    if c >= 128 {
      var rest := DecodeLength(AfterRead(l, 1), k - 1).0;
      assert DecodeLength(l, k).0 == c % 128 + 128 * rest;
      assert m * (c % 128 + 128 * rest) == c % 128 * m + m * 128 * rest;
    }
  }

  // ---- readPacket ----

  /** The return code, what has been put at the front of readbuf, and the line behind. */
  datatype ReadOutcome = ReadOutcome(rc: int, packet: bytes, rest: Line)

  function ReadPacketSpec(l: Line, capacity: nat): ReadOutcome {
    if ReadCode(l, 1) != 1 then ReadOutcome(ReadCode(l, 1), [], AfterRead(l, 1))
    else
      var header := l.incoming[0];
      var (n, behind) := DecodeLength(AfterRead(l, 1), MAX_NO_OF_REMAINING_LENGTH_BYTES);
      var front := [header] + EncodeLength(n);
      if n > capacity - |front| then ReadOutcome(BUFFER_OVERFLOW, front, behind)
      else if n == 0 then ReadOutcome(header / 16, front, behind)
      else ReadOutcome(if ReadCode(behind, n) == n then header / 16 else 1, front + Got(behind, n), AfterRead(behind, n))
  }

  lemma BodyFrame(now: bytes, front: bytes, body: bytes, was: bytes)
    requires |front| + |body| <= |was| && front != []
    requires now == (front + was[|front|..])[..|front|] + body + (front + was[|front|..])[|front| + |body|..]
    ensures now == (front + body) + was[|front + body|..] && now[0] == front[0]
  {
  }

  lemma HeaderByte(l: Line)
    ensures ReadCode(l, 1) == 1 ==> Got(l, 1) == [l.incoming[0]]
    ensures ReadCode(l, 1) != 1 ==> Got(l, 1) == []
    ensures forall n: nat :: |Got(l, n)| <= n
  {
  }

  method ReadPacket(net: Network, readbuf: array<byte>) returns (rc: int)
    requires readbuf.Length >= 5
    modifies net`line, readbuf
    ensures var r := old(ReadPacketSpec(net.line, readbuf.Length));
            && rc == r.rc && net.line == r.rest
            && |r.packet| <= readbuf.Length && readbuf[..] == r.packet + old(readbuf[..])[|r.packet|..]
  {
    hide EncodeLength, DecodeLength, AfterRead, Got, Power128;
    ghost var was := readbuf[..];
    ghost var start := net.line;
    HeaderByte(start);
    rc := net.Read(readbuf, 0, 1);
    if rc != 1 {
      return;
    }
    assert readbuf[..] == [start.incoming[0]] + was[1..];
    var remLen := DecodePacket(net);
    ghost var behind := net.line;
    EncodedField(remLen);
    ghost var front := [start.incoming[0]] + EncodeLength(remLen);
    var len := EncodeInto(readbuf, remLen);
    len := len + 1;
    assert readbuf[..] == front + was[|front|..];
    assert readbuf[0] == front[0] == start.incoming[0];
    if remLen > readbuf.Length - len {
      return BUFFER_OVERFLOW;
    }
    if remLen > 0 {
      var got := net.Read(readbuf, len, remLen);
      BodyFrame(readbuf[..], front, Got(behind, remLen), was);
      if got != remLen {
        return;
      }
    }
    rc := readbuf[0] / 16;
  }

  // ---- What is written is read back ----

  /** The next k reads are each granted n bytes or more. */
  predicate Prompt(grants: seq<int>, k: nat, n: nat) {
    k <= |grants| && forall i | 0 <= i < k :: grants[i] >= n
  }

  predicate Continues(b: bytes) {
    forall i | 0 <= i < |b| :: b[i] >= 128
  }

  /** Every byte but the last says that another follows. */
  predicate Terminated(b: bytes) {
    b != [] && Continues(b[..|b| - 1]) && b[|b| - 1] < 128
  }

  predicate LengthField(b: bytes) {
    |b| <= 4 && Terminated(b)
  }

  /** The number a length field stands for (section 2.2.3). */
  function FieldValue(b: bytes): nat {
    if b == [] then 0 else b[0] % 128 + 128 * FieldValue(b[1..])
  }

  lemma {:induction false} FieldDecoded(b: bytes, rest: bytes, grants: seq<int>, k: nat)
    requires LengthField(b) && |b| <= k && Prompt(grants, |b|, 1)
    ensures DecodeLength(Line(b + rest, grants), k) == (FieldValue(b), Line(rest, grants[|b|..]))
    decreases |b|
  {
    hide LengthField, ReadCode, AfterRead, Prompt;
    FieldTail(b);
    FirstByteRead(b, rest, grants);
    if |b| > 1 {
      FieldDecoded(b[1..], rest, grants[1..], k - 1);
    }
  }

  lemma FirstByteRead(b: bytes, rest: bytes, grants: seq<int>)
    requires b != [] && Prompt(grants, |b|, 1)
    ensures |grants| >= |b|
    ensures ReadCode(Line(b + rest, grants), 1) == 1
    ensures AfterRead(Line(b + rest, grants), 1) == Line(if |b| == 1 then rest else b[1..] + rest, grants[1..])
    ensures Prompt(grants[1..], |b| - 1, 1) && grants[1..][|b| - 1..] == grants[|b|..]
  {
    assert (b + rest)[1..] == if |b| == 1 then rest else b[1..] + rest;
  }

  lemma FieldTail(b: bytes)
    requires LengthField(b)
    ensures 1 <= |b| <= 4
    ensures if |b| == 1 then b[0] < 128 else b[0] >= 128 && LengthField(b[1..])
  {
    if |b| > 1 {
      assert b[..|b| - 1][0] == b[0];
      assert b[1..][..|b| - 2] == b[..|b| - 1][1..];
    }
  }

  /** The encoding of any number is terminated and stands for it. */
  lemma {:induction false} EncodedTerminated(n: nat)
    ensures Terminated(EncodeLength(n)) && FieldValue(EncodeLength(n)) == n
  {
    if n >= 128 {
      EncodedTerminated(n / 128);
      var more := EncodeLength(n / 128);
      assert EncodeLength(n)[1..] == more;
      assert EncodeLength(n)[..|more|] == [128 + n % 128] + more[..|more| - 1];
    }
  }

  lemma {:induction false} EncodedSize(n: nat, k: nat)
    requires 1 <= k <= 4 && n < Power128(k)
    ensures |EncodeLength(n)| <= k
    decreases k
  {
    if n >= 128 {
      EncodedSize(n / 128, k - 1);
    }
  }

  lemma EncodedField(n: nat)
    requires n <= MAX_REMAINING_LENGTH
    ensures LengthField(EncodeLength(n)) && FieldValue(EncodeLength(n)) == n
  {
    EncodedTerminated(n);
    EncodedSize(n, 4);
  }

  /** The length field on a prompt line decodes to the number it encodes, and nothing behind it is read. */
  lemma LengthReadBack(n: nat, rest: bytes, grants: seq<int>)
    requires n <= MAX_REMAINING_LENGTH && Prompt(grants, |EncodeLength(n)|, 1)
    ensures DecodeLength(Line(EncodeLength(n) + rest, grants), 4) == (n, Line(rest, grants[|EncodeLength(n)|..]))
  {
    EncodedField(n);
    FieldDecoded(EncodeLength(n), rest, grants, 4);
  }

  /** A packet: its first byte, the length of its body, and the body. */
  function PacketBytes(header: byte, body: bytes): bytes {
    [header] + EncodeLength(|body|) + body
  }

  predicate Fits(body: bytes, capacity: nat) {
    |body| <= MAX_REMAINING_LENGTH && 1 + |EncodeLength(|body|)| + |body| <= capacity
  }

  /** How many reads a packet takes. */
  function Reads(body: bytes): nat {
    1 + |EncodeLength(|body|)| + if body == [] then 0 else 1
  }

  /** readPacket takes exactly one packet from the line, and leaves an exact copy in the buffer. */
  lemma PacketReadBack(header: byte, body: bytes, rest: bytes, grants: seq<int>, capacity: nat)
    requires Fits(body, capacity) && Prompt(grants, Reads(body), 1 + |body|)
    ensures ReadPacketSpec(Line(PacketBytes(header, body) + rest, grants), capacity)
         == ReadOutcome(header / 16, PacketBytes(header, body), Line(rest, grants[Reads(body)..]))
  {
    hide EncodeLength, LengthField, FieldValue;
    var code := EncodeLength(|body|);
    EncodedField(|body|);
    ReencodedIffShortest(code);
    PacketTaken(Line(PacketBytes(header, body) + rest, grants), capacity, header, code, body, rest);
  }

  /** A read that is granted all it asks for takes exactly that. */
  lemma WholeRead(front: bytes, rest: bytes, grants: seq<int>)
    requires front != [] && grants != [] && grants[0] >= |front|
    ensures var l := Line(front + rest, grants);
            && ReadCode(l, |front|) == |front| && Got(l, |front|) == front && l.incoming[0] == front[0]
            && AfterRead(l, |front|) == Line(rest, grants[1..])
  {
    assert (front + rest)[..|front|] == front && (front + rest)[|front|..] == rest;
  }

  datatype Packet = Packet(header: byte, body: bytes)

  function Stream(ps: seq<Packet>): bytes {
    if ps == [] then [] else PacketBytes(ps[0].header, ps[0].body) + Stream(ps[1..])
  }

  /** The return code and the buffer of each of n readings in turn. */
  function ReadMany(l: Line, capacity: nat, n: nat): seq<(int, bytes)>
    decreases n
  {
    if n == 0 then []
    else
      var r := ReadPacketSpec(l, capacity);
      [(r.rc, r.packet)] + ReadMany(r.rest, capacity, n - 1)
  }

  predicate StreamFits(ps: seq<Packet>, capacity: nat) {
    forall i | 0 <= i < |ps| :: Fits(ps[i].body, capacity)
  }

  function StreamReads(ps: seq<Packet>): nat {
    if ps == [] then 0 else Reads(ps[0].body) + StreamReads(ps[1..])
  }

  /** What reading those packets one by one should give. */
  function Readings(ps: seq<Packet>): seq<(int, bytes)> {
    if ps == [] then []
    else [(ps[0].header / 16, PacketBytes(ps[0].header, ps[0].body))] + Readings(ps[1..])
  }

  /** Packets sent back to back are read one by one, each whole and in order. */
  lemma {:induction false} StreamReadBack(ps: seq<Packet>, grants: seq<int>, capacity: nat)
    requires StreamFits(ps, capacity) && Prompt(grants, StreamReads(ps), capacity)
    ensures ReadMany(Line(Stream(ps), grants), capacity, |ps|) == Readings(ps)
    decreases |ps|
  {
    hide PacketBytes, Reads, ReadPacketSpec, Prompt, Fits, ReadMany, StreamFits, StreamReads, Stream, Readings;
    if ps != [] {
      var p, more := ps[0], ps[1..];
      var k := Reads(p.body);
      StreamHead(ps, capacity);
      PromptSplit(grants, k, StreamReads(more), capacity, 1 + |p.body|);
      PacketReadBack(p.header, p.body, Stream(more), grants, capacity);
      StreamReadBack(more, grants[k..], capacity);
      ReadManyStep(Line(Stream(ps), grants), capacity, |ps|);
    } else {
      ReadNothing(Line(Stream(ps), grants), capacity);
    }
  }

  lemma ReadNothing(l: Line, capacity: nat)
    ensures ReadMany(l, capacity, 0) == Readings([])
  {
  }

  lemma StreamHead(ps: seq<Packet>, capacity: nat)
    requires ps != [] && StreamFits(ps, capacity)
    ensures Fits(ps[0].body, capacity) && 1 + |ps[0].body| < capacity && StreamFits(ps[1..], capacity)
    ensures Stream(ps) == PacketBytes(ps[0].header, ps[0].body) + Stream(ps[1..])
    ensures StreamReads(ps) == Reads(ps[0].body) + StreamReads(ps[1..])
    ensures Readings(ps) == [(ps[0].header / 16, PacketBytes(ps[0].header, ps[0].body))] + Readings(ps[1..])
  {
  }

  lemma ReadManyStep(l: Line, capacity: nat, n: nat)
    requires n > 0
    ensures var r := ReadPacketSpec(l, capacity);
            ReadMany(l, capacity, n) == [(r.rc, r.packet)] + ReadMany(r.rest, capacity, n - 1)
  {
  }

  lemma PromptSplit(grants: seq<int>, k: nat, m: nat, n: nat, small: nat)
    requires Prompt(grants, k + m, n) && small <= n
    ensures Prompt(grants, k, small) && k <= |grants| && Prompt(grants[k..], m, n)
  {
  }

  // ---- Where the reading is lenient ----

  /** readPacket puts the length back re-encoded; the copy is exact if and only if the length came in its shortest form. */
  lemma {:induction false} ReencodedIffShortest(b: bytes)
    requires LengthField(b)
    ensures EncodeLength(FieldValue(b)) == b <==> |b| == 1 || b[|b| - 1] != 0
    ensures FieldValue(b) == 0 ==> b[|b| - 1] == 0
    decreases |b|
  {
    if |b| > 1 {
      FieldTail(b);
      ReencodedIffShortest(b[1..]);
      assert b == [b[0]] + b[1..];
      var n := FieldValue(b[1..]);
      assert FieldValue(b) / 128 == n && 128 + FieldValue(b) % 128 == b[0];
      assert n > 0 ==> EncodeLength(FieldValue(b)) == [b[0]] + EncodeLength(n);
    } else {
      assert FieldValue(b[1..]) == 0;
    }
  }

  // ---- Exactly when a packet is read faithfully ----

  /** The type is returned, the buffer holds a whole packet, and these are the very bytes taken off the line. */
  ghost predicate ReadFaithfully(l: Line, capacity: nat) {
    exists header, body :: ReadAs(l, capacity, header, body)
  }

  ghost predicate ReadAs(l: Line, capacity: nat, header: byte, body: bytes) {
    var r := ReadPacketSpec(l, capacity);
    r.rc == header / 16 && r.packet == PacketBytes(header, body) && l.incoming == r.packet + r.rest.incoming
  }

  /** A first byte, a length in its shortest form and a body of that length stand on the line; they fit, and the reads are granted. */
  predicate PacketAhead(l: Line, capacity: nat, header: byte, field: bytes, body: bytes, rest: bytes) {
    && l.incoming == [header] + field + body + rest
    && LengthField(field) && (|field| == 1 || field[|field| - 1] != 0) && FieldValue(field) == |body|
    && 1 + |field| + |body| <= capacity
    && Prompt(l.grants, 1 + |field|, 1)
    && (body != [] ==> |l.grants| > 1 + |field| && l.grants[1 + |field|] >= |body|)
  }

  ghost predicate SomePacketAhead(l: Line, capacity: nat) {
    exists header, field, body, rest :: PacketAhead(l, capacity, header, field, body, rest)
  }

  /** Two terminated fields at the front of the same bytes are the same. */
  lemma {:induction false} FieldPrefix(a: bytes, b: bytes, x: bytes, y: bytes)
    requires Terminated(a) && Terminated(b) && a + x == b + y
    ensures a == b && x == y
  {
    var i, j := |a| - 1, |b| - 1;
    assert forall q | 0 <= q < i :: a[q] == a[..i][q] && a[q] >= 128;
    assert forall q | 0 <= q < j :: b[q] == b[..j][q] && b[q] >= 128;
    assert (a + x)[i] == a[i] && (b + y)[j] == b[j];
    assert i == j;
    assert (a + x)[..|a|] == a && (b + y)[..|b|] == b && (a + x)[|a|..] == x && (b + y)[|b|..] == y;
  }

  /** The bytes decodePacket takes: a length field whose reads succeeded, or only bytes that say that more follow. */
  lemma {:induction false} DecodeConsumed(l: Line, k: nat) returns (b: bytes)
    requires k <= 4
    ensures var (n, behind) := DecodeLength(l, k);
            && n == FieldValue(b) && l.incoming == b + behind.incoming && |b| <= k
            && (Continues(b) || (LengthField(b) && Prompt(l.grants, |b|, 1) && behind.grants == l.grants[|b|..]))
    decreases k
  {
    hide Continues, LengthField, FieldValue, Prompt, ReadCode, AfterRead, DecodeLength;
    DecodeUnfold(l, k);
    if k > 0 && ReadCode(l, 1) == 1 {
      var c := l.incoming[0];
      var after := AfterRead(l, 1);
      ReadTakes(l);
      if c < 128 {
        b := [c];
        LastConsumed(l.grants, c);
      } else {
        var more := DecodeConsumed(after, k - 1);
        b := [c] + more;
        var behind := DecodeLength(after, k - 1).1;
        LongerConsumed(l.grants, c, more, behind);
        assert [c] + (more + behind.incoming) == b + behind.incoming;
      }
    } else {
      b := [];
      NothingConsumed(l);
      assert b + l.incoming == l.incoming;
    }
  }

  lemma DecodeUnfold(l: Line, k: nat)
    ensures k == 0 ==> DecodeLength(l, k) == (0, l)
    ensures k > 0 && ReadCode(l, 1) != 1 ==> DecodeLength(l, k) == (0, AfterRead(l, 1))
    ensures k > 0 && ReadCode(l, 1) == 1 && l.incoming[0] < 128 ==> DecodeLength(l, k) == (l.incoming[0], AfterRead(l, 1))
    ensures k > 0 && ReadCode(l, 1) == 1 && l.incoming[0] >= 128 ==>
              DecodeLength(l, k) == (l.incoming[0] - 128 + 128 * DecodeLength(AfterRead(l, 1), k - 1).0, DecodeLength(AfterRead(l, 1), k - 1).1)
  {
  }

  lemma ReadTakes(l: Line)
    requires ReadCode(l, 1) == 1
    ensures l.incoming != [] && l.incoming == [l.incoming[0]] + AfterRead(l, 1).incoming
    ensures l.grants != [] && l.grants[0] >= 1 && AfterRead(l, 1).grants == l.grants[1..]
  {
  }

  lemma NothingConsumed(l: Line)
    ensures Continues([]) && FieldValue([]) == 0
    ensures ReadCode(l, 1) != 1 ==> AfterRead(l, 1).incoming == l.incoming
  {
  }

  lemma LastConsumed(grants: seq<int>, c: byte)
    requires c < 128 && grants != [] && grants[0] >= 1
    ensures LengthField([c]) && FieldValue([c]) == c && Prompt(grants, 1, 1)
  {
    assert FieldValue([c][1..]) == 0;
  }

  lemma LongerConsumed(grants: seq<int>, c: byte, more: bytes, behind: Line)
    requires c >= 128 && |more| <= 3 && grants != [] && grants[0] >= 1
    requires Continues(more) || (LengthField(more) && Prompt(grants[1..], |more|, 1) && behind.grants == grants[1..][|more|..])
    ensures var b := [c] + more;
            Continues(b) || (LengthField(b) && Prompt(grants, |b|, 1) && behind.grants == grants[|b|..])
    ensures FieldValue([c] + more) == c - 128 + 128 * FieldValue(more)
  {
    var b := [c] + more;
    assert b[1..] == more;
    if !Continues(more) {
      assert b[..|more|] == [c] + more[..|more| - 1];
      forall i | 0 <= i < |b|
        ensures grants[i] >= 1
      {
        if i > 0 {
          assert grants[i] == grants[1..][i - 1];
        }
      }
    }
  }

  /** A packet ahead is read whole: its type, an exact copy, and nothing behind it is touched. */
  lemma PacketTaken(l: Line, capacity: nat, header: byte, field: bytes, body: bytes, rest: bytes)
    requires PacketAhead(l, capacity, header, field, body, rest)
    ensures var taken := 1 + |field| + if body == [] then 0 else 1;
            && taken <= |l.grants| && EncodeLength(|body|) == field
            && ReadPacketSpec(l, capacity) == ReadOutcome(header / 16, PacketBytes(header, body), Line(rest, l.grants[taken..]))
  {
    hide EncodeLength, DecodeLength, ReadCode, AfterRead, Got, ReadPacketSpec, PacketBytes, PacketAhead;
    AheadDecoded(l, capacity, header, field, body, rest);
    var behind := Line(body + rest, l.grants[1 + |field|..]);
    AheadFits(l, capacity, header, field, body, rest);
    TypeReturned(l, capacity, |body|, behind);
    if body != [] {
      WholeRead(body, rest, behind.grants);
    }
  }

  lemma AheadFits(l: Line, capacity: nat, header: byte, field: bytes, body: bytes, rest: bytes)
    requires PacketAhead(l, capacity, header, field, body, rest) && EncodeLength(|body|) == field && 1 + |field| <= |l.grants|
    ensures 1 + |field| + |body| <= capacity && PacketBytes(header, body) == [header] + field + body
    ensures body == [] ==> Line(body + rest, l.grants[1 + |field|..]) == Line(rest, l.grants[1 + |field|..])
    ensures body == [] ==> PacketBytes(header, body) == [header] + field
    ensures body != [] ==> |l.grants| >= 2 + |field| && l.grants[1 + |field|..][0] >= |body| && l.grants[1 + |field|..][1..] == l.grants[2 + |field|..]
  {
    assert body == [] ==> body + rest == rest;
  }

  lemma AheadDecoded(l: Line, capacity: nat, header: byte, field: bytes, body: bytes, rest: bytes)
    requires PacketAhead(l, capacity, header, field, body, rest)
    ensures EncodeLength(|body|) == field && 1 + |field| <= |l.grants|
    ensures ReadCode(l, 1) == 1 && l.incoming[0] == header
    ensures DecodeLength(AfterRead(l, 1), 4) == (|body|, Line(body + rest, l.grants[1 + |field|..]))
  {
    hide EncodeLength, DecodeLength, ReadCode, AfterRead, Got, Prompt, FieldValue, LengthField;
    ReencodedIffShortest(field);
    FieldTail(field);
    GrantsAhead(l.grants, |field|, |body|);
    assert l.incoming == [header] + (field + (body + rest));
    WholeRead([header], field + (body + rest), l.grants);
    FieldDecoded(field, body + rest, l.grants[1..], 4);
  }

  lemma TypeReturned(l: Line, capacity: nat, n: nat, behind: Line)
    requires ReadCode(l, 1) == 1 && DecodeLength(AfterRead(l, 1), 4) == (n, behind) && 1 + |EncodeLength(n)| + n <= capacity
    ensures var front := [l.incoming[0]] + EncodeLength(n);
            && (n == 0 ==> ReadPacketSpec(l, capacity) == ReadOutcome(l.incoming[0] / 16, front, behind))
            && (n > 0 && ReadCode(behind, n) == n ==>
                  ReadPacketSpec(l, capacity) == ReadOutcome(l.incoming[0] / 16, front + Got(behind, n), AfterRead(behind, n)))
  {
    hide EncodeLength, DecodeLength;
  }

  lemma GrantsAhead(grants: seq<int>, k: nat, n: nat)
    requires Prompt(grants, 1 + k, 1) && (n > 0 ==> |grants| > 1 + k && grants[1 + k] >= n)
    ensures |grants| >= 1 + k && grants[0] >= 1 && Prompt(grants[1..], k, 1) && grants[1..][k..] == grants[1 + k..]
    ensures n > 0 ==> grants[1 + k..] != [] && grants[1 + k..][0] >= n && grants[1 + k..][1..] == grants[2 + k..]
  {
  }

  /** What readPacket has done when it returns a type. */
  lemma ReadParts(l: Line, capacity: nat) returns (first: byte, n: nat, behind: Line, got: bytes)
    requires ReadPacketSpec(l, capacity).rc >= 0 && ReadPacketSpec(l, capacity).packet != []
    ensures var r := ReadPacketSpec(l, capacity);
            && ReadCode(l, 1) == 1 && l.incoming == [first] + AfterRead(l, 1).incoming
            && DecodeLength(AfterRead(l, 1), 4) == (n, behind)
            && r.packet == [first] + EncodeLength(n) + got && behind.incoming == got + r.rest.incoming
            && 1 + |EncodeLength(n)| + n <= capacity && (n > 0 && |got| == n ==> ReadCode(behind, n) == n)
  {
    hide EncodeLength, DecodeLength;
    first := l.incoming[0];
    n, behind := DecodeLength(AfterRead(l, 1), 4).0, DecodeLength(AfterRead(l, 1), 4).1;
    got := if n == 0 then [] else Got(behind, n);
  }

  /** What a faithful reading took must have been a packet ahead. */
  lemma FaithfulWasAhead(l: Line, capacity: nat, header: byte, body: bytes)
    requires ReadAs(l, capacity, header, body)
    ensures SomePacketAhead(l, capacity)
  {
    hide EncodeLength, DecodeLength, LengthField, FieldValue, Continues, Prompt, PacketAhead, ReadPacketSpec, ReadCode, AfterRead;
    var first, n, behind, got := ReadParts(l, capacity);
    SamePacket(first, EncodeLength(n), got, header, body, n);
    var b := DecodeConsumed(AfterRead(l, 1), 4);
    var tail := ReadPacketSpec(l, capacity).rest.incoming;
    assert l.incoming == [first] + b + (got + tail);
    assert l.incoming == [first] + EncodeLength(n) + (got + tail);
    SameMiddle([first], b, EncodeLength(n), got + tail);
    assert l.incoming == [first] + b + got + tail;
    FaithfulGrants(l, capacity, first, b, got, tail);
  }

  /** Equal packets have equal lengths and bodies. */
  lemma SamePacket(first: byte, code: bytes, got: bytes, header: byte, body: bytes, n: nat)
    requires code == EncodeLength(n) && [first] + code + got == PacketBytes(header, body)
    ensures first == header && n == |body| && got == body
  {
    hide EncodeLength;
    EncodedTerminated(n);
    EncodedTerminated(|body|);
    var p := [first] + code + got;
    assert p[0] == first && PacketBytes(header, body)[0] == header;
    assert p[1..] == code + got && PacketBytes(header, body)[1..] == EncodeLength(|body|) + body;
    FieldPrefix(code, EncodeLength(|body|), got, body);
  }

  lemma SameMiddle(a: bytes, b: bytes, c: bytes, d: bytes)
    requires a + b + d == a + c + d
    ensures b == c
  {
    assert |b| == |c|;
    assert (a + b + d)[|a|..|a| + |b|] == b && (a + c + d)[|a|..|a| + |c|] == c;
  }

  lemma FaithfulGrants(l: Line, capacity: nat, first: byte, b: bytes, body: bytes, tail: bytes)
    requires ReadCode(l, 1) == 1 && l.incoming == [first] + b + body + tail
    requires b == EncodeLength(|body|) && 1 + |b| + |body| <= capacity && |b| <= 4
    requires var (n, behind) := DecodeLength(AfterRead(l, 1), 4);
             && n == |body| && (n > 0 ==> ReadCode(behind, n) == n)
             && (Continues(b) || (LengthField(b) && Prompt(AfterRead(l, 1).grants, |b|, 1) && behind.grants == AfterRead(l, 1).grants[|b|..]))
    ensures PacketAhead(l, capacity, first, b, body, tail)
  {
    hide EncodeLength, DecodeLength;
    EncodedTerminated(|body|);
    assert b[|b| - 1] < 128;
    ReencodedIffShortest(b);
    var rest := l.grants[1..];
    forall i | 0 <= i < 1 + |b|
      ensures i < |l.grants| && l.grants[i] >= 1
    {
      assert i > 0 ==> rest[i - 1] == l.grants[i];
    }
    assert rest[|b|..] == l.grants[1 + |b|..];
  }

  /**
   readPacket returns the type of a packet, with the buffer holding exactly the bytes
   it took off the line, if and only if a packet in its shortest form stands on the
   line, fits into the buffer, and every read of it is granted in full.
   */
  lemma ReadFaithfullyIff(l: Line, capacity: nat)
    ensures ReadFaithfully(l, capacity) <==> SomePacketAhead(l, capacity)
  {
    hide ReadAs, PacketAhead;
    if ReadFaithfully(l, capacity) {
      var header, body :| ReadAs(l, capacity, header, body);
      FaithfulWasAhead(l, capacity, header, body);
    }
    if SomePacketAhead(l, capacity) {
      var header, field, body, rest :| PacketAhead(l, capacity, header, field, body, rest);
      AheadIsFaithful(l, capacity, header, field, body, rest);
    }
  }

  lemma AheadIsFaithful(l: Line, capacity: nat, header: byte, field: bytes, body: bytes, rest: bytes)
    requires PacketAhead(l, capacity, header, field, body, rest)
    ensures ReadAs(l, capacity, header, body)
  {
    PacketTaken(l, capacity, header, field, body, rest);
  }

  /** A packet that announces more than the buffer holds: nothing of its body is read, and the cycle closes a connected session. */
  lemma TooLargeClosesSession(l: Line, capacity: nat, s: MqttSession.Session, w: MqttSession.Work)
    requires ReadCode(l, 1) == 1
    requires var (n, behind) := DecodeLength(AfterRead(l, 1), 4);
             1 + |EncodeLength(n)| + n > capacity && w.packetType == ReadPacketSpec(l, capacity).rc
    ensures var (n, behind) := DecodeLength(AfterRead(l, 1), 4);
            ReadPacketSpec(l, capacity).rc == -2 && ReadPacketSpec(l, capacity).rest == behind
    ensures s.connected ==> !MqttSession.Cycle(s, w).0.connected
  {
    hide DecodeLength, EncodeLength, AfterRead;
    MqttSession.CycleClosesIff(s, w);
  }

  /**
   What happens otherwise: a read that fails inside the length goes unnoticed, and
   the bytes read so far count as the length.
   */
  lemma CutLengthAccepted(l: Line, capacity: nat, header: byte, b: bytes, rest: bytes)
    requires Continues(b) && |b| <= 3 && l.incoming == [header] + b + rest
    requires Prompt(l.grants, 1 + |b|, 1) && |l.grants| >= 2 + |b| && (rest == [] || l.grants[1 + |b|] <= 0)
    requires var n := FieldValue(b);
             1 + |EncodeLength(n)| + n <= capacity && (n > 0 ==> n <= |rest| && |l.grants| > 2 + |b| && l.grants[2 + |b|] >= n)
    ensures var n := FieldValue(b);
            var r := ReadPacketSpec(l, capacity);
            && n <= |rest| && r.rc == header / 16 && r.packet == PacketBytes(header, rest[..n])
            && !ReadFaithfully(l, capacity)
  {
    hide EncodeLength, FieldValue, DecodeLength, ReadCode, AfterRead, Got, Continues, ReadFaithfully, Prompt;
    var n := FieldValue(b);
    CutGrants(l.grants, |b|, n);
    CutDecoded(b, rest, l.grants[1..], 4);
    assert l.incoming == [header] + (b + rest);
    WholeRead([header], b + rest, l.grants);
    assert rest == rest[..n] + rest[n..];
    if n > 0 {
      WholeRead(rest[..n], rest[n..], l.grants[2 + |b|..]);
    }
    CutIsNoField(header, b, n, rest);
    Unfaithful(l, capacity);
  }

  lemma CutGrants(grants: seq<int>, k: nat, n: nat)
    requires Prompt(grants, 1 + k, 1) && |grants| >= 2 + k && (n > 0 ==> |grants| > 2 + k && grants[2 + k] >= n)
    ensures grants[0] >= 1 && Prompt(grants[1..], k, 1) && |grants[1..]| > k && grants[1..][k] == grants[1 + k]
    ensures grants[1..][1 + k..] == grants[2 + k..] && (n > 0 ==> grants[2 + k..] != [] && grants[2 + k..][0] >= n)
  {
  }

  lemma Unfaithful(l: Line, capacity: nat)
    requires l.incoming != ReadPacketSpec(l, capacity).packet + ReadPacketSpec(l, capacity).rest.incoming
    ensures !ReadFaithfully(l, capacity)
  {
  }

  lemma CutIsNoField(header: byte, b: bytes, n: nat, rest: bytes)
    requires Continues(b)
    ensures [header] + b + rest != [header] + EncodeLength(n) + rest
  {
    hide EncodeLength;
    EncodedTerminated(n);
    if [header] + b + rest == [header] + EncodeLength(n) + rest {
      SameMiddle([header], b, EncodeLength(n), rest);
    }
  }

  /** A length that stops at one continuation byte: the PUBLISH on the line is taken for a shorter one. */
  lemma CutLengthExample(capacity: nat)
    requires capacity >= 4
    ensures var l := Line([0x30, 0x82, 1, 7, 8], [1, 1, 0, 2]);
            && ReadPacketSpec(l, capacity).rc == PUBLISH
            && ReadPacketSpec(l, capacity).packet == [0x30, 2, 1, 7]
            && !ReadFaithfully(l, capacity)
  {
    var l := Line([0x30, 0x82, 1, 7, 8], [1, 1, 0, 2]);
    var b: bytes, rest: bytes := [0x82], [1, 7, 8];
    assert FieldValue(b[1..]) == 0 && FieldValue(b) == 2;
    assert l.incoming == [0x30] + b + rest;
    CutLengthAccepted(l, capacity, 0x30, b, rest);
    assert rest[..2] == [1, 7];
  }

  lemma CutFirst(b: bytes, rest: bytes, grants: seq<int>)
    requires b != [] && Continues(b) && Prompt(grants, |b|, 1) && |grants| > |b|
    ensures var l := Line(b + rest, grants);
            ReadCode(l, 1) == 1 && l.incoming[0] == b[0] && AfterRead(l, 1) == Line(b[1..] + rest, grants[1..])
    ensures Continues(b[1..]) && Prompt(grants[1..], |b| - 1, 1) && |grants[1..]| > |b| - 1
    ensures grants[1..][|b| - 1] == grants[|b|] && grants[1..][|b|..] == grants[1 + |b|..]
  {
    FirstByteRead(b, rest, grants);
    if |b| == 1 {
      assert b[1..] + rest == rest;
    }
  }

  lemma {:induction false} CutDecoded(b: bytes, rest: bytes, grants: seq<int>, k: nat)
    requires Continues(b) && |b| < k <= 4 && Prompt(grants, |b|, 1) && |grants| > |b| && (rest == [] || grants[|b|] <= 0)
    ensures DecodeLength(Line(b + rest, grants), k) == (FieldValue(b), Line(rest, grants[1 + |b|..]))
    decreases |b|
  {
    if b == [] {
      assert b + rest == rest;
    } else {
      CutFirst(b, rest, grants);
      CutDecoded(b[1..], rest, grants[1..], k - 1);
    }
  }

  /** A length that goes on after four bytes is taken as if it ended there: the check behind decodePacket is missing. */
  lemma OverlongLengthAccepted(b: bytes, rest: bytes, grants: seq<int>)
    requires |b| == 4 && Continues(b) && Prompt(grants, 4, 1)
    ensures DecodeLength(Line(b + rest, grants), 4) == DecodeLength(Line(b[..3] + [b[3] - 128] + rest, grants), 4)
  {
    var l, m := Line(b + rest, grants), Line(b[..3] + [b[3] - 128] + rest, grants);
    var l1, m1 := AfterRead(l, 1), AfterRead(m, 1);
    var l2, m2 := AfterRead(l1, 1), AfterRead(m1, 1);
    var l3, m3 := AfterRead(l2, 1), AfterRead(m2, 1);
    assert AfterRead(l3, 1) == AfterRead(m3, 1);
    assert DecodeLength(l3, 1) == DecodeLength(m3, 1);
    assert DecodeLength(l2, 2) == DecodeLength(m2, 2);
    assert DecodeLength(l1, 3) == DecodeLength(m1, 3);
  }

  /** A read that fails inside the length goes unnoticed: after a lone first byte the packet counts as complete and empty. */
  lemma LoneHeaderAccepted(header: byte, grants: seq<int>, capacity: nat)
    requires capacity >= 2 && |grants| >= 1 && grants[0] >= 1
    ensures ReadPacketSpec(Line([header], grants), capacity).rc == header / 16
    ensures ReadPacketSpec(Line([header], grants), capacity).packet == PacketBytes(header, [])
  {
  }

  /** A body cut short is reported as packet type 1, which no case of cycle handles: a connected session is closed. */
  lemma ShortBodyClosesSession(l: Line, header: byte, n: nat, behind: Line, capacity: nat, s: Session, w: Work)
    requires ReadCode(l, 1) == 1 && l.incoming[0] == header && DecodeLength(AfterRead(l, 1), 4) == (n, behind)
    requires 0 < n <= capacity - 1 - |EncodeLength(n)| && ReadCode(behind, n) != n
    requires s.connected && w.packetType == ReadPacketSpec(l, capacity).rc
    ensures w.packetType == 1 && Cycle(s, w) == (CloseSession(s), 1)
  {
    hide DecodeLength, EncodeLength;
  }
}
