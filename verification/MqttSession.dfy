/**
 The session state of MQTT::Client as a state machine: the message handler table,
 the table of incoming QoS 2 packet ids, and what one cycle does to them.
 MQTTCLIENT_QOS2 is enabled.
 */
module MqttSession {
  import opened Bytes
  import opened MqttTopic

  // ---- The message handler table ----

  /** One element of messageHandlers; a handler is known by its number. */
  datatype Slot = Slot(topicFilter: Option<bytes>, fp: Option<nat>)

  /** The first slot with this filter, or the number of slots. */
  function FindFilter(slots: seq<Slot>, f: bytes): (i: nat)
    ensures i <= |slots|
    ensures i < |slots| ==> slots[i].topicFilter == Some(f)
    ensures forall j | 0 <= j < i :: slots[j].topicFilter != Some(f)
  {
    if slots == [] || slots[0].topicFilter == Some(f) then 0
    else
      var k := FindFilter(slots[1..], f);
      assert forall j | 0 < j < k + 1 :: slots[j] == slots[1..][j - 1];
      1 + k
  }

  /** The first slot without a filter, or the number of slots. */
  function FindFree(slots: seq<Slot>): (i: nat)
    ensures i <= |slots|
    ensures i < |slots| ==> slots[i].topicFilter.None?
    ensures forall j | 0 <= j < i :: slots[j].topicFilter.Some?
  {
    if slots == [] || slots[0].topicFilter.None? then 0
    else
      var k := FindFree(slots[1..]);
      assert forall j | 0 < j < k + 1 :: slots[j] == slots[1..][j - 1];
      1 + k
  }

  /** setMessageHandler; no handler removes the filter. The flag is SUCCESS. */
  function SetHandler(slots: seq<Slot>, f: bytes, mh: Option<nat>): (r: (seq<Slot>, bool))
    ensures |r.0| == |slots|
  {
    var i := FindFilter(slots, f);
    if mh.None? then
      if i < |slots| then (slots[i := Slot(None, None)], true) else (slots, false)
    else
      var k := if i < |slots| then i else FindFree(slots);
      if k < |slots| then (slots[k := Slot(Some(f), mh)], true) else (slots, false)
  }

  /** cleanSession forgets the filters; the function pointers stay behind. */
  function Cleaned(slots: seq<Slot>): (r: seq<Slot>)
    ensures |r| == |slots|
  {
    seq(|slots|, i requires 0 <= i < |slots| => slots[i].(topicFilter := None))
  }

  predicate Distinct(slots: seq<Slot>) {
    forall i, j | 0 <= i < j < |slots| && slots[i].topicFilter.Some? && slots[j].topicFilter.Some? ::
      slots[i].topicFilter.value != slots[j].topicFilter.value
  }

  predicate Attached(slots: seq<Slot>) {
    forall i | 0 <= i < |slots| && slots[i].topicFilter.Some? :: slots[i].fp.Some?
  }

  predicate GoodTable(slots: seq<Slot>) {
    Distinct(slots) && Attached(slots)
  }

  /** The finite map from filters to handlers that the table stands for. */
  ghost function Table(slots: seq<Slot>): map<bytes, nat>
    requires GoodTable(slots)
  {
    map i | 0 <= i < |slots| && slots[i].topicFilter.Some? :: slots[i].topicFilter.value := slots[i].fp.value
  }

  lemma SlotInTable(slots: seq<Slot>, i: nat)
    requires GoodTable(slots) && i < |slots| && slots[i].topicFilter.Some?
    ensures slots[i].topicFilter.value in Table(slots)
    ensures Table(slots)[slots[i].topicFilter.value] == slots[i].fp.value
  {
  }

  lemma TableIndex(slots: seq<Slot>, f: bytes) returns (i: nat)
    requires GoodTable(slots) && f in Table(slots)
    ensures i < |slots| && slots[i] == Slot(Some(f), Some(Table(slots)[f]))
  {
    i :| 0 <= i < |slots| && slots[i].topicFilter == Some(f);
  }

  lemma TableAt(slots: seq<Slot>, f: bytes)
    requires GoodTable(slots)
    ensures f in Table(slots) <==> FindFilter(slots, f) < |slots|
    ensures f in Table(slots) ==> slots[FindFilter(slots, f)].fp == Some(Table(slots)[f])
  {
    hide Table;
    var i := FindFilter(slots, f);
    if i < |slots| {
      SlotInTable(slots, i);
    } else if f in Table(slots) {
      var j := TableIndex(slots, f);
    }
  }

  /** Clearing one slot removes its filter from the map. */
  lemma TableRemove(slots: seq<Slot>, i: nat)
    requires GoodTable(slots) && i < |slots| && slots[i].topicFilter.Some?
    ensures GoodTable(slots[i := Slot(None, None)])
    ensures Table(slots[i := Slot(None, None)]) == Table(slots) - {slots[i].topicFilter.value}
  {
    hide Table;
    var r := slots[i := Slot(None, None)];
    forall f
      ensures f in Table(r) ==> f in Table(slots) - {slots[i].topicFilter.value} && Table(r)[f] == Table(slots)[f]
      ensures f in Table(slots) && f != slots[i].topicFilter.value ==> f in Table(r)
    {
      if f in Table(r) {
        var j := TableIndex(r, f);
        SlotInTable(slots, j);
      }
      if f in Table(slots) && f != slots[i].topicFilter.value {
        var j := TableIndex(slots, f);
        SlotInTable(r, j);
      }
    }
  }

  /** Filling a free slot, or the slot of the filter itself, writes the map. */
  lemma TableWrite(slots: seq<Slot>, i: nat, f: bytes, h: nat)
    requires GoodTable(slots) && i < |slots|
    requires slots[i].topicFilter == Some(f) || (slots[i].topicFilter.None? && f !in Table(slots))
    ensures GoodTable(slots[i := Slot(Some(f), Some(h))])
    ensures Table(slots[i := Slot(Some(f), Some(h))]) == Table(slots)[f := h]
  {
    hide Table;
    var r := slots[i := Slot(Some(f), Some(h))];
    forall j | 0 <= j < |slots| && j != i
      ensures slots[j].topicFilter != Some(f)
    {
      if slots[j].topicFilter == Some(f) {
        SlotInTable(slots, j);
      }
    }
    SlotInTable(r, i);
    forall g | g != f
      ensures g in Table(r) ==> g in Table(slots) && Table(r)[g] == Table(slots)[g]
      ensures g in Table(slots) ==> g in Table(r)
    {
      if g in Table(r) {
        var j := TableIndex(r, g);
        SlotInTable(slots, j);
      }
      if g in Table(slots) {
        var j := TableIndex(slots, g);
        SlotInTable(r, j);
      }
    }
  }

  lemma LastSlot(slots: seq<Slot>)
    requires slots != [] && GoodTable(slots)
    ensures var n := |slots| - 1;
            && GoodTable(slots[..n])
            && (if slots[n].topicFilter.Some?
                then slots[n].topicFilter.value !in Table(slots[..n])
                     && Table(slots) == Table(slots[..n])[slots[n].topicFilter.value := slots[n].fp.value]
                else Table(slots) == Table(slots[..n]))
  {
    hide Table;
    var n := |slots| - 1;
    var init := slots[..n];
    forall f
      ensures f in Table(slots) ==> slots[n] == Slot(Some(f), Some(Table(slots)[f])) || (f in Table(init) && Table(init)[f] == Table(slots)[f])
      ensures f in Table(init) ==> f in Table(slots) && Table(slots)[f] == Table(init)[f] && slots[n].topicFilter != Some(f)
    {
      if f in Table(slots) {
        var j := TableIndex(slots, f);
        if j < n { SlotInTable(init, j); }
      }
      if f in Table(init) {
        var j := TableIndex(init, f);
        SlotInTable(slots, j);
      }
    }
    if slots[n].topicFilter.Some? {
      SlotInTable(slots, n);
    }
  }

  lemma FreeInPrefix(slots: seq<Slot>)
    requires slots != []
    ensures var n := |slots| - 1;
            FindFree(slots) == |slots| <==> FindFree(slots[..n]) == n && slots[n].topicFilter.Some?
  {
    var n := |slots| - 1;
    assert forall i | 0 <= i < n :: slots[..n][i] == slots[i];
  }

  /** A table whose slots are all taken holds as many filters as it has slots. */
  lemma {:induction false} FullTable(slots: seq<Slot>)
    requires GoodTable(slots)
    ensures |Table(slots)| <= |slots|
    ensures |Table(slots)| == |slots| <==> FindFree(slots) == |slots|
    decreases |slots|
  {
    if slots != [] {
      hide Table, FindFree;
      LastSlot(slots);
      FreeInPrefix(slots);
      FullTable(slots[..|slots| - 1]);
    }
  }

  /** setMessageHandler acts on the table as a map that holds at most as many filters as there are slots. */
  lemma SetHandlerIsMapUpdate(slots: seq<Slot>, f: bytes, mh: Option<nat>)
    requires GoodTable(slots)
    ensures var (slots', ok) := SetHandler(slots, f, mh);
            var m := Table(slots);
            && GoodTable(slots')
            && (mh.Some? ==> (ok <==> f in m || |m| < |slots|))
            && (mh.None? ==> (ok <==> f in m))
            && Table(slots') == if !ok then m else if mh.Some? then m[f := mh.value] else m - {f}
  {
    hide FindFilter, FindFree, Table;
    var i := FindFilter(slots, f);
    TableAt(slots, f);
    FullTable(slots);
    if mh.None? {
      if i < |slots| {
        TableRemove(slots, i);
      }
    } else {
      var k := if i < |slots| then i else FindFree(slots);
      if k < |slots| {
        TableWrite(slots, k, f, mh.value);
      }
    }
  }

  lemma CleanedIsEmpty(slots: seq<Slot>)
    ensures GoodTable(Cleaned(slots)) && Table(Cleaned(slots)) == map[]
  {
  }

  // ---- Delivery ----

  /** A handler invoked because of a filter, or the default handler. */
  datatype Call = Matched(topicFilter: bytes, handler: nat, topic: bytes) | Default(handler: nat, topic: bytes)

  predicate SlotMatches(slot: Slot, topic: bytes) {
    slot.topicFilter.Some? && (slot.topicFilter.value == topic || Matches(slot.topicFilter.value, topic))
  }

  /** The calls made by the loop of deliverMessage, in slot order. */
  function MatchedCalls(slots: seq<Slot>, topic: bytes): seq<Call> {
    if slots == [] then []
    else
      var n := |slots| - 1;
      MatchedCalls(slots[..n], topic)
      + (if SlotMatches(slots[n], topic) && slots[n].fp.Some?
         then [Matched(slots[n].topicFilter.value, slots[n].fp.value, topic)] else [])
  }

  /** deliverMessage: the default handler is called only if no other was. */
  function Deliveries(slots: seq<Slot>, default: Option<nat>, topic: bytes): seq<Call> {
    var calls := MatchedCalls(slots, topic);
    if calls == [] && default.Some? then [Default(default.value, topic)] else calls
  }

  predicate FilterMatches(f: bytes, topic: bytes) {
    f == topic || Matches(f, topic)
  }

  ghost predicate Called(slots: seq<Slot>, c: Call, topic: bytes)
    requires GoodTable(slots)
  {
    c.Matched? && c.topic == topic && FilterMatches(c.topicFilter, topic)
    && c.topicFilter in Table(slots) && Table(slots)[c.topicFilter] == c.handler
  }

  /** The handlers of the matching filters are called, each exactly once, and no others. */
  lemma {:induction false} EachMatchCalledOnce(slots: seq<Slot>, topic: bytes)
    requires GoodTable(slots)
    ensures forall c :: multiset(MatchedCalls(slots, topic))[c] == if Called(slots, c, topic) then 1 else 0
    decreases |slots|
  {
    hide FilterMatches, Matches;
    if slots != [] {
      var n := |slots| - 1;
      LastSlot(slots);
      EachMatchCalledOnce(slots[..n], topic);
      var last := if SlotMatches(slots[n], topic) && slots[n].fp.Some?
                  then [Matched(slots[n].topicFilter.value, slots[n].fp.value, topic)] else [];
      forall c
        ensures multiset(MatchedCalls(slots, topic))[c] == if Called(slots, c, topic) then 1 else 0
      {
        assert MatchedCalls(slots, topic) == MatchedCalls(slots[..n], topic) + last;
        FilterIsSlot(slots, topic);
        if slots[n].topicFilter.Some? {
          TableAt(slots[..n], slots[n].topicFilter.value);
        }
      }
    }
  }

  lemma FilterIsSlot(slots: seq<Slot>, topic: bytes)
    ensures forall i | 0 <= i < |slots| && slots[i].topicFilter.Some? ::
              SlotMatches(slots[i], topic) == FilterMatches(slots[i].topicFilter.value, topic)
  {
  }

  ghost predicate SomeMatch(slots: seq<Slot>, topic: bytes)
    requires GoodTable(slots)
  {
    exists f | f in Table(slots) :: FilterMatches(f, topic)
  }

  /** The default handler stands in exactly when no filter of the table matches. */
  lemma DefaultIffNoMatch(slots: seq<Slot>, default: Option<nat>, topic: bytes)
    requires GoodTable(slots)
    ensures Deliveries(slots, default, topic)
         == if SomeMatch(slots, topic) then MatchedCalls(slots, topic)
            else if default.Some? then [Default(default.value, topic)] else []
    ensures SomeMatch(slots, topic) <==> MatchedCalls(slots, topic) != []
  {
    hide FilterMatches, Table, MatchedCalls;
    EachMatchCalledOnce(slots, topic);
    var calls := MatchedCalls(slots, topic);
    if SomeMatch(slots, topic) {
      var f :| f in Table(slots) && FilterMatches(f, topic);
      var c := Matched(f, Table(slots)[f], topic);
      assert Called(slots, c, topic);
      assert multiset(calls)[c] == 1;
    }
    assert calls != [] ==> calls[0] in multiset(calls) && Called(slots, calls[0], topic);
  }

  // ---- Incoming QoS 2 ids ----

  predicate IsFree(ids: seq<nat>, id: nat) {
    id !in ids
  }

  /** The first position holding this id, or the number of positions. */
  function FindId(ids: seq<nat>, id: nat): (i: nat)
    ensures i <= |ids|
    ensures i < |ids| ==> ids[i] == id
    ensures forall j | 0 <= j < i :: ids[j] != id
  {
    if ids == [] || ids[0] == id then 0
    else
      var k := FindId(ids[1..], id);
      assert forall j | 0 < j < k + 1 :: ids[j] == ids[1..][j - 1];
      1 + k
  }

  /** useQoS2msgid. */
  function UseId(ids: seq<nat>, id: nat): (r: (seq<nat>, bool))
    ensures |r.0| == |ids|
  {
    var i := FindId(ids, 0);
    if i < |ids| then (ids[i := id], true) else (ids, false)
  }

  /** freeQoS2msgid. */
  function FreeId(ids: seq<nat>, id: nat): (r: seq<nat>)
    ensures |r| == |ids|
  {
    var i := FindId(ids, id);
    if i < |ids| then ids[i := 0] else ids
  }

  function NoIds(n: nat): (r: seq<nat>)
    ensures |r| == n
  {
    seq(n, _ => 0)
  }

  // ---- The session ----

  datatype Event = Delivered(id: nat) | Released(id: nat) | Reset

  /** An acknowledgement that has gone out. */
  datatype Ack = Ack(packetType: int, id: nat)

  datatype Session = Session(
    slots: seq<Slot>,
    defaultHandler: Option<nat>,
    ids: seq<nat>,
    connected: bool,
    cleanSession: bool,
    pingOutstanding: bool,
    inflightMsgid: nat,
    inflightQoS: nat,
    pubrel: bool,
    calls: seq<Call>,
    acks: seq<Ack>,
    history: seq<Event>)

  /**
   What one cycle meets: the packet read (its type, or the negative or zero result
   of reading), the fields of a publish or an ack, and how the serializer, the
   network and the keepalive timers turn out.
   */
  datatype Work = Work(
    packetType: int,
    deserialized: bool,
    qos: nat,
    id: nat,
    topic: bytes,
    ackBuilt: bool,
    ackSent: bool,
    timers: Timers)

  datatype Timers = Timers(enabled: bool, pingExpired: bool, idle: bool, pingBuilt: bool, pingSent: bool)

  const CONNACK: int := 2
  const PUBLISH: int := 3
  const PUBACK: int := 4
  const PUBREC: int := 5
  const PUBREL: int := 6
  const PUBCOMP: int := 7
  const SUBACK: int := 9
  const UNSUBACK: int := 11
  const PINGRESP: int := 13

  const SUCCESS: int := 0
  const FAILURE: int := -1

  function Deliver(s: Session, topic: bytes): Session {
    s.(calls := s.calls + Deliveries(s.slots, s.defaultHandler, topic))
  }

  function CleanSession(s: Session): Session {
    s.(slots := Cleaned(s.slots), inflightMsgid := 0, inflightQoS := 0, pubrel := false,
       ids := NoIds(|s.ids|), history := s.history + [Reset])
  }

  function CloseSession(s: Session): Session {
    var closed := s.(pingOutstanding := false, connected := false);
    if s.cleanSession then CleanSession(closed) else closed
  }

  /** The delivery part of an incoming publish. */
  function Receive(s: Session, w: Work): Session {
    if w.qos != 2 then Deliver(s, w.topic)
    else if !IsFree(s.ids, w.id) then s
    else
      var (ids, used) := UseId(s.ids, w.id);
      if used then Deliver(s.(ids := ids, history := s.history + [Delivered(w.id)]), w.topic) else s
  }

  /** keepalive: whether the session is still alive, and whether a ping is now outstanding. */
  function Keepalive(ping: bool, t: Timers): (bool, bool) {
    if !t.enabled then (true, ping)
    else if ping then (!t.pingExpired, ping)
    else if t.idle && t.pingBuilt then (t.pingSent, t.pingSent)
    else (true, ping)
  }

  /** How the switch in cycle ends: on to keepalive, or straight to the exit label with a return code. */
  datatype Switched = Break(session: Session) | Exit(session: Session, rc: int)

  function Switch(s: Session, w: Work): Switched {
    if w.packetType in {0, CONNACK, PUBACK, SUBACK, PUBCOMP} then Break(s)
    else if w.packetType == PUBLISH then
      if !w.deserialized then Exit(s, SUCCESS)
      else
        var received := Receive(s, w);
        if w.qos == 0 then Break(received)
        else if (w.qos == 1 || w.qos == 2) && w.ackBuilt && w.ackSent
        then Break(received.(acks := received.acks + [Ack(if w.qos == 1 then PUBACK else PUBREC, w.id)]))
        else Exit(received, FAILURE)
    else if w.packetType in {PUBREC, PUBREL} then
      if !w.deserialized || !w.ackBuilt || !w.ackSent then Exit(s, FAILURE)
      else
        var acked := s.(acks := s.acks + [Ack(if w.packetType == PUBREC then PUBREL else PUBCOMP, w.id)]);
        if w.packetType == PUBREL
        then Break(acked.(ids := FreeId(s.ids, w.id), history := s.history + [Released(w.id)]))
        else Break(acked)
    else if w.packetType == PINGRESP then Break(s.(pingOutstanding := false))
    else Exit(s, w.packetType)
  }

  /** Client::cycle: the next state and the return code. */
  function Cycle(s: Session, w: Work): (Session, int) {
    var switched := Switch(s, w);
    var next :=
      if switched.Break? then
        var (alive, ping) := Keepalive(switched.session.pingOutstanding, w.timers);
        Exit(switched.session.(pingOutstanding := ping), if alive then SUCCESS else FAILURE)
      else switched;
    if next.rc == SUCCESS then (next.session, w.packetType)
    else if next.session.connected then (CloseSession(next.session), next.rc)
    else (next.session, next.rc)
  }

  /** Everything that touches the session between two cycles, and the cycle itself. */
  datatype Action =
    | DoCycle(work: Work)
    | DoClose
    | BeginConnect(clean: bool)
    | EndConnect
    | DoSetHandler(topicFilter: bytes, handler: Option<nat>)
    | DoSetDefault(handler: Option<nat>)
    | DoStore(id: nat, qos: nat)
    | DoAcknowledged(id: nat)

  function Act(s: Session, a: Action): Session {
    match a
    case DoCycle(w) => Cycle(s, w).0
    case DoClose => CloseSession(s)
    case BeginConnect(clean) => if s.connected then s else s.(cleanSession := clean)
    case EndConnect => s.(connected := true, pingOutstanding := false)
    case DoSetHandler(f, h) => s.(slots := SetHandler(s.slots, f, h).0)
    case DoSetDefault(h) => s.(defaultHandler := h)
    case DoStore(id, qos) => Stored(s, id, qos)
    case DoAcknowledged(id) => Acknowledged(s, id)
  }

  /** A publish is kept for the next connection unless the session is a clean one. */
  function Stored(s: Session, id: nat, qos: nat): Session {
    if s.cleanSession then s else s.(inflightMsgid := id, inflightQoS := qos, pubrel := false)
  }

  /** The acknowledgement of the message in flight ends its flight. */
  function Acknowledged(s: Session, id: nat): Session {
    if s.inflightMsgid == id then s.(inflightMsgid := 0) else s
  }

  function Run(s: Session, actions: seq<Action>): Session
    decreases |actions|
  {
    if actions == [] then s else Run(Act(s, actions[0]), actions[1..])
  }

  lemma {:induction false} RunAppend(s: Session, a: seq<Action>, b: seq<Action>)
    ensures Run(Run(s, a), b) == Run(s, a + b)
    decreases |a|
  {
    if a == [] {
      assert a + b == b;
    } else {
      RunAppend(Act(s, a[0]), a[1..], b);
      assert (a + b)[1..] == a[1..] + b;
    }
  }

  lemma RunOne(s: Session, a: seq<Action>, last: Action) returns (all: seq<Action>)
    ensures all == a + [last] && Run(s, all) == Act(Run(s, a), last)
  {
    all := a + [last];
    RunAppend(s, a, [last]);
    assert Run(Act(Run(s, a), last), []) == Act(Run(s, a), last);
  }

  /** The constructor: an empty table of each kind, and a closed session. */
  function Initial(maxHandlers: nat, maxIds: nat): Session {
    Session(seq(maxHandlers, _ => Slot(None, None)), None, NoIds(maxIds), false, true, false, 0, 0, false, [], [], [Reset])
  }

  // ---- QoS 2 over whole runs ----

  ghost function AfterEvent(p: set<nat>, e: Event): set<nat> {
    if e.Delivered? then p + {e.id} else if e.Released? then p - {e.id} else {}
  }

  /** The ids delivered and neither released nor forgotten since. */
  ghost function Pending(h: seq<Event>): set<nat> {
    if h == [] then {} else AfterEvent(Pending(h[..|h| - 1]), h[|h| - 1])
  }

  /** No id is delivered while it is pending. */
  ghost predicate NeverTwice(h: seq<Event>) {
    h != [] ==>
      && NeverTwice(h[..|h| - 1])
      && (h[|h| - 1].Delivered? ==> h[|h| - 1].id !in Pending(h[..|h| - 1]))
  }

  ghost function TableIds(ids: seq<nat>): set<nat> {
    set i | 0 <= i < |ids| && ids[i] != 0 :: ids[i]
  }

  predicate DistinctIds(ids: seq<nat>) {
    forall i, j | 0 <= i < j < |ids| && ids[i] != 0 :: ids[i] != ids[j]
  }

  /** The ids released, in order. */
  ghost function ReleasedIds(h: seq<Event>): seq<nat> {
    if h == [] then []
    else ReleasedIds(h[..|h| - 1]) + if h[|h| - 1].Released? then [h[|h| - 1].id] else []
  }

  /** The ids for which a PUBCOMP has gone out, in order. */
  ghost function CompletedIds(acks: seq<Ack>): seq<nat> {
    if acks == [] then []
    else CompletedIds(acks[..|acks| - 1]) + if acks[|acks| - 1].packetType == PUBCOMP then [acks[|acks| - 1].id] else []
  }

  /**
   The non-zero entries are pairwise distinct and are exactly the pending ids; ids are
   released exactly as their PUBCOMPs go out; and no PUBREL of ours is ever in flight.
   */
  ghost predicate Invariant(s: Session) {
    && DistinctIds(s.ids)
    && TableIds(s.ids) == Pending(s.history)
    && NeverTwice(s.history)
    && ReleasedIds(s.history) == CompletedIds(s.acks)
    && GoodTable(s.slots)
    && !s.pubrel
  }

  lemma AppendEvent(h: seq<Event>, e: Event)
    ensures (h + [e])[..|h + [e]| - 1] == h
    ensures Pending(h + [e]) == AfterEvent(Pending(h), e)
    ensures NeverTwice(h + [e]) <==> NeverTwice(h) && (e.Delivered? ==> e.id !in Pending(h))
    ensures ReleasedIds(h + [e]) == ReleasedIds(h) + if e.Released? then [e.id] else []
  {
    assert (h + [e])[..|h + [e]| - 1] == h;
  }

  lemma AppendAck(acks: seq<Ack>, a: Ack)
    ensures CompletedIds(acks + [a]) == CompletedIds(acks) + if a.packetType == PUBCOMP then [a.id] else []
  {
    assert (acks + [a])[..|acks|] == acks;
  }

  lemma UseIdKeeps(ids: seq<nat>, id: nat)
    requires DistinctIds(ids) && IsFree(ids, id) && UseId(ids, id).1
    ensures id != 0 && DistinctIds(UseId(ids, id).0)
    ensures TableIds(UseId(ids, id).0) == TableIds(ids) + {id} && id !in TableIds(ids)
  {
    var i := FindId(ids, 0);
    var r := ids[i := id];
    forall x
      ensures x in TableIds(r) <==> x in TableIds(ids) || x == id
    {
      if x in TableIds(ids) {
        var k :| 0 <= k < |ids| && ids[k] == x && x != 0;
        assert r[k] == x;
      }
      assert r[i] == id;
    }
  }

  lemma FreeIdKeeps(ids: seq<nat>, id: nat)
    requires DistinctIds(ids)
    ensures DistinctIds(FreeId(ids, id)) && TableIds(FreeId(ids, id)) == TableIds(ids) - {id}
  {
    var r := FreeId(ids, id);
    forall x
      ensures x in TableIds(r) <==> x in TableIds(ids) && x != id
    {
      if x in TableIds(ids) && x != id {
        var k :| 0 <= k < |ids| && ids[k] == x && x != 0;
        assert r[k] == x;
      }
    }
  }

  lemma NoIdsKeeps(n: nat)
    ensures DistinctIds(NoIds(n)) && TableIds(NoIds(n)) == {}
  {
  }

  lemma CloseKeeps(s: Session)
    requires Invariant(s)
    ensures Invariant(CloseSession(s))
  {
    AppendEvent(s.history, Reset);
    NoIdsKeeps(|s.ids|);
    CleanedIsEmpty(s.slots);
  }

  lemma ReceiveKeeps(s: Session, w: Work)
    requires Invariant(s)
    ensures Invariant(Receive(s, w))
  {
    if w.qos == 2 && IsFree(s.ids, w.id) && UseId(s.ids, w.id).1 {
      UseIdKeeps(s.ids, w.id);
      AppendEvent(s.history, Delivered(w.id));
    }
  }

  lemma CycleKeeps(s: Session, w: Work)
    requires Invariant(s)
    ensures Invariant(Cycle(s, w).0)
  {
    hide Switch, CloseSession, Invariant;
    SwitchKeeps(s, w);
    var switched := Switch(s, w).session;
    var (alive, ping) := Keepalive(switched.pingOutstanding, w.timers);
    PingIrrelevant(switched, ping);
    CloseKeeps(switched);
    CloseKeeps(switched.(pingOutstanding := ping));
  }

  lemma SwitchKeeps(s: Session, w: Work)
    requires Invariant(s)
    ensures Invariant(Switch(s, w).session)
  {
    hide Receive, Invariant;
    ReceiveKeeps(s, w);
    ReleaseKeeps(s, w.id);
    AckKeeps(Receive(s, w), Ack(PUBACK, w.id));
    AckKeeps(Receive(s, w), Ack(PUBREC, w.id));
    AckKeeps(s, Ack(PUBREL, w.id));
    PingIrrelevant(s, false);
  }

  /** An acknowledgement other than PUBCOMP releases nothing. */
  lemma AckKeeps(s: Session, a: Ack)
    requires Invariant(s) && a.packetType != PUBCOMP
    ensures Invariant(s.(acks := s.acks + [a]))
  {
    AppendAck(s.acks, a);
  }

  lemma PingIrrelevant(s: Session, ping: bool)
    requires Invariant(s)
    ensures Invariant(s.(pingOutstanding := ping))
  {
  }

  lemma ReleaseKeeps(s: Session, id: nat)
    requires Invariant(s)
    ensures Invariant(s.(acks := s.acks + [Ack(PUBCOMP, id)], ids := FreeId(s.ids, id), history := s.history + [Released(id)]))
  {
    FreeIdKeeps(s.ids, id);
    AppendEvent(s.history, Released(id));
    AppendAck(s.acks, Ack(PUBCOMP, id));
  }

  lemma ActKeeps(s: Session, a: Action)
    requires Invariant(s)
    ensures Invariant(Act(s, a))
  {
    match a
    case DoCycle(w) => CycleKeeps(s, w);
    case DoClose => CloseKeeps(s);
    case DoSetHandler(f, h) => SetHandlerIsMapUpdate(s.slots, f, h);
    case _ =>
  }

  lemma InitialGood(maxHandlers: nat, maxIds: nat)
    ensures Invariant(Initial(maxHandlers, maxIds))
  {
    NoIdsKeeps(maxIds);
    assert Initial(maxHandlers, maxIds).history == [] + [Reset];
    AppendEvent([], Reset);
  }

  lemma {:induction false} RunKeeps(s: Session, actions: seq<Action>)
    requires Invariant(s)
    ensures Invariant(Run(s, actions))
    decreases |actions|
  {
    if actions != [] {
      ActKeeps(s, actions[0]);
      RunKeeps(Act(s, actions[0]), actions[1..]);
    }
  }

  /** An event that ends the time during which an id must not be delivered again. */
  predicate Ends(e: Event, id: nat) {
    e == Reset || e == Released(id)
  }

  lemma {:induction false} StaysPending(h: seq<Event>, i: nat, id: nat)
    requires i < |h| && h[i] == Delivered(id)
    requires forall k | i < k < |h| :: !Ends(h[k], id)
    ensures id in Pending(h)
    decreases |h|
  {
    var n := |h| - 1;
    if i < n {
      StaysPending(h[..n], i, id);
      assert !Ends(h[n], id);
    }
  }

  lemma {:induction false} NeverTwiceMeaning(h: seq<Event>, i: nat, j: nat, id: nat)
    requires NeverTwice(h) && i < j < |h| && h[i] == h[j] == Delivered(id)
    ensures exists k | i < k < j :: Ends(h[k], id)
    decreases |h|
  {
    var n := |h| - 1;
    if j < n {
      NeverTwiceMeaning(h[..n], i, j, id);
    } else {
      if forall k | i < k < n :: !Ends(h[k], id) {
        StaysPending(h[..n], i, id);
      }
    }
  }

  /**
   In every run of a new client, between two deliveries of the same QoS 2 packet
   id the id was released by a PUBREL or the session was reset.
   */
  lemma AtMostOnceDelivery(maxHandlers: nat, maxIds: nat, actions: seq<Action>, i: nat, j: nat, id: nat)
    requires var h := Run(Initial(maxHandlers, maxIds), actions).history;
             i < j < |h| && h[i] == h[j] == Delivered(id)
    ensures var h := Run(Initial(maxHandlers, maxIds), actions).history;
            exists k | i < k < j :: Ends(h[k], id)
  {
    InitialGood(maxHandlers, maxIds);
    RunKeeps(Initial(maxHandlers, maxIds), actions);
    NeverTwiceMeaning(Run(Initial(maxHandlers, maxIds), actions).history, i, j, id);
  }

  /** In every run of a new client the ids are released in the order, and exactly as often, as their PUBCOMPs have gone out. */
  lemma ReleasedAsCompleted(maxHandlers: nat, maxIds: nat, actions: seq<Action>)
    ensures var s := Run(Initial(maxHandlers, maxIds), actions);
            ReleasedIds(s.history) == CompletedIds(s.acks)
  {
    InitialGood(maxHandlers, maxIds);
    RunKeeps(Initial(maxHandlers, maxIds), actions);
  }

  /** A QoS 2 publish is delivered exactly when its id is neither zero nor pending and the id table has room. */
  lemma DeliveredIff(s: Session, w: Work)
    requires Invariant(s) && w.packetType == PUBLISH && w.deserialized && w.qos == 2
    ensures Receive(s, w).history == s.history + [Delivered(w.id)]
       <==> w.id != 0 && w.id !in Pending(s.history) && 0 in s.ids
    ensures Receive(s, w).history == s.history
       <==> w.id == 0 || w.id in Pending(s.history) || 0 !in s.ids
  {
    var i := FindId(s.ids, 0);
    assert w.id != 0 ==> (w.id in s.ids <==> w.id in TableIds(s.ids));
    assert |s.history + [Delivered(w.id)]| != |s.history|;
  }

  // ---- What a cycle calls and sends ----

  /** A publish that is for the handlers: below or above QoS 2 any, at QoS 2 one whose id is neither zero nor pending while there is room. */
  ghost predicate Reaches(s: Session, w: Work) {
    && w.packetType == 3 && w.deserialized
    && (w.qos != 2 || (w.id != 0 && w.id !in Pending(s.history) && 0 in s.ids))
  }

  /** One call for each filter of the table that matches; if none does, one of the default handler, if there is one. */
  ghost predicate CallsEach(slots: seq<Slot>, default: Option<nat>, topic: bytes, calls: seq<Call>)
    requires GoodTable(slots)
  {
    forall c :: multiset(calls)[c]
             == if SomeMatch(slots, topic) then if Called(slots, c, topic) then 1 else 0
                else if default.Some? && c == Default(default.value, topic) then 1 else 0
  }

  /** The acknowledgement a packet is answered with: PUBACK, PUBREC, PUBREL or PUBCOMP with the packet's own id. */
  function Reply(w: Work): seq<Ack> {
    if !w.deserialized || !w.ackBuilt || !w.ackSent then []
    else if w.packetType == 3 && w.qos == 1 then [Ack(4, w.id)]
    else if w.packetType == 3 && w.qos == 2 then [Ack(5, w.id)]
    else if w.packetType == 5 then [Ack(6, w.id)]
    else if w.packetType == 6 then [Ack(7, w.id)]
    else []
  }

  /** A cycle makes the calls of a publish that is for the handlers, and no others; and it sends that answer. */
  lemma CycleDelivers(s: Session, w: Work)
    requires Invariant(s)
    ensures var s' := Cycle(s, w).0;
            && s.calls <= s'.calls
            && (if Reaches(s, w) then CallsEach(s.slots, s.defaultHandler, w.topic, s'.calls[|s.calls|..]) else s'.calls == s.calls)
            && s'.acks == s.acks + Reply(w)
  {
    hide Deliveries, Pending, GoodTable, FreeId, Cleaned, CallsEach;
    var s' := Cycle(s, w).0;
    if w.packetType == PUBLISH && w.deserialized {
      ReceiveDelivers(s, w);
      assert s'.calls == Receive(s, w).calls;
    }
    assert s.acks + [] == s.acks && s.calls[|s.calls|..] == [];
  }

  lemma ReceiveDelivers(s: Session, w: Work)
    requires Invariant(s) && w.packetType == PUBLISH && w.deserialized
    ensures var s' := Receive(s, w);
            && s.calls <= s'.calls && s'.acks == s.acks
            && (if Reaches(s, w) then CallsEach(s.slots, s.defaultHandler, w.topic, s'.calls[|s.calls|..]) else s'.calls == s.calls)
  {
    hide Deliveries, Pending, CallsEach;
    DeliveriesEach(s.slots, s.defaultHandler, w.topic);
    var more := Deliveries(s.slots, s.defaultHandler, w.topic);
    assert (s.calls + more)[|s.calls|..] == more;
    if w.qos == 2 {
      var i := FindId(s.ids, 0);
      assert w.id != 0 ==> (w.id in s.ids <==> w.id in TableIds(s.ids));
    }
  }

  lemma DeliveriesEach(slots: seq<Slot>, default: Option<nat>, topic: bytes)
    requires GoodTable(slots)
    ensures CallsEach(slots, default, topic, Deliveries(slots, default, topic))
  {
    hide MatchedCalls, SomeMatch, Called;
    EachMatchCalledOnce(slots, topic);
    DefaultIffNoMatch(slots, default, topic);
  }

  /** Of all that can happen to a session only a cycle calls handlers. */
  ghost predicate StepDelivers(s: Session, a: Action, s': Session)
    requires GoodTable(s.slots)
  {
    && s.calls <= s'.calls
    && if a.DoCycle? && Reaches(s, a.work) then CallsEach(s.slots, s.defaultHandler, a.work.topic, s'.calls[|s.calls|..])
       else s'.calls == s.calls
  }

  lemma ActDelivers(s: Session, a: Action)
    requires Invariant(s)
    ensures StepDelivers(s, a, Act(s, a))
  {
    hide Cycle, CallsEach, Reaches, Pending, SetHandler, Cleaned;
    match a
    case DoCycle(w) => CycleDelivers(s, w);
    case _ =>
  }

  /** Over a whole run each action makes exactly its calls, and no call is taken back. */
  lemma RunDelivers(s: Session, actions: seq<Action>, k: nat)
    requires Invariant(s) && k < |actions|
    ensures var before, after := Run(s, actions[..k]), Run(s, actions[..k + 1]);
            && Invariant(before) && StepDelivers(before, actions[k], after)
            && after.calls <= Run(s, actions).calls
  {
    hide Act, Invariant, StepDelivers;
    var before := Run(s, actions[..k]);
    RunKeeps(s, actions[..k]);
    ActDelivers(before, actions[k]);
    var all := RunOne(s, actions[..k], actions[k]);
    assert all == actions[..k + 1];
    RunAppend(s, actions[..k + 1], actions[k + 1..]);
    assert actions[..k + 1] + actions[k + 1..] == actions;
    RunKeeps(s, actions[..k + 1]);
    CallsGrow(Run(s, actions[..k + 1]), actions[k + 1..]);
  }

  lemma {:induction false} CallsGrow(s: Session, actions: seq<Action>)
    requires Invariant(s)
    ensures s.calls <= Run(s, actions).calls
    decreases |actions|
  {
    hide Act, Invariant, CallsEach, Reaches;
    if actions != [] {
      GoodSlots(s);
      ActDelivers(s, actions[0]);
      ActKeeps(s, actions[0]);
      CallsGrow(Act(s, actions[0]), actions[1..]);
    }
  }

  lemma GoodSlots(s: Session)
    requires Invariant(s)
    ensures GoodTable(s.slots)
  {
  }

  /**
   With the id table full, a new QoS 2 message is acknowledged like any other but
   reaches no handler: delivery is at most once, not exactly once.
   */
  lemma FullTableLosesMessage(s: Session, w: Work)
    requires Invariant(s) && 0 !in s.ids
    requires w.packetType == PUBLISH && w.deserialized && w.qos == 2 && w.ackBuilt && w.ackSent
    ensures var s' := Cycle(s, w).0;
            && s'.calls == s.calls && s'.acks == s.acks + [Ack(PUBREC, w.id)]
            && (s'.history == s.history || s'.history == s.history + [Reset])
  {
    assert UseId(s.ids, w.id) == (s.ids, false);
  }

  /**
   cycle has no case for UNSUBACK, so the packet that confirms an unsubscribe is
   taken for a read failure: the session is closed, and with clean sessions every
   handler is forgotten before unsubscribe looks for its filter.
   */
  lemma UnsubackClosesSession(s: Session, w: Work, f: bytes)
    requires Invariant(s) && s.connected && w.packetType == UNSUBACK
    ensures Cycle(s, w) == (CloseSession(s), UNSUBACK) && !CloseSession(s).connected
    ensures s.cleanSession ==> Table(CloseSession(s).slots) == map[] && !SetHandler(CloseSession(s).slots, f, None).1
  {
    CleanedIsEmpty(s.slots);
  }

  // ---- When a cycle closes the session ----

  predicate Unhandled(packetType: int) {
    packetType !in {0, CONNACK, PUBLISH, PUBACK, PUBREC, PUBREL, PUBCOMP, SUBACK, PINGRESP}
  }

  /** The packet calls for an acknowledgement that cannot be made or sent. */
  predicate AckFails(w: Work) {
    if w.packetType == PUBLISH then w.deserialized && w.qos != 0 && !(w.qos <= 2 && w.ackBuilt && w.ackSent)
    else w.packetType in {PUBREC, PUBREL} && !(w.deserialized && w.ackBuilt && w.ackSent)
  }

  /** A publish that cannot be read leaves the cycle before the keepalive. */
  predicate SkipsKeepalive(w: Work) {
    w.packetType == PUBLISH && !w.deserialized
  }

  /** A ping is overdue, or is due and cannot be sent. */
  predicate PingFails(s: Session, w: Work) {
    w.timers.enabled &&
    if s.pingOutstanding && w.packetType != PINGRESP then w.timers.pingExpired
    else w.timers.idle && w.timers.pingBuilt && !w.timers.pingSent
  }

  predicate CycleFails(s: Session, w: Work) {
    Unhandled(w.packetType) || AckFails(w) || (!SkipsKeepalive(w) && PingFails(s, w))
  }

  /** A cycle leaves a session connected, and reports the packet's type, exactly if nothing of this has failed. */
  lemma CycleClosesIff(s: Session, w: Work)
    ensures Cycle(s, w).0.connected <==> s.connected && !CycleFails(s, w)
    ensures !CycleFails(s, w) ==> Cycle(s, w).1 == w.packetType
    ensures CycleFails(s, w) ==> Cycle(s, w).1 == if Unhandled(w.packetType) then w.packetType else FAILURE
  {
    hide Switch, Cleaned, NoIds, Unhandled, AckFails, SkipsKeepalive;
    SwitchOutcome(s, w);
    FailureKinds(w);
  }

  /** In a session that stays open a ping is outstanding exactly if it was and is not answered, or has just been sent. */
  lemma PingOutstandingIff(s: Session, w: Work)
    requires s.connected && !CycleFails(s, w)
    ensures var waiting := s.pingOutstanding && w.packetType != 13;
            Cycle(s, w).0.pingOutstanding
            <==> waiting || (!SkipsKeepalive(w) && w.timers.enabled && w.timers.idle && w.timers.pingBuilt && w.timers.pingSent)
  {
    hide Switch;
    SwitchOutcome(s, w);
  }

  lemma FailureKinds(w: Work)
    ensures !(Unhandled(w.packetType) && AckFails(w)) && !(Unhandled(w.packetType) && SkipsKeepalive(w)) && !(AckFails(w) && SkipsKeepalive(w))
    ensures Unhandled(w.packetType) ==> w.packetType != SUCCESS
  {
  }

  /** How the switch ends, and what it leaves alone. */
  lemma SwitchOutcome(s: Session, w: Work)
    ensures Switch(s, w).Exit? <==> Unhandled(w.packetType) || AckFails(w) || SkipsKeepalive(w)
    ensures Switch(s, w).Exit? ==>
              Switch(s, w).rc == if Unhandled(w.packetType) then w.packetType else if AckFails(w) then FAILURE else SUCCESS
    ensures var s' := Switch(s, w).session;
            && s'.connected == s.connected && s'.pingOutstanding == (s.pingOutstanding && w.packetType != PINGRESP)
            && s'.inflightMsgid == s.inflightMsgid && s'.inflightQoS == s.inflightQoS
            && s'.slots == s.slots && s'.cleanSession == s.cleanSession
  {
    hide Receive, FreeId;
    ReceiveKeepsFlags(s, w);
  }

  lemma ReceiveKeepsFlags(s: Session, w: Work)
    ensures var s' := Receive(s, w);
            && s'.connected == s.connected && s'.pingOutstanding == s.pingOutstanding
            && s'.inflightMsgid == s.inflightMsgid && s'.inflightQoS == s.inflightQoS
            && s'.slots == s.slots && s'.cleanSession == s.cleanSession
  {
  }

  function Cycles(s: Session, works: seq<Work>): Session
    decreases |works|
  {
    if works == [] then s else Cycles(Cycle(s, works[0]).0, works[1..])
  }

  /**
   A ping that is not answered: no second one is sent, and the first cycle that comes to
   the keepalive after the interval closes the session.
   */
  lemma {:induction false} UnansweredPingCloses(s: Session, works: seq<Work>)
    requires s.connected ==> s.pingOutstanding
    requires forall w | w in works :: w.timers.enabled && w.packetType != PINGRESP
    ensures var s' := Cycles(s, works);
            s'.connected ==> s'.pingOutstanding && forall w | w in works :: SkipsKeepalive(w) || !w.timers.pingExpired
    decreases |works|
  {
    if works != [] {
      hide Cycle;
      var w := works[0];
      CycleClosesIff(s, w);
      if Cycle(s, w).0.connected {
        PingStays(s, w);
      }
      UnansweredPingCloses(Cycle(s, w).0, works[1..]);
      NeverConnects(Cycle(s, w).0, works[1..]);
      assert works == [w] + works[1..];
    }
  }

  lemma PingStays(s: Session, w: Work)
    requires s.pingOutstanding && w.packetType != PINGRESP && Cycle(s, w).0.connected
    ensures Cycle(s, w).0.pingOutstanding
  {
    hide Switch;
    SwitchOutcome(s, w);
  }

  /** No cycle connects a session. */
  lemma {:induction false} NeverConnects(s: Session, works: seq<Work>)
    ensures Cycles(s, works).connected ==> s.connected
    decreases |works|
  {
    if works != [] {
      hide Cycle;
      CycleClosesIff(s, works[0]);
      NeverConnects(Cycle(s, works[0]).0, works[1..]);
    }
  }

  // ---- The handler table over whole runs ----

  /** What an action means for the map of handlers. */
  ghost function ActOnMap(m: map<bytes, nat>, capacity: nat, s: Session, a: Action): map<bytes, nat> {
    match a
    case DoSetHandler(f, h) =>
      if h.None? then m - {f} else if f in m || |m| < capacity then m[f := h.value] else m
    case DoClose => if s.cleanSession then map[] else m
    case DoCycle(w) => if s.connected && s.cleanSession && CycleFails(s, w) then map[] else m
    case _ => m
  }

  /** A cycle leaves the handlers alone unless it closes a connected clean session. */
  lemma CycleOnTable(s: Session, w: Work)
    ensures var s' := Cycle(s, w).0;
            s'.slots == if s.connected && !s'.connected && s.cleanSession then Cleaned(s.slots) else s.slots
  {
    hide Switch, Cleaned;
    SwitchOutcome(s, w);
  }

  /** Every action acts on the handler table as on a map with a bounded number of keys. */
  lemma ActRefinesMap(s: Session, a: Action)
    requires GoodTable(s.slots)
    ensures GoodTable(Act(s, a).slots) && |Act(s, a).slots| == |s.slots|
    ensures Table(Act(s, a).slots) == ActOnMap(Table(s.slots), |s.slots|, s, a)
  {
    hide Cycle, SetHandler, Table, GoodTable, Cleaned;
    CleanedIsEmpty(s.slots);
    if a.DoSetHandler? {
      SetHandlerIsMapUpdate(s.slots, a.topicFilter, a.handler);
    } else if a.DoCycle? {
      hide CycleFails;
      CycleOnTable(s, a.work);
      CycleClosesIff(s, a.work);
    }
  }

  ghost function RunOnMap(m: map<bytes, nat>, capacity: nat, s: Session, actions: seq<Action>): map<bytes, nat>
    decreases |actions|
  {
    if actions == [] then m
    else RunOnMap(ActOnMap(m, capacity, s, actions[0]), capacity, Act(s, actions[0]), actions[1..])
  }

  /** So does every run: the table of a client is at all times the map that its actions make of the empty one. */
  lemma {:induction false} RunRefinesMap(s: Session, actions: seq<Action>)
    requires GoodTable(s.slots)
    ensures var s' := Run(s, actions);
            && GoodTable(s'.slots) && |s'.slots| == |s.slots| && |Table(s'.slots)| <= |s.slots|
            && Table(s'.slots) == RunOnMap(Table(s.slots), |s.slots|, s, actions)
    decreases |actions|
  {
    hide Act, ActOnMap, GoodTable, Table;
    if actions == [] {
      FullTable(s.slots);
    } else {
      ActRefinesMap(s, actions[0]);
      RunRefinesMap(Act(s, actions[0]), actions[1..]);
    }
  }
}
