/**
 The public calls of MQTT::Client on the session: what each leaves behind and returns,
 for everything the network, the timers and the serializers may do in it.
 */
module MqttCalls {
  import opened Bytes
  import opened MqttSession

  // ---- waitfor ----

  /** waitfor; works is what its cycles meet, and its timer expires when they are used up. */
  function Wait(s: Session, packetType: int, works: seq<Work>): (Session, int) {
    WaitFrom(s, packetType, works, FAILURE)
  }

  function WaitFrom(s: Session, packetType: int, works: seq<Work>, rc: int): (Session, int)
    decreases |works|
  {
    if works == [] then (s, rc)
    else
      var (next, code) := Cycle(s, works[0]);
      if code == packetType || code < 0 then (next, code) else WaitFrom(next, packetType, works[1..], code)
  }

  /** A packet that is waited for successfully has been received; waiting for UNSUBACK successfully means disconnected. */
  lemma {:induction false} WaitMeaning(s: Session, packetType: int, works: seq<Work>, rc: int)
    requires rc != packetType
    ensures var (s', code) := WaitFrom(s, packetType, works, rc);
            && (code == packetType >= 0 ==> exists w | w in works :: w.packetType == packetType)
            && (code == packetType == UNSUBACK ==> !s'.connected)
            && (code < 0 && works != [] ==> !s'.connected)
            && (!s.connected ==> s'.inflightMsgid == s.inflightMsgid && s'.inflightQoS == s.inflightQoS && !s'.connected)
    decreases |works|
  {
    if works != [] {
      hide Cycle, CycleFails;
      CycleClosesIff(s, works[0]);
      UnsubackFails(s, works[0]);
      if !s.connected {
        InflightStays(s, works[0]);
      }
      var (next, code) := Cycle(s, works[0]);
      if !(code == packetType || code < 0) {
        WaitMeaning(next, packetType, works[1..], code);
        assert forall w | w in works[1..] :: w in works;
      }
    }
  }

  /** The code of the k-th cycle. */
  function CodeAt(s: Session, works: seq<Work>, k: nat): int
    requires k < |works|
  {
    Cycle(Cycles(s, works[..k]), works[k]).1
  }

  /** Waiting makes k cycles: up to the first whose code is the type waited for or negative, or all there is time for. */
  lemma {:induction false} WaitCycles(s: Session, packetType: int, works: seq<Work>, rc: int) returns (k: nat)
    ensures var (s', code) := WaitFrom(s, packetType, works, rc);
            && k <= |works| && s' == Cycles(s, works[..k]) && code == (if k == 0 then rc else CodeAt(s, works, k - 1))
            && (forall j | 0 <= j < k - 1 :: CodeAt(s, works, j) != packetType && CodeAt(s, works, j) >= 0)
            && (k < |works| ==> k > 0 && (code == packetType || code < 0))
    decreases |works|
  {
    hide Cycle;
    k := 0;
    assert Cycles(s, works[..0]) == s;
    if works != [] {
      var (next, code) := Cycle(s, works[0]);
      if code == packetType || code < 0 {
        k := 1;
        OneMore(s, works, 0);
      } else {
        var more := WaitCycles(next, packetType, works[1..], code);
        k := more + 1;
        OneMore(s, works, more);
        forall j | 1 <= j < |works|
          ensures CodeAt(s, works, j) == CodeAt(next, works[1..], j - 1)
        {
          CodeShift(s, works, j);
        }
      }
    }
  }

  lemma CodeShift(s: Session, works: seq<Work>, k: nat)
    requires 1 <= k < |works|
    ensures CodeAt(s, works, k) == CodeAt(Cycle(s, works[0]).0, works[1..], k - 1)
  {
    hide Cycle;
    OneMore(s, works, k - 1);
  }

  lemma NegativeCloses(s: Session, w: Work)
    ensures Cycle(s, w).1 < 0 ==> !Cycle(s, w).0.connected
  {
    hide Cycle;
    CycleClosesIff(s, w);
  }

  lemma OneMore(s: Session, works: seq<Work>, k: nat)
    requires k < |works|
    ensures Cycles(s, works[..k + 1]) == Cycles(Cycle(s, works[0]).0, works[1..][..k])
  {
    assert works[..k + 1][1..] == works[1..][..k];
  }

  lemma UnsubackFails(s: Session, w: Work)
    ensures w.packetType == UNSUBACK ==> CycleFails(s, w)
    ensures CycleFails(s, w) && Unhandled(w.packetType) ==> Cycle(s, w).1 == w.packetType
  {
    hide Cycle;
    CycleClosesIff(s, w);
  }

  /** Without a connection a cycle does not touch the message in flight. */
  lemma InflightStays(s: Session, w: Work)
    requires !s.connected
    ensures var s' := Cycle(s, w).0;
            s'.inflightMsgid == s.inflightMsgid && s'.inflightQoS == s.inflightQoS
  {
    hide Switch;
    SwitchOutcome(s, w);
  }

  // ---- publish ----

  /** How sending a publish turns out: whether it goes out, what waiting meets, and the id of the acknowledgement, if it can be read. */
  datatype Sending = Sending(sent: bool, works: seq<Work>, ack: Option<nat>)

  /** The private publish: send, and wait for the acknowledgement the quality of service calls for. */
  function SendPublish(s: Session, qos: nat, how: Sending): (Session, int) {
    if !how.sent then (CloseSession(s), FAILURE)
    else if qos == 1 || qos == 2 then
      var expected := if qos == 1 then PUBACK else PUBCOMP;
      var (waited, code) := Wait(s, expected, how.works);
      if code == expected && how.ack.Some? then (Acknowledged(waited, how.ack.value), SUCCESS)
      else (CloseSession(waited), FAILURE)
    else (s, SUCCESS)
  }

  /** The public publish: id is the new packet id, or at QoS 0 whatever the caller passes. */
  function Publish(s: Session, id: nat, qos: nat, built: bool, how: Sending): (Session, int) {
    if !s.connected || !built then (s, FAILURE) else SendPublish(Stored(s, id, qos), qos, how)
  }

  /** Success at QoS 1 and 2 means that the acknowledgement was received, and then that message is no longer in flight. */
  lemma PublishMeaning(s: Session, id: nat, qos: nat, built: bool, how: Sending)
    ensures var (s', rc) := Publish(s, id, qos, built, how);
            && (rc == SUCCESS || rc == FAILURE)
            && (rc == FAILURE && built ==> !s'.connected)
            && (rc == SUCCESS && qos == 1 ==> exists w | w in how.works :: w.packetType == PUBACK)
            && (rc == SUCCESS && qos == 2 ==> exists w | w in how.works :: w.packetType == PUBCOMP)
            && (rc == SUCCESS && (qos == 1 || qos == 2) && how.ack == Some(id) && id > 0 ==> s'.inflightMsgid != id)
  {
    hide Cycle, WaitFrom;
    var stored := Stored(s, id, qos);
    WaitMeaning(stored, PUBACK, how.works, FAILURE);
    WaitMeaning(stored, PUBCOMP, how.works, FAILURE);
  }

  /** A publish succeeds exactly if it goes out over a connection and, at QoS 1 and 2, a PUBACK or PUBCOMP comes that can be read. */
  lemma PublishIff(s: Session, id: nat, qos: nat, built: bool, how: Sending)
    ensures var (s', rc) := Publish(s, id, qos, built, how);
            var kept := if s.cleanSession then s else s.(inflightMsgid := id, inflightQoS := qos, pubrel := false);
            && (rc == SUCCESS <==>
                  && s.connected && built && how.sent
                  && (qos == 1 ==> Wait(kept, 4, how.works).1 == 4 && how.ack.Some?)
                  && (qos == 2 ==> Wait(kept, 7, how.works).1 == 7 && how.ack.Some?))
            && (rc == SUCCESS && qos != 1 && qos != 2 ==> s' == kept)
  {
    hide WaitFrom;
  }

  // ---- connect ----

  /** How connecting turns out, and how sending a message in flight again does. */
  datatype Connection = Connection(
    clean: bool,
    built: bool,
    sent: bool,
    works: seq<Work>,
    connack: Option<int>,
    pubrelBuilt: bool,
    again: Sending)

  /** The answer of the server: its return code, if a CONNACK came and can be read. */
  function Answer(code: int, connack: Option<int>): int {
    if code == CONNACK && connack.Some? then connack.value else FAILURE
  }

  /** The message in flight, if there is one, is sent again; its outcome takes the place of the server's answer. */
  function Resend(s: Session, answer: int, c: Connection): (Session, int) {
    if s.inflightMsgid > 0 then
      if s.inflightQoS == 2 && s.pubrel && !c.pubrelBuilt then (s, FAILURE) else SendPublish(s, s.inflightQoS, c.again)
    else (s, answer)
  }

  function Connect(s: Session, c: Connection): (Session, int) {
    if s.connected then (s, FAILURE)
    else
      var begun := s.(cleanSession := c.clean);
      if !c.built || !c.sent then (begun, FAILURE)
      else
        var (waited, code) := Wait(begun, CONNACK, c.works);
        var (tried, rc) := Resend(waited, Answer(code, c.connack), c);
        if rc == SUCCESS then (tried.(connected := true, pingOutstanding := false), SUCCESS) else (tried, rc)
  }

  /** The server has answered, and has accepted the connection. */
  ghost predicate Accepted(s: Session, c: Connection) {
    c.built && c.sent && c.connack == Some(SUCCESS) && Wait(s.(cleanSession := c.clean), CONNACK, c.works).1 == CONNACK
  }

  lemma WaitedInflight(s: Session, c: Connection)
    requires !s.connected
    ensures var waited := Wait(s.(cleanSession := c.clean), CONNACK, c.works).0;
            waited.inflightMsgid == s.inflightMsgid && waited.inflightQoS == s.inflightQoS
  {
    hide WaitFrom;
    WaitMeaning(s.(cleanSession := c.clean), CONNACK, c.works, FAILURE);
  }

  /** With nothing in flight, connect succeeds exactly if the server has accepted the connection. */
  lemma ConnectIff(s: Session, c: Connection)
    requires !s.connected && s.inflightMsgid == 0
    ensures Connect(s, c).1 == SUCCESS <==> Accepted(s, c)
    ensures var s' := Connect(s, c).0;
            Accepted(s, c) ==>
              s' == Wait(s.(cleanSession := c.clean), 2, c.works).0.(connected := true, pingOutstanding := false)
  {
    hide WaitFrom;
    WaitedInflight(s, c);
  }

  /** The resending that succeeds whatever the server says: the publish goes out, and an acknowledgement comes. */
  function Luck(qos: nat): Sending {
    var off := Timers(false, false, false, false, false);
    Sending(true, [Work(if qos == 1 then PUBACK else PUBCOMP, false, 0, 0, [], false, false, off)], Some(0))
  }

  lemma LuckSucceeds(s: Session, qos: nat)
    ensures SendPublish(s, qos, Luck(qos)).1 == SUCCESS
  {
    var w := Luck(qos).works[0];
    assert w.packetType >= 0 && Cycle(s, w) == (s, w.packetType);
  }

  /** Nobody answers the connect packet, and the message in flight is sent again with success. */
  function Unanswered(s: Session): Connection {
    Connection(s.cleanSession, true, true, [], None, true, Luck(s.inflightQoS))
  }

  /** With a message in flight, connect can report success although the server has not even answered. */
  lemma UnansweredSucceeds(s: Session)
    requires !s.connected && s.inflightMsgid > 0
    ensures Connect(s, Unanswered(s)).1 == SUCCESS && Connect(s, Unanswered(s)).0.connected && !Accepted(s, Unanswered(s))
  {
    hide SendPublish, Luck;
    LuckSucceeds(s, s.inflightQoS);
    assert s.(cleanSession := s.cleanSession) == s;
  }

  /** Success of connect means an accepted connection, however it may turn out, if and only if nothing is in flight. */
  lemma SuccessMeansAcceptedIff(s: Session)
    requires !s.connected
    ensures (forall c :: Connect(s, c).1 == SUCCESS ==> Accepted(s, c)) <==> s.inflightMsgid == 0
  {
    hide Connect, Accepted;
    if s.inflightMsgid == 0 {
      forall c
        ensures Connect(s, c).1 == SUCCESS ==> Accepted(s, c)
      {
        ConnectIff(s, c);
      }
    } else {
      UnansweredSucceeds(s);
      assert Connect(s, Unanswered(s)).1 == SUCCESS;
    }
  }

  /** pubrel is never set, so a QoS 2 message in flight is always sent again as a publish: the serializer of PUBREL is never needed. */
  lemma PubrelNeverResent(s: Session, c: Connection, built: bool)
    requires Invariant(s)
    ensures Connect(s, c) == Connect(s, c.(pubrelBuilt := built))
  {
    hide Wait, SendPublish, Invariant;
    if !s.connected {
      var begun := s.(cleanSession := c.clean);
      CleanIrrelevant(s, c.clean);
      WaitKeeps(begun, CONNACK, c.works, FAILURE);
      NoPubrel(Wait(begun, CONNACK, c.works).0);
    }
  }

  lemma CleanIrrelevant(s: Session, clean: bool)
    requires Invariant(s)
    ensures Invariant(s.(cleanSession := clean))
  {
  }

  lemma NoPubrel(s: Session)
    requires Invariant(s)
    ensures !s.pubrel
  {
  }

  lemma {:induction false} WaitKeeps(s: Session, packetType: int, works: seq<Work>, rc: int)
    requires Invariant(s)
    ensures Invariant(WaitFrom(s, packetType, works, rc).0)
    ensures rc == FAILURE ==> Wait(s, packetType, works) == WaitFrom(s, packetType, works, rc)
    decreases |works|
  {
    if works != [] {
      hide Cycle, Invariant;
      CycleKeeps(s, works[0]);
      var (next, code) := Cycle(s, works[0]);
      WaitKeeps(next, packetType, works[1..], code);
    }
  }

  // ---- subscribe, unsubscribe, disconnect ----

  /** subscribe; granted is the quality of service in the SUBACK, if it can be read. */
  function Subscribe(s: Session, f: bytes, mh: Option<nat>, built: bool, sent: bool, works: seq<Work>, granted: Option<nat>): (Session, int) {
    if !s.connected || !built || !sent then (CloseSession(s), FAILURE)
    else
      var (waited, code) := Wait(s, SUBACK, works);
      if code != SUBACK then (CloseSession(waited), FAILURE)
      else if granted.None? || granted.value == 0x80 then (waited, SUCCESS)
      else
        var (slots, ok) := SetHandler(waited.slots, f, mh);
        if ok then (waited.(slots := slots), SUCCESS) else (CloseSession(waited.(slots := slots)), FAILURE)
  }

  /**
   A granted subscription has its handler in the map. A refused one, or one whose SUBACK
   cannot be read, is reported as a success all the same, and has none.
   */
  lemma SubscribeMeaning(s: Session, f: bytes, h: nat, built: bool, sent: bool, works: seq<Work>, granted: Option<nat>)
    requires Invariant(s)
    ensures var (s', rc) := Subscribe(s, f, Some(h), built, sent, works, granted);
            var waited := Wait(s, SUBACK, works);
            && (rc == SUCCESS || rc == FAILURE) && (rc == FAILURE ==> !s'.connected) && GoodTable(s'.slots) && GoodTable(waited.0.slots)
            && (rc == SUCCESS && granted.Some? && granted.value != 0x80 ==> f in Table(s'.slots) && Table(s'.slots)[f] == h)
            && (s.connected && built && sent && (granted.None? || granted.value == 0x80) ==>
                  (rc == SUCCESS <==> waited.1 == SUBACK) && (rc == SUCCESS ==> s' == waited.0))
            && (s.connected && built && sent && granted.Some? && granted.value != 0x80 ==>
                  var m := Table(waited.0.slots);
                  && (rc == SUCCESS <==> waited.1 == 9 && (f in m || |m| < |waited.0.slots|))
                  && (rc == SUCCESS ==> Table(s'.slots) == m[f := h] && s' == waited.0.(slots := s'.slots)))
            && (!s.connected || !built || !sent ==> rc == FAILURE)
  {
    hide Cycle, WaitFrom, SetHandler, Table, Cleaned;
    WaitKeeps(s, SUBACK, works, FAILURE);
    var waited := Wait(s, SUBACK, works).0;
    SetHandlerIsMapUpdate(waited.slots, f, Some(h));
    CleanedIsEmpty(waited.slots);
    CleanedIsEmpty(s.slots);
    CleanedIsEmpty(SetHandler(waited.slots, f, Some(h)).0);
  }

  /** unsubscribe; readable says whether the UNSUBACK can be read. */
  function Unsubscribe(s: Session, f: bytes, built: bool, sent: bool, works: seq<Work>, readable: bool): (Session, int) {
    if !s.connected || !built || !sent then (CloseSession(s), FAILURE)
    else
      var (waited, code) := Wait(s, UNSUBACK, works);
      if code != UNSUBACK then (CloseSession(waited), FAILURE)
      else if readable then (waited.(slots := SetHandler(waited.slots, f, None).0), SUCCESS)
      else (waited, SUCCESS)
  }

  /** Because cycle takes the acknowledgement for an error, every unsubscribe ends with the session closed. */
  lemma UnsubscribeMeaning(s: Session, f: bytes, built: bool, sent: bool, works: seq<Work>, readable: bool)
    requires Invariant(s)
    ensures var (s', rc) := Unsubscribe(s, f, built, sent, works, readable);
            && !s'.connected && GoodTable(s'.slots)
            && (rc == SUCCESS && readable ==> f !in Table(s'.slots))
            && (rc == SUCCESS || rc == FAILURE)
            && (rc == SUCCESS <==> s.connected && built && sent && Wait(s, 11, works).1 == 11)
  {
    hide Cycle, WaitFrom, SetHandler, Table, Cleaned;
    WaitKeeps(s, UNSUBACK, works, FAILURE);
    WaitMeaning(s, UNSUBACK, works, FAILURE);
    var waited := Wait(s, UNSUBACK, works).0;
    SetHandlerIsMapUpdate(waited.slots, f, None);
    CleanedIsEmpty(waited.slots);
    CleanedIsEmpty(s.slots);
  }

  /** disconnect: the return code tells whether the packet went out; the session is closed in any case. */
  function Disconnect(s: Session, built: bool, sent: bool): (Session, int) {
    (CloseSession(s), if built && sent then SUCCESS else FAILURE)
  }

  /** Disconnecting succeeds exactly if the packet goes out, and closes the session; a clean one forgets its handlers, ids and flight. */
  lemma DisconnectMeaning(s: Session, built: bool, sent: bool)
    ensures var (s', rc) := Disconnect(s, built, sent);
            && (rc == SUCCESS <==> built && sent) && (rc == SUCCESS || rc == FAILURE)
            && !s'.connected && !s'.pingOutstanding
            && (if s.cleanSession then
                  Table(s'.slots) == map[] && s'.inflightMsgid == 0 && s'.history == s.history + [Reset] && forall i | 0 <= i < |s'.ids| :: s'.ids[i] == 0
                else s' == s.(connected := false, pingOutstanding := false))
  {
    CleanedIsEmpty(s.slots);
  }

  // ---- yield ----

  function Yield(s: Session, works: seq<Work>): (Session, int)
    decreases |works|
  {
    if works == [] then (s, SUCCESS)
    else
      var (next, code) := Cycle(s, works[0]);
      if code < 0 then (next, FAILURE) else Yield(next, works[1..])
  }

  /** Yielding makes all its cycles, or stops with a failure behind the first one whose code is negative. */
  lemma {:induction false} YieldMeaning(s: Session, works: seq<Work>) returns (k: nat)
    ensures var (s', rc) := Yield(s, works);
            && (rc == SUCCESS || rc == FAILURE)
            && (rc == SUCCESS <==> forall j | 0 <= j < |works| :: CodeAt(s, works, j) >= 0)
            && (rc == SUCCESS ==> s' == Cycles(s, works))
            && (rc == FAILURE ==>
                  && k < |works| && s' == Cycles(s, works[..k + 1]) && CodeAt(s, works, k) < 0
                  && !s'.connected && forall j | 0 <= j < k :: CodeAt(s, works, j) >= 0)
    decreases |works|
  {
    hide Cycle, CycleFails;
    k := 0;
    if works != [] {
      var (next, code) := Cycle(s, works[0]);
      assert CodeAt(s, works, 0) == code;
      OneMore(s, works, 0);
      NegativeCloses(s, works[0]);
      if code >= 0 {
        var more := YieldMeaning(next, works[1..]);
        forall j | 1 <= j < |works|
          ensures CodeAt(s, works, j) == CodeAt(next, works[1..], j - 1)
        {
          CodeShift(s, works, j);
        }
        assert (forall j | 0 <= j < |works| - 1 :: CodeAt(next, works[1..], j) == CodeAt(s, works, j + 1));
        k := more + 1;
        if more < |works| - 1 {
          OneMore(s, works, more + 1);
        }
      }
    }
  }

  // ---- Every call is a run ----

  datatype PublicCall =
    | CallConnect(connection: Connection)
    | CallPublish(id: nat, qos: nat, built: bool, how: Sending)
    | CallSubscribe(topicFilter: bytes, handler: Option<nat>, built: bool, sent: bool, works: seq<Work>, granted: Option<nat>)
    | CallUnsubscribe(topicFilter: bytes, built: bool, sent: bool, works: seq<Work>, readable: bool)
    | CallDisconnect(built: bool, sent: bool)
    | CallYield(works: seq<Work>)
    | CallSetHandler(topicFilter: bytes, handler: Option<nat>)
    | CallSetDefault(handler: Option<nat>)

  function Serve(s: Session, call: PublicCall): Session {
    match call
    case CallConnect(c) => Connect(s, c).0
    case CallPublish(id, qos, built, how) => Publish(s, id, qos, built, how).0
    case CallSubscribe(f, mh, built, sent, works, granted) => Subscribe(s, f, mh, built, sent, works, granted).0
    case CallUnsubscribe(f, built, sent, works, readable) => Unsubscribe(s, f, built, sent, works, readable).0
    case CallDisconnect(built, sent) => Disconnect(s, built, sent).0
    case CallYield(works) => Yield(s, works).0
    case CallSetHandler(f, mh) => Act(s, DoSetHandler(f, mh))
    case CallSetDefault(mh) => Act(s, DoSetDefault(mh))
  }

  function ServeAll(s: Session, calls: seq<PublicCall>): Session
    decreases |calls|
  {
    if calls == [] then s else ServeAll(Serve(s, calls[0]), calls[1..])
  }

  lemma {:induction false} WaitIsRun(s: Session, packetType: int, works: seq<Work>, rc: int) returns (trace: seq<Action>)
    ensures Run(s, trace) == WaitFrom(s, packetType, works, rc).0
    decreases |works|
  {
    trace := [];
    if works != [] {
      hide Cycle;
      var (next, code) := Cycle(s, works[0]);
      if code == packetType || code < 0 {
        trace := RunOne(s, [], DoCycle(works[0]));
      } else {
        var more := WaitIsRun(next, packetType, works[1..], code);
        trace := [DoCycle(works[0])] + more;
        RunFirst(s, DoCycle(works[0]), more);
      }
    }
  }

  lemma RunFirst(s: Session, a: Action, more: seq<Action>)
    ensures Run(s, [a] + more) == Run(Act(s, a), more)
  {
    assert ([a] + more)[1..] == more;
  }

  lemma {:induction false} YieldIsRun(s: Session, works: seq<Work>) returns (trace: seq<Action>)
    ensures Run(s, trace) == Yield(s, works).0
    decreases |works|
  {
    trace := [];
    if works != [] {
      hide Cycle;
      var (next, code) := Cycle(s, works[0]);
      var more := [];
      if code >= 0 {
        more := YieldIsRun(next, works[1..]);
      }
      trace := [DoCycle(works[0])] + more;
      RunFirst(s, DoCycle(works[0]), more);
    }
  }

  lemma SendPublishIsRun(s: Session, qos: nat, how: Sending) returns (trace: seq<Action>)
    ensures Run(s, trace) == SendPublish(s, qos, how).0
  {
    hide Cycle, WaitFrom, CloseSession;
    trace := [];
    if !how.sent {
      trace := RunOne(s, [], DoClose);
    } else if qos == 1 || qos == 2 {
      var expected := if qos == 1 then PUBACK else PUBCOMP;
      trace := WaitIsRun(s, expected, how.works, FAILURE);
      if Wait(s, expected, how.works).1 == expected && how.ack.Some? {
        trace := RunOne(s, trace, DoAcknowledged(how.ack.value));
      } else {
        trace := RunOne(s, trace, DoClose);
      }
    }
  }

  lemma PublishIsRun(s: Session, id: nat, qos: nat, built: bool, how: Sending) returns (trace: seq<Action>)
    ensures Run(s, trace) == Publish(s, id, qos, built, how).0
  {
    hide SendPublish;
    trace := [];
    if s.connected && built {
      var more := SendPublishIsRun(Stored(s, id, qos), qos, how);
      trace := [DoStore(id, qos)] + more;
      RunFirst(s, DoStore(id, qos), more);
    }
  }

  lemma ConnectIsRun(s: Session, c: Connection) returns (trace: seq<Action>)
    ensures Run(s, trace) == Connect(s, c).0
  {
    hide Cycle, WaitFrom, SendPublish, Run;
    trace := [];
    RunNothing(s);
    if !s.connected {
      var begun := s.(cleanSession := c.clean);
      trace := RunOne(s, [], BeginConnect(c.clean));
      if c.built && c.sent {
        var (waited, code) := Wait(begun, CONNACK, c.works);
        var waiting := WaitIsRun(begun, CONNACK, c.works, FAILURE);
        RunAppend(s, trace, waiting);
        trace := trace + waiting;
        var (tried, rc) := Resend(waited, Answer(code, c.connack), c);
        if waited.inflightMsgid > 0 && !(waited.inflightQoS == 2 && waited.pubrel && !c.pubrelBuilt) {
          var sending := SendPublishIsRun(waited, waited.inflightQoS, c.again);
          RunAppend(s, trace, sending);
          trace := trace + sending;
        }
        if rc == SUCCESS {
          trace := RunOne(s, trace, EndConnect);
        }
      }
    }
  }

  lemma RunNothing(s: Session)
    ensures Run(s, []) == s
  {
  }

  lemma SubscribeIsRun(s: Session, f: bytes, mh: Option<nat>, built: bool, sent: bool, works: seq<Work>, granted: Option<nat>)
    returns (trace: seq<Action>)
    ensures Run(s, trace) == Subscribe(s, f, mh, built, sent, works, granted).0
  {
    hide Cycle, WaitFrom, CloseSession, SetHandler, Run;
    RunNothing(s);
    if !s.connected || !built || !sent {
      trace := RunOne(s, [], DoClose);
    } else {
      var code := Wait(s, SUBACK, works).1;
      trace := WaitIsRun(s, SUBACK, works, FAILURE);
      if code != SUBACK {
        trace := RunOne(s, trace, DoClose);
      } else if granted.Some? && granted.value != 0x80 {
        var ok := SetHandler(Wait(s, SUBACK, works).0.slots, f, mh).1;
        trace := RunOne(s, trace, DoSetHandler(f, mh));
        if !ok {
          trace := RunOne(s, trace, DoClose);
        }
      }
    }
  }

  lemma UnsubscribeIsRun(s: Session, f: bytes, built: bool, sent: bool, works: seq<Work>, readable: bool) returns (trace: seq<Action>)
    ensures Run(s, trace) == Unsubscribe(s, f, built, sent, works, readable).0
  {
    hide Cycle, WaitFrom, CloseSession, SetHandler, Run;
    RunNothing(s);
    if !s.connected || !built || !sent {
      trace := RunOne(s, [], DoClose);
    } else {
      trace := WaitIsRun(s, UNSUBACK, works, FAILURE);
      if Wait(s, UNSUBACK, works).1 != UNSUBACK {
        trace := RunOne(s, trace, DoClose);
      } else if readable {
        trace := RunOne(s, trace, DoSetHandler(f, None));
      }
    }
  }

  /** Every public call is a run of the session's actions. */
  lemma ServeIsRun(s: Session, call: PublicCall) returns (trace: seq<Action>)
    ensures Run(s, trace) == Serve(s, call)
  {
    hide Connect, Publish, Subscribe, Unsubscribe, Yield, Run, Act;
    CloseIsAct(s);
    match call
    case CallConnect(c) => trace := ConnectIsRun(s, c);
    case CallPublish(id, qos, built, how) => trace := PublishIsRun(s, id, qos, built, how);
    case CallSubscribe(f, mh, built, sent, works, granted) => trace := SubscribeIsRun(s, f, mh, built, sent, works, granted);
    case CallUnsubscribe(f, built, sent, works, readable) => trace := UnsubscribeIsRun(s, f, built, sent, works, readable);
    case CallYield(works) => trace := YieldIsRun(s, works);
    case CallDisconnect(built, sent) => trace := OneAction(s, DoClose);
    case CallSetHandler(f, mh) => trace := OneAction(s, DoSetHandler(f, mh));
    case CallSetDefault(mh) => trace := OneAction(s, DoSetDefault(mh));
  }

  lemma OneAction(s: Session, a: Action) returns (trace: seq<Action>)
    ensures Run(s, trace) == Act(s, a)
  {
    RunNothing(s);
    trace := RunOne(s, [], a);
  }

  lemma CloseIsAct(s: Session)
    ensures Act(s, DoClose) == CloseSession(s)
  {
  }

  lemma {:induction false} ServeAllIsRun(s: Session, calls: seq<PublicCall>) returns (trace: seq<Action>)
    ensures Run(s, trace) == ServeAll(s, calls)
    decreases |calls|
  {
    hide Serve, Run;
    trace := [];
    RunNothing(s);
    if calls != [] {
      var first := ServeIsRun(s, calls[0]);
      var more := ServeAllIsRun(Serve(s, calls[0]), calls[1..]);
      RunAppend(s, first, more);
      trace := first + more;
    }
  }

  /**
   However a new client is used, between two deliveries of the same QoS 2 packet id the id
   was released by a PUBREL or the session was reset, and ids are released as their PUBCOMPs go out.
   */
  lemma CallsDeliverAtMostOnce(maxHandlers: nat, maxIds: nat, calls: seq<PublicCall>, i: nat, j: nat, id: nat)
    requires var h := ServeAll(Initial(maxHandlers, maxIds), calls).history;
             i < j < |h| && h[i] == h[j] == Delivered(id)
    ensures var s := ServeAll(Initial(maxHandlers, maxIds), calls);
            && (exists k | i < k < j :: Ends(s.history[k], id))
            && ReleasedIds(s.history) == CompletedIds(s.acks)
  {
    hide Run, ServeAll, Initial;
    var trace := ServeAllIsRun(Initial(maxHandlers, maxIds), calls);
    AtMostOnceDelivery(maxHandlers, maxIds, trace, i, j, id);
    ReleasedAsCompleted(maxHandlers, maxIds, trace);
  }

  /** An accepted connection without a clean session, and a publish whose acknowledgement does not come. */
  function LostPublish(id: nat, qos: nat): seq<PublicCall> {
    var answered := Work(CONNACK, false, 0, 0, [], false, false, Timers(false, false, false, false, false));
    [CallConnect(Connection(false, true, true, [answered], Some(SUCCESS), true, Luck(qos))),
     CallPublish(id, qos, true, Sending(true, [], None))]
  }

  /** These calls leave a new client closed with the message in flight, and then connect succeeds without an answer. */
  lemma LostPublishReaches(maxHandlers: nat, maxIds: nat, id: nat, qos: nat)
    requires id > 0 && (qos == 1 || qos == 2)
    ensures var s := ServeAll(Initial(maxHandlers, maxIds), LostPublish(id, qos));
            && !s.connected && s.inflightMsgid == id && s.inflightQoS == qos
            && Connect(s, Unanswered(s)).1 == SUCCESS && !Accepted(s, Unanswered(s))
  {
    var calls := LostPublish(id, qos);
    var s0 := Initial(maxHandlers, maxIds);
    var s1 := Serve(s0, calls[0]);
    AnsweredConnect(s0, calls[0].connection);
    var s2 := Serve(s1, calls[1]);
    assert calls[1..] == [calls[1]];
    assert ServeAll(s2, calls[1..][1..]) == s2;
    assert ServeAll(s1, calls[1..]) == s2;
    assert ServeAll(s0, calls) == s2;
    UnansweredSucceeds(s2);
  }

  lemma AnsweredConnect(s: Session, c: Connection)
    requires !s.connected && s.inflightMsgid == 0 && c.built && c.sent && c.connack == Some(SUCCESS)
    requires |c.works| == 1 && c.works[0].packetType == CONNACK && !c.works[0].timers.enabled
    ensures Connect(s, c).0 == s.(cleanSession := c.clean, connected := true, pingOutstanding := false)
  {
    hide SendPublish;
    var begun := s.(cleanSession := c.clean);
    assert Cycle(begun, c.works[0]) == (begun, CONNACK);
    assert Wait(begun, CONNACK, c.works) == (begun, CONNACK);
  }
}
