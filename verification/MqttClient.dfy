/**
 MQTT::Client as a class over its arrays. Every method is proved to do to the
 session what the functions of MqttSession say.
 */
module MqttClient {
  import opened Bytes
  import opened MqttTopic
  import opened MqttSession
  import Calls = MqttCalls

  class Client {
    var messageHandlers: array<Slot>
    var defaultMessageHandler: Option<nat>
    var incomingQoS2messages: array<nat>
    var isconnected: bool
    var cleansession: bool
    var pingOutstanding: bool
    var inflightMsgid: nat
    var inflightQoS: nat
    var pubrel: bool
    /** The handler invocations and the acknowledgements so far. */
    var calls: seq<Call>
    var acks: seq<Ack>
    ghost var history: seq<Event>

    /** Filters are C strings. */
    ghost predicate Valid()
      reads this, messageHandlers
    {
      forall i | 0 <= i < messageHandlers.Length :: FilterOk(messageHandlers[i])
    }

    ghost function State(): Session
      reads this, messageHandlers, incomingQoS2messages
    {
      Session(messageHandlers[..], defaultMessageHandler, incomingQoS2messages[..],
              isconnected, cleansession, pingOutstanding, inflightMsgid, inflightQoS, pubrel, calls, acks, history)
    }

    constructor (maxHandlers: nat, maxIds: nat)
      ensures Valid() && fresh(messageHandlers) && fresh(incomingQoS2messages)
      ensures State() == Initial(maxHandlers, maxIds)
    {
      messageHandlers := new Slot[maxHandlers](_ => Slot(None, None));
      incomingQoS2messages := new nat[maxIds](_ => 0);
      defaultMessageHandler, calls, acks, history := None, [], [], [];
      inflightMsgid, inflightQoS, pubrel := 0, 0, false;
      isconnected, pingOutstanding := false, false;
      cleansession := true;
      new;
      ghost var before := State();
      CloseSession();
      assert Cleaned(before.slots) == before.slots && NoIds(|before.ids|) == before.ids;
    }

    // ---- Incoming QoS 2 ids ----

    method IsQoS2msgidFree(id: nat) returns (free: bool)
      ensures free <==> IsFree(incomingQoS2messages[..], id)
    {
      for i := 0 to incomingQoS2messages.Length
        invariant id !in incomingQoS2messages[..i]
      {
        if incomingQoS2messages[i] == id {
          return false;
        }
      }
      assert incomingQoS2messages[..] == incomingQoS2messages[..incomingQoS2messages.Length];
      return true;
    }

    method UseQoS2msgid(id: nat) returns (used: bool)
      modifies incomingQoS2messages
      ensures (incomingQoS2messages[..], used) == UseId(old(incomingQoS2messages[..]), id)
    {
      for i := 0 to incomingQoS2messages.Length
        invariant 0 !in incomingQoS2messages[..i]
        invariant incomingQoS2messages[..] == old(incomingQoS2messages[..])
      {
        if incomingQoS2messages[i] == 0 {
          FirstId(incomingQoS2messages[..], 0, i);
          incomingQoS2messages[i] := id;
          return true;
        }
      }
      NoSuchId(incomingQoS2messages[..], 0);
      return false;
    }

    method FreeQoS2msgid(id: nat)
      modifies incomingQoS2messages
      ensures incomingQoS2messages[..] == FreeId(old(incomingQoS2messages[..]), id)
    {
      for i := 0 to incomingQoS2messages.Length
        invariant id !in incomingQoS2messages[..i]
        invariant incomingQoS2messages[..] == old(incomingQoS2messages[..])
      {
        if incomingQoS2messages[i] == id {
          FirstId(incomingQoS2messages[..], id, i);
          incomingQoS2messages[i] := 0;
          return;
        }
      }
      NoSuchId(incomingQoS2messages[..], id);
    }

    // ---- Closing ----

    method CleanSession()
      modifies messageHandlers, incomingQoS2messages, this`history, this`inflightMsgid, this`inflightQoS, this`pubrel
      ensures old(Valid()) ==> Valid()
      ensures State() == MqttSession.CleanSession(old(State()))
    {
      hide FilterOk;
      for i := 0 to messageHandlers.Length
        invariant messageHandlers[..i] == Cleaned(old(messageHandlers[..]))[..i]
        invariant messageHandlers[i..] == old(messageHandlers[i..])
        invariant incomingQoS2messages[..] == old(incomingQoS2messages[..]) && history == old(history)
        invariant inflightMsgid == old(inflightMsgid) && inflightQoS == old(inflightQoS) && pubrel == old(pubrel)
      {
        messageHandlers[i] := messageHandlers[i].(topicFilter := None);
      }
      assert messageHandlers[..] == Cleaned(old(messageHandlers[..]));
      inflightMsgid := 0;
      inflightQoS := 0;
      pubrel := false;
      for i := 0 to incomingQoS2messages.Length
        invariant incomingQoS2messages[..i] == NoIds(i)
        invariant messageHandlers[..] == Cleaned(old(messageHandlers[..])) && history == old(history)
        invariant inflightMsgid == 0 && inflightQoS == 0 && !pubrel
      {
        incomingQoS2messages[i] := 0;
      }
      assert incomingQoS2messages[..] == NoIds(incomingQoS2messages.Length);
      history := history + [Reset];
      CleanedOk(old(messageHandlers[..]));
    }

    method CloseSession()
      modifies this`pingOutstanding, this`isconnected, this`history, this`inflightMsgid, this`inflightQoS, this`pubrel
      modifies messageHandlers, incomingQoS2messages
      ensures old(Valid()) ==> Valid()
      ensures State() == MqttSession.CloseSession(old(State()))
    {
      pingOutstanding := false;
      isconnected := false;
      if cleansession {
        CleanSession();
      }
    }

    // ---- Handlers ----

    method SetMessageHandler(topicFilter: bytes, messageHandler: Option<nat>) returns (rc: int)
      requires Valid() && NulFree(topicFilter)
      modifies messageHandlers
      ensures Valid()
      ensures (messageHandlers[..], rc == SUCCESS) == SetHandler(old(messageHandlers[..]), topicFilter, messageHandler)
      ensures rc == SUCCESS || rc == FAILURE
    {
      hide FilterOk;
      rc := FAILURE;
      ghost var was := messageHandlers[..];
      var i := 0;
      while i < messageHandlers.Length
        invariant i <= messageHandlers.Length && messageHandlers[..] == was && rc == FAILURE
        invariant forall j | 0 <= j < i :: was[j].topicFilter != Some(topicFilter)
        decreases messageHandlers.Length - i
      {
        if messageHandlers[i].topicFilter == Some(topicFilter) {
          if messageHandler.None? {
            messageHandlers[i] := Slot(None, None);
          }
          rc := SUCCESS;
          break;
        }
        i := i + 1;
      }
      assert i == FindFilter(was, topicFilter);
      if messageHandler.Some? {
        if rc == FAILURE {
          i := 0;
          while i < messageHandlers.Length
            invariant i <= messageHandlers.Length && messageHandlers[..] == was && rc == FAILURE
            invariant forall j | 0 <= j < i :: was[j].topicFilter.Some?
            decreases messageHandlers.Length - i
          {
            if messageHandlers[i].topicFilter.None? {
              rc := SUCCESS;
              break;
            }
            i := i + 1;
          }
          assert i == FindFree(was);
        }
        if i < messageHandlers.Length {
          messageHandlers[i] := Slot(Some(topicFilter), messageHandler);
        }
      }
      SetOk(was, topicFilter, messageHandler);
      assert messageHandlers[..] == SetHandler(was, topicFilter, messageHandler).0;
      forall j | 0 <= j < messageHandlers.Length
        ensures FilterOk(messageHandlers[j])
      {
        assert messageHandlers[j] == SetHandler(was, topicFilter, messageHandler).0[j];
      }
    }

    method SetDefaultMessageHandler(mh: Option<nat>)
      modifies this`defaultMessageHandler
      ensures State() == Act(old(State()), DoSetDefault(mh))
    {
      defaultMessageHandler := mh;
    }

    method DeliverMessage(topicName: bytes) returns (rc: int)
      requires Valid()
      modifies this`calls
      ensures State() == Deliver(old(State()), topicName)
      ensures rc == if Deliveries(messageHandlers[..], defaultMessageHandler, topicName) != [] then SUCCESS else FAILURE
    {
      rc := FAILURE;
      ghost var slots := messageHandlers[..];
      for i := 0 to messageHandlers.Length
        invariant calls == old(calls) + MatchedCalls(slots[..i], topicName)
        invariant rc == if MatchedCalls(slots[..i], topicName) == [] then FAILURE else SUCCESS
      {
        assert slots[..i + 1][..i] == slots[..i];
        var slot := messageHandlers[i];
        if slot.topicFilter.Some? {
          var matched := slot.topicFilter.value == topicName;
          if !matched {
            matched := IsTopicMatched(slot.topicFilter.value, topicName);
          }
          if matched && slot.fp.Some? {
            calls := calls + [Matched(slot.topicFilter.value, slot.fp.value, topicName)];
            rc := SUCCESS;
          }
        }
      }
      assert slots[..|slots|] == slots;
      if rc == FAILURE && defaultMessageHandler.Some? {
        calls := calls + [Default(defaultMessageHandler.value, topicName)];
        rc := SUCCESS;
      }
    }

    // ---- The cycle ----

    method Keepalive(t: Timers) returns (rc: int)
      modifies this`pingOutstanding
      ensures (rc == SUCCESS, pingOutstanding) == MqttSession.Keepalive(old(pingOutstanding), t)
      ensures rc == SUCCESS || rc == FAILURE
    {
      rc := SUCCESS;
      if !t.enabled {
        return;
      }
      if pingOutstanding {
        if t.pingExpired {
          rc := FAILURE;
        }
      } else if t.idle {
        if t.pingBuilt {
          rc := if t.pingSent then SUCCESS else FAILURE;
          if rc == SUCCESS {
            pingOutstanding := true;
          }
        }
      }
    }

    method Receive(w: Work)
      requires Valid()
      modifies this`calls, this`history, incomingQoS2messages
      ensures Valid()
      ensures State() == MqttSession.Receive(old(State()), w)
    {
      if w.qos != 2 {
        var _ := DeliverMessage(w.topic);
      } else {
        var free := IsQoS2msgidFree(w.id);
        if free {
          var used := UseQoS2msgid(w.id);
          if used {
            history := history + [Delivered(w.id)];
            var _ := DeliverMessage(w.topic);
          }
        }
      }
    }

    /** The PUBLISH case of the switch in cycle, for a publish that can be read. */
    method OnPublish(w: Work) returns (rc: int)
      requires Valid() && w.packetType == PUBLISH && w.deserialized
      modifies this`calls, this`history, this`acks, incomingQoS2messages
      ensures Valid() && State() == Switch(old(State()), w).session
      ensures rc == if Switch(old(State()), w).Break? then SUCCESS else FAILURE
    {
      hide MqttSession.Receive, FilterOk;
      rc := SUCCESS;
      Receive(w);
      if w.qos != 0 {
        var len := if (w.qos == 1 || w.qos == 2) && w.ackBuilt then 4 else 0;
        rc := if len <= 0 then FAILURE else if w.ackSent then SUCCESS else FAILURE;
        if rc != FAILURE {
          acks := acks + [Ack(if w.qos == 1 then PUBACK else PUBREC, w.id)];
        }
      }
    }

    /** The PUBREC and PUBREL cases. */
    method OnAck(w: Work) returns (rc: int)
      requires Valid() && w.packetType in {PUBREC, PUBREL}
      modifies this`history, this`acks, incomingQoS2messages
      ensures Valid() && State() == Switch(old(State()), w).session
      ensures rc == if Switch(old(State()), w).Break? then SUCCESS else FAILURE
    {
      hide FreeId, FilterOk;
      rc := if w.deserialized && w.ackBuilt && w.ackSent then SUCCESS else FAILURE;
      if rc == FAILURE {
        return;
      }
      acks := acks + [Ack(if w.packetType == PUBREC then PUBREL else PUBCOMP, w.id)];
      if w.packetType == PUBREL {
        FreeQoS2msgid(w.id);
        history := history + [Released(w.id)];
      }
    }

    method Cycle(w: Work) returns (rc: int)
      requires Valid()
      modifies this, messageHandlers, incomingQoS2messages
      ensures messageHandlers == old(messageHandlers) && incomingQoS2messages == old(incomingQoS2messages)
      ensures Valid()
      ensures (State(), rc) == MqttSession.Cycle(old(State()), w)
    {
      hide MqttSession.CloseSession, MqttSession.Receive, FreeId, FilterOk;
      var leave := false;
      rc := SUCCESS;
      if w.packetType == 0 || w.packetType == CONNACK || w.packetType == PUBACK || w.packetType == SUBACK {
      } else if w.packetType == PUBLISH {
        if !w.deserialized {
          leave := true;
        } else {
          rc := OnPublish(w);
          leave := rc == FAILURE;
        }
      } else if w.packetType == PUBREC || w.packetType == PUBREL {
        rc := OnAck(w);
        leave := rc == FAILURE;
      } else if w.packetType == PUBCOMP {
      } else if w.packetType == PINGRESP {
        pingOutstanding := false;
      } else {
        rc := w.packetType;
        leave := true;
      }
      if !leave {
        var alive := Keepalive(w.timers);
        if alive != SUCCESS {
          rc := FAILURE;
        }
      }
      if rc == SUCCESS {
        rc := w.packetType;
      } else if isconnected {
        CloseSession();
      }
    }

    // ---- The public calls ----
    //
    // works is what the cycles of a call meet; the timer of the call expires when they are used up.

    method Waitfor(packetType: int, works: seq<Work>) returns (rc: int)
      requires Valid()
      modifies this, messageHandlers, incomingQoS2messages
      ensures messageHandlers == old(messageHandlers) && incomingQoS2messages == old(incomingQoS2messages)
      ensures Valid() && (State(), rc) == Calls.Wait(old(State()), packetType, works)
    {
      hide MqttSession.Cycle, Invariant;
      rc := FAILURE;
      var k := 0;
      assert works[0..] == works;
      while k < |works|
        invariant k <= |works| && Valid()
        invariant messageHandlers == old(messageHandlers) && incomingQoS2messages == old(incomingQoS2messages)
        invariant Calls.WaitFrom(State(), packetType, works[k..], rc) == Calls.Wait(old(State()), packetType, works)
      {
        assert works[k..][0] == works[k] && works[k..][1..] == works[k + 1..];
        rc := Cycle(works[k]);
        k := k + 1;
        if rc == packetType || rc < 0 {
          return;
        }
      }
    }

    method Yield(works: seq<Work>) returns (rc: int)
      requires Valid()
      modifies this, messageHandlers, incomingQoS2messages
      ensures messageHandlers == old(messageHandlers) && incomingQoS2messages == old(incomingQoS2messages)
      ensures Valid() && (State(), rc) == Calls.Yield(old(State()), works)
    {
      hide MqttSession.Cycle;
      rc := SUCCESS;
      assert works[0..] == works;
      for k := 0 to |works|
        invariant Valid() && rc == SUCCESS
        invariant messageHandlers == old(messageHandlers) && incomingQoS2messages == old(incomingQoS2messages)
        invariant Calls.Yield(State(), works[k..]) == Calls.Yield(old(State()), works)
      {
        assert works[k..][0] == works[k] && works[k..][1..] == works[k + 1..];
        var code := Cycle(works[k]);
        if code < 0 {
          return FAILURE;
        }
      }
    }

    /** The private publish: sends the packet and waits for its acknowledgement. */
    method SendPublish(qos: nat, how: Calls.Sending) returns (rc: int)
      requires Valid()
      modifies this, messageHandlers, incomingQoS2messages
      ensures messageHandlers == old(messageHandlers) && incomingQoS2messages == old(incomingQoS2messages)
      ensures Valid() && (State(), rc) == Calls.SendPublish(old(State()), qos, how)
    {
      hide Calls.Wait, MqttSession.CloseSession;
      rc := if how.sent then SUCCESS else FAILURE;
      if how.sent {
        if qos == 1 || qos == 2 {
          var expected := if qos == 1 then PUBACK else PUBCOMP;
          var code := Waitfor(expected, how.works);
          rc := FAILURE;
          if code == expected && how.ack.Some? {
            rc := SUCCESS;
            if inflightMsgid == how.ack.value {
              inflightMsgid := 0;
            }
          }
        }
      }
      if rc != SUCCESS {
        CloseSession();
      }
    }

    method Publish(id: nat, qos: nat, built: bool, how: Calls.Sending) returns (rc: int)
      requires Valid()
      modifies this, messageHandlers, incomingQoS2messages
      ensures messageHandlers == old(messageHandlers) && incomingQoS2messages == old(incomingQoS2messages)
      ensures Valid() && (State(), rc) == Calls.Publish(old(State()), id, qos, built, how)
    {
      hide Calls.SendPublish;
      if !isconnected || !built {
        return FAILURE;
      }
      if !cleansession {
        inflightMsgid := id;
        inflightQoS := qos;
        pubrel := false;
      }
      rc := SendPublish(qos, how);
    }

    method Connect(c: Calls.Connection) returns (rc: int)
      requires Valid()
      modifies this, messageHandlers, incomingQoS2messages
      ensures messageHandlers == old(messageHandlers) && incomingQoS2messages == old(incomingQoS2messages)
      ensures Valid() && (State(), rc) == Calls.Connect(old(State()), c)
    {
      hide Calls.Wait, Calls.SendPublish;
      if isconnected {
        return FAILURE;
      }
      cleansession := c.clean;
      if !c.built || !c.sent {
        return FAILURE;
      }
      var code := Waitfor(CONNACK, c.works);
      rc := if code == CONNACK && c.connack.Some? then c.connack.value else FAILURE;
      if inflightMsgid > 0 {
        if inflightQoS == 2 && pubrel && !c.pubrelBuilt {
          rc := FAILURE;
        } else {
          rc := SendPublish(inflightQoS, c.again);
        }
      }
      if rc == SUCCESS {
        isconnected := true;
        pingOutstanding := false;
      }
    }

    method Subscribe(topicFilter: bytes, messageHandler: Option<nat>, built: bool, sent: bool, works: seq<Work>, granted: Option<nat>)
      returns (rc: int)
      requires Valid() && NulFree(topicFilter)
      modifies this, messageHandlers, incomingQoS2messages
      ensures messageHandlers == old(messageHandlers) && incomingQoS2messages == old(incomingQoS2messages)
      ensures Valid() && (State(), rc) == Calls.Subscribe(old(State()), topicFilter, messageHandler, built, sent, works, granted)
    {
      hide Calls.Wait, MqttSession.CloseSession, SetHandler, FilterOk;
      rc := FAILURE;
      if isconnected && built && sent {
        rc := Waitfor(SUBACK, works);
        if rc == SUBACK {
          rc := SUCCESS;
          if granted.Some? {
            if granted.value != 0x80 {
              rc := SetMessageHandler(topicFilter, messageHandler);
            }
          }
        } else {
          rc := FAILURE;
        }
      }
      if rc == FAILURE {
        CloseSession();
      }
    }

    method Unsubscribe(topicFilter: bytes, built: bool, sent: bool, works: seq<Work>, readable: bool) returns (rc: int)
      requires Valid() && NulFree(topicFilter)
      modifies this, messageHandlers, incomingQoS2messages
      ensures messageHandlers == old(messageHandlers) && incomingQoS2messages == old(incomingQoS2messages)
      ensures Valid() && (State(), rc) == Calls.Unsubscribe(old(State()), topicFilter, built, sent, works, readable)
    {
      hide Calls.Wait, MqttSession.CloseSession, SetHandler, FilterOk;
      rc := FAILURE;
      if isconnected && built && sent {
        rc := Waitfor(UNSUBACK, works);
        if rc == UNSUBACK {
          rc := SUCCESS;
          if readable {
            var _ := SetMessageHandler(topicFilter, None);
          }
        } else {
          rc := FAILURE;
        }
      }
      if rc != SUCCESS {
        CloseSession();
      }
    }

    method Disconnect(built: bool, sent: bool) returns (rc: int)
      requires Valid()
      modifies this, messageHandlers, incomingQoS2messages
      ensures messageHandlers == old(messageHandlers) && incomingQoS2messages == old(incomingQoS2messages)
      ensures Valid() && (State(), rc) == Calls.Disconnect(old(State()), built, sent)
    {
      rc := FAILURE;
      if built {
        rc := if sent then SUCCESS else FAILURE;
      }
      CloseSession();
    }
  }

  predicate FilterOk(slot: Slot) {
    slot.topicFilter.Some? ==> NulFree(slot.topicFilter.value)
  }

  lemma CleanedOk(slots: seq<Slot>)
    ensures forall i | 0 <= i < |slots| :: FilterOk(Cleaned(slots)[i])
  {
  }

  lemma SetOk(slots: seq<Slot>, f: bytes, mh: Option<nat>)
    requires NulFree(f) && forall i | 0 <= i < |slots| :: FilterOk(slots[i])
    ensures forall i | 0 <= i < |slots| :: FilterOk(SetHandler(slots, f, mh).0[i])
  {
  }

  lemma FirstId(ids: seq<nat>, id: nat, i: nat)
    requires i < |ids| && ids[i] == id && id !in ids[..i]
    ensures FindId(ids, id) == i
  {
    assert forall j | 0 <= j < i :: ids[j] == ids[..i][j] && ids[j] != id;
  }

  lemma NoSuchId(ids: seq<nat>, id: nat)
    requires id !in ids[..|ids|]
    ensures FindId(ids, id) == |ids|
  {
    assert ids[..|ids|] == ids;
  }
}
