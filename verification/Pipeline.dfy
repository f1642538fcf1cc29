/**
 The measurement pipeline: the sensor thread, the behaviour coordinator and the
 communications thread as interleaved atomic steps over two mailboxes.
 */
module Pipeline {
  import opened Bytes

  /** Blocks in the memory pool of a mailbox, and places in its queue. */
  const CAPACITY := 256

  const SENSOR_SLEEP_MS := 1000

  /** One mail of the low-level mailbox. */
  datatype Mail = Mail(sensorType: bytes, value: bytes, time: int)

  type Entities = map<bytes, (bytes, int)>

  // "header", "start" and "end"
  const HEADER: bytes := [104, 101, 97, 100, 101, 114]
  const START: bytes := [115, 116, 97, 114, 116]
  const END: bytes := [101, 110, 100]

  /** The three mails of a frame. */
  datatype Stage = Begin | Middle(datum: Datum) | Finish

  datatype SensorAt = LoopTop | Alloc(stage: Stage) | Put(stage: Stage) | LoopEnd

  datatype CoordinatorAt = Taking | Handling(mail: Mail) | Sending | Putting

  datatype CommsAt = Waiting | Publishing(payload: Entities) | Freeing

  datatype Device = Device(
    // the sensor thread
    sensor: SensorAt,
    interval: int,
    pollCount: int,
    pollCounter: int,
    reading: Option<Mail>,
    // the mailbox between sensor and coordinator
    llp: seq<Mail>,
    // the coordinator; a packet is a function of the entity list it is built from
    coordinator: CoordinatorAt,
    entities: Entities,
    sendPackets: bool,
    // the mailbox between coordinator and communications
    upstream: seq<Entities>,
    // the communications thread
    comms: CommsAt,
    // history: passes of the sensor loop, every mail put, the readings of the finished frames,
    // every payload handed to Publish
    passes: nat,
    sent: seq<Mail>,
    frames: seq<Option<Mail>>,
    published: seq<Entities>)

  /** Which thread moves, and what the clock, the sensor and the control mailbox give it. */
  datatype Move = SensorMoves(time: int, data: Option<Datum>, control: Option<int>) | CoordinatorMoves | CommsMoves

  datatype Datum = Datum(name: bytes, value: bytes)

  function Initial(interval: int): Device {
    Device(LoopTop, interval, TruncatedDiv(interval, SENSOR_SLEEP_MS), 0, None, [], Taking, map[], false, [], Waiting, 0, [], [], [])
  }

  /** Integer division of the source language. */
  function TruncatedDiv(a: int, b: int): int
    requires b > 0
  {
    if a >= 0 then a / b else -(-a / b)
  }

  // ---- Mailboxes ----

  /** Blocks of the low-level pool in use: queued, being filled, or being handled. */
  function LlpInUse(d: Device): nat {
    |d.llp| + (if d.sensor.Put? then 1 else 0) + if d.coordinator.Handling? then 1 else 0
  }

  function UpstreamInUse(d: Device): nat {
    |d.upstream| + (if d.coordinator.Putting? then 1 else 0) + if d.comms.Waiting? then 0 else 1
  }

  /** Mail::put, whose result no caller looks at: a full queue would drop the mail. */
  function PutMail<T>(queue: seq<T>, mail: T): seq<T> {
    if |queue| < CAPACITY then queue + [mail] else queue
  }

  // ---- The threads ----

  function SensorStep(d: Device, time: int, data: Option<Datum>, control: Option<int>): Device {
    match d.sensor
    case LoopTop =>
      d.(pollCount := TruncatedDiv(d.interval, SENSOR_SLEEP_MS), sensor := if d.pollCounter == 0 then Alloc(Begin) else LoopEnd)
    case Alloc(stage) => if LlpInUse(d) < CAPACITY then d.(sensor := Put(stage)) else d
    case Put(Begin) =>
      var mail := Mail(HEADER, START, time);
      d.(llp := PutMail(d.llp, mail), sent := d.sent + [mail], reading := None,
         sensor := Alloc(if data.Some? then Middle(data.value) else Finish))
    case Put(Middle(datum)) =>
      var mail := Mail(datum.name, datum.value, time);
      d.(llp := PutMail(d.llp, mail), sent := d.sent + [mail], reading := Some(mail), sensor := Alloc(Finish))
    case Put(Finish) =>
      var mail := Mail(HEADER, END, time);
      d.(llp := PutMail(d.llp, mail), sent := d.sent + [mail], frames := d.frames + [d.reading], sensor := LoopEnd)
    case LoopEnd =>
      d.(pollCounter := if d.pollCounter + 1 >= d.pollCount then 0 else d.pollCounter + 1,
         interval := if control.Some? && control.value >= 10 then control.value * 1000 else d.interval,
         passes := d.passes + 1,
         sensor := LoopTop)
  }

  /** What a mail does to the entity list, and whether it makes a packet due. */
  function Handle(entities: Entities, mail: Mail): (Entities, bool) {
    if mail.sensorType == HEADER then
      if mail.value == START then (map[], false) else (entities, true)
    else (entities[mail.sensorType := (mail.value, mail.time)], false)
  }

  function CoordinatorStep(d: Device): Device {
    match d.coordinator
    case Taking =>
      if d.llp == [] then d.(coordinator := if d.sendPackets then Sending else Taking)
      else d.(llp := d.llp[1..], coordinator := Handling(d.llp[0]))
    case Handling(mail) =>
      var (entities, due) := Handle(d.entities, mail);
      var send := d.sendPackets || due;
      d.(entities := entities, sendPackets := send, coordinator := if send then Sending else Taking)
    case Sending => if UpstreamInUse(d) < CAPACITY then d.(coordinator := Putting) else d
    case Putting => d.(upstream := PutMail(d.upstream, d.entities), sendPackets := false, coordinator := Taking)
  }

  function CommsStep(d: Device): Device {
    match d.comms
    case Waiting => if d.upstream == [] then d else d.(upstream := d.upstream[1..], comms := Publishing(d.upstream[0]))
    case Publishing(payload) => d.(published := d.published + [payload], comms := Freeing)
    case Freeing => d.(comms := Waiting)
  }

  function Step(d: Device, m: Move): Device {
    match m
    case SensorMoves(time, data, control) => SensorStep(d, time, data, control)
    case CoordinatorMoves => CoordinatorStep(d)
    case CommsMoves => CommsStep(d)
  }

  function Run(d: Device, moves: seq<Move>): Device
    decreases |moves|
  {
    if moves == [] then d else Run(Step(d, moves[0]), moves[1..])
  }

  /** The entity names of the sensor drivers are not the one that marks frames. */
  predicate ProperMove(m: Move) {
    m.SensorMoves? && m.data.Some? ==> m.data.value.name != HEADER
  }

  predicate ProperMoves(moves: seq<Move>) {
    forall i | 0 <= i < |moves| :: ProperMove(moves[i])
  }

  // ---- What the mails ask for ----

  /** The entity list after these mails. */
  function After(e: Entities, mails: seq<Mail>): Entities
    decreases |mails|
  {
    if mails == [] then e else After(Handle(e, mails[0]).0, mails[1..])
  }

  /** The packets these mails make due, in order. */
  function Due(e: Entities, mails: seq<Mail>): seq<Entities>
    decreases |mails|
  {
    if mails == [] then []
    else
      var (next, due) := Handle(e, mails[0]);
      (if due then [next] else []) + Due(next, mails[1..])
  }

  lemma {:induction false} DueAppend(e: Entities, a: seq<Mail>, b: seq<Mail>)
    ensures After(e, a + b) == After(After(e, a), b)
    ensures Due(e, a + b) == Due(e, a) + Due(After(e, a), b)
    decreases |a|
  {
    if a == [] {
      assert a + b == b;
    } else {
      assert (a + b)[1..] == a[1..] + b;
      DueAppend(Handle(e, a[0]).0, a[1..], b);
    }
  }

  lemma DueOne(e: Entities, a: seq<Mail>, m: Mail)
    ensures After(e, a + [m]) == Handle(After(e, a), m).0
    ensures Due(e, a + [m]) == Due(e, a) + if Handle(After(e, a), m).1 then [Handle(After(e, a), m).0] else []
  {
    DueAppend(e, a, [m]);
    var (next, due) := Handle(After(e, a), m);
    assert After(next, []) == next && Due(next, []) == [];
    assert [m][1..] == [];
  }

  // ---- What the frames should give ----

  /** The entity list of a frame: exactly the reading between its start and its end. */
  function FrameEntities(reading: Option<Mail>): Entities {
    if reading.Some? then map[reading.value.sensorType := (reading.value.value, reading.value.time)] else map[]
  }

  function Packets(frames: seq<Option<Mail>>): (r: seq<Entities>)
    ensures |r| == |frames|
  {
    seq(|frames|, i requires 0 <= i < |frames| => FrameEntities(frames[i]))
  }

  // ---- The invariant ----

  /** Mails the coordinator has not yet dealt with. */
  function Backlog(d: Device): seq<Mail> {
    (if d.coordinator.Handling? then [d.coordinator.mail] else []) + d.llp
  }

  /** Packets that have left the coordinator, or are about to. */
  function Produced(d: Device): seq<Entities> {
    d.published + (if d.comms.Publishing? then [d.comms.payload] else []) + d.upstream + if d.sendPackets then [d.entities] else []
  }

  /** Every mail has been, or is still to be, taken into account once. */
  predicate Accounted(entities: Entities, backlog: seq<Mail>, produced: seq<Entities>, sent: seq<Mail>) {
    && After(entities, backlog) == After(map[], sent)
    && produced + Due(entities, backlog) == Due(map[], sent)
  }

  /** The mails put so far are those of the finished frames, and of the frame being sent. */
  predicate Framed(sent: seq<Mail>, frames: seq<Option<Mail>>, reading: Option<Mail>, at: SensorAt) {
    && Due(map[], sent) == Packets(frames)
    && (at.Alloc? || at.Put? ==>
          && (at.stage.Middle? ==> at.stage.datum.name != HEADER && After(map[], sent) == map[])
          && (at.stage.Finish? ==> After(map[], sent) == FrameEntities(reading)))
  }

  predicate Invariant(d: Device) {
    && LlpInUse(d) <= CAPACITY && UpstreamInUse(d) <= CAPACITY
    && (d.sendPackets <==> d.coordinator.Sending? || d.coordinator.Putting?)
    && Accounted(d.entities, Backlog(d), Produced(d), d.sent)
    && Framed(d.sent, d.frames, d.reading, d.sensor)
  }

  lemma PutAccounted(entities: Entities, backlog: seq<Mail>, produced: seq<Entities>, sent: seq<Mail>, mail: Mail)
    requires Accounted(entities, backlog, produced, sent)
    ensures Accounted(entities, backlog + [mail], produced, sent + [mail])
  {
    DueOne(map[], sent, mail);
    DueOne(entities, backlog, mail);
  }

  lemma BeginFramed(sent: seq<Mail>, frames: seq<Option<Mail>>, reading: Option<Mail>, time: int, data: Option<Datum>)
    requires Framed(sent, frames, reading, Put(Begin)) && (data.Some? ==> data.value.name != HEADER)
    ensures Framed(sent + [Mail(HEADER, START, time)], frames, None, Alloc(if data.Some? then Middle(data.value) else Finish))
  {
    DueOne(map[], sent, Mail(HEADER, START, time));
  }

  lemma MiddleFramed(sent: seq<Mail>, frames: seq<Option<Mail>>, reading: Option<Mail>, datum: Datum, mail: Mail)
    requires Framed(sent, frames, reading, Put(Middle(datum))) && mail.sensorType == datum.name
    ensures Framed(sent + [mail], frames, Some(mail), Alloc(Finish))
  {
    DueOne(map[], sent, mail);
  }

  lemma FinishFramed(sent: seq<Mail>, frames: seq<Option<Mail>>, reading: Option<Mail>, time: int)
    requires Framed(sent, frames, reading, Put(Finish))
    ensures Framed(sent + [Mail(HEADER, END, time)], frames + [reading], reading, LoopEnd)
  {
    DueOne(map[], sent, Mail(HEADER, END, time));
    assert END != START;
    assert Packets(frames + [reading]) == Packets(frames) + [FrameEntities(reading)];
  }

  lemma SensorPutKeeps(d: Device, time: int, data: Option<Datum>, control: Option<int>)
    requires Invariant(d) && d.sensor.Put? && ProperMove(SensorMoves(time, data, control))
    ensures Invariant(SensorStep(d, time, data, control))
  {
    hide Accounted, TruncatedDiv, Framed;
    var d' := SensorStep(d, time, data, control);
    var mail := d'.sent[|d.sent|];
    assert Backlog(d') == Backlog(d) + [mail];
    assert Produced(d') == Produced(d);
    PutAccounted(d.entities, Backlog(d), Produced(d), d.sent, mail);
    if d.sensor.stage == Begin {
      BeginFramed(d.sent, d.frames, d.reading, time, data);
    } else if d.sensor.stage == Finish {
      FinishFramed(d.sent, d.frames, d.reading, time);
    } else {
      MiddleFramed(d.sent, d.frames, d.reading, d.sensor.stage.datum, mail);
    }
  }

  lemma SensorKeeps(d: Device, time: int, data: Option<Datum>, control: Option<int>)
    requires Invariant(d) && ProperMove(SensorMoves(time, data, control))
    ensures Invariant(SensorStep(d, time, data, control))
  {
    hide Accounted, TruncatedDiv;
    if d.sensor.Put? {
      SensorPutKeeps(d, time, data, control);
    } else {
      var d' := SensorStep(d, time, data, control);
      assert Produced(d') == Produced(d) && Backlog(d') == Backlog(d);
    }
  }

  lemma HandleAccounted(entities: Entities, mail: Mail, rest: seq<Mail>, produced: seq<Entities>, sent: seq<Mail>)
    requires Accounted(entities, [mail] + rest, produced, sent)
    ensures var (next, due) := Handle(entities, mail);
            Accounted(next, rest, produced + if due then [next] else [], sent)
  {
    hide Handle;
    assert ([mail] + rest)[1..] == rest;
  }

  lemma CoordinatorKeeps(d: Device)
    requires Invariant(d)
    ensures Invariant(CoordinatorStep(d))
  {
    hide Accounted, Framed, Handle;
    var d' := CoordinatorStep(d);
    if d.coordinator.Handling? {
      HandleAccounted(d.entities, d.coordinator.mail, d.llp, Produced(d), d.sent);
      assert Backlog(d') == d.llp;
      assert Produced(d') == Produced(d) + if Handle(d.entities, d.coordinator.mail).1 then [d'.entities] else [];
    } else {
      assert Backlog(d') == Backlog(d);
      assert Produced(d') == Produced(d);
    }
  }

  lemma CommsKeeps(d: Device)
    requires Invariant(d)
    ensures Invariant(CommsStep(d))
  {
    hide Accounted, Framed;
    assert Produced(CommsStep(d)) == Produced(d);
  }

  lemma StepKeeps(d: Device, m: Move)
    requires Invariant(d) && ProperMove(m)
    ensures Invariant(Step(d, m))
  {
    hide Invariant, SensorStep, CoordinatorStep, CommsStep;
    match m
    case SensorMoves(time, data, control) => SensorKeeps(d, time, data, control);
    case CoordinatorMoves => CoordinatorKeeps(d);
    case CommsMoves => CommsKeeps(d);
  }

  lemma {:induction false} RunKeeps(d: Device, moves: seq<Move>)
    requires Invariant(d) && ProperMoves(moves)
    ensures Invariant(Run(d, moves))
    decreases |moves|
  {
    hide Invariant, Step;
    if moves != [] {
      StepKeeps(d, moves[0]);
      RunKeeps(Step(d, moves[0]), moves[1..]);
    }
  }

  // ---- What the sensor gave ----

  /** The moves that put a mail into the low-level mailbox. */
  function Puts(d: Device, moves: seq<Move>): seq<Move>
    decreases |moves|
  {
    if moves == [] then []
    else
      var next := Step(d, moves[0]);
      (if |next.sent| > |d.sent| then [moves[0]] else []) + Puts(next, moves[1..])
  }

  predicate AllSensor(puts: seq<Move>) {
    forall i | 0 <= i < |puts| :: puts[i].SensorMoves?
  }

  /** The moves of the first frame: its start, its reading if the sensor gave one with the start, and its end. */
  function FrameSize(puts: seq<Move>): nat
    requires puts != [] && AllSensor(puts)
  {
    if puts[0].data.Some? then 3 else 2
  }

  /** What each whole frame carries: the datum that came with its start, at the time at which that was put. */
  function Readings(puts: seq<Move>): seq<Option<Mail>>
    requires AllSensor(puts)
    decreases |puts|
  {
    if puts == [] || |puts| < FrameSize(puts) then []
    else if puts[0].data.Some? then
      [Some(Mail(puts[0].data.value.name, puts[0].data.value.value, puts[1].time))] + Readings(puts[3..])
    else [None] + Readings(puts[2..])
  }

  /** The mails of the first frame, as far as it has been put: `header` and `start`, the datum, `header` and `end`. */
  function FrameMails(puts: seq<Move>): seq<Mail>
    requires puts != [] && AllSensor(puts)
  {
    var n := FrameSize(puts);
    [Mail([104, 101, 97, 100, 101, 114], [115, 116, 97, 114, 116], puts[0].time)]
    + (if n == 3 && |puts| >= 2 then [Mail(puts[0].data.value.name, puts[0].data.value.value, puts[1].time)] else [])
    + (if |puts| >= n then [Mail([104, 101, 97, 100, 101, 114], [101, 110, 100], puts[n - 1].time)] else [])
  }

  /** The mails those moves put, each with the time of its move. */
  function Mails(puts: seq<Move>): seq<Mail>
    requires AllSensor(puts)
    decreases |puts|
  {
    if puts == [] then []
    else FrameMails(puts) + if |puts| > FrameSize(puts) then Mails(puts[FrameSize(puts)..]) else []
  }

  /** Whole frames only. */
  predicate Whole(puts: seq<Move>)
    requires AllSensor(puts)
    decreases |puts|
  {
    puts != [] ==> |puts| >= FrameSize(puts) && Whole(puts[FrameSize(puts)..])
  }

  lemma FirstFrame(done: seq<Move>, part: seq<Move>)
    requires AllSensor(done) && AllSensor(part) && done != [] && |done| >= FrameSize(done)
    ensures var all, n := done + part, FrameSize(done);
            && AllSensor(all) && FrameSize(all) == n && all[n..] == done[n..] + part
            && FrameMails(all) == FrameMails(done)
            && all[0] == done[0] && all[1] == done[1]
  {
  }

  lemma {:induction false} ReadingsThen(done: seq<Move>, part: seq<Move>)
    requires AllSensor(done) && AllSensor(part) && Whole(done)
    ensures Readings(done + part) == Readings(done) + Readings(part)
    ensures Whole(part) ==> Whole(done + part)
    decreases |done|
  {
    hide FrameMails, FrameSize, Mails, Readings;
    if done == [] {
      assert done + part == part;
      FewReadings(done);
    } else {
      var all, n := done + part, FrameSize(done);
      SizeBound(done);
      FirstFrame(done, part);
      ReadingsThen(done[n..], part);
      FrameReading(all);
      FrameReading(done);
    }
  }

  lemma FewReadings(puts: seq<Move>)
    requires AllSensor(puts)
    ensures |puts| == 0 ==> Readings(puts) == []
  {
  }

  lemma {:induction false} MailsThen(done: seq<Move>, part: seq<Move>)
    requires AllSensor(done) && AllSensor(part) && Whole(done)
    ensures Mails(done + part) == Mails(done) + Mails(part)
    decreases |done|
  {
    hide FrameMails, FrameSize, Readings;
    if done == [] {
      assert done + part == part;
    } else {
      var all, n := done + part, FrameSize(done);
      SizeBound(done);
      FirstFrame(done, part);
      MailsThen(done[n..], part);
      NoMails(all[n..]);
      NoMails(done[n..]);
    }
  }

  lemma WholeThen(done: seq<Move>, part: seq<Move>)
    requires AllSensor(done) && AllSensor(part) && Whole(done)
    ensures Readings(done + part) == Readings(done) + Readings(part)
    ensures Mails(done + part) == Mails(done) + Mails(part)
    ensures Whole(part) ==> Whole(done + part)
  {
    hide Readings, Mails, Whole;
    ReadingsThen(done, part);
    MailsThen(done, part);
  }

  lemma SizeBound(puts: seq<Move>)
    requires puts != [] && AllSensor(puts)
    ensures FrameSize(puts) == if puts[0].data.Some? then 3 else 2
  {
  }

  lemma FrameReading(puts: seq<Move>)
    requires puts != [] && AllSensor(puts) && |puts| >= FrameSize(puts)
    ensures Readings(puts)
         == [if puts[0].data.Some? then Some(Mail(puts[0].data.value.name, puts[0].data.value.value, puts[1].time)) else None]
            + Readings(puts[FrameSize(puts)..])
  {
  }

  lemma NoMails(puts: seq<Move>)
    requires AllSensor(puts)
    ensures |puts| == 0 ==> Mails(puts) == []
  {
  }

  /** The frame being put agrees with the place the sensor thread has reached. */
  predicate Partly(part: seq<Move>, at: SensorAt, reading: Option<Mail>)
    requires AllSensor(part)
  {
    if (at.Alloc? || at.Put?) && at.stage.Middle? then |part| == 1 && part[0].data == Some(at.stage.datum)
    else if (at.Alloc? || at.Put?) && at.stage.Finish? then
      if reading.None? then |part| == 1 && part[0].data.None?
      else
        && |part| == 2 && part[0].data.Some?
        && reading.value == Mail(part[0].data.value.name, part[0].data.value.value, part[1].time)
    else part == []
  }

  predicate Traced(d: Device, done: seq<Move>, part: seq<Move>) {
    && AllSensor(done) && AllSensor(part) && Whole(done)
    && Readings(done) == d.frames && Mails(done) + Mails(part) == d.sent
    && Partly(part, d.sensor, d.reading)
  }

  function PutBy(stage: Stage, time: int): Mail {
    match stage
    case Begin => Mail(HEADER, START, time)
    case Middle(datum) => Mail(datum.name, datum.value, time)
    case Finish => Mail(HEADER, END, time)
  }

  /** A step that puts no mail leaves the frame as it is. */
  lemma QuietStep(d: Device, m: Move, part: seq<Move>)
    requires |Step(d, m).sent| <= |d.sent| && AllSensor(part) && Partly(part, d.sensor, d.reading)
    ensures var next := Step(d, m);
            next.sent == d.sent && next.frames == d.frames && Partly(part, next.sensor, next.reading)
  {
    hide TruncatedDiv, PutMail, Handle, LlpInUse, UpstreamInUse;
  }

  lemma PuttingStep(d: Device, m: Move)
    requires |Step(d, m).sent| > |d.sent|
    ensures m.SensorMoves? && d.sensor.Put?
    ensures var next, mail := Step(d, m), PutBy(d.sensor.stage, m.time);
            && next.sent == d.sent + [mail]
            && next.frames == (if d.sensor.stage.Finish? then d.frames + [d.reading] else d.frames)
            && next.sensor == (match d.sensor.stage
                               case Begin => Alloc(if m.data.Some? then Middle(m.data.value) else Finish)
                               case Middle(_) => Alloc(Finish)
                               case Finish => LoopEnd)
            && next.reading == (match d.sensor.stage case Begin => None case Middle(_) => Some(mail) case Finish => d.reading)
  {
    hide TruncatedDiv, PutMail, Handle, LlpInUse, UpstreamInUse;
  }

  lemma StepTraced(d: Device, m: Move, done: seq<Move>, part: seq<Move>) returns (done': seq<Move>, part': seq<Move>)
    requires Traced(d, done, part)
    ensures done' + part' == done + part + (if |Step(d, m).sent| > |d.sent| then [m] else [])
    ensures Traced(Step(d, m), done', part')
  {
    hide Whole, Readings, Mails, Step;
    if |Step(d, m).sent| > |d.sent| {
      PuttingStep(d, m);
      var more := part + [m];
      PartMails(part, m, d.sensor, d.reading);
      assert Mails(done) + Mails(part) + [PutBy(d.sensor.stage, m.time)] == Mails(done) + Mails(more);
      if d.sensor.stage == Finish {
        WholeThen(done, more);
        done', part' := done + more, [];
        NoMails([]);
        assert done' + part' == done + part + [m];
        assert Mails(done') + [] == Mails(done');
      } else {
        done', part' := done, more;
        assert done' + part' == done + part + [m];
      }
    } else {
      QuietStep(d, m, part);
      done', part' := done, part;
      assert done + part + [] == done + part;
    }
  }

  /** What one more put adds to the frame. */
  lemma PartMails(part: seq<Move>, m: Move, at: SensorAt, reading: Option<Mail>)
    requires AllSensor(part) && m.SensorMoves? && at.Put? && Partly(part, at, reading)
    ensures Mails(part + [m]) == Mails(part) + [PutBy(at.stage, m.time)]
    ensures at.stage.Finish? ==> Whole(part + [m]) && Readings(part + [m]) == [reading]
  {
    var all := part + [m];
    if at.stage.Finish? {
      assert all[|all|..] == [] && Readings([]) == [] && Whole([]);
    }
  }

  lemma {:induction false} RunTraced(d: Device, moves: seq<Move>, done: seq<Move>, part: seq<Move>)
    returns (done': seq<Move>, part': seq<Move>)
    requires Traced(d, done, part)
    ensures done' + part' == done + part + Puts(d, moves)
    ensures Traced(Run(d, moves), done', part')
    decreases |moves|
  {
    hide Traced, Step;
    if moves == [] {
      done', part' := done, part;
    } else {
      var one, two := StepTraced(d, moves[0], done, part);
      done', part' := RunTraced(Step(d, moves[0]), moves[1..], one, two);
      var rest := Puts(Step(d, moves[0]), moves[1..]);
      var first := if |Step(d, moves[0]).sent| > |d.sent| then [moves[0]] else [];
      assert done + part + first + rest == done + part + (first + rest);
    }
  }

  lemma PartialReadings(part: seq<Move>, at: SensorAt, reading: Option<Mail>)
    requires AllSensor(part) && Partly(part, at, reading)
    ensures Readings(part) == []
  {
  }

  /** The mails put are those of the moves that put them, and the finished frames carry what the sensor gave. */
  lemma FramesAsGiven(interval: int, moves: seq<Move>)
    ensures var d := Run(Initial(interval), moves);
            var puts := Puts(Initial(interval), moves);
            AllSensor(puts) && d.sent == Mails(puts) && d.frames == Readings(puts)
  {
    hide Run, Puts, Mails, Readings, Whole, Partly;
    NoMails([]);
    NothingGiven();
    assert [] + Puts(Initial(interval), moves) == Puts(Initial(interval), moves);
    var done, part := RunTraced(Initial(interval), moves, [], []);
    var d := Run(Initial(interval), moves);
    WholeThen(done, part);
    PartialReadings(part, d.sensor, d.reading);
    assert done + part == Puts(Initial(interval), moves);
  }

  lemma NothingGiven()
    ensures Readings([]) == [] && Whole([]) && Mails([]) == [] && Partly([], LoopTop, None)
  {
  }

  // ---- Main results ----

  /**
   In every interleaving, what has been handed to Publish is a prefix of one packet for
   each whole frame among the mails put, in order and without repetition: the list of the
   one reading the sensor gave with that frame's start, under its name, with its value and
   the time at which it was put, or the empty list if the sensor gave none.
   */
  lemma PublishedInOrder(interval: int, moves: seq<Move>)
    requires ProperMoves(moves)
    ensures var d := Run(Initial(interval), moves);
            var puts := Puts(Initial(interval), moves);
            AllSensor(puts) && d.published <= Packets(Readings(puts))
  {
    hide Readings, Puts, Mails;
    FramesAsGiven(interval, moves);
    RunKeeps(Initial(interval), moves);
    var d := Run(Initial(interval), moves);
    assert Produced(d) + Due(d.entities, Backlog(d)) == Packets(d.frames);
    assert d.published <= Produced(d);
  }

  predicate Drained(d: Device) {
    d.llp == [] && d.upstream == [] && d.coordinator.Taking? && !d.comms.Publishing?
  }

  /** Nothing is lost on the way: once both mailboxes are drained, every whole frame has been published. */
  lemma DrainedMeansPublished(interval: int, moves: seq<Move>)
    requires ProperMoves(moves) && Drained(Run(Initial(interval), moves))
    ensures var d := Run(Initial(interval), moves);
            var puts := Puts(Initial(interval), moves);
            AllSensor(puts) && d.published == Packets(Readings(puts))
  {
    hide Readings, Puts, Mails;
    FramesAsGiven(interval, moves);
    RunKeeps(Initial(interval), moves);
  }

  /** put never meets a full queue, so ignoring its result drops no mail. */
  lemma PutNeverDrops(interval: int, moves: seq<Move>)
    requires ProperMoves(moves)
    ensures var d := Run(Initial(interval), moves);
            && (d.sensor.Put? ==> |d.llp| < 256)
            && (d.coordinator.Putting? ==> |d.upstream| < 256)
            && LlpInUse(d) <= 256 && UpstreamInUse(d) <= 256
  {
    RunKeeps(Initial(interval), moves);
  }

  // ---- Progress ----

  /** Nothing is on the way, and the next pass makes a frame. */
  predicate Quiet(d: Device) {
    && d.sensor.LoopTop? && d.pollCounter == 0 && d.llp == [] && d.coordinator.Taking? && !d.sendPackets
    && d.upstream == [] && d.comms.Waiting?
  }

  function Repeated(m: Move, n: nat): seq<Move> {
    seq(n, _ => m)
  }

  lemma OneMove(d: Device, m: Move, n: nat)
    requires n > 0
    ensures Run(d, Repeated(m, n)) == Run(Step(d, m), Repeated(m, n - 1))
    ensures Run(Step(d, m), Repeated(m, 0)) == Step(d, m)
  {
    assert Repeated(m, n)[1..] == Repeated(m, n - 1);
  }

  /** The sensor thread alone puts a whole frame in eight moves. */
  lemma SensorPass(d: Device, time: int, datum: Datum)
    requires Quiet(d)
    ensures var after := Run(d, Repeated(SensorMoves(time, Some(datum), None), 8));
            && after.llp == [Mail(HEADER, START, time), Mail(datum.name, datum.value, time), Mail(HEADER, END, time)]
            && after.coordinator.Taking? && !after.sendPackets && after.upstream == [] && after.comms.Waiting?
            && after.published == d.published && after.sensor.LoopTop?
  {
    hide Run, Repeated, TruncatedDiv;
    var m := SensorMoves(time, Some(datum), None);
    var d1 := Step(d, m);
    OneMove(d, m, 8);
    assert d1.sensor == Alloc(Begin) && d1.llp == [];
    var d2 := Step(d1, m);
    OneMove(d1, m, 7);
    assert d2.sensor == Put(Begin);
    var d3 := Step(d2, m);
    OneMove(d2, m, 6);
    var d4 := Step(d3, m);
    OneMove(d3, m, 5);
    assert d4.sensor == Put(Middle(datum)) && d4.llp == [Mail(HEADER, START, time)];
    var d5 := Step(d4, m);
    OneMove(d4, m, 4);
    var d6 := Step(d5, m);
    OneMove(d5, m, 3);
    assert d6.sensor == Put(Finish) && d6.llp == [Mail(HEADER, START, time), Mail(datum.name, datum.value, time)];
    var d7 := Step(d6, m);
    OneMove(d6, m, 2);
    var d8 := Step(d7, m);
    OneMove(d7, m, 1);
  }

  /** The coordinator alone turns the three mails of a frame into one packet in eight moves. */
  lemma CoordinatorPass(d: Device, time: int, datum: Datum)
    requires d.llp == [Mail(HEADER, START, time), Mail(datum.name, datum.value, time), Mail(HEADER, END, time)]
    requires d.coordinator.Taking? && !d.sendPackets && d.upstream == [] && d.comms.Waiting? && datum.name != HEADER
    ensures var after := Run(d, Repeated(CoordinatorMoves, 8));
            && after.llp == [] && after.coordinator.Taking? && !after.sendPackets && after.comms.Waiting?
            && after.upstream == [map[datum.name := (datum.value, time)]]
            && after.published == d.published && after.sensor == d.sensor
  {
    hide Run, Repeated, SensorStep;
    var m := CoordinatorMoves;
    var d1 := Step(d, m);
    OneMove(d, m, 8);
    var d2 := Step(d1, m);
    OneMove(d1, m, 7);
    assert d2.entities == map[] && d2.llp == [Mail(datum.name, datum.value, time), Mail(HEADER, END, time)] && d2.coordinator.Taking?;
    var d3 := Step(d2, m);
    OneMove(d2, m, 6);
    var d4 := Step(d3, m);
    OneMove(d3, m, 5);
    assert d4.entities == map[datum.name := (datum.value, time)] && d4.llp == [Mail(HEADER, END, time)] && d4.coordinator.Taking?;
    assert END != START;
    var d5 := Step(d4, m);
    OneMove(d4, m, 4);
    var d6 := Step(d5, m);
    OneMove(d5, m, 3);
    assert d6.coordinator.Sending? && d6.llp == [] && d6.entities == d4.entities;
    var d7 := Step(d6, m);
    OneMove(d6, m, 2);
    var d8 := Step(d7, m);
    OneMove(d7, m, 1);
  }

  lemma CommsPass(d: Device, payload: Entities)
    requires d.upstream == [payload] && d.comms.Waiting?
    ensures var after := Run(d, Repeated(CommsMoves, 3));
            after.published == d.published + [payload] && after.upstream == [] && after.comms.Waiting?
  {
    hide Run, Repeated, SensorStep, CoordinatorStep;
    var m := CommsMoves;
    var d1 := Step(d, m);
    OneMove(d, m, 3);
    var d2 := Step(d1, m);
    OneMove(d1, m, 2);
    var d3 := Step(d2, m);
    OneMove(d2, m, 1);
  }

  /** From a quiet state each thread, given its turns, carries a reading to Publish: no thread can be stuck on the others. */
  lemma ReadingGoesThrough(d: Device, time: int, datum: Datum)
    requires Quiet(d) && datum.name != HEADER
    ensures var a := Run(d, Repeated(SensorMoves(time, Some(datum), None), 8));
            var b := Run(a, Repeated(CoordinatorMoves, 8));
            var c := Run(b, Repeated(CommsMoves, 3));
            c.published == d.published + [map[datum.name := (datum.value, time)]]
  {
    hide Run, Repeated;
    SensorPass(d, time, datum);
    var a := Run(d, Repeated(SensorMoves(time, Some(datum), None), 8));
    CoordinatorPass(a, time, datum);
    CommsPass(Run(a, Repeated(CoordinatorMoves, 8)), map[datum.name := (datum.value, time)]);
  }

  /**
   * No deadlock, in any state at all: a sensor thread that waits for a block waits for a coordinator that can move,
   * or for one that waits for a communications thread that can.
   */
  lemma NeverStuck(d: Device, time: int, data: Option<Datum>, control: Option<int>)
    ensures Step(d, SensorMoves(time, data, control)) != d || Step(d, CoordinatorMoves) != d || Step(d, CommsMoves) != d
    ensures Step(d, SensorMoves(time, data, control)) == d ==> d.sensor.Alloc? && LlpInUse(d) >= 256
  {
    if d.sensor.Alloc? && LlpInUse(d) >= CAPACITY && d.coordinator.Sending? && UpstreamInUse(d) >= CAPACITY && d.comms.Waiting? {
      assert d.upstream != [];
    }
  }

  // ---- How often a frame is made ----

  /** A poll interval of less than a second still makes a frame on every pass. */
  function Period(interval: int): (m: nat)
    ensures m >= 1
  {
    var c := TruncatedDiv(interval, SENSOR_SLEEP_MS);
    if c < 1 then 1 else c
  }

  /** A rate of 10 seconds or more that is asked for makes that many passes the period; a lower one changes nothing. */
  lemma ControlSetsPeriod(d: Device, time: int, data: Option<Datum>, rate: int)
    requires d.sensor.LoopEnd?
    ensures var d' := SensorStep(d, time, data, Some(rate));
            && Period(d'.interval) == (if rate >= 10 then rate else Period(d.interval))
            && SensorStep(d', time, data, None).pollCount == TruncatedDiv(d'.interval, 1000)
    ensures SensorStep(d, time, data, None).interval == d.interval
  {
  }

  predicate KeepsInterval(moves: seq<Move>) {
    forall i | 0 <= i < |moves| :: moves[i].SensorMoves? ==> moves[i].control.None? || moves[i].control.value < 10
  }

  ghost predicate Polled(d: Device, interval: int) {
    var m := Period(interval);
    && d.interval == interval && d.pollCount == TruncatedDiv(interval, SENSOR_SLEEP_MS)
    && 0 <= d.pollCounter < m
    && (d.sensor.Alloc? || d.sensor.Put? ==> d.pollCounter == 0)
    && (if d.pollCounter == 0 && !d.sensor.LoopEnd? then d.passes == |d.frames| * m
        else |d.frames| >= 1 && d.passes == (|d.frames| - 1) * m + d.pollCounter)
  }

  lemma SensorPolled(d: Device, time: int, data: Option<Datum>, control: Option<int>, interval: int)
    requires Polled(d, interval) && (control.None? || control.value < 10)
    ensures Polled(SensorStep(d, time, data, control), interval)
  {
    hide TruncatedDiv, PutMail;
    var n := Period(interval);
    var c := TruncatedDiv(interval, SENSOR_SLEEP_MS);
    assert n == if c < 1 then 1 else c;
    hide Period;
    assert |d.frames| * n == (|d.frames| - 1) * n + n;
  }

  lemma StepPolled(d: Device, m: Move, interval: int)
    requires Polled(d, interval)
    requires m.SensorMoves? ==> m.control.None? || m.control.value < 10
    ensures Polled(Step(d, m), interval)
  {
    hide SensorStep, Period, TruncatedDiv, PutMail, Handle;
    if m.SensorMoves? {
      SensorPolled(d, m.time, m.data, m.control, interval);
    }
  }

  lemma {:induction false} RunPolled(d: Device, moves: seq<Move>, interval: int)
    requires Polled(d, interval) && KeepsInterval(moves)
    ensures Polled(Run(d, moves), interval)
    decreases |moves|
  {
    hide Polled, Step;
    if moves != [] {
      StepPolled(d, moves[0], interval);
      RunPolled(Step(d, moves[0]), moves[1..], interval);
    }
  }

  /** While the poll rate is left alone, one frame is finished in every Period passes of the sensor loop. */
  lemma OneFrameEachPeriod(interval: int, moves: seq<Move>)
    requires KeepsInterval(moves)
    ensures var d := Run(Initial(interval), moves);
            var m := Period(interval);
            d.sensor.LoopTop? ==> |d.frames| * m - m < d.passes <= |d.frames| * m
  {
    RunPolled(Initial(interval), moves, interval);
    var d := Run(Initial(interval), moves);
    assert |d.frames| >= 1 ==> |d.frames| * Period(interval) == (|d.frames| - 1) * Period(interval) + Period(interval);
  }

  // ---- The threads as code ----

  /** The shared variables of the three threads and the places the threads have reached. */
  class Board {
    var sensor: SensorAt
    var interval: int
    var pollCount: int
    var pollCounter: int
    var llp: seq<Mail>
    var coordinator: CoordinatorAt
    var entities: Entities
    var sendPackets: bool
    var upstream: seq<Entities>
    var comms: CommsAt
    ghost var reading: Option<Mail>
    ghost var passes: nat
    ghost var sent: seq<Mail>
    ghost var frames: seq<Option<Mail>>
    ghost var published: seq<Entities>

    ghost function State(): Device
      reads this
    {
      Device(sensor, interval, pollCount, pollCounter, reading, llp, coordinator, entities, sendPackets, upstream, comms,
             passes, sent, frames, published)
    }

    constructor (interval: int)
      ensures State() == Initial(interval)
    {
      this.interval, pollCount, pollCounter := interval, TruncatedDiv(interval, SENSOR_SLEEP_MS), 0;
      sensor, coordinator, comms := LoopTop, Taking, Waiting;
      llp, upstream, entities, sendPackets := [], [], map[], false;
      reading, passes, sent, frames, published := None, 0, [], [], [];
    }

    method PutLlp(mail: Mail)
      requires Invariant(State()) && sensor.Put?
      modifies this`llp, this`sent
      ensures llp == old(llp) + [mail] && llp == PutMail(old(llp), mail) && sent == old(sent) + [mail]
    {
      llp := llp + [mail];
      sent := sent + [mail];
    }

    /** The sensor thread fills the block it has and puts it. */
    method SensorPut(time: int, data: Option<Datum>)
      requires Invariant(State()) && sensor.Put?
      modifies this`sensor, this`llp, this`reading, this`sent, this`frames
      ensures State() == SensorStep(old(State()), time, data, None)
    {
      hide Invariant, PutMail;
      if sensor.stage == Begin {
        PutLlp(Mail(HEADER, START, time));
        reading := None;
        sensor := Alloc(if data.Some? then Middle(data.value) else Finish);
      } else if sensor.stage == Finish {
        PutLlp(Mail(HEADER, END, time));
        frames := frames + [reading];
        sensor := LoopEnd;
      } else {
        var mail := Mail(sensor.stage.datum.name, sensor.stage.datum.value, time);
        PutLlp(mail);
        reading := Some(mail);
        sensor := Alloc(Finish);
      }
    }

    method SensorMove(time: int, data: Option<Datum>, control: Option<int>)
      requires Invariant(State()) && ProperMove(SensorMoves(time, data, control))
      modifies this`sensor, this`interval, this`pollCount, this`pollCounter, this`llp, this`reading, this`passes, this`sent, this`frames
      ensures Invariant(State()) && State() == SensorStep(old(State()), time, data, control)
    {
      hide Invariant, TruncatedDiv, PutMail;
      SensorKeeps(State(), time, data, control);
      if sensor.LoopTop? {
        pollCount := TruncatedDiv(interval, SENSOR_SLEEP_MS);
        sensor := if pollCounter == 0 then Alloc(Begin) else LoopEnd;
      } else if sensor.Alloc? {
        var inUse := |llp| + if coordinator.Handling? then 1 else 0;
        if inUse < CAPACITY {
          sensor := Put(sensor.stage);
        }
      } else if sensor.LoopEnd? {
        pollCounter := pollCounter + 1;
        passes := passes + 1;
        if pollCounter >= pollCount {
          pollCounter := 0;
        }
        if control.Some? && control.value >= 10 {
          interval := control.value * 1000;
        }
        sensor := LoopTop;
      } else {
        SensorPut(time, data);
      }
    }

    method CoordinatorMove()
      requires Invariant(State())
      modifies this`coordinator, this`llp, this`entities, this`sendPackets, this`upstream
      ensures Invariant(State()) && State() == CoordinatorStep(old(State()))
    {
      hide Accounted, Framed;
      CoordinatorKeeps(State());
      if coordinator.Taking? {
        if llp != [] {
          coordinator := Handling(llp[0]);
          llp := llp[1..];
        }
      } else if coordinator.Handling? {
        var mail := coordinator.mail;
        if mail.sensorType == HEADER {
          if mail.value == START {
            entities := map[];
          } else {
            sendPackets := true;
          }
        } else {
          entities := entities[mail.sensorType := (mail.value, mail.time)];
        }
        coordinator := if sendPackets then Sending else Taking;
      } else if coordinator.Sending? {
        var inUse := |upstream| + if comms.Waiting? then 0 else 1;
        if inUse < CAPACITY {
          coordinator := Putting;
        }
      } else {
        upstream := upstream + [entities];
        sendPackets := false;
        coordinator := Taking;
      }
    }

    method CommsMove()
      requires Invariant(State())
      modifies this`comms, this`upstream, this`published
      ensures Invariant(State()) && State() == CommsStep(old(State()))
    {
      hide Invariant;
      CommsKeeps(State());
      if comms.Waiting? {
        if upstream != [] {
          comms := Publishing(upstream[0]);
          upstream := upstream[1..];
        }
      } else if comms.Publishing? {
        published := published + [comms.payload];
        comms := Freeing;
      } else {
        comms := Waiting;
      }
    }

    /** Any schedule of the three threads. */
    method Execute(moves: seq<Move>)
      requires Invariant(State()) && ProperMoves(moves)
      modifies this
      ensures Invariant(State()) && State() == Run(old(State()), moves)
    {
      hide Invariant, Step;
      for i := 0 to |moves|
        invariant Invariant(State())
        invariant Run(State(), moves[i..]) == Run(old(State()), moves)
      {
        ghost var before := State();
        Unfold(before, moves, i);
        var m := moves[i];
        if m.SensorMoves? {
          SensorMove(m.time, m.data, m.control);
        } else if m.CoordinatorMoves? {
          CoordinatorMove();
        } else {
          CommsMove();
        }
      }
      assert moves[|moves|..] == [];
    }
  }

  lemma Unfold(d: Device, moves: seq<Move>, i: nat)
    requires i < |moves|
    ensures Run(d, moves[i..]) == Run(Step(d, moves[i]), moves[i + 1..])
    ensures Step(d, moves[i]) == (match moves[i]
                                  case SensorMoves(time, data, control) => SensorStep(d, time, data, control)
                                  case CoordinatorMoves => CoordinatorStep(d)
                                  case CommsMoves => CommsStep(d))
  {
    assert moves[i..][1..] == moves[i + 1..];
  }
}
