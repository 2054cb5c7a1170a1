/** The sensor polling pipeline: request, answer, parse, store to shared memory, alarm.
    The serial line is an environment that may fail to send, stay silent or answer anything. */
module Sensor {
  import opened Basics
  import opened Crc16
  import opened Modbus

  /** How a handler decides on an alarm: the temperature handlers compare, the status handler matches. */
  datatype Kind = Threshold | Equality

  datatype Config = Config(kind: Kind, deviceAddr: bv8, dataItem: bv8, dataLength: bv8,
                           shmAddr: bv64, alarmValue: bv8, alarmOBIS: string)

  /** What the serial port makes of one exchange. */
  datatype Reply = SendFailed | TimedOut | Received(bytes: seq<bv8>)

  /** How shared memory answers a store: whether the value is there afterwards, and the code returned. */
  datatype Store = Store(taken: bool, code: int)

  /** The two-part key of a shared memory item. */
  datatype Item = Item(mainItem: bv32, subItem: bv8)

  datatype Alarm = Alarm(obis: string, value: bv16)

  /** The key an address is split into. */
  function ItemAt(address: bv64): Item {
    Item(((address >> 8) & 0xFFFF_FFFF) as bv32, (address & 0xFF) as bv8)
  }

  function ItemOf(c: Config): Item { ItemAt(c.shmAddr) }

  predicate Triggers(c: Config, value: bv16) {
    match c.kind
    case Threshold => value > (c.alarmValue as bv16)
    case Equality => value == (c.alarmValue as bv16)
  }

  // ---- One poll as a function of the state ----

  datatype State = State(receive: seq<bv8>, registers: seq<bv16>)

  const INITIAL := State([], [])

  /** The registers left by parsing `bytes`; a rejected response leaves none. */
  function Parsed(bytes: seq<bv8>): seq<bv16> {
    if ReadResponseOk(bytes) then ParsedRegisters(bytes) else []
  }

  /** The receive buffer after one exchange: a failed send leaves the previous answer in it. */
  function Exchange(receive: seq<bv8>, reply: Reply): seq<bv8> {
    match reply
    case SendFailed => receive
    case TimedOut => []
    case Received(bytes) => bytes
  }

  /** An empty buffer leaves the registers of the previous poll in place. */
  function Poll(s: State, reply: Reply): State {
    var receive := Exchange(s.receive, reply);
    State(receive, if receive == [] then s.registers else Parsed(receive))
  }

  function Stored(c: Config, registers: seq<bv16>, memory: map<Item, bv16>, taken: bool): map<Item, bv16> {
    if registers == [] || !taken then memory else memory[ItemOf(c) := registers[0]]
  }

  function Raised(c: Config, registers: seq<bv16>, alarms: seq<Alarm>): seq<Alarm> {
    if registers != [] && Triggers(c, registers[0]) then alarms + [Alarm(c.alarmOBIS, registers[0])] else alarms
  }

  // ---- The handler ----

  class SharedMemory {
    var items: map<Item, bv16>

    method SetItem(item: Item, value: bv16, store: Store) returns (result: int)
      modifies this
      ensures items == (if store.taken then old(items)[item := value] else old(items)) && result == store.code
    {
      if store.taken {
        items := items[item := value];
      }
      result := store.code;
    }
  }

  class AlarmQueue {
    var sent: seq<Alarm>

    method Send(obis: string, value: bv16)
      modifies this
      ensures sent == old(sent) + [Alarm(obis, value)]
    {
      sent := sent + [Alarm(obis, value)];
    }
  }

  class SensorHandler {
    const config: Config
    var sendBuffer: seq<bv8>
    var receiveBuffer: seq<bv8>
    var registers: seq<bv16>

    constructor (c: Config)
      ensures config == c && Current() == INITIAL
    {
      config := c;
      sendBuffer, receiveBuffer, registers := [], [], [];
    }

    ghost function Current(): State
      reads this
    {
      State(receiveBuffer, registers)
    }

    method BuildFrame()
      modifies this`sendBuffer
      ensures sendBuffer == ReadRequest(config.deviceAddr, config.dataItem as bv16, config.dataLength as bv16)
    {
      sendBuffer :=
        BuildReadHoldingRegistersFrame(config.deviceAddr, config.dataItem as bv16, config.dataLength as bv16);
    }

    method SendAndReceive(reply: Reply) returns (result: int)
      modifies this`receiveBuffer
      ensures receiveBuffer == Exchange(old(receiveBuffer), reply)
      ensures reply.SendFailed? ==> receiveBuffer == old(receiveBuffer)
      ensures reply.TimedOut? ==> receiveBuffer == []
      ensures reply.Received? ==> receiveBuffer == reply.bytes
      ensures result == if reply.Received? then |receiveBuffer| else -1
    {
      if reply.SendFailed? {
        return -1;
      }
      if reply.TimedOut? {
        receiveBuffer := [];
        return -1;
      }
      receiveBuffer := reply.bytes;
      return |receiveBuffer|;
    }

    method ProcessData() returns (result: int)
      modifies this`registers
      ensures registers == if receiveBuffer == [] then old(registers) else Parsed(receiveBuffer)
      ensures result == if receiveBuffer == [] then -2 else if ReadResponseOk(receiveBuffer) then 0 else -1
    {
      hide ReadResponseOk, ParsedRegisters;
      if receiveBuffer == [] {
        return -2;
      }
      registers := [];
      var ok: bool;
      ok, registers := ParseReadHoldingRegistersResponse(receiveBuffer, registers);
      return if ok then 0 else -1;
    }

    method StoreData(memory: SharedMemory, store: Store) returns (result: int)
      modifies memory
      ensures memory.items == Stored(config, registers, old(memory.items), store.taken)
      ensures registers != [] && store.taken ==>
                memory.items == old(memory.items)[ItemAt(config.shmAddr) := registers[0]]
      ensures registers == [] || !store.taken ==> memory.items == old(memory.items)
      ensures result == if registers == [] then -1 else store.code
    {
      if |registers| < 1 {
        return -1;
      }
      result := memory.SetItem(ItemOf(config), registers[0], store);
    }

    method SendAlarm(alarms: AlarmQueue) returns (result: int)
      modifies alarms
      ensures alarms.sent == Raised(config, registers, old(alarms.sent))
      ensures config.kind.Threshold? && registers != [] && registers[0] > config.alarmValue as bv16 ==>
                alarms.sent == old(alarms.sent) + [Alarm(config.alarmOBIS, registers[0])]
      ensures config.kind.Equality? && registers != [] && registers[0] == config.alarmValue as bv16 ==>
                alarms.sent == old(alarms.sent) + [Alarm(config.alarmOBIS, registers[0])]
      ensures registers == [] || (config.kind.Threshold? && registers[0] <= config.alarmValue as bv16)
              || (config.kind.Equality? && registers[0] != config.alarmValue as bv16) ==>
                alarms.sent == old(alarms.sent)
      ensures result == if registers == [] then -1 else 0
    {
      if |registers| < 1 {
        return -1;
      }
      if Triggers(config, registers[0]) {
        alarms.Send(config.alarmOBIS, registers[0]);
      }
      return 0;
    }

    method ProcessSensorData(reply: Reply, store: Store, memory: SharedMemory, alarms: AlarmQueue)
      modifies this, memory, alarms
      ensures Current() == Poll(old(Current()), reply)
      ensures memory.items == Stored(config, registers, old(memory.items), store.taken)
      ensures alarms.sent == Raised(config, registers, old(alarms.sent))
      ensures sendBuffer == ReadRequest(config.deviceAddr, config.dataItem as bv16, config.dataLength as bv16)
    {
      hide ReadResponseOk, ParsedRegisters, ItemOf, Triggers;
      BuildFrame();
      var received := SendAndReceive(reply);
      var processed := ProcessData();
      var stored := StoreData(memory, store);
      var alarmed := SendAlarm(alarms);
    }
  }

  class SensorManager {
    const handlers: seq<SensorHandler>
    const memory: SharedMemory
    const alarms: AlarmQueue

    /** No handler occurs twice. */
    ghost predicate Valid() {
      forall i, j :: 0 <= i < j < |handlers| ==> handlers[i] != handlers[j]
    }

    ghost function Snapshot(): World
      reads this, handlers, memory, alarms
    {
      World(seq(|handlers|, i requires 0 <= i < |handlers| reads handlers => handlers[i].Current()),
            memory.items, alarms.sent)
    }

    ghost function Configs(): seq<Config> {
      seq(|handlers|, i requires 0 <= i < |handlers| => handlers[i].config)
    }

    constructor (handlers: seq<SensorHandler>, memory: SharedMemory, alarms: AlarmQueue)
      requires forall i, j :: 0 <= i < j < |handlers| ==> handlers[i] != handlers[j]
      ensures Valid() && this.handlers == handlers && this.memory == memory && this.alarms == alarms
    {
      this.handlers, this.memory, this.alarms := handlers, memory, alarms;
    }

    /** One poll of sensor `key` is one step of the whole system. */
    method ProcessSensor(key: nat, reply: Reply, store: Store)
      requires Valid() && key < |handlers|
      modifies handlers, memory, alarms
      ensures Snapshot() == Step(Configs(), old(Snapshot()), Event(key, reply, store.taken))
    {
      hide Poll, Stored, Raised, ReadRequest;
      handlers[key].ProcessSensorData(reply, store, memory, alarms);
    }
  }

  // ---- Runs ----

  /** A poll: the answer on the line, and whether shared memory takes a value it is given. */
  datatype Event = Event(sensor: nat, reply: Reply, taken: bool)

  datatype World = World(sensors: seq<State>, memory: map<Item, bv16>, alarms: seq<Alarm>)

  function Step(configs: seq<Config>, w: World, e: Event): World
    requires e.sensor < |configs| == |w.sensors|
  {
    var s := Poll(w.sensors[e.sensor], e.reply);
    World(w.sensors[e.sensor := s],
          Stored(configs[e.sensor], s.registers, w.memory, e.taken),
          Raised(configs[e.sensor], s.registers, w.alarms))
  }

  predicate ValidRun(configs: seq<Config>, run: seq<Event>) {
    forall t :: 0 <= t < |run| ==> run[t].sensor < |configs|
  }

  /** The system after a run, from handlers just built and `memory` as found. */
  function After(configs: seq<Config>, memory: map<Item, bv16>, run: seq<Event>): (w: World)
    requires ValidRun(configs, run)
    ensures |w.sensors| == |configs|
  {
    if run == [] then World(seq(|configs|, i => INITIAL), memory, [])
    else Step(configs, After(configs, memory, run[..|run| - 1]), run[|run| - 1])
  }

  // ---- What a run should leave behind, read off the events alone ----

  /** The reading a reply carries: the first register of an accepted response. */
  function Reading(reply: Reply): Option<bv16> {
    if reply.Received? && ReadResponseOk(reply.bytes) && ParsedRegisters(reply.bytes) != []
    then Some(ParsedRegisters(reply.bytes)[0]) else None
  }

  /** The last reading sensor `i` delivered. */
  function LastReading(run: seq<Event>, i: nat): Option<bv16> {
    if run == [] then None
    else
      var e := run[|run| - 1];
      if e.sensor == i && Reading(e.reply).Some? then Reading(e.reply) else LastReading(run[..|run| - 1], i)
  }

  /** What the last answer of sensor `i` carried; failed sends, silence and empty answers do not count. */
  function LastAnswer(run: seq<Event>, i: nat): Option<bv16> {
    if run == [] then None
    else
      var e := run[|run| - 1];
      if e.sensor == i && e.reply.Received? && e.reply.bytes != [] then Reading(e.reply)
      else LastAnswer(run[..|run| - 1], i)
  }

  /** The last reading delivered by any sensor that stores under `item`. */
  function LastReadingAt(configs: seq<Config>, run: seq<Event>, item: Item): Option<bv16>
    requires ValidRun(configs, run)
  {
    if run == [] then None
    else
      var e := run[|run| - 1];
      if ItemOf(configs[e.sensor]) == item && Reading(e.reply).Some? then Reading(e.reply)
      else LastReadingAt(configs, run[..|run| - 1], item)
  }

  /** Every alarm the run should raise: after each poll, the answer then held, if it is above the
      alarm value of a threshold sensor or equal to that of a status sensor. */
  function AlarmsOf(configs: seq<Config>, run: seq<Event>): seq<Alarm>
    requires ValidRun(configs, run)
  {
    if run == [] then []
    else
      var before, i := AlarmsOf(configs, run[..|run| - 1]), run[|run| - 1].sensor;
      match LastAnswer(run, i)
      case Some(v) =>
        var limit := configs[i].alarmValue as bv16;
        if (configs[i].kind == Threshold && v > limit) || (configs[i].kind == Equality && v == limit)
        then before + [Alarm(configs[i].alarmOBIS, v)] else before
      case None => before
  }

  function Lookup(memory: map<Item, bv16>, item: Item): Option<bv16> {
    if item in memory then Some(memory[item]) else None
  }

  function OrElse(first: Option<bv16>, second: Option<bv16>): Option<bv16> {
    if first.Some? then first else second
  }

  // ---- The handlers hold the last answer ----

  function First(registers: seq<bv16>): Option<bv16> {
    if registers == [] then None else Some(registers[0])
  }

  /** A buffer that is not empty is what the registers were parsed from. */
  predicate Consistent(s: State) {
    s.receive != [] ==> s.registers == Parsed(s.receive)
  }

  lemma EmptyIsRejected(bytes: seq<bv8>)
    requires bytes == []
    ensures !ReadResponseOk(bytes)
  {
  }

  lemma {:induction false} HandlersHoldAnswers(configs: seq<Config>, memory: map<Item, bv16>, run: seq<Event>, i: nat)
    requires ValidRun(configs, run) && i < |configs|
    ensures Consistent(After(configs, memory, run).sensors[i])
    ensures First(After(configs, memory, run).sensors[i].registers) == LastAnswer(run, i)
  {
    hide ReadResponseOk, ParsedRegisters, ItemOf, Triggers;
    if run != [] {
      HandlersHoldAnswers(configs, memory, run[..|run| - 1], i);
    }
  }

  /** An answer still held is the last reading. */
  lemma {:induction false} AnswerIsReading(run: seq<Event>, i: nat)
    ensures LastAnswer(run, i).Some? ==> LastReading(run, i) == LastAnswer(run, i)
  {
    hide ReadResponseOk, ParsedRegisters;
    if run != [] {
      AnswerIsReading(run[..|run| - 1], i);
      EmptyIsRejected([]);
    }
  }

  /** The alarms of any run are exactly those the held answers call for, in order. */
  lemma {:induction false} AlarmsAreExact(configs: seq<Config>, memory: map<Item, bv16>, run: seq<Event>)
    requires ValidRun(configs, run)
    ensures After(configs, memory, run).alarms == AlarmsOf(configs, run)
  {
    hide ReadResponseOk, ParsedRegisters, ItemOf, LastAnswer, Poll, Stored, Step;
    if run != [] {
      AlarmsAreExact(configs, memory, run[..|run| - 1]);
      HandlersHoldAnswers(configs, memory, run, run[|run| - 1].sensor);
      PollAlarms(configs, memory, run);
    }
  }

  /** A poll adds exactly one alarm when the first register it leaves held calls for one, and none otherwise. */
  lemma PollAlarms(configs: seq<Config>, memory: map<Item, bv16>, run: seq<Event>)
    requires ValidRun(configs, run) && run != []
    ensures var i := run[|run| - 1].sensor;
      var before, after := After(configs, memory, run[..|run| - 1]), After(configs, memory, run);
      var c, held := configs[i], after.sensors[i].registers;
      var limit := c.alarmValue as bv16;
      after.alarms == before.alarms
                      + if held != [] && (if c.kind == Threshold then held[0] > limit else held[0] == limit)
                        then [Alarm(c.alarmOBIS, held[0])] else []
  {
    hide ReadResponseOk, ParsedRegisters, ItemOf, Poll, Stored, After;
    var n := |run| - 1;
    AfterStep(configs, memory, run);
    AlarmStep(configs, After(configs, memory, run[..n]), run[n]);
  }

  lemma AfterStep(configs: seq<Config>, memory: map<Item, bv16>, run: seq<Event>)
    requires ValidRun(configs, run) && run != []
    ensures After(configs, memory, run) == Step(configs, After(configs, memory, run[..|run| - 1]), run[|run| - 1])
  {
    hide Step;
  }

  lemma AlarmStep(configs: seq<Config>, w: World, e: Event)
    requires e.sensor < |configs| == |w.sensors|
    ensures var after, c := Step(configs, w, e), configs[e.sensor];
      var held, limit := after.sensors[e.sensor].registers, c.alarmValue as bv16;
      after.alarms == w.alarms + if held != [] && (if c.kind == Threshold then held[0] > limit else held[0] == limit)
                                 then [Alarm(c.alarmOBIS, held[0])] else []
  {
    hide Poll, Stored, Raised;
    HeldAlarm(configs[e.sensor], Poll(w.sensors[e.sensor], e.reply).registers, w.alarms);
  }

  lemma HeldAlarm(c: Config, held: seq<bv16>, alarms: seq<Alarm>)
    ensures Raised(c, held, alarms)
         == alarms + if held != [] && (if c.kind == Threshold then held[0] > c.alarmValue as bv16
                                       else held[0] == c.alarmValue as bv16)
                     then [Alarm(c.alarmOBIS, held[0])] else []
  {
  }

  /** Every alarm carries the last reading of its sensor at some moment of the run: more than the alarm
      value of a threshold sensor, exactly that of a status sensor. */
  lemma {:induction false} AlarmsCarryReadings(configs: seq<Config>, run: seq<Event>, k: nat) returns (t: nat)
    requires ValidRun(configs, run) && k < |AlarmsOf(configs, run)|
    ensures t < |run|
    ensures var c := configs[run[t].sensor];
            var reading := LastReading(run[..t + 1], run[t].sensor);
            && reading.Some?
            && (c.kind == Threshold ==> reading.value > c.alarmValue as bv16)
            && (c.kind == Equality ==> reading.value == c.alarmValue as bv16)
            && AlarmsOf(configs, run)[k] == Alarm(c.alarmOBIS, reading.value)
  {
    hide Reading;
    var n := |run| - 1;
    AnswerIsReading(run, run[n].sensor);
    assert run[..n + 1] == run;
    if k < |AlarmsOf(configs, run[..n])| {
      t := AlarmsCarryReadings(configs, run[..n], k);
      assert run[..n][..t + 1] == run[..t + 1];
    } else {
      t := n;
    }
  }

  // ---- Shared memory ----

  predicate DistinctItems(configs: seq<Config>) {
    forall i, j :: 0 <= i < j < |configs| ==> ItemOf(configs[i]) != ItemOf(configs[j])
  }

  lemma {:induction false} OwnItemReadings(configs: seq<Config>, run: seq<Event>, i: nat)
    requires ValidRun(configs, run) && DistinctItems(configs) && i < |configs|
    ensures LastReadingAt(configs, run, ItemOf(configs[i])) == LastReading(run, i)
  {
    hide ItemOf, Reading;
    if run != [] {
      OwnItemReadings(configs, run[..|run| - 1], i);
    }
  }

  /** What sensor `i` held at its last poll that had something to store and got it stored. */
  function LastStored(run: seq<Event>, i: nat): Option<bv16> {
    if run == [] then None
    else
      var e := run[|run| - 1];
      if e.sensor == i && e.taken && LastAnswer(run, i).Some? then LastAnswer(run, i)
      else LastStored(run[..|run| - 1], i)
  }

  /** With distinct items, after every run each item holds what its sensor last got stored; before
      that it keeps what it held. Rejected answers and refused stores never change it. */
  lemma {:induction false} MemoryHoldsStored(configs: seq<Config>, memory: map<Item, bv16>, run: seq<Event>, i: nat)
    requires ValidRun(configs, run) && DistinctItems(configs) && i < |configs|
    ensures Lookup(After(configs, memory, run).memory, ItemOf(configs[i]))
         == OrElse(LastStored(run, i), Lookup(memory, ItemOf(configs[i])))
  {
    hide ReadResponseOk, ParsedRegisters, ItemOf, Triggers;
    if run != [] {
      var j := run[|run| - 1].sensor;
      MemoryHoldsStored(configs, memory, run[..|run| - 1], i);
      if j == i {
        HandlersHoldAnswers(configs, memory, run, i);
      } else {
        assert ItemOf(configs[j]) != ItemOf(configs[i]) by { assert j < i || i < j; }
      }
    }
  }

  predicate AllTaken(run: seq<Event>) {
    forall t :: 0 <= t < |run| ==> run[t].taken
  }

  lemma {:induction false} StoredIsReading(run: seq<Event>, i: nat)
    requires AllTaken(run)
    ensures LastStored(run, i) == LastReading(run, i)
  {
    hide ReadResponseOk, ParsedRegisters;
    if run != [] {
      StoredIsReading(run[..|run| - 1], i);
      AnswerIsReading(run, i);
      EmptyIsRejected([]);
    }
  }

  /** While no store is refused, each item holds the last reading of its sensor. */
  lemma MemoryIsCurrent(configs: seq<Config>, memory: map<Item, bv16>, run: seq<Event>, i: nat)
    requires ValidRun(configs, run) && DistinctItems(configs) && AllTaken(run) && i < |configs|
    ensures Lookup(After(configs, memory, run).memory, ItemOf(configs[i]))
         == OrElse(LastReading(run, i), Lookup(memory, ItemOf(configs[i])))
  {
    hide ItemOf, After, LastStored, LastReading;
    MemoryHoldsStored(configs, memory, run, i);
    StoredIsReading(run, i);
  }

  /** After every run without refused stores each item holds the last reading delivered for it. */
  ghost predicate AlwaysCurrent(configs: seq<Config>) {
    forall run, i :: ValidRun(configs, run) && AllTaken(run) && 0 <= i < |configs| ==> ItemCurrent(configs, run, i)
  }

  predicate ItemCurrent(configs: seq<Config>, run: seq<Event>, i: nat)
    requires ValidRun(configs, run) && i < |configs|
  {
    Lookup(After(configs, map[], run).memory, ItemOf(configs[i])) == LastReadingAt(configs, run, ItemOf(configs[i]))
  }

  /** Sensor `i` answers, then sensor `j`, then sensor `i` stays silent. */
  function SharedItemRun(i: nat, j: nat, first: Reply, second: Reply): (run: seq<Event>)
    ensures |run| == 3 && AllTaken(run)
  {
    [Event(i, first, true), Event(j, second, true), Event(i, TimedOut, true)]
  }

  function Answer(value: bv16): (reply: Reply)
    ensures reply.Received?
  {
    Received(ReadResponse(0, [value]))
  }

  lemma AnswerReading(value: bv16)
    ensures Reading(Answer(value)) == Some(value)
    ensures Answer(value).bytes != [] && Parsed(Answer(value).bytes) == [value]
  {
    hide ReadResponseOk, ParsedRegisters, ReadResponse;
    ReadResponseParses(0, [value]);
    EmptyIsRejected([]);
  }

  /** Two sensors on one item: the silence of one puts its old reading over the other's newer one. */
  lemma SilenceRestoresOldReading(configs: seq<Config>, i: nat, j: nat)
    requires i < |configs| && j < |configs| && i != j && ItemOf(configs[i]) == ItemOf(configs[j])
    ensures ValidRun(configs, SharedItemRun(i, j, Answer(1), Answer(2)))
    ensures !ItemCurrent(configs, SharedItemRun(i, j, Answer(1), Answer(2)), i)
  {
    hide ItemOf, Triggers, Answer, Parsed, Reading;
    AnswerReading(1);
    AnswerReading(2);
    var run := SharedItemRun(i, j, Answer(1), Answer(2));
    assert run[..2][..1] == run[..1] && run[..1][..0] == [];
    var w0 := After(configs, map[], []);
    var w1 := After(configs, map[], run[..1]);
    var w2 := After(configs, map[], run[..2]);
    assert w1 == Step(configs, w0, run[0]) && w2 == Step(configs, w1, run[1]);
    assert w1.sensors[i].registers == [1] && w2.sensors[i].registers == [1];
    assert LastReadingAt(configs, run[..2], ItemOf(configs[i])) == Some(2);
    SilentReading();
  }

  lemma SilentReading()
    ensures Reading(TimedOut) == None
  {
  }

  lemma DistinctIsCurrent(configs: seq<Config>)
    requires DistinctItems(configs)
    ensures AlwaysCurrent(configs)
  {
    hide ItemOf, After, LastReading, LastReadingAt, Lookup, DistinctItems;
    forall run, i | ValidRun(configs, run) && AllTaken(run) && 0 <= i < |configs|
      ensures ItemCurrent(configs, run, i)
    {
      MemoryIsCurrent(configs, map[], run, i);
      OwnItemReadings(configs, run, i);
      NothingFound(ItemOf(configs[i]));
    }
  }

  lemma NothingFound(item: Item)
    ensures Lookup(map[], item) == None
  {
  }

  lemma SharedNotCurrent(configs: seq<Config>, i: nat, j: nat)
    requires i < j < |configs| && ItemOf(configs[i]) == ItemOf(configs[j])
    ensures !AlwaysCurrent(configs)
  {
    hide ItemOf, ItemCurrent, SharedItemRun, Answer;
    SilenceRestoresOldReading(configs, i, j);
  }

  lemma CurrentIsDistinct(configs: seq<Config>)
    requires AlwaysCurrent(configs)
    ensures DistinctItems(configs)
  {
    hide ItemOf, AlwaysCurrent;
    forall i, j | 0 <= i < j < |configs| ensures ItemOf(configs[i]) != ItemOf(configs[j]) {
      if ItemOf(configs[i]) == ItemOf(configs[j]) { SharedNotCurrent(configs, i, j); }
    }
  }

  /** Shared memory is current over all runs exactly when no two sensors store under one item. */
  lemma CurrentIffDistinct(configs: seq<Config>)
    ensures AlwaysCurrent(configs) <==> DistinctItems(configs)
  {
    hide AlwaysCurrent, DistinctItems;
    if DistinctItems(configs) { DistinctIsCurrent(configs); }
    if AlwaysCurrent(configs) { CurrentIsDistinct(configs); }
  }

  /** The sensors of the concentrator. The three leakage current sensors share one item. */
  const SENSORS: seq<Config> := [
    Config(Threshold, 0x80, 0x00, 0x02, 0x0051000903, 50, "0.96.99.98.40.255"),
    Config(Threshold, 0x81, 0x00, 0x02, 0x0051000A03, 50, "0.96.99.98.41.255"),
    Config(Threshold, 0x82, 0x00, 0x02, 0x0051000B03, 50, "0.96.99.98.42.255"),
    Config(Threshold, 0x83, 0x00, 0x02, 0x0051000C03, 50, "0.96.99.98.43.255"),
    Config(Threshold, 0x86, 0x01, 0x02, 0x0051001003, 50, "0.96.99.98.41.255"),
    Config(Threshold, 0x87, 0x01, 0x02, 0x0051001003, 50, "0.96.99.98.42.255"),
    Config(Threshold, 0x88, 0x01, 0x02, 0x0051001003, 50, "0.96.99.98.43.255"),
    Config(Threshold, 0x71, 0x00, 0x01, 0x0051000203, 50, "0.96.99.98.1.255"),
    Config(Threshold, 0x71, 0x01, 0x01, 0x0051000103, 50, "0.96.99.98.2.255"),
    Config(Equality, 0x70, 0x00, 0x01, 0x0051000603, 1, "0.96.99.98.4.255"),
    Config(Equality, 0x72, 0x00, 0x01, 0x0051000703, 1, "0.96.99.98.5.255"),
    Config(Equality, 0x03, 0x00, 0x01, 0x0051000803, 1, "0.96.99.98.3.255")
  ]

  /** So the table as shipped lets a silent leakage sensor overwrite another's newer reading. */
  lemma ShippedTableNotCurrent()
    ensures !AlwaysCurrent(SENSORS)
  {
    hide ItemOf;
    assert SENSORS[4].shmAddr == SENSORS[5].shmAddr;
    SharedAddress(SENSORS[4], SENSORS[5]);
    CurrentIffDistinct(SENSORS);
  }

  lemma SharedAddress(c: Config, d: Config)
    requires c.shmAddr == d.shmAddr
    ensures ItemOf(c) == ItemOf(d)
  {
    hide ItemAt;
  }

  lemma ItemParts(address: bv64)
    requires address < 0x100_0000_0000
    ensures ((ItemAt(address).mainItem as bv64) << 8) | (ItemAt(address).subItem as bv64) == address
  {
  }

  /** Addresses of at most 40 bits share an item only when they are equal. */
  lemma ItemsSeparateAddresses(a: bv64, b: bv64)
    requires a < 0x100_0000_0000 && b < 0x100_0000_0000 && ItemAt(a) == ItemAt(b)
    ensures a == b
  {
    hide ItemAt;
    ItemParts(a);
    ItemParts(b);
  }
}
