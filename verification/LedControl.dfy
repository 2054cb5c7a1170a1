/** The LED control of the LTU manager as it runs: what is sent to the display board over a
    whole run, and when the display agrees with the mask the manager keeps. */
module LedControl {
  import opened Basics
  import opened BitMask
  import opened Crc16
  import opened CrcCode
  import opened ErrorDetection
  import opened Modbus
  import opened LedPanel

  /** A frame handed to the display board's line, and whether the board took it. */
  datatype Sent = Sent(bytes: seq<bv8>, delivered: bool)

  datatype State = State(mask: Mask, log: seq<Sent>)

  /** One LED pass, or a command to another port (the running LED, the fan, the alarm output). */
  datatype Event =
    | Pass(voltages: Voltages, ledTaken: bool, alarmTaken: bool)
    | Command(port: bv8, state: bv8, taken: bool)
  {
    predicate Ok() {
      if Pass? then voltages.Complete() else port != ALARM_PORT
    }
  }

  function AlarmState(mask: Mask): bv8 {
    if mask != EMPTY then LIT else DARK
  }

  /** What one LED pass sends: nothing while the mask stays the same. */
  function PassSends(before: Mask, after: Mask, ledTaken: bool, alarmTaken: bool): seq<Sent> {
    if before == after then []
    else [Sent(LedFrame(after), ledTaken), Sent(ControlCommand(ALARM_PORT, AlarmState(after)), alarmTaken)]
  }

  function Next(s: State, e: Event): State
    requires e.Ok()
  {
    match e
    case Pass(v, ledTaken, alarmTaken) =>
      State(AbnormalMask(v), s.log + PassSends(s.mask, AbnormalMask(v), ledTaken, alarmTaken))
    case Command(port, state, taken) =>
      State(s.mask, s.log + [Sent(ControlCommand(port, state), taken)])
  }

  /** The three frames sent before the first pass. */
  function Startup(runningTaken: bool, alarmTaken: bool, ledTaken: bool): State {
    State(EMPTY, [Sent(ControlCommand(RUNNING_PORT, LIT), runningTaken),
                  Sent(ControlCommand(ALARM_PORT, DARK), alarmTaken),
                  Sent(LedFrame(EMPTY), ledTaken)])
  }

  predicate AllOk(events: seq<Event>) {
    forall i :: 0 <= i < |events| ==> events[i].Ok()
  }

  function After(s: State, events: seq<Event>): State
    requires AllOk(events)
  {
    if events == [] then s else Next(After(s, events[..|events| - 1]), events[|events| - 1])
  }

  // ---- The code ----

  class LtuManager {
    var ledStatusIndex: Mask
    var log: seq<Sent>

    ghost function Current(): State
      reads this
    {
      State(ledStatusIndex, log)
    }

    constructor (runningTaken: bool, alarmTaken: bool, ledTaken: bool)
      ensures Current() == Startup(runningTaken, alarmTaken, ledTaken)
      ensures ledStatusIndex == Mask(0) && log == [Sent(ControlCommand(2, 0), runningTaken),
                                                   Sent(ControlCommand(1, 1), alarmTaken),
                                                   Sent(LedFrame(Mask(0)), ledTaken)]
    {
      ledStatusIndex := EMPTY;
      log := [];
      new;
      hide LedFrame, ControlCommand;
      var r := SendRemoteControlCommand(RUNNING_PORT, LIT, runningTaken);
      r := SendRemoteControlCommand(ALARM_PORT, DARK, alarmTaken);
      NoLeds();
      r := ControlLEDGroup(0, 0, ledTaken);
    }

    /** The board's line: the frame goes out, and the answer is 0 exactly when it was taken. */
    method MeterGather(frame: seq<bv8>, taken: bool) returns (result: int)
      modifies this`log
      ensures log == old(log) + [Sent(frame, taken)]
      ensures result == 0 <==> taken
    {
      log := log + [Sent(frame, taken)];
      result := if taken then 0 else -1;
    }

    method ControlLEDGroup(index: bv32, status: bv32, taken: bool) returns (result: int)
      modifies this`log
      ensures log == old(log) + [Sent(FieldFrame(0x01, 0x07, LowHalf(index), LowHalf(status)) + [0, 0], taken)]
      ensures result == if taken then 0 else -1
    {
      hide FieldFrame, LowHalf;
      var buffer := new bv8[10](_ => 0);
      var length := CreateReadDataFrame(0x01, buffer, 0x07, index, status);
      assert buffer[8..] == [0, 0];
      assert buffer[..] == buffer[..8] + buffer[8..];
      result := MeterGather(buffer[..], taken);
      if result != 0 {
        result := -1;
      }
    }

    method SendRemoteControlCommand(port: bv8, state: bv8, taken: bool) returns (result: int)
      modifies this`log
      ensures log == old(log) + [Sent(ControlCommand(port, state), taken)]
      ensures result == if taken then 0 else -1
    {
      hide ControlFrame;
      var buffer := new bv8[10](_ => 0);
      var length := CreateControlFrame(buffer, port, state);
      assert buffer[8..] == [0, 0];
      assert buffer[..] == buffer[..8] + buffer[8..];
      result := MeterGather(buffer[..], taken);
      if result != 0 {
        result := -1;
      }
    }

    method MarkLed(ledIndex: nat, value: real)
      requires ledIndex < 32
      modifies this`ledStatusIndex
      ensures ledStatusIndex == Mark(old(ledStatusIndex), ledIndex, !IsVoltageNormal(value))
    {
      if !IsVoltageNormal(value) {
        ledStatusIndex := ledStatusIndex.Or(Flag(ledIndex));
      } else {
        ledStatusIndex := ledStatusIndex.AndNot(Flag(ledIndex));
      }
    }

    method UpdateTMUVoltageLEDs(v: Voltages)
      requires v.Complete()
      modifies this`ledStatusIndex
      ensures ledStatusIndex == Marked(old(ledStatusIndex), v, 0, 3)
      ensures forall k :: 0 <= k < 3 ==> (IsSet(ledStatusIndex, k) <==> v.tmu[k] < 110.0 || 300.0 < v.tmu[k])
      ensures forall k :: 3 <= k < 32 ==> (IsSet(ledStatusIndex, k) <==> IsSet(old(ledStatusIndex), k))
    {
      hide Mark, IsVoltageNormal, IsSet;
      TmuMarked(ledStatusIndex, v);
      for ledIndex := 0 to 3
        invariant ledStatusIndex == Marked(old(ledStatusIndex), v, 0, ledIndex)
      {
        MarkLed(ledIndex, v.tmu[ledIndex]);
      }
    }

    method UpdateLTUVoltageLEDs(v: Voltages)
      requires v.Complete()
      modifies this`ledStatusIndex
      ensures ledStatusIndex == Marked(old(ledStatusIndex), v, 3, LED_NUM)
      ensures forall i, j :: 0 <= i < 8 && 0 <= j < 3 ==>
                (IsSet(ledStatusIndex, 3 + 3 * i + j) <==> v.ltu[i][j] < 110.0 || 300.0 < v.ltu[i][j])
      ensures forall k :: 0 <= k < 3 || 27 <= k < 32 ==> (IsSet(ledStatusIndex, k) <==> IsSet(old(ledStatusIndex), k))
    {
      hide Mark, Voltages.At, IsVoltageNormal, IsSet;
      LtuMarked(ledStatusIndex, v);
      for i := 0 to LTU_DEVICE_NUM
        invariant ledStatusIndex == Marked(old(ledStatusIndex), v, 3, 3 + LTU_PHASE_NUM * i)
      {
        for j := 0 to LTU_PHASE_NUM
          invariant ledStatusIndex == Marked(old(ledStatusIndex), v, 3, 3 + LTU_PHASE_NUM * i + j)
        {
          var index := LTU_PHASE_NUM * i + j;
          var shift := index + 3;
          LtuVoltage(v, i, j);
          MarkLed(shift, v.ltu[i][j]);
        }
      }
    }

    /** One LED pass. The mask has no spare bits set: it starts at 0 and every pass keeps this. */
    method ControlLTULEDs(v: Voltages, ledTaken: bool, alarmTaken: bool) returns (result: int)
      requires v.Complete() && NoSpareBits(ledStatusIndex)
      modifies this
      ensures Current() == Next(old(Current()), Pass(v, ledTaken, alarmTaken))
      ensures NoSpareBits(ledStatusIndex) && result == 0
      ensures log == if ledStatusIndex == old(ledStatusIndex) then old(log)
                     else old(log) + [Sent(LedFrame(ledStatusIndex), ledTaken),
                                      Sent(ControlCommand(1, if ledStatusIndex == Mask(0) then 1 else 0), alarmTaken)]
    {
      hide Marked, AbnormalMask, NoSpareBits, FieldFrame, LowHalf, LedFrame, ControlCommand;
      var oldLedStatusIndex := ledStatusIndex;
      UpdateTMUVoltageLEDs(v);
      UpdateLTUVoltageLEDs(v);
      MarkedJoins(oldLedStatusIndex, v, 3, LED_NUM);
      PassForgets(oldLedStatusIndex, v);
      if oldLedStatusIndex != ledStatusIndex {
        oldLedStatusIndex := ledStatusIndex;
        LedFrameIs(ledStatusIndex);
        var r := ControlLEDGroup(ledStatusIndex.word >> 16, ledStatusIndex.word, ledTaken);
        if ledStatusIndex != EMPTY {
          r := SendRemoteControlCommand(ALARM_PORT, LIT, alarmTaken);
        } else {
          r := SendRemoteControlCommand(ALARM_PORT, DARK, alarmTaken);
        }
      }
      result := 0;
    }
  }

  lemma LedFrameIs(mask: Mask)
    ensures LedFrame(mask) == FieldFrame(0x01, 0x07, LowHalf(mask.word >> 16), LowHalf(mask.word)) + [0, 0]
  {
    hide FieldFrame, LowHalf;
  }

  lemma NoLeds()
    ensures LedFrame(EMPTY) == FieldFrame(0x01, 0x07, LowHalf(0), LowHalf(0)) + [0, 0]
  {
    assert HighHalf(0) == LowHalf(0);
  }

  // ---- What the display shows ----

  /** The mask of the last LED frame the board took. */
  function ShownMask(log: seq<Sent>): Option<Mask> {
    if log == [] then None
    else
      var last := log[|log| - 1];
      if last.delivered && IsLedFrame(last.bytes) then Some(CarriedMask(last.bytes)) else ShownMask(log[..|log| - 1])
  }

  /** Whether the last alarm command the board took lights the alarm LED. */
  function AlarmShown(log: seq<Sent>): Option<bool> {
    if log == [] then None
    else
      var last := log[|log| - 1];
      if last.delivered && IsAlarmFrame(last.bytes) then Some(last.bytes[5] == LIT) else AlarmShown(log[..|log| - 1])
  }

  function LedFrames(log: seq<Sent>): nat {
    if log == [] then 0
    else LedFrames(log[..|log| - 1]) + if IsLedFrame(log[|log| - 1].bytes) then 1 else 0
  }

  lemma LogGrows(log: seq<Sent>, next: Sent)
    ensures ShownMask(log + [next])
         == if next.delivered && IsLedFrame(next.bytes) then Some(CarriedMask(next.bytes)) else ShownMask(log)
    ensures AlarmShown(log + [next])
         == if next.delivered && IsAlarmFrame(next.bytes) then Some(next.bytes[5] == LIT) else AlarmShown(log)
    ensures LedFrames(log + [next]) == LedFrames(log) + if IsLedFrame(next.bytes) then 1 else 0
  {
    hide IsLedFrame, IsAlarmFrame, CarriedMask;
    assert (log + [next])[..|log|] == log;
  }

  lemma LedSent(log: seq<Sent>, mask: Mask, taken: bool)
    ensures ShownMask(log + [Sent(LedFrame(mask), taken)]) == if taken then Some(mask) else ShownMask(log)
    ensures AlarmShown(log + [Sent(LedFrame(mask), taken)]) == AlarmShown(log)
    ensures LedFrames(log + [Sent(LedFrame(mask), taken)]) == LedFrames(log) + 1
  {
    hide LedFrame, IsLedFrame, IsAlarmFrame, CarriedMask;
    LogGrows(log, Sent(LedFrame(mask), taken));
    LedFrameCarries(mask);
  }

  lemma CommandSent(log: seq<Sent>, port: bv8, state: bv8, taken: bool)
    ensures ShownMask(log + [Sent(ControlCommand(port, state), taken)]) == ShownMask(log)
    ensures AlarmShown(log + [Sent(ControlCommand(port, state), taken)])
         == if taken && port == ALARM_PORT then Some(state == LIT) else AlarmShown(log)
    ensures LedFrames(log + [Sent(ControlCommand(port, state), taken)]) == LedFrames(log)
  {
    hide ControlCommand, IsLedFrame, IsAlarmFrame, CarriedMask;
    LogGrows(log, Sent(ControlCommand(port, state), taken));
    AlarmCommandCarries(port, state);
  }

  // ---- Over whole runs, with any frames lost ----

  /** The voltages of the last pass. */
  function LastPass(events: seq<Event>): Option<Voltages> {
    if events == [] then None
    else
      var last := events[|events| - 1];
      if last.Pass? then Some(last.voltages) else LastPass(events[..|events| - 1])
  }

  lemma {:induction false} LastPassComplete(events: seq<Event>)
    requires AllOk(events)
    ensures LastPass(events).Some? ==> LastPass(events).value.Complete()
  {
    if events != [] { LastPassComplete(events[..|events| - 1]); }
  }

  /** After any run with a pass in it, LED `k` is set exactly when voltage `k` of the last pass was abnormal. */
  lemma {:induction false} MaskIsLastPass(s: State, events: seq<Event>, k: nat)
    requires AllOk(events) && LastPass(events).Some? && k < 32
    ensures LastPass(events).value.Complete()
    ensures IsSet(After(s, events).mask, k) <==> k < LED_NUM && !IsVoltageNormal(LastPass(events).value.At(k))
    decreases |events|
  {
    hide IsSet, AbnormalMask, IsVoltageNormal;
    LastPassComplete(events);
    var last := events[|events| - 1];
    if last.Pass? {
      AbnormalMaskBits(last.voltages, k);
    } else {
      MaskIsLastPass(s, events[..|events| - 1], k);
    }
  }

  /** The same in the voltages measured, and no LED beyond the 27 is ever set. */
  lemma MaskShowsVoltages(s: State, events: seq<Event>)
    requires AllOk(events) && LastPass(events).Some?
    ensures LastPass(events).value.Complete()
    ensures var v, mask := LastPass(events).value, After(s, events).mask;
      && (forall k :: 0 <= k < 3 ==> (IsSet(mask, k) <==> v.tmu[k] < 110.0 || 300.0 < v.tmu[k]))
      && (forall i, j :: 0 <= i < 8 && 0 <= j < 3 ==>
            (IsSet(mask, 3 + 3 * i + j) <==> v.ltu[i][j] < 110.0 || 300.0 < v.ltu[i][j]))
      && (forall k :: 27 <= k < 32 ==> !IsSet(mask, k))
  {
    hide IsSet, AbnormalMask, IsVoltageNormal, After;
    LastPassComplete(events);
    var v := LastPass(events).value;
    MaskOfVoltages(v);
    MaskIsPass(s, events);
  }

  lemma {:induction false} MaskIsPass(s: State, events: seq<Event>)
    requires AllOk(events) && LastPass(events).Some?
    ensures LastPass(events).value.Complete() && After(s, events).mask == AbnormalMask(LastPass(events).value)
  {
    hide AbnormalMask;
    LastPassComplete(events);
    if !events[|events| - 1].Pass? { MaskIsPass(s, events[..|events| - 1]); }
  }

  /** The last mask whose frame the board took, told from the run alone. */
  function TakenMask(s: State, events: seq<Event>): Option<Mask>
    requires AllOk(events)
  {
    if events == [] then ShownMask(s.log)
    else
      var before := events[..|events| - 1];
      var last := events[|events| - 1];
      if last.Pass? && AbnormalMask(last.voltages) != After(s, before).mask && last.ledTaken
      then Some(AbnormalMask(last.voltages))
      else TakenMask(s, before)
  }

  /** The alarm state of the last change of mask whose alarm command the board took. */
  function TakenAlarm(s: State, events: seq<Event>): Option<bool>
    requires AllOk(events)
  {
    if events == [] then AlarmShown(s.log)
    else
      var before := events[..|events| - 1];
      var last := events[|events| - 1];
      if last.Pass? && AbnormalMask(last.voltages) != After(s, before).mask && last.alarmTaken
      then Some(AbnormalMask(last.voltages) != EMPTY)
      else TakenAlarm(s, before)
  }

  function Changes(s: State, events: seq<Event>): nat
    requires AllOk(events)
  {
    if events == [] then 0
    else
      var before := events[..|events| - 1];
      Changes(s, before) + if After(s, events).mask != After(s, before).mask then 1 else 0
  }

  lemma StepShows(s: State, e: Event)
    requires e.Ok()
    ensures var changed := e.Pass? && AbnormalMask(e.voltages) != s.mask;
      && ShownMask(Next(s, e).log)
         == (if changed && e.ledTaken then Some(AbnormalMask(e.voltages)) else ShownMask(s.log))
      && AlarmShown(Next(s, e).log)
         == (if changed && e.alarmTaken then Some(AbnormalMask(e.voltages) != EMPTY) else AlarmShown(s.log))
      && LedFrames(Next(s, e).log) == LedFrames(s.log) + if changed then 1 else 0
  {
    hide AbnormalMask, LedFrame, ControlCommand, ShownMask, AlarmShown, LedFrames;
    match e
    case Pass(v, ledTaken, alarmTaken) =>
      var mask := AbnormalMask(v);
      if mask == s.mask {
        assert Next(s, e).log == s.log;
      } else {
        LedSent(s.log, mask, ledTaken);
        var log := s.log + [Sent(LedFrame(mask), ledTaken)];
        CommandSent(log, ALARM_PORT, AlarmState(mask), alarmTaken);
        assert Next(s, e).log == log + [Sent(ControlCommand(ALARM_PORT, AlarmState(mask)), alarmTaken)];
      }
    case Command(port, state, taken) =>
      CommandSent(s.log, port, state, taken);
  }

  /** After any run, whatever was lost, the display shows the last mask and alarm state that got
      through; LED frames are sent once for each change of the mask and never otherwise. */
  lemma {:induction false} DisplayShowsLastTaken(s: State, events: seq<Event>)
    requires AllOk(events)
    ensures ShownMask(After(s, events).log) == TakenMask(s, events)
    ensures AlarmShown(After(s, events).log) == TakenAlarm(s, events)
    ensures LedFrames(After(s, events).log) == LedFrames(s.log) + Changes(s, events)
    decreases |events|
  {
    hide AbnormalMask, Next, ShownMask, AlarmShown, LedFrames;
    if events != [] {
      var before := events[..|events| - 1];
      DisplayShowsLastTaken(s, before);
      StepShows(After(s, before), events[|events| - 1]);
      NextMask(After(s, before), events[|events| - 1]);
    }
  }

  lemma NextMask(s: State, e: Event)
    requires e.Ok()
    ensures Next(s, e).mask == if e.Pass? then AbnormalMask(e.voltages) else s.mask
  {
  }

  /** The display shows the mask the manager keeps, and the alarm LED is lit exactly when the mask is not empty. */
  predicate Agrees(s: State) {
    ShownMask(s.log) == Some(s.mask) && AlarmShown(s.log) == Some(s.mask != EMPTY)
  }

  lemma StartupShows(runningTaken: bool, alarmTaken: bool, ledTaken: bool)
    ensures ShownMask(Startup(runningTaken, alarmTaken, ledTaken).log) == if ledTaken then Some(EMPTY) else None
    ensures AlarmShown(Startup(runningTaken, alarmTaken, ledTaken).log) == if alarmTaken then Some(false) else None
  {
    hide LedFrame, ControlCommand, IsLedFrame, IsAlarmFrame;
    var log0 := [];
    CommandSent(log0, RUNNING_PORT, LIT, runningTaken);
    var log1 := log0 + [Sent(ControlCommand(RUNNING_PORT, LIT), runningTaken)];
    CommandSent(log1, ALARM_PORT, DARK, alarmTaken);
    var log2 := log1 + [Sent(ControlCommand(ALARM_PORT, DARK), alarmTaken)];
    LedSent(log2, EMPTY, ledTaken);
    assert Startup(runningTaken, alarmTaken, ledTaken).log == log2 + [Sent(LedFrame(EMPTY), ledTaken)];
  }

  predicate AllTaken(events: seq<Event>) {
    forall i :: 0 <= i < |events| && events[i].Pass? ==> events[i].ledTaken && events[i].alarmTaken
  }

  /** While every send of a pass gets through, the display agrees after every run, although
      frames are sent only on change. Commands to other ports may be lost. */
  lemma {:induction false} DisplayAgrees(runningTaken: bool, events: seq<Event>)
    requires AllOk(events) && AllTaken(events)
    ensures Agrees(After(Startup(runningTaken, true, true), events))
    decreases |events|
  {
    hide AbnormalMask, Next, ShownMask, AlarmShown, LedFrames, Startup;
    var start := Startup(runningTaken, true, true);
    if events == [] {
      StartupShows(runningTaken, true, true);
      StartupEmpty(runningTaken);
    } else {
      var before := events[..|events| - 1];
      DisplayAgrees(runningTaken, before);
      StepShows(After(start, before), events[|events| - 1]);
      NextMask(After(start, before), events[|events| - 1]);
    }
  }

  lemma StartupEmpty(runningTaken: bool)
    ensures Startup(runningTaken, true, true).mask == EMPTY
  {
  }

  /** A pass leaves the display in agreement exactly when each part that is now wrong is sent and taken:
      an unchanged mask sends nothing, so an earlier disagreement stays. */
  lemma PassAgreesIff(s: State, v: Voltages, ledTaken: bool, alarmTaken: bool)
    requires v.Complete()
    ensures Agrees(Next(s, Pass(v, ledTaken, alarmTaken)))
       <==> if AbnormalMask(v) == s.mask then Agrees(s)
            else && (ledTaken || ShownMask(s.log) == Some(AbnormalMask(v)))
                 && (alarmTaken || AlarmShown(s.log) == Some(AbnormalMask(v) != EMPTY))
  {
    hide AbnormalMask, Next, ShownMask, AlarmShown, LedFrames;
    StepShows(s, Pass(v, ledTaken, alarmTaken));
    NextMask(s, Pass(v, ledTaken, alarmTaken));
  }

  /** A lost LED frame is not sent again while the same voltages stay abnormal: the display then
      shows the earlier mask after every run of such passes, even if nothing else is lost. */
  lemma {:induction false} LostFrameStaysLost(s: State, v: Voltages, alarmTaken: bool, events: seq<Event>)
    requires Agrees(s) && v.Complete() && AbnormalMask(v) != s.mask
    requires AllOk(events)
    requires forall i, k :: 0 <= i < |events| && events[i].Pass? && 0 <= k < LED_NUM ==>
                              (events[i].voltages.Abnormal(k) <==> v.Abnormal(k))
    ensures var lost := Next(s, Pass(v, false, alarmTaken));
      && After(lost, events).mask == AbnormalMask(v)
      && ShownMask(After(lost, events).log) == Some(s.mask)
      && !Agrees(After(lost, events))
    decreases |events|
  {
    hide AbnormalMask, Next, ShownMask, AlarmShown, LedFrames, Voltages.Abnormal;
    var lost := Next(s, Pass(v, false, alarmTaken));
    if events == [] {
      StepShows(s, Pass(v, false, alarmTaken));
      NextMask(s, Pass(v, false, alarmTaken));
    } else {
      var before, last := events[..|events| - 1], events[|events| - 1];
      assert forall i :: 0 <= i < |before| ==> before[i] == events[i];
      LostFrameStaysLost(s, v, alarmTaken, before);
      if last.Pass? {
        assert forall k :: 0 <= k < LED_NUM ==> (events[|events| - 1].voltages.Abnormal(k) <==> v.Abnormal(k));
        SameMaskIff(last.voltages, v);
      }
      StepShows(After(lost, before), last);
      NextMask(After(lost, before), last);
    }
  }
}
