/** The voltage LEDs of the LTU manager: a bit mask of abnormal voltages, sent to the display
    board only when it changes, and the alarm LED that goes with it. */
module LedPanel {
  import opened Basics
  import opened BitMask
  import opened Bytes
  import opened Crc16
  import opened CrcCode
  import opened ErrorDetection
  import opened Modbus

  const LTU_DEVICE_NUM := 8
  const LTU_PHASE_NUM := 3
  const LED_NUM := 27

  const RUNNING_PORT: bv8 := 2
  const ALARM_PORT: bv8 := 1
  const LIT: bv8 := 0
  const DARK: bv8 := 1

  predicate IsVoltageNormal(value: real) {
    110.0 <= value <= 300.0
  }

  /** The voltages of one pass: three of the TMU, then three of each LTU device. */
  datatype Voltages = Voltages(tmu: seq<real>, ltu: seq<seq<real>>) {

    predicate Complete() {
      && |tmu| == 3 && |ltu| == LTU_DEVICE_NUM
      && forall i :: 0 <= i < LTU_DEVICE_NUM ==> |ltu[i]| == LTU_PHASE_NUM
    }

    /** Voltage `k`, in the order of the LEDs. */
    function At(k: nat): real
      requires Complete() && k < LED_NUM
    {
      if k < 3 then tmu[k] else ltu[(k - 3) / LTU_PHASE_NUM][(k - 3) % LTU_PHASE_NUM]
    }

    predicate Abnormal(k: nat)
      requires Complete() && k < LED_NUM
    {
      !IsVoltageNormal(At(k))
    }
  }

  // ---- The mask ----

  function Mark(mask: Mask, k: nat, abnormal: bool): Mask
    requires k < 32
  {
    if abnormal then mask.Or(Flag(k)) else mask.AndNot(Flag(k))
  }

  /** The mask after the LEDs from `first` up to `end` have been looked at. */
  function Marked(mask: Mask, v: Voltages, first: nat, end: nat): Mask
    requires v.Complete() && first <= end <= LED_NUM
    decreases end
  {
    if end == first then mask else Mark(Marked(mask, v, first, end - 1), end - 1, v.Abnormal(end - 1))
  }

  /** The mask a complete pass leaves behind. */
  function AbnormalMask(v: Voltages): Mask
    requires v.Complete()
  {
    Marked(EMPTY, v, 0, LED_NUM)
  }

  predicate NoSpareBits(mask: Mask) {
    forall k :: LED_NUM <= k < 32 ==> !IsSet(mask, k)
  }

  lemma MarkBit(mask: Mask, k: nat, abnormal: bool, j: nat)
    requires k < 32 && j < 32
    ensures IsSet(Mark(mask, k, abnormal), j) <==> if j == k then abnormal else IsSet(mask, j)
  {
    hide IsSet, Flag, Mask.Or, Mask.AndNot;
    if abnormal { SetBit(mask, k, j); } else { ClearBit(mask, k, j); }
  }

  lemma {:induction false} MarkedBit(mask: Mask, v: Voltages, first: nat, end: nat, j: nat)
    requires v.Complete() && first <= end <= LED_NUM && j < 32
    ensures IsSet(Marked(mask, v, first, end), j) <==> if first <= j < end then v.Abnormal(j) else IsSet(mask, j)
    decreases end
  {
    hide IsSet, Mark, Voltages.At, IsVoltageNormal;
    if end != first {
      MarkedBit(mask, v, first, end - 1, j);
      MarkBit(Marked(mask, v, first, end - 1), end - 1, v.Abnormal(end - 1), j);
    }
  }

  lemma {:induction false} MarkedJoins(mask: Mask, v: Voltages, middle: nat, end: nat)
    requires v.Complete() && middle <= end <= LED_NUM
    ensures Marked(Marked(mask, v, 0, middle), v, middle, end) == Marked(mask, v, 0, end)
    decreases end
  {
    hide Mark;
    if end != middle { MarkedJoins(mask, v, middle, end - 1); }
  }

  /** LED `k` of the mask is set exactly when voltage `k` is abnormal; no other bit is. */
  lemma AbnormalMaskBits(v: Voltages, k: nat)
    requires v.Complete() && k < 32
    ensures IsSet(AbnormalMask(v), k) <==> k < LED_NUM && v.Abnormal(k)
  {
    hide IsSet, Marked, Voltages.At, IsVoltageNormal;
    MarkedBit(EMPTY, v, 0, LED_NUM, k);
    EmptyBits(k);
  }

  /** The mask in terms of the voltages measured: three bits of the TMU, then three of each LTU device. */
  lemma MaskOfVoltages(v: Voltages)
    requires v.Complete()
    ensures forall k :: 0 <= k < 3 ==> (IsSet(AbnormalMask(v), k) <==> v.tmu[k] < 110.0 || 300.0 < v.tmu[k])
    ensures forall i, j :: 0 <= i < 8 && 0 <= j < 3 ==>
              (IsSet(AbnormalMask(v), 3 + 3 * i + j) <==> v.ltu[i][j] < 110.0 || 300.0 < v.ltu[i][j])
    ensures forall k :: 27 <= k < 32 ==> !IsSet(AbnormalMask(v), k)
  {
    hide IsSet, AbnormalMask;
    forall k | 0 <= k < 32
      ensures IsSet(AbnormalMask(v), k) <==> k < LED_NUM && v.Abnormal(k)
    {
      AbnormalMaskBits(v, k);
    }
    forall i, j | 0 <= i < 8 && 0 <= j < 3
      ensures IsSet(AbnormalMask(v), 3 + 3 * i + j) <==> v.ltu[i][j] < 110.0 || 300.0 < v.ltu[i][j]
    {
      LtuVoltage(v, i, j);
    }
  }

  /** The bits of the TMU's three voltages; the rest stays. */
  lemma TmuMarked(mask: Mask, v: Voltages)
    requires v.Complete()
    ensures forall k :: 0 <= k < 3 ==> (IsSet(Marked(mask, v, 0, 3), k) <==> v.tmu[k] < 110.0 || 300.0 < v.tmu[k])
    ensures forall k :: 3 <= k < 32 ==> (IsSet(Marked(mask, v, 0, 3), k) <==> IsSet(mask, k))
  {
    hide IsSet, Marked;
    forall k | 0 <= k < 32
      ensures IsSet(Marked(mask, v, 0, 3), k) <==> if k < 3 then v.Abnormal(k) else IsSet(mask, k)
    {
      MarkedBit(mask, v, 0, 3, k);
    }
  }

  /** The bits of the LTU devices' voltages; the rest stays. */
  lemma LtuMarked(mask: Mask, v: Voltages)
    requires v.Complete()
    ensures forall i, j :: 0 <= i < 8 && 0 <= j < 3 ==>
              (IsSet(Marked(mask, v, 3, 27), 3 + 3 * i + j) <==> v.ltu[i][j] < 110.0 || 300.0 < v.ltu[i][j])
    ensures forall k :: 0 <= k < 3 || 27 <= k < 32 ==> (IsSet(Marked(mask, v, 3, 27), k) <==> IsSet(mask, k))
  {
    hide IsSet, Marked;
    forall k | 0 <= k < 32
      ensures IsSet(Marked(mask, v, 3, 27), k) <==> if 3 <= k < 27 then v.Abnormal(k) else IsSet(mask, k)
    {
      MarkedBit(mask, v, 3, 27, k);
    }
    forall i, j | 0 <= i < 8 && 0 <= j < 3
      ensures IsSet(Marked(mask, v, 3, 27), 3 + 3 * i + j) <==> v.ltu[i][j] < 110.0 || 300.0 < v.ltu[i][j]
    {
      LtuVoltage(v, i, j);
    }
  }

  lemma LtuVoltage(v: Voltages, i: nat, j: nat)
    requires v.Complete() && i < LTU_DEVICE_NUM && j < LTU_PHASE_NUM
    ensures v.At(LTU_PHASE_NUM * i + j + 3) == v.ltu[i][j]
  {
  }

  /** What the mask was before a pass does not matter, as long as its spare bits are clear. */
  lemma PassForgets(mask: Mask, v: Voltages)
    requires v.Complete() && NoSpareBits(mask)
    ensures Marked(mask, v, 0, LED_NUM) == AbnormalMask(v) && NoSpareBits(AbnormalMask(v))
  {
    hide IsSet, Marked, AbnormalMask, Voltages.At, IsVoltageNormal;
    forall k | 0 <= k < 32
      ensures IsSet(Marked(mask, v, 0, LED_NUM), k) <==> IsSet(AbnormalMask(v), k)
      ensures k >= LED_NUM ==> !IsSet(AbnormalMask(v), k)
    {
      MarkedBit(mask, v, 0, LED_NUM, k);
      AbnormalMaskBits(v, k);
    }
    SameBits(Marked(mask, v, 0, LED_NUM), AbnormalMask(v));
  }

  /** Two passes give the same mask exactly when they find the same voltages abnormal. */
  lemma SameMaskIff(v: Voltages, w: Voltages)
    requires v.Complete() && w.Complete()
    ensures AbnormalMask(v) == AbnormalMask(w)
       <==> forall k :: 0 <= k < LED_NUM ==> (v.Abnormal(k) <==> w.Abnormal(k))
  {
    hide IsSet, AbnormalMask, Voltages.At, IsVoltageNormal;
    forall k | 0 <= k < 32
      ensures IsSet(AbnormalMask(v), k) <==> k < LED_NUM && v.Abnormal(k)
      ensures IsSet(AbnormalMask(w), k) <==> k < LED_NUM && w.Abnormal(k)
    {
      AbnormalMaskBits(v, k);
      AbnormalMaskBits(w, k);
    }
    if forall k :: 0 <= k < LED_NUM ==> (v.Abnormal(k) <==> w.Abnormal(k)) {
      SameBits(AbnormalMask(v), AbnormalMask(w));
    }
    if AbnormalMask(v) == AbnormalMask(w) {
      forall k | 0 <= k < LED_NUM ensures v.Abnormal(k) <==> w.Abnormal(k) {
        assert IsSet(AbnormalMask(v), k) <==> IsSet(AbnormalMask(w), k);
      }
    }
  }

  /** The mask is empty exactly when every voltage is normal. */
  lemma EmptyMaskIff(v: Voltages)
    requires v.Complete()
    ensures AbnormalMask(v) == EMPTY <==> forall k :: 0 <= k < LED_NUM ==> IsVoltageNormal(v.At(k))
  {
    hide IsSet, AbnormalMask, Voltages.At, IsVoltageNormal;
    forall k | 0 <= k < 32
      ensures IsSet(AbnormalMask(v), k) <==> k < LED_NUM && v.Abnormal(k)
      ensures !IsSet(EMPTY, k)
    {
      AbnormalMaskBits(v, k);
      EmptyBits(k);
    }
    if forall k :: 0 <= k < LED_NUM ==> IsVoltageNormal(v.At(k)) {
      assert forall k :: 0 <= k < LED_NUM ==> !v.Abnormal(k);
      SameBits(AbnormalMask(v), EMPTY);
    }
    if AbnormalMask(v) == EMPTY {
      forall k | 0 <= k < LED_NUM ensures IsVoltageNormal(v.At(k)) {
        assert !IsSet(AbnormalMask(v), k);
      }
    }
  }

  // ---- Frames ----

  function LowHalf(w: bv32): bv16 { (w & 0xFFFF) as bv16 }

  function HighHalf(w: bv32): bv16 { LowHalf(w >> 16) }

  /** The frame that carries a mask: address 1, function 7, the mask big-endian, two spare bytes. */
  function LedFrame(mask: Mask): seq<bv8> {
    FieldFrame(0x01, 0x07, HighHalf(mask.word), LowHalf(mask.word)) + [0, 0]
  }

  function Sum(bytes: seq<bv8>): bv8 {
    if bytes == [] then 0 else Sum(bytes[..|bytes| - 1]) + bytes[|bytes| - 1]
  }

  function ControlBody(port: bv8, state: bv8): seq<bv8> {
    [0x68, 0x28, 0x03, port, 0x63, state]
  }

  function ControlFrame(port: bv8, state: bv8): seq<bv8> {
    ControlBody(port, state) + [Sum(ControlBody(port, state)), 0x16]
  }

  function ControlCommand(port: bv8, state: bv8): seq<bv8> {
    ControlFrame(port, state) + [0, 0]
  }

  /** The mask a display board finds in bytes 2 to 5 of a frame. */
  function CarriedMask(bytes: seq<bv8>): Mask
    requires |bytes| == 10
  {
    Joined(Word(bytes[2], bytes[3]), Word(bytes[4], bytes[5]))
  }

  function Joined(high: Register, low: Register): Mask {
    Mask(((high.word as bv32) << 16) | (low.word as bv32))
  }

  predicate IsLedFrame(bytes: seq<bv8>) {
    |bytes| == 10 && bytes[0] == 0x01 && bytes[1] == 0x07 && Accepted(bytes[..8])
  }

  predicate IsAlarmFrame(bytes: seq<bv8>) {
    && |bytes| == 10 && bytes[0] == 0x68 && bytes[3] == ALARM_PORT
    && bytes[6] == Sum(bytes[..6]) && bytes[7] == 0x16
  }

  lemma HalvesJoin(w: bv32)
    ensures ((HighHalf(w) as bv32) << 16) | (LowHalf(w) as bv32) == w
  {
  }

  lemma JoinedHalves(w: bv32)
    ensures Joined(Register(HighHalf(w)), Register(LowHalf(w))) == Mask(w)
  {
    hide HighHalf, LowHalf;
    HalvesJoin(w);
  }

  lemma FieldFrameBytes(addr: bv8, func: bv8, first: bv16, second: bv16)
    ensures var f := FieldFrame(addr, func, first, second);
      && |f| == 8 && Accepted(f) && f[0] == addr && f[1] == func
      && Word(f[2], f[3]) == Register(first) && Word(f[4], f[5]) == Register(second)
  {
    hide Accepted, Crc, Word, Register.High, Register.Low;
    WithCrcAccepted([addr, func] + U16(first) + U16(second));
    WordOfBytes(Register(first));
    WordOfBytes(Register(second));
  }

  /** The frame sent for a mask is a Modbus frame the checks accept, and carries exactly that mask. */
  lemma LedFrameCarries(mask: Mask)
    ensures IsLedFrame(LedFrame(mask)) && CarriedMask(LedFrame(mask)) == mask
    ensures !IsAlarmFrame(LedFrame(mask))
  {
    hide Accepted, Word, FieldFrame, HighHalf, LowHalf, Joined, Sum;
    var frame := FieldFrame(0x01, 0x07, HighHalf(mask.word), LowHalf(mask.word));
    FieldFrameBytes(0x01, 0x07, HighHalf(mask.word), LowHalf(mask.word));
    assert LedFrame(mask)[..8] == frame;
    JoinedHalves(mask.word);
  }

  /** The frame for a mask, field by field: the mask in bytes 2 to 5, high byte first, then the CRC. */
  lemma LedFrameFields(mask: Mask)
    ensures var f := LedFrame(mask);
      && |f| == 10 && f[0] == 0x01 && f[1] == 0x07 && f[8] == 0 && f[9] == 0
      && Field(f, 2) == (mask.word >> 16) as bv16 && Field(f, 4) == (mask.word & 0xFFFF) as bv16
      && EndsInCrc(f[..8])
  {
    hide Field, EndsInCrc, FieldFrame, HighHalf, LowHalf;
    FieldFrameFields(0x01, 0x07, HighHalf(mask.word), LowHalf(mask.word));
    var frame := FieldFrame(0x01, 0x07, HighHalf(mask.word), LowHalf(mask.word));
    assert LedFrame(mask)[..8] == frame;
    SameField(LedFrame(mask), frame, 2);
    SameField(LedFrame(mask), frame, 4);
    HalvesAre(mask.word);
  }

  lemma SameField(a: seq<bv8>, b: seq<bv8>, index: nat)
    requires index + 1 < |b| <= |a| && a[..|b|] == b
    ensures Field(a, index) == Field(b, index)
  {
    assert a[index] == b[index] && a[index + 1] == b[index + 1];
  }

  lemma HalvesAre(w: bv32)
    ensures HighHalf(w) == (w >> 16) as bv16 && LowHalf(w) == (w & 0xFFFF) as bv16
  {
  }

  /** A control command, byte by byte; its check sum is that of the six bytes before it. */
  lemma ControlCommandBytes(port: bv8, state: bv8)
    ensures var c := ControlCommand(port, state);
      && |c| == 10 && c[..6] == [0x68, 0x28, 0x03, port, 0x63, state] && c[7..] == [0x16, 0x00, 0x00]
      && Value(c[6]) == (0x68 + 0x28 + 0x03 + Value(port) + 0x63 + Value(state)) % 0x100
  {
    hide Sum, Value, Total;
    var body := ControlBody(port, state);
    assert ControlCommand(port, state) == body + [Sum(body), 0x16, 0x00, 0x00];
    SumIsTotal(body);
    BodyTotal(port, state);
  }

  lemma BodyTotal(port: bv8, state: bv8)
    ensures Total(ControlBody(port, state)) == 0x68 + 0x28 + 0x03 + Value(port) + 0x63 + Value(state)
  {
    hide Value, Total;
    var body := ControlBody(port, state);
    TotalNone(body);
    TotalNext(body, 0);
    TotalNext(body, 1);
    TotalNext(body, 2);
    TotalNext(body, 3);
    TotalNext(body, 4);
    TotalNext(body, 5);
    assert body[..6] == body;
    FixedValues();
  }

  lemma TotalNone(bytes: seq<bv8>)
    ensures Total(bytes[..0]) == 0
  {
  }

  lemma TotalNext(bytes: seq<bv8>, n: nat)
    requires n < |bytes|
    ensures Total(bytes[..n + 1]) == Total(bytes[..n]) + Value(bytes[n])
  {
    assert bytes[..n + 1][..n] == bytes[..n];
  }

  lemma FixedValues()
    ensures Value(0x68) == 0x68 && Value(0x28) == 0x28 && Value(0x03) == 0x03 && Value(0x63) == 0x63
  {
  }

  /** The check sum is the sum of the bytes modulo 256. */
  lemma {:induction false} SumIsTotal(bytes: seq<bv8>)
    ensures Value(Sum(bytes)) == Total(bytes) % 0x100
  {
    hide Value, Added, Sum;
    SumSteps(bytes);
    if bytes == [] {
      ValueCounts(0);
    } else {
      var n := |bytes| - 1;
      SumIsTotal(bytes[..n]);
      AddedValue(Sum(bytes[..n]), bytes[n]);
      WrapByteSum(Total(bytes[..n]), Value(bytes[n]));
    }
  }

  lemma WrapByteSum(a: nat, b: nat)
    ensures (a % 0x100 + b) % 0x100 == (a + b) % 0x100
  {
  }

  lemma SumSteps(bytes: seq<bv8>)
    ensures Sum(bytes) == if bytes == [] then 0 else Added(Sum(bytes[..|bytes| - 1]), bytes[|bytes| - 1])
  {
  }

  lemma AlarmCommandCarries(port: bv8, state: bv8)
    ensures IsAlarmFrame(ControlCommand(port, state)) <==> port == ALARM_PORT
    ensures ControlCommand(port, state)[5] == state && !IsLedFrame(ControlCommand(port, state))
  {
    hide Sum, Accepted;
    assert ControlCommand(port, state)[..6] == ControlBody(port, state);
  }

  /** With function 3 the LTU manager's frame is the read request of the Modbus library. */
  lemma ReadDataFrameIsReadRequest(addr: bv8, dataItem: bv32, itemLen: bv32)
    ensures FieldFrame(addr, 0x03, LowHalf(dataItem), LowHalf(itemLen))
         == ReadRequest(addr, LowHalf(dataItem), LowHalf(itemLen))
    ensures Accepted(FieldFrame(addr, 0x03, LowHalf(dataItem), LowHalf(itemLen)))
  {
    hide Accepted, WithCrc, LowHalf;
    WithCrcAccepted([addr, 0x03] + U16(LowHalf(dataItem)) + U16(LowHalf(itemLen)));
  }

  // ---- Building the frames ----

  /** What a store to a byte keeps of a wider value. */
  function ToByte(w: bv32): bv8 { (w & 0xFF) as bv8 }

  function NextByte(w: bv32): bv8 { ToByte(w >> 8) }

  lemma HalfBytes(w: bv32)
    ensures U16(LowHalf(w)) == [NextByte(w), ToByte(w)]
  {
  }

  function FrameBody(addr: bv8, func: bv8, dataItem: bv32, itemLen: bv32): seq<bv8> {
    [addr, func, NextByte(dataItem), ToByte(dataItem), NextByte(itemLen), ToByte(itemLen)]
  }

  lemma FrameBodyIs(addr: bv8, func: bv8, dataItem: bv32, itemLen: bv32)
    ensures WithCrc(FrameBody(addr, func, dataItem, itemLen))
         == FieldFrame(addr, func, LowHalf(dataItem), LowHalf(itemLen))
    ensures Accepted(WithCrc(FrameBody(addr, func, dataItem, itemLen)))
  {
    hide U16, LowHalf, ToByte, NextByte, WithCrc, Accepted;
    HalfBytes(dataItem);
    HalfBytes(itemLen);
    var body := FrameBody(addr, func, dataItem, itemLen);
    assert body == [addr, func] + U16(LowHalf(dataItem)) + U16(LowHalf(itemLen));
    WithCrcAccepted(body);
  }

  /** The six bytes before the CRC. */
  method FillFields(addr: bv8, buff: array<bv8>, func: bv8, dataItem: bv32, itemLen: bv32)
    requires buff.Length >= 8
    modifies buff
    ensures buff[..6] == FrameBody(addr, func, dataItem, itemLen) && buff[8..] == old(buff[8..])
  {
    hide ToByte, NextByte;
    buff[0] := addr;
    buff[1] := func;
    buff[2] := NextByte(dataItem);
    buff[3] := ToByte(dataItem);
    buff[4] := NextByte(itemLen);
    buff[5] := ToByte(itemLen);
  }

  /** Fills eight bytes of the buffer; both fields are cut to 16 bits. */
  method CreateReadDataFrame(addr: bv8, buff: array<bv8>, func: bv8, dataItem: bv32, itemLen: bv32)
    returns (length: nat)
    requires buff.Length >= 8
    modifies buff
    ensures length == 8
    ensures buff[..8] == FieldFrame(addr, func, LowHalf(dataItem), LowHalf(itemLen)) && Accepted(buff[..8])
    ensures buff[0] == addr && buff[1] == func && EndsInCrc(buff[..8])
    ensures Field(buff[..8], 2) == (dataItem & 0xFFFF) as bv16 && Field(buff[..8], 4) == (itemLen & 0xFFFF) as bv16
    ensures buff[8..] == old(buff[8..])
  {
    hide LowHalf, Accepted, Crc, Register.Low, Register.High, FrameBody, FieldFrame, Field, EndsInCrc;
    FieldFrameFields(addr, func, LowHalf(dataItem), LowHalf(itemLen));
    HalvesAre(dataItem);
    HalvesAre(itemLen);
    FillFields(addr, buff, func, dataItem, itemLen);
    FrameBodyIs(addr, func, dataItem, itemLen);
    ghost var body := FrameBody(addr, func, dataItem, itemLen);
    assert buff[0..0 + 6] == buff[..6];
    var crc16 := CalcCrc16B(6, buff, 0);
    buff[6] := Register(crc16).Low();
    buff[7] := Register(crc16).High();
    assert buff[..6] == body;
    assert buff[..8] == buff[..6] + [buff[6], buff[7]];
    length := 8;
  }

  method GetCheckSum(buff: array<bv8>, length: nat) returns (sum: bv8)
    requires length <= buff.Length
    ensures sum == Sum(buff[..length]) && Value(sum) == Total(buff[..length]) % 0x100
  {
    hide Value;
    SumIsTotal(buff[..length]);
    sum := 0;
    for i := 0 to length
      invariant sum == Sum(buff[..i])
    {
      assert buff[..i + 1][..i] == buff[..i];
      sum := sum + buff[i];
    }
  }

  /** Fills eight bytes of the buffer with a control frame; a null buffer is refused. */
  method CreateControlFrame(buffer: array?<bv8>, port: bv8, state: bv8) returns (length: int)
    requires buffer != null ==> buffer.Length >= 8
    modifies buffer
    ensures buffer == null ==> length == -1
    ensures buffer != null ==> length == 8 && buffer[..8] == ControlFrame(port, state)
    ensures buffer != null ==> buffer[8..] == old(buffer[8..])
  {
    if buffer == null {
      return -1;
    }
    var apsub := 0;
    buffer[apsub], apsub := 0x68, apsub + 1;
    buffer[apsub], apsub := 0x28, apsub + 1;
    buffer[apsub], apsub := 0x03, apsub + 1;
    buffer[apsub], apsub := port, apsub + 1;
    buffer[apsub], apsub := 0x63, apsub + 1;
    buffer[apsub], apsub := state, apsub + 1;
    assert buffer[..6] == ControlBody(port, state);
    var checksum := GetCheckSum(buffer, apsub);
    buffer[apsub], apsub := checksum, apsub + 1;
    buffer[apsub], apsub := 0x16, apsub + 1;
    assert buffer[..6] == ControlBody(port, state);
    assert buffer[..8] == buffer[..6] + [buffer[6], buffer[7]];
    length := apsub;
  }
}
