/** Modbus RTU frames: the builders and the response parsers of the Modbus library.
    MODBUS Application Protocol V1.1b3, sections 6.3, 6.6 and 6.12. */
module Modbus {
  import opened Bytes
  import opened Crc16
  import opened CrcCode
  import opened ErrorDetection

  // ---- Frames as values ----

  /** A 16-bit field, high byte first. */
  function U16(value: bv16): (bytes: seq<bv8>)
    ensures |bytes| == 2
  {
    [Register(value).High(), Register(value).Low()]
  }

  /** `body` followed by its CRC, low byte first. */
  function WithCrc(body: seq<bv8>): (frame: seq<bv8>)
    ensures |frame| == |body| + 2
  {
    body + [Crc(body).Low(), Crc(body).High()]
  }

  function RegisterBytes(values: seq<bv16>): (bytes: seq<bv8>)
    ensures |bytes| == 2 * |values|
  {
    if values == [] then [] else RegisterBytes(values[..|values| - 1]) + U16(values[|values| - 1])
  }

  /** The shape shared by the read request, the write of one register and the answers to writes. */
  function FieldFrame(slave: bv8, code: bv8, first: bv16, second: bv16): seq<bv8> {
    WithCrc([slave, code] + U16(first) + U16(second))
  }

  function ReadRequest(slave: bv8, start: bv16, quantity: bv16): seq<bv8> {
    FieldFrame(slave, 0x03, start, quantity)
  }

  function WriteSingleRequest(slave: bv8, address: bv16, value: bv16): seq<bv8> {
    FieldFrame(slave, 0x06, address, value)
  }

  function WriteMultipleRequest(slave: bv8, start: bv16, values: seq<bv16>): seq<bv8> {
    WithCrc([slave, 0x10] + U16(start) + U16((|values| % 0x10000) as bv16)
            + [CountByte(2 * |values|)] + RegisterBytes(values))
  }

  /** The answer of a device to a read of `values`. */
  function ReadResponse(slave: bv8, values: seq<bv16>): seq<bv8>
    requires |values| <= 127
  {
    WithCrc([slave, 0x03, CountByte(2 * |values|)] + RegisterBytes(values))
  }

  /** Every frame that ends in its own CRC is accepted, and only such frames are. */
  lemma AcceptedIffWithCrc(f: seq<bv8>)
    ensures Accepted(f) <==> |f| >= 2 && f == WithCrc(f[..|f| - 2])
  {
    if |f| >= 2 {
      var body := f[..|f| - 2];
      WordOfBytes(Crc(body));
      BytesOfWord(f[|f| - 1], f[|f| - 2]);
      assert WithCrc(body)[|f| - 2] == Crc(body).Low() && WithCrc(body)[|f| - 1] == Crc(body).High();
      assert f == body + [f[|f| - 2], f[|f| - 1]];
    }
  }

  lemma WithCrcAccepted(body: seq<bv8>)
    ensures Accepted(WithCrc(body))
  {
    AcceptedIffWithCrc(WithCrc(body));
    assert WithCrc(body)[..|body|] == body;
  }

  // ---- What a frame says, byte by byte ----

  /** The number in two bytes, high byte first. */
  function Field(frame: seq<bv8>, index: nat): bv16
    requires index + 1 < |frame|
  {
    ((frame[index] as bv16) << 8) | (frame[index + 1] as bv16)
  }

  /** The CRC at the end of a frame, low byte first. */
  predicate EndsInCrc(frame: seq<bv8>) {
    && |frame| >= 2
    && ((frame[|frame| - 1] as bv16) << 8) | (frame[|frame| - 2] as bv16) == Crc(frame[..|frame| - 2]).word
  }

  /** The frame check is that of the CRC field, low byte first. */
  lemma AcceptedIffEndsInCrc(f: seq<bv8>)
    ensures Accepted(f) <==> EndsInCrc(f)
  {
    hide Crc;
  }

  lemma U16Bytes(value: bv16)
    ensures Field(U16(value), 0) == value
  {
  }

  lemma U16At(frame: seq<bv8>, index: nat, value: bv16)
    requires index + 1 < |frame| && [frame[index], frame[index + 1]] == U16(value)
    ensures Field(frame, index) == value
  {
    hide U16;
    U16Bytes(value);
    assert frame[index] == U16(value)[0] && frame[index + 1] == U16(value)[1];
  }

  lemma WithCrcEnds(body: seq<bv8>)
    ensures EndsInCrc(WithCrc(body))
  {
    hide Crc;
    CrcBytes(Crc(body));
    assert WithCrc(body)[..|body|] == body;
  }

  lemma CrcBytes(c: Register)
    ensures ((c.High() as bv16) << 8) | (c.Low() as bv16) == c.word
  {
  }

  /** Device, function code and the two fields of a frame, read back from its eight bytes. */
  lemma FieldFrameFields(slave: bv8, code: bv8, first: bv16, second: bv16)
    ensures var f := FieldFrame(slave, code, first, second);
      && |f| == 8 && f[0] == slave && f[1] == code && Field(f, 2) == first && Field(f, 4) == second && EndsInCrc(f)
  {
    hide U16, Crc, Field, EndsInCrc;
    var f := FieldFrame(slave, code, first, second);
    WithCrcEnds([slave, code] + U16(first) + U16(second));
    assert [f[2], f[3]] == U16(first) && [f[4], f[5]] == U16(second);
    U16At(f, 2, first);
    U16At(f, 4, second);
  }

  // ---- The frame check and the CRC field ----

  method VerifyCRC(data: seq<bv8>, length: nat) returns (ok: bool)
    requires length <= |data|
    ensures ok <==> Accepted(data[..length])
    ensures ok <==> EndsInCrc(data[..length])
  {
    AcceptedIffEndsInCrc(data[..length]);
    if length < 2 {
      return false;
    }
    var calculatedCRC := CalculateCRC(data, length - 2);
    var receivedCRC := ((data[length - 1] as bv16) << 8) | (data[length - 2] as bv16);
    assert data[..length][..length - 2] == data[..length - 2];
    ok := calculatedCRC == receivedCRC;
  }

  /** Fills the last two of `length` bytes with the CRC of those before them. */
  method AppendCRC(data: array<bv8>, length: nat)
    requires 2 <= length <= data.Length
    modifies data
    ensures data[..length] == WithCrc(old(data[..length - 2]))
    ensures data[length..] == old(data[length..])
  {
    var crc := CalculateCRC(data[..], length - 2);
    assert data[..][..length - 2] == data[..length - 2];
    data[length - 2] := (crc & 0xFF) as bv8;
    data[length - 1] := ((crc >> 8) & 0xFF) as bv8;
    assert data[..length] == data[..length - 2] + [data[length - 2], data[length - 1]];
  }

  method PushUint16(vec: seq<bv8>, value: bv16) returns (r: seq<bv8>)
    ensures r == vec + U16(value)
  {
    r := vec + [((value >> 8) & 0xFF) as bv8];
    r := r + [(value & 0xFF) as bv8];
  }

  /** The 16-bit field at `index`, or 0 when it does not fit. */
  function PopUint16(vec: seq<bv8>, index: nat): bv16 {
    if index + 1 >= |vec| then 0 else ((vec[index] as bv16) << 8) | (vec[index + 1] as bv16)
  }

  /** Closes a frame: two bytes are reserved and the CRC is filled in over the buffer. */
  method CloseFrame(body: seq<bv8>) returns (frame: seq<bv8>)
    ensures frame == WithCrc(body)
  {
    frame := body + [0x00];
    frame := frame + [0x00];
    var buffer := new bv8[|frame|](i requires 0 <= i < |frame| => frame[i]);
    assert buffer[..|body|] == body;
    AppendCRC(buffer, |frame|);
    frame := buffer[..];
    assert buffer[..] == buffer[..buffer.Length];
  }

  // ---- The builders ----

  method BuildReadHoldingRegistersFrame(slave: bv8, start: bv16, quantity: bv16) returns (frame: seq<bv8>)
    ensures frame == ReadRequest(slave, start, quantity)
    ensures |frame| == 8 && Accepted(frame) && EndsInCrc(frame)
    ensures frame[0] == slave && frame[1] == 0x03 && Field(frame, 2) == start && Field(frame, 4) == quantity
  {
    hide Field, EndsInCrc;
    FieldFrameFields(slave, 0x03, start, quantity);
    frame := [slave];
    frame := frame + [0x03];
    frame := PushUint16(frame, start);
    frame := PushUint16(frame, quantity);
    assert frame == [slave, 0x03] + U16(start) + U16(quantity);
    WithCrcAccepted(frame);
    frame := CloseFrame(frame);
  }

  method BuildWriteSingleRegisterFrame(slave: bv8, address: bv16, value: bv16) returns (frame: seq<bv8>)
    ensures frame == WriteSingleRequest(slave, address, value)
    ensures |frame| == 8 && Accepted(frame) && EndsInCrc(frame)
    ensures frame[0] == slave && frame[1] == 0x06 && Field(frame, 2) == address && Field(frame, 4) == value
  {
    hide Field, EndsInCrc;
    FieldFrameFields(slave, 0x06, address, value);
    frame := [slave];
    frame := frame + [0x06];
    frame := PushUint16(frame, address);
    frame := PushUint16(frame, value);
    assert frame == [slave, 0x06] + U16(address) + U16(value);
    WithCrcAccepted(frame);
    frame := CloseFrame(frame);
  }

  method BuildWriteMultipleRegistersFrame(slave: bv8, start: bv16, values: seq<bv16>) returns (frame: seq<bv8>)
    ensures frame == WriteMultipleRequest(slave, start, values)
    ensures |frame| == 9 + 2 * |values| && Accepted(frame)
  {
    hide U16;
    frame := [slave];
    frame := frame + [0x10];
    frame := PushUint16(frame, start);
    frame := PushUint16(frame, (|values| % 0x10000) as bv16);
    frame := frame + [CountByte(2 * |values|)];
    ghost var header := frame;
    assert header == [slave, 0x10] + U16(start) + U16((|values| % 0x10000) as bv16) + [CountByte(2 * |values|)];
    for i := 0 to |values|
      invariant frame == header + RegisterBytes(values[..i])
    {
      assert values[..i + 1][..i] == values[..i];
      frame := PushUint16(frame, values[i]);
    }
    assert values[..|values|] == values;
    WithCrcAccepted(frame);
    frame := CloseFrame(frame);
  }

  /** The parts of a write request, read back from its bytes. */
  lemma WriteMultipleFields(slave: bv8, start: bv16, values: seq<bv16>)
    ensures var f := WriteMultipleRequest(slave, start, values);
      && |f| == 9 + 2 * |values| && EndsInCrc(f)
      && f[0] == slave && f[1] == 0x10 && Field(f, 2) == start
      && Field(f, 4) == (|values| % 0x10000) as bv16 && Value(f[6]) == 2 * |values| % 0x100
      && forall k :: 0 <= k < |values| ==> Field(f, 7 + 2 * k) == values[k]
  {
    hide U16, Crc, Field, EndsInCrc, CountByte, Value, RegisterBytes;
    var f := WriteMultipleRequest(slave, start, values);
    var count := (|values| % 0x10000) as bv16;
    WithCrcEnds([slave, 0x10] + U16(start) + U16(count) + [CountByte(2 * |values|)] + RegisterBytes(values));
    assert [f[2], f[3]] == U16(start) && [f[4], f[5]] == U16(count);
    U16At(f, 2, start);
    U16At(f, 4, count);
    CountByteKeeps(2 * |values|);
    forall k | 0 <= k < |values|
      ensures Field(f, 7 + 2 * k) == values[k]
    {
      RegisterField(values, k);
      U16At(f, 7 + 2 * k, values[k]);
    }
  }

  lemma RegisterField(values: seq<bv16>, k: nat)
    requires k < |values|
    ensures [RegisterBytes(values)[2 * k], RegisterBytes(values)[2 * k + 1]] == U16(values[k])
  {
    RegisterBytesAt(values, k);
  }

  /** A write request names its own size in its byte count field exactly for at most 127 values. */
  lemma ByteCountFits(slave: bv8, start: bv16, values: seq<bv16>)
    ensures |WriteMultipleRequest(slave, start, values)| == 9 + 2 * |values|
    ensures Value(WriteMultipleRequest(slave, start, values)[6]) == 2 * |values| <==> |values| <= 127
  {
    hide U16, CountByte, Value;
    CountByteKeeps(2 * |values|);
    assert WriteMultipleRequest(slave, start, values)[6] == CountByte(2 * |values|);
  }

  // ---- The parsers ----

  /** The checks of a read response: length, CRC, function code, byte count. */
  predicate ReadResponseOk(response: seq<bv8>) {
    && |response| >= 5
    && Accepted(response)
    && response[1] == 0x03
    && |response| == Value(response[2]) + 5
  }

  /** The registers a good read response yields; an odd byte count is rounded up. */
  function ParsedRegisters(response: seq<bv8>): (registers: seq<bv16>)
    requires ReadResponseOk(response)
  {
    seq((Value(response[2]) + 1) / 2, k requires 0 <= k => PopUint16(response, 3 + 2 * k))
  }

  /** Reads a response into `registers`, which keep their value when it is rejected. */
  method ParseReadHoldingRegistersResponse(response: seq<bv8>, registers: seq<bv16>)
    returns (ok: bool, result: seq<bv16>)
    ensures ok <==> ReadResponseOk(response)
    ensures ok <==> && |response| >= 5 && EndsInCrc(response) && response[1] == 0x03
                    && |response| == Value(response[2]) + 5
    ensures ok ==> result == ParsedRegisters(response)
    ensures ok ==> |result| == (Value(response[2]) + 1) / 2
    ensures ok ==> forall k :: 0 <= k < |result| ==> result[k] == Field(response, 3 + 2 * k)
    ensures !ok ==> result == registers
  {
    hide Value, EndsInCrc;
    AcceptedIffEndsInCrc(response);
    result := registers;
    if |response| < 5 {
      return false, result;
    }
    var good := VerifyCRC(response, |response|);
    assert response[..|response|] == response;
    if !good {
      return false, result;
    }
    if response[1] != 0x03 {
      return false, result;
    }
    var byteCount := Value(response[2]);
    if |response| != byteCount + 5 {
      return false, result;
    }
    result := [];
    var i := 0;
    while i < byteCount
      invariant i % 2 == 0 && 0 <= i <= byteCount + 1
      invariant |result| == i / 2
      invariant forall k :: 0 <= k < |result| ==> result[k] == PopUint16(response, 3 + 2 * k)
    {
      result := result + [PopUint16(response, 3 + i)];
      i := i + 2;
    }
    ok := true;
  }

  /** The checks shared by the two write responses: exactly eight bytes, CRC, function code. */
  predicate WriteResponseOk(response: seq<bv8>, code: bv8) {
    |response| == 8 && Accepted(response) && response[1] == code
  }

  method ParseWriteSingleRegisterResponse(response: seq<bv8>, address: bv16, value: bv16)
    returns (ok: bool, address': bv16, value': bv16)
    ensures ok <==> WriteResponseOk(response, 0x06)
    ensures ok <==> |response| == 8 && EndsInCrc(response) && response[1] == 0x06
    ensures ok ==> address' == Field(response, 2) && value' == Field(response, 4)
    ensures !ok ==> address' == address && value' == value
  {
    hide EndsInCrc;
    AcceptedIffEndsInCrc(response);
    address', value' := address, value;
    if |response| != 8 {
      return false, address', value';
    }
    var good := VerifyCRC(response, |response|);
    assert response[..|response|] == response;
    if !good {
      return false, address', value';
    }
    if response[1] != 0x06 {
      return false, address', value';
    }
    return true, PopUint16(response, 2), PopUint16(response, 4);
  }

  method ParseWriteMultipleRegistersResponse(response: seq<bv8>, start: bv16, quantity: bv16)
    returns (ok: bool, start': bv16, quantity': bv16)
    ensures ok <==> WriteResponseOk(response, 0x10)
    ensures ok <==> |response| == 8 && EndsInCrc(response) && response[1] == 0x10
    ensures ok ==> start' == Field(response, 2) && quantity' == Field(response, 4)
    ensures !ok ==> start' == start && quantity' == quantity
  {
    hide EndsInCrc;
    AcceptedIffEndsInCrc(response);
    start', quantity' := start, quantity;
    if |response| != 8 {
      return false, start', quantity';
    }
    var good := VerifyCRC(response, |response|);
    assert response[..|response|] == response;
    if !good {
      return false, start', quantity';
    }
    if response[1] != 0x10 {
      return false, start', quantity';
    }
    return true, PopUint16(response, 2), PopUint16(response, 4);
  }

  // ---- Parsing undoes printing ----

  lemma {:induction false} RegisterBytesAt(values: seq<bv16>, k: nat)
    requires k < |values|
    ensures RegisterBytes(values)[2 * k] == Register(values[k]).High()
    ensures RegisterBytes(values)[2 * k + 1] == Register(values[k]).Low()
  {
    hide Register.High, Register.Low;
    if k < |values| - 1 {
      RegisterBytesAt(values[..|values| - 1], k);
    }
  }

  lemma PopIsWord(vec: seq<bv8>, index: nat)
    requires index + 1 < |vec|
    ensures Register(PopUint16(vec, index)) == Word(vec[index], vec[index + 1])
  {
  }

  /** A field printed and read back. */
  lemma PopOfU16(vec: seq<bv8>, index: nat, value: bv16)
    requires index + 1 < |vec|
    requires vec[index] == Register(value).High() && vec[index + 1] == Register(value).Low()
    ensures PopUint16(vec, index) == value
  {
    hide Register.High, Register.Low, Word, PopUint16;
    PopIsWord(vec, index);
    WordOfBytes(Register(value));
  }

  /** Parsing the response that carries `values` returns `values`. */
  lemma ReadResponseParses(slave: bv8, values: seq<bv16>)
    requires |values| <= 127
    ensures ReadResponseOk(ReadResponse(slave, values))
    ensures ParsedRegisters(ReadResponse(slave, values)) == values
  {
    hide Register.High, Register.Low, PopUint16, Accepted, CountByte, Value;
    var response := ReadResponse(slave, values);
    WithCrcAccepted([slave, 0x03, CountByte(2 * |values|)] + RegisterBytes(values));
    CountByteKeeps(2 * |values|);
    assert Value(response[2]) == 2 * |values|;
    forall k | 0 <= k < |values|
      ensures PopUint16(response, 3 + 2 * k) == values[k]
    {
      RegisterBytesAt(values, k);
      PopOfU16(response, 3 + 2 * k, values[k]);
    }
  }

  lemma WordAt(vec: seq<bv8>, index: nat)
    requires index + 1 < |vec|
    ensures vec[index] == Register(PopUint16(vec, index)).High()
    ensures vec[index + 1] == Register(PopUint16(vec, index)).Low()
  {
    hide Register.High, Register.Low, Word, PopUint16;
    PopIsWord(vec, index);
    BytesOfWord(vec[index], vec[index + 1]);
  }

  lemma ReadDataIsRegisters(response: seq<bv8>)
    requires ReadResponseOk(response) && Value(response[2]) % 2 == 0
    ensures response[3..|response| - 2] == RegisterBytes(ParsedRegisters(response))
  {
    hide Register.High, Register.Low, PopUint16, Accepted, RegisterBytes, Value;
    var registers, data := ParsedRegisters(response), response[3..|response| - 2];
    forall k | 0 <= k < |registers|
      ensures data[2 * k] == Register(registers[k]).High() && data[2 * k + 1] == Register(registers[k]).Low()
    {
      WordAt(response, 3 + 2 * k);
    }
    RegisterBytesUnique(data, registers);
  }

  /** An accepted read response of even byte count is the one printed from the registers read from it. */
  lemma ReadResponsePrints(response: seq<bv8>)
    requires ReadResponseOk(response) && Value(response[2]) % 2 == 0
    ensures |ParsedRegisters(response)| <= 127
    ensures response == ReadResponse(response[0], ParsedRegisters(response))
  {
    hide PopUint16, CountByte, RegisterBytes, WithCrc, Accepted, Value;
    var registers, n := ParsedRegisters(response), |response|;
    ReadDataIsRegisters(response);
    AcceptedIffWithCrc(response);
    CountByteUnique(response[2]);
    assert response[..n - 2] == [response[0], 0x03, response[2]] + response[3..n - 2];
  }

  lemma CountByteUnique(b: bv8)
    ensures CountByte(Value(b)) == b
  {
    hide CountByte, Value;
    CountByteKeeps(Value(b));
    SameByte(CountByte(Value(b)), b);
  }

  lemma RegisterBytesUnique(data: seq<bv8>, values: seq<bv16>)
    requires |data| == 2 * |values|
    requires forall k :: 0 <= k < |values| ==>
               data[2 * k] == Register(values[k]).High() && data[2 * k + 1] == Register(values[k]).Low()
    ensures data == RegisterBytes(values)
  {
    hide Register.High, Register.Low, RegisterBytes;
    forall i | 0 <= i < |data|
      ensures data[i] == RegisterBytes(values)[i]
    {
      RegisterBytesAt(values, i / 2);
    }
  }

  /** With an odd byte count the last register takes the low CRC byte for its low half. */
  lemma OddReadTakesCrcByte(response: seq<bv8>)
    requires ReadResponseOk(response) && Value(response[2]) % 2 == 1
    ensures var registers := ParsedRegisters(response);
            && |registers| > 0
            && Register(registers[|registers| - 1])
            == Word(response[|response| - 3], Crc(response[..|response| - 2]).Low())
  {
    hide PopUint16, Register.Low, Register.High, Word, Accepted, Value;
    var registers := ParsedRegisters(response);
    AcceptedIffWithCrc(response);
    PopIsWord(response, 3 + 2 * (|registers| - 1));
  }

  /** Two fields printed and read back: the echo of a write parses to its address and value. */
  lemma FieldFrameParses(slave: bv8, code: bv8, first: bv16, second: bv16)
    ensures WriteResponseOk(FieldFrame(slave, code, first, second), code)
    ensures PopUint16(FieldFrame(slave, code, first, second), 2) == first
    ensures PopUint16(FieldFrame(slave, code, first, second), 4) == second
  {
    hide Register.High, Register.Low, PopUint16, Accepted;
    var frame := FieldFrame(slave, code, first, second);
    WithCrcAccepted([slave, code] + U16(first) + U16(second));
    PopOfU16(frame, 2, first);
    PopOfU16(frame, 4, second);
  }

  /** No other frame parses to the same answer: an accepted one is the print of what is read from it. */
  lemma FieldFramePrints(response: seq<bv8>, code: bv8)
    requires WriteResponseOk(response, code)
    ensures response == FieldFrame(response[0], code, PopUint16(response, 2), PopUint16(response, 4))
  {
    hide Register.High, Register.Low, Word, PopUint16;
    AcceptedIffWithCrc(response);
    PopIsWord(response, 2);
    PopIsWord(response, 4);
    BytesOfWord(response[2], response[3]);
    BytesOfWord(response[4], response[5]);
    assert response[..6] == [response[0], code] + U16(PopUint16(response, 2)) + U16(PopUint16(response, 4));
  }
}
