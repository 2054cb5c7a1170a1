/** The two CRC implementations of the repository: the table-driven one of the Modbus
    library and the bit-by-bit one of the LTU manager. Both are proved against `Crc`. */
module CrcCode {
  import opened Crc16

  // The lookup table, in the 32 rows of eight in which the source lists it.

  function TableRows0(r: nat): (row: seq<bv16>)
    ensures |row| == 8
  {
    if r == 0 then [0x0000, 0xC0C1, 0xC181, 0x0140, 0xC301, 0x03C0, 0x0280, 0xC241]
    else if r == 1 then [0xC601, 0x06C0, 0x0780, 0xC741, 0x0500, 0xC5C1, 0xC481, 0x0440]
    else if r == 2 then [0xCC01, 0x0CC0, 0x0D80, 0xCD41, 0x0F00, 0xCFC1, 0xCE81, 0x0E40]
    else if r == 3 then [0x0A00, 0xCAC1, 0xCB81, 0x0B40, 0xC901, 0x09C0, 0x0880, 0xC841]
    else if r == 4 then [0xD801, 0x18C0, 0x1980, 0xD941, 0x1B00, 0xDBC1, 0xDA81, 0x1A40]
    else if r == 5 then [0x1E00, 0xDEC1, 0xDF81, 0x1F40, 0xDD01, 0x1DC0, 0x1C80, 0xDC41]
    else if r == 6 then [0x1400, 0xD4C1, 0xD581, 0x1540, 0xD701, 0x17C0, 0x1680, 0xD641]
    else [0xD201, 0x12C0, 0x1380, 0xD341, 0x1100, 0xD1C1, 0xD081, 0x1040]
  }

  function TableRows1(r: nat): (row: seq<bv16>)
    ensures |row| == 8
  {
    if r == 8 then [0xF001, 0x30C0, 0x3180, 0xF141, 0x3300, 0xF3C1, 0xF281, 0x3240]
    else if r == 9 then [0x3600, 0xF6C1, 0xF781, 0x3740, 0xF501, 0x35C0, 0x3480, 0xF441]
    else if r == 10 then [0x3C00, 0xFCC1, 0xFD81, 0x3D40, 0xFF01, 0x3FC0, 0x3E80, 0xFE41]
    else if r == 11 then [0xFA01, 0x3AC0, 0x3B80, 0xFB41, 0x3900, 0xF9C1, 0xF881, 0x3840]
    else if r == 12 then [0x2800, 0xE8C1, 0xE981, 0x2940, 0xEB01, 0x2BC0, 0x2A80, 0xEA41]
    else if r == 13 then [0xEE01, 0x2EC0, 0x2F80, 0xEF41, 0x2D00, 0xEDC1, 0xEC81, 0x2C40]
    else if r == 14 then [0xE401, 0x24C0, 0x2580, 0xE541, 0x2700, 0xE7C1, 0xE681, 0x2640]
    else [0x2200, 0xE2C1, 0xE381, 0x2340, 0xE101, 0x21C0, 0x2080, 0xE041]
  }

  function TableRows2(r: nat): (row: seq<bv16>)
    ensures |row| == 8
  {
    if r == 16 then [0xA001, 0x60C0, 0x6180, 0xA141, 0x6300, 0xA3C1, 0xA281, 0x6240]
    else if r == 17 then [0x6600, 0xA6C1, 0xA781, 0x6740, 0xA501, 0x65C0, 0x6480, 0xA441]
    else if r == 18 then [0x6C00, 0xACC1, 0xAD81, 0x6D40, 0xAF01, 0x6FC0, 0x6E80, 0xAE41]
    else if r == 19 then [0xAA01, 0x6AC0, 0x6B80, 0xAB41, 0x6900, 0xA9C1, 0xA881, 0x6840]
    else if r == 20 then [0x7800, 0xB8C1, 0xB981, 0x7940, 0xBB01, 0x7BC0, 0x7A80, 0xBA41]
    else if r == 21 then [0xBE01, 0x7EC0, 0x7F80, 0xBF41, 0x7D00, 0xBDC1, 0xBC81, 0x7C40]
    else if r == 22 then [0xB401, 0x74C0, 0x7580, 0xB541, 0x7700, 0xB7C1, 0xB681, 0x7640]
    else [0x7200, 0xB2C1, 0xB381, 0x7340, 0xB101, 0x71C0, 0x7080, 0xB041]
  }

  function TableRows3(r: nat): (row: seq<bv16>)
    ensures |row| == 8
  {
    if r == 24 then [0x5000, 0x90C1, 0x9181, 0x5140, 0x9301, 0x53C0, 0x5280, 0x9241]
    else if r == 25 then [0x9601, 0x56C0, 0x5780, 0x9741, 0x5500, 0x95C1, 0x9481, 0x5440]
    else if r == 26 then [0x9C01, 0x5CC0, 0x5D80, 0x9D41, 0x5F00, 0x9FC1, 0x9E81, 0x5E40]
    else if r == 27 then [0x5A00, 0x9AC1, 0x9B81, 0x5B40, 0x9901, 0x59C0, 0x5880, 0x9841]
    else if r == 28 then [0x8801, 0x48C0, 0x4980, 0x8941, 0x4B00, 0x8BC1, 0x8A81, 0x4A40]
    else if r == 29 then [0x4E00, 0x8EC1, 0x8F81, 0x4F40, 0x8D01, 0x4DC0, 0x4C80, 0x8C41]
    else if r == 30 then [0x4400, 0x84C1, 0x8581, 0x4540, 0x8701, 0x47C0, 0x4680, 0x8641]
    else [0x8201, 0x42C0, 0x4380, 0x8341, 0x4100, 0x81C1, 0x8081, 0x4040]
  }

  function TableRow(r: nat): (row: seq<bv16>)
    requires r < 32
    ensures |row| == 8
  {
    if r < 8 then TableRows0(r) else if r < 16 then TableRows1(r)
    else if r < 24 then TableRows2(r) else TableRows3(r)
  }

  function TableEntry(i: bv8): bv16 {
    TableRow((i >> 3) as int)[(i & 7) as int]
  }

  /** Eight shifts of the register, written out. */
  function Shift8(w: bv16): bv16 {
    Register(w).Step().Step().Step().Step().Step().Step().Step().Step().word
  }

  lemma Shift8IsSteps(w: bv16)
    ensures Register(Shift8(w)) == Register(w).Steps(8)
  {
    var c4 := Register(w).Step().Step().Step().Step();
    assert c4.Steps(4) == c4.Step().Step().Steps(2);
    assert Register(w).Steps(8) == Register(w).Step().Step().Steps(6);
  }

  predicate EntryHolds(entry: bv16, i: bv8) {
    entry == Shift8(i as bv16)
  }

  /** The row that starts at index `first` holds the images of its eight indices. */
  predicate RowHolds(r: nat, first: bv8)
    requires r < 32
  {
    && EntryHolds(TableRow(r)[0], first) && EntryHolds(TableRow(r)[1], first ^ 1)
    && EntryHolds(TableRow(r)[2], first ^ 2) && EntryHolds(TableRow(r)[3], first ^ 3)
    && EntryHolds(TableRow(r)[4], first ^ 4) && EntryHolds(TableRow(r)[5], first ^ 5)
    && EntryHolds(TableRow(r)[6], first ^ 6) && EntryHolds(TableRow(r)[7], first ^ 7)
  }

  lemma Rows0()
    ensures RowHolds(0, 0x00) && RowHolds(1, 0x08)
    ensures RowHolds(2, 0x10) && RowHolds(3, 0x18)
  {
  }

  lemma Rows1()
    ensures RowHolds(4, 0x20) && RowHolds(5, 0x28)
    ensures RowHolds(6, 0x30) && RowHolds(7, 0x38)
  {
  }

  lemma Rows2()
    ensures RowHolds(8, 0x40) && RowHolds(9, 0x48)
    ensures RowHolds(10, 0x50) && RowHolds(11, 0x58)
  {
  }

  lemma Rows3()
    ensures RowHolds(12, 0x60) && RowHolds(13, 0x68)
    ensures RowHolds(14, 0x70) && RowHolds(15, 0x78)
  {
  }

  lemma Rows4()
    ensures RowHolds(16, 0x80) && RowHolds(17, 0x88)
    ensures RowHolds(18, 0x90) && RowHolds(19, 0x98)
  {
  }

  lemma Rows5()
    ensures RowHolds(20, 0xA0) && RowHolds(21, 0xA8)
    ensures RowHolds(22, 0xB0) && RowHolds(23, 0xB8)
  {
  }

  lemma Rows6()
    ensures RowHolds(24, 0xC0) && RowHolds(25, 0xC8)
    ensures RowHolds(26, 0xD0) && RowHolds(27, 0xD8)
  {
  }

  lemma Rows7()
    ensures RowHolds(28, 0xE0) && RowHolds(29, 0xE8)
    ensures RowHolds(30, 0xF0) && RowHolds(31, 0xF8)
  {
  }

  lemma Rows(r: bv8)
    requires r <= 31
    ensures RowHolds(r as int, r << 3)
  {
    hide RowHolds;
    if r <= 15 {
      if r <= 3 { Rows0(); assert r == 0 || r == 1 || r == 2 || r == 3; }
      else if r <= 7 { Rows1(); assert r == 4 || r == 5 || r == 6 || r == 7; }
      else if r <= 11 { Rows2(); assert r == 8 || r == 9 || r == 10 || r == 11; }
      else { Rows3(); assert r == 12 || r == 13 || r == 14 || r == 15; }
    } else {
      if r <= 19 { Rows4(); assert r == 16 || r == 17 || r == 18 || r == 19; }
      else if r <= 23 { Rows5(); assert r == 20 || r == 21 || r == 22 || r == 23; }
      else if r <= 27 { Rows6(); assert r == 24 || r == 25 || r == 26 || r == 27; }
      else { Rows7(); assert r == 28 || r == 29 || r == 30 || r == 31; }
    }
  }

  lemma RowEntry(r: nat, first: bv8, k: bv8)
    requires r < 32 && k <= 7 && RowHolds(r, first)
    ensures EntryHolds(TableRow(r)[k as int], first ^ k)
  {
    hide EntryHolds, TableRow;
    assert first ^ 0 == first;
    assert k == 0 || k == 1 || k == 2 || k == 3 || k == 4 || k == 5 || k == 6 || k == 7;
  }

  /** Entry `i` of the table is the register `i` after eight shifts. */
  lemma TableIsSteps(i: bv8)
    ensures Register(TableEntry(i)) == Register(i as bv16).Steps(8)
  {
    Rows(i >> 3);
    RowEntry((i >> 3) as int, (i >> 3) << 3, i & 7);
    assert ((i >> 3) << 3) ^ (i & 7) == i;
    Shift8IsSteps(i as bv16);
  }

  // ---- One round of the table loop ----

  function LowPart(c: Register): Register { Register(c.word & 0xFF) }

  function ShiftedDown8(c: Register): Register { Register(c.word >> 8) }

  /** The index the table loop computes. */
  function TableIndex(c: bv16, b: bv8): bv8 { ((c ^ (b as bv16)) & 0xFF) as bv8 }

  function HighPart(c: Register): Register { Register(c.word & 0xFF00) }

  lemma SplitBytes(c: Register)
    ensures HighPart(c).Plus(LowPart(c)) == c
  {
  }

  lemma HighPartSteps(c: Register)
    ensures HighPart(c).Steps(8) == ShiftedDown8(c)
  {
    assert (c.word & 0xFF00) & 0xFF == 0 && (c.word & 0xFF00) >> 8 == c.word >> 8;
    Steps8Shift(c.word & 0xFF00);
  }

  lemma SplitSteps(c: Register)
    ensures c.Steps(8) == ShiftedDown8(c).Plus(LowPart(c).Steps(8))
  {
    hide HighPart, LowPart, ShiftedDown8, Register.Plus, Register.Steps;
    SplitBytes(c);
    HighPartSteps(c);
    StepsLinear(HighPart(c), LowPart(c), 8);
  }

  lemma ByteLeavesHighPart(c: Register, b: bv8)
    ensures ShiftedDown8(c.Plus(Register(b as bv16))) == ShiftedDown8(c)
  {
  }

  lemma IndexIsLowPart(c: Register, b: bv8)
    ensures Register(TableIndex(c.word, b) as bv16) == LowPart(c.Plus(Register(b as bv16)))
  {
  }

  /** One round of the table loop is one byte taken in bit by bit. */
  lemma TableRound(c: bv16, b: bv8)
    ensures ShiftedDown8(Register(c)).Plus(Register(TableEntry(TableIndex(c, b)))) == Register(c).Update(b)
  {
    hide TableEntry, TableIndex, ShiftedDown8, LowPart, Register.Plus, Register.Steps;
    SplitSteps(Register(c).Plus(Register(b as bv16)));
    ByteLeavesHighPart(Register(c), b);
    IndexIsLowPart(Register(c), b);
    TableIsSteps(TableIndex(c, b));
  }

  /** The table-driven CRC of the Modbus library. */
  method CalculateCRC(data: seq<bv8>, length: nat) returns (crc: bv16)
    requires length <= |data|
    ensures Register(crc) == Crc(data[..length])
    ensures length == 0 ==> crc == 0xFFFF
    ensures length >= 2 ==> Register(crc) == CrcFrom(Register(0), [data[0] ^ 0xFF, data[1] ^ 0xFF] + data[2..length])
  {
    hide TableEntry, TableIndex, Register.Update;
    if length >= 2 { Inverted(data[..length], data, length); }
    crc := 0xFFFF;
    for i := 0 to length
      invariant Register(crc) == Crc(data[..i])
    {
      TableRound(crc, data[i]);
      assert data[..i + 1][..i] == data[..i];
      var index := TableIndex(crc, data[i]);
      crc := (crc >> 8) ^ TableEntry(index);
    }
  }

  lemma Inverted(data: seq<bv8>, from: seq<bv8>, length: nat)
    requires 2 <= length <= |from| && data == from[..length]
    ensures Crc(data) == CrcFrom(Register(0), [from[0] ^ 0xFF, from[1] ^ 0xFF] + from[2..length])
  {
    StartInverts(data);
    assert data[2..] == from[2..length];
  }

  /** One round of the table loop, as the code writes it. */
  predicate Round(c: bv16, b: bv8, next: bv16) {
    (c >> 8) ^ TableEntry(TableIndex(c, b)) == next
  }

  lemma RoundIs(data: seq<bv8>, c: bv16, b: bv8, next: bv16)
    requires CrcFrom(START, data) == Register(c) && Round(c, b, next)
    ensures CrcFrom(START, data + [b]) == Register(next)
  {
    hide TableEntry, TableIndex, Register.Update;
    TableRound(c, b);
    assert (data + [b])[..|data|] == data;
  }

  lemma SomeRounds()
    ensures Round(0xFFFF, 0x01, 0x807E) && Round(0x807E, 0x03, 0x2140) && Round(0x2140, 0x00, 0xF020)
    ensures Round(0xF020, 0x00, 0xD8F1) && Round(0xD8F1, 0x00, 0x8419) && Round(0x8419, 0x0A, 0xCDC5)
  {
  }

  /** A read of ten registers from device 1: the CRC of its six bytes is 0xCDC5. */
  lemma ReadRequestCrc()
    ensures Crc([0x01, 0x03, 0x00, 0x00, 0x00, 0x0A]) == Register(0xCDC5)
  {
    hide Round, CrcFrom;
    var body: seq<bv8> := [0x01, 0x03, 0x00, 0x00, 0x00, 0x0A];
    SomeRounds();
    StartOf(body);
    RoundIs(body[..0], 0xFFFF, 0x01, 0x807E);
    assert body[..0] + [0x01] == body[..1];
    RoundIs(body[..1], 0x807E, 0x03, 0x2140);
    assert body[..1] + [0x03] == body[..2];
    RoundIs(body[..2], 0x2140, 0x00, 0xF020);
    assert body[..2] + [0x00] == body[..3];
    RoundIs(body[..3], 0xF020, 0x00, 0xD8F1);
    assert body[..3] + [0x00] == body[..4];
    RoundIs(body[..4], 0xD8F1, 0x00, 0x8419);
    assert body[..4] + [0x00] == body[..5];
    RoundIs(body[..5], 0x8419, 0x0A, 0xCDC5);
    assert body[..5] + [0x0A] == body[..6];
    assert body[..6] == body;
  }

  lemma StartOf(body: seq<bv8>)
    ensures CrcFrom(START, body[..0]) == Register(0xFFFF)
  {
  }

  /** The inner loop of the bit-by-bit CRC: eight shifts of the register. */
  method ShiftEight(c: bv16) returns (crc: bv16)
    ensures Register(crc) == Register(c).Steps(8)
  {
    hide Register.Step;
    crc := c;
    for j := 0 to 8
      invariant Register(crc).Steps(8 - j) == Register(c).Steps(8)
    {
      StepBranches(crc);
      LowBit(crc);
      ghost var next := Register(crc).Step();
      var flag := crc & 0x0001;
      crc := crc >> 1;
      if flag != 0 {
        crc := crc ^ 0xA001;
      }
      assert Register(crc) == next;
    }
  }

  /** The bit-by-bit CRC of the LTU manager over `recvLen` bytes from `offset`. Its loop
      counter has 16 bits, so for more than 65535 bytes the original does not end. */
  method CalcCrc16B(recvLen: nat, recv: array<bv8>, offset: nat) returns (crc: bv16)
    requires recvLen <= 65535 && offset + recvLen <= recv.Length
    ensures recvLen <= offset ==> crc == 0
    ensures offset < recvLen ==> Register(crc) == Crc(recv[offset..offset + recvLen])
    ensures offset < recvLen && recvLen >= 2 ==>
              Register(crc) == CrcFrom(Register(0), [recv[offset] ^ 0xFF, recv[offset + 1] ^ 0xFF]
                                                    + recv[offset + 2..offset + recvLen])
  {
    hide Register.Steps;
    if recvLen <= offset {
      return 0;
    }
    crc := 0xFFFF;
    ghost var data := recv[offset..offset + recvLen];
    if recvLen >= 2 { Inverted(data, recv[offset..], recvLen); }
    for i := 0 to recvLen
      invariant Register(crc) == Crc(data[..i])
    {
      assert data[..i + 1][..i] == data[..i];
      crc := ShiftEight(crc ^ (recv[offset + i] as bv16));
    }
    assert data[..recvLen] == data;
  }
}
