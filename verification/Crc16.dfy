/** The CRC-16 of Modbus RTU (polynomial 0xA001, reflected; start value 0xFFFF):
    one shift step as a linear map on the 16-bit register, and the CRC of a byte
    string built from it.
    MODBUS over Serial Line V1.02, sections 2.5.1.2 and 6.2.2. */
module Crc16 {

  /** One shift. The bit shifted out lands on bits 15, 13 and 0 of the result, which
      are the bits of the polynomial; `StepBranches` gives the branching form. */
  function StepWord(w: bv16): bv16 {
    (w >> 1) ^ (w << 15) ^ ((w & 1) << 13) ^ (w & 1)
  }

  /** The 16-bit shift register. */
  datatype Register = Register(word: bv16) {

    function Plus(other: Register): Register {
      Register(word ^ other.word)
    }

    function Step(): Register {
      Register(StepWord(word))
    }

    function Steps(n: nat): Register
      decreases n
    {
      if n == 0 then this else Step().Steps(n - 1)
    }

    /** Taking in one data byte. */
    function Update(b: bv8): Register {
      Plus(Register(b as bv16)).Steps(8)
    }

    function Low(): bv8 { (word & 0xFF) as bv8 }

    function High(): bv8 { ((word >> 8) & 0xFF) as bv8 }
  }

  const ZERO := Register(0)
  const START := Register(0xFFFF)

  /** The register after `data`, starting from `seed`. */
  function CrcFrom(seed: Register, data: seq<bv8>): Register {
    if data == [] then seed else CrcFrom(seed, data[..|data| - 1]).Update(data[|data| - 1])
  }

  function Crc(data: seq<bv8>): Register {
    CrcFrom(START, data)
  }

  /** Bytewise exclusive or of two strings of the same length. */
  function Xor(a: seq<bv8>, b: seq<bv8>): (r: seq<bv8>)
    requires |a| == |b|
    ensures |r| == |a|
  {
    seq(|a|, i requires 0 <= i < |a| => a[i] ^ b[i])
  }

  function Word(high: bv8, low: bv8): Register {
    Register(((high as bv16) << 8) | (low as bv16))
  }

  // ---- The register under exclusive or ----

  lemma PlusZero(x: Register, y: Register)
    ensures x.Plus(y) == ZERO <==> x == y
  {
  }

  lemma PlusRegroup(c: Register, d: Register, a: bv8, b: bv8)
    ensures c.Plus(d).Plus(Register((a ^ b) as bv16))
         == c.Plus(Register(a as bv16)).Plus(d.Plus(Register(b as bv16)))
  {
  }

  lemma WordOfBytes(c: Register)
    ensures Word(c.High(), c.Low()) == c
  {
  }

  lemma BytesOfWord(high: bv8, low: bv8)
    ensures Word(high, low).High() == high && Word(high, low).Low() == low
  {
  }

  // ---- The step is linear and injective ----

  lemma LowBit(w: bv16)
    ensures w & 1 == 1 || w & 1 == 0
  {
  }

  /** The step as the bit-by-bit code writes it. */
  lemma StepBranches(w: bv16)
    ensures w & 1 == 1 ==> Register(w).Step() == Register((w >> 1) ^ 0xA001)
    ensures w & 1 == 0 ==> Register(w).Step() == Register(w >> 1)
  {
    if w & 1 == 1 {
      assert (w << 15) ^ ((w & 1) << 13) ^ (w & 1) == 0xA001;
    }
  }

  lemma StepLinear(x: Register, y: Register)
    ensures x.Plus(y).Step() == x.Step().Plus(y.Step())
  {
  }

  lemma {:induction false} StepsLinear(x: Register, y: Register, n: nat)
    ensures x.Plus(y).Steps(n) == x.Steps(n).Plus(y.Steps(n))
    decreases n
  {
    if n > 0 {
      StepLinear(x, y);
      StepsLinear(x.Step(), y.Step(), n - 1);
    }
  }

  lemma StepZero(c: Register)
    ensures c.Step() == ZERO <==> c == ZERO
  {
  }

  /** No number of shifts turns a nonzero register into zero. */
  lemma {:induction false} StepsZero(c: Register, n: nat)
    ensures c.Steps(n) == ZERO <==> c == ZERO
    decreases n
  {
    if n > 0 {
      StepZero(c);
      StepsZero(c.Step(), n - 1);
    }
  }

  lemma StepsInjective(x: Register, y: Register, n: nat)
    requires x.Steps(n) == y.Steps(n)
    ensures x == y
  {
    StepsLinear(x, y, n);
    StepsZero(x.Plus(y), n);
    PlusZero(x.Steps(n), y.Steps(n));
    PlusZero(x, y);
  }

  lemma {:induction false} StepsAdd(c: Register, m: nat, n: nat)
    ensures c.Steps(m + n) == c.Steps(m).Steps(n)
    decreases m
  {
    if m > 0 {
      StepsAdd(c.Step(), m - 1, n);
    }
  }

  lemma {:induction false} StepsShift(w: bv16, n: nat)
    requires ShiftsOut(w, n)
    ensures Register(w).Steps(n) == Register(ShiftedDown(w, n))
    decreases n
  {
    if n > 0 {
      StepBranches(w);
      StepsShift(w >> 1, n - 1);
    }
  }

  /** The lowest `n` bits of `w` are clear. */
  predicate ShiftsOut(w: bv16, n: nat)
    decreases n
  {
    n == 0 || (w & 1 == 0 && ShiftsOut(w >> 1, n - 1))
  }

  function ShiftedDown(w: bv16, n: nat): bv16
    decreases n
  {
    if n == 0 then w else ShiftedDown(w >> 1, n - 1)
  }

  /** Eight shifts of a word whose low byte is clear only move its high byte down. */
  lemma Steps8Shift(w: bv16)
    requires w & 0xFF == 0
    ensures Register(w).Steps(8) == Register(w >> 8)
  {
    assert ShiftsOut(w >> 6, 2) && ShiftedDown(w >> 6, 2) == w >> 8;
    assert ShiftsOut(w >> 4, 4) && ShiftedDown(w >> 4, 4) == w >> 8;
    assert ShiftsOut(w >> 2, 6) && ShiftedDown(w >> 2, 6) == w >> 8;
    StepsShift(w, 8);
  }

  // ---- The CRC of a byte string ----

  lemma UpdateLinear(c: Register, d: Register, a: bv8, b: bv8)
    ensures c.Plus(d).Update(a ^ b) == c.Update(a).Plus(d.Update(b))
  {
    PlusRegroup(c, d, a, b);
    StepsLinear(c.Plus(Register(a as bv16)), d.Plus(Register(b as bv16)), 8);
  }

  /** The CRC is linear in start value and data together. */
  lemma {:induction false} CrcLinear(s: Register, t: Register, a: seq<bv8>, b: seq<bv8>)
    requires |a| == |b|
    ensures CrcFrom(s.Plus(t), Xor(a, b)) == CrcFrom(s, a).Plus(CrcFrom(t, b))
  {
    if a != [] {
      var n := |a| - 1;
      CrcLinear(s, t, a[..n], b[..n]);
      assert Xor(a, b)[..n] == Xor(a[..n], b[..n]);
      UpdateLinear(CrcFrom(s, a[..n]), CrcFrom(t, b[..n]), a[n], b[n]);
    }
  }

  lemma {:induction false} CrcConcat(s: Register, a: seq<bv8>, b: seq<bv8>)
    ensures CrcFrom(s, a + b) == CrcFrom(CrcFrom(s, a), b)
  {
    if b == [] {
      assert a + b == a;
    } else {
      var n := |b| - 1;
      assert (a + b)[..|a| + n] == a + b[..n];
      CrcConcat(s, a, b[..n]);
    }
  }

  /** Feeding the register two bytes clears it exactly when they are its own bytes, low byte first. */
  lemma OwnBytesClear(c: Register, low: bv8, high: bv8)
    ensures c.Update(low).Update(high) == ZERO <==> c == Word(high, low)
  {
    var l, h, raised := Register(low as bv16), Register(high as bv16), Register((high as bv16) << 8);
    var x := c.Plus(l).Steps(8);
    assert c.Update(low).Update(high) == x.Plus(h).Steps(8);
    StepsZero(x.Plus(h), 8);
    PlusZero(x, h);
    RaisedSteps(high);
    if x == h {
      StepsInjective(c.Plus(l), raised, 8);
    }
    PlusMoves(c, l, raised);
    WordAsPlus(high, low);
  }

  lemma RaisedSteps(b: bv8)
    ensures Register((b as bv16) << 8).Steps(8) == Register(b as bv16)
  {
    RaisedByte(b);
    Steps8Shift((b as bv16) << 8);
  }

  lemma RaisedByte(b: bv8)
    ensures ((b as bv16) << 8) & 0xFF == 0
    ensures ((b as bv16) << 8) >> 8 == b as bv16
  {
  }

  lemma WordAsPlus(high: bv8, low: bv8)
    ensures Word(high, low) == Register((high as bv16) << 8).Plus(Register(low as bv16))
  {
  }

  lemma PlusCancels(x: Register, y: Register)
    ensures x.Plus(y).Plus(y) == x
  {
  }

  lemma PlusMoves(x: Register, y: Register, z: Register)
    ensures x.Plus(y) == z <==> x == z.Plus(y)
  {
    PlusCancels(x, y);
    PlusCancels(z, y);
  }

  // ---- The start value ----

  lemma {:induction false} ZerosKeepZero(zeros: seq<bv8>)
    requires forall i :: 0 <= i < |zeros| ==> zeros[i] == 0
    ensures CrcFrom(Register(0), zeros) == Register(0)
  {
    if zeros != [] {
      ZerosKeepZero(zeros[..|zeros| - 1]);
      StepsZero(Register(0), 8);
    }
  }

  /** Starting from 0xFFFF inverts the first two bytes: all ones in front of them clear the register. */
  lemma StartInverts(data: seq<bv8>)
    requires |data| >= 2
    ensures Crc(data) == CrcFrom(Register(0), [data[0] ^ 0xFF, data[1] ^ 0xFF] + data[2..])
  {
    hide Register.Update, CrcFrom, Xor, Register.Plus;
    var ones: seq<bv8> := [0xFF, 0xFF];
    var zeros: seq<bv8> := seq(|data| - 2, _ => 0);
    CrcConcat(START, ones, zeros);
    OnesClear();
    ZerosKeepZero(zeros);
    CrcLinear(START, START, data, ones + zeros);
    PlusSame(Crc(data));
    XorOnes(data, ones, zeros);
  }

  lemma XorOnes(data: seq<bv8>, ones: seq<bv8>, zeros: seq<bv8>)
    requires |data| == 2 + |zeros| && ones == [0xFF, 0xFF] && forall i :: 0 <= i < |zeros| ==> zeros[i] == 0
    ensures Xor(data, ones + zeros) == [data[0] ^ 0xFF, data[1] ^ 0xFF] + data[2..]
  {
    forall i | 0 <= i < |zeros| ensures data[i + 2] ^ zeros[i] == data[i + 2] { XorZero(data[i + 2]); }
  }

  lemma OnesClear()
    ensures CrcFrom(START, [0xFF, 0xFF]) == Register(0)
  {
    hide Register.Update;
    var ones: seq<bv8> := [0xFF, 0xFF];
    assert ones[..1] == [0xFF] && ones[..1][..0] == [];
    OwnBytesClear(START, 0xFF, 0xFF);
    assert CrcFrom(START, ones) == CrcFrom(START, ones[..1]).Update(0xFF);
  }

  lemma XorZero(b: bv8)
    ensures b ^ 0 == b
  {
  }

  lemma PlusSame(c: Register)
    ensures START.Plus(START) == Register(0) && c.Plus(Register(0)) == c
  {
  }
}
