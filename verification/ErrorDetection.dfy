/** What the CRC detects. A frame is read as the string of its bits, bytes in order and
    least significant bit first, which is the order on the line; an error is a string of
    flipped bits. MODBUS over Serial Line V1.02, section 6.2.2. */
module ErrorDetection {
  import opened Crc16

  /** The lowest `n` bits of `w`, least significant first. */
  function WordBits(w: bv16, n: nat): (bits: seq<bool>)
    ensures |bits| == n
    decreases n
  {
    if n == 0 then [] else [w & 1 != 0] + WordBits(w >> 1, n - 1)
  }

  function ByteBits(b: bv8): (bits: seq<bool>)
    ensures |bits| == 8
  {
    WordBits(b as bv16, 8)
  }

  function Bits(data: seq<bv8>): (bits: seq<bool>)
    ensures |bits| == 8 * |data|
  {
    if data == [] then [] else Bits(data[..|data| - 1]) + ByteBits(data[|data| - 1])
  }

  function BitStep(c: Register, bit: bool): Register {
    c.Plus(Register(if bit then 1 else 0)).Step()
  }

  /** The register after the bits, taken in one by one. */
  function BitCrc(c: Register, bits: seq<bool>): Register
    decreases |bits|
  {
    if bits == [] then c else BitCrc(BitStep(c, bits[0]), bits[1..])
  }

  // ---- Taking in a byte is taking in its bits ----

  lemma {:induction false} BitCrcConcat(c: Register, a: seq<bool>, b: seq<bool>)
    ensures BitCrc(c, a + b) == BitCrc(BitCrc(c, a), b)
    decreases |a|
  {
    if a == [] {
      assert a + b == b;
    } else {
      assert (a + b)[1..] == a[1..] + b;
      BitCrcConcat(BitStep(c, a[0]), a[1..], b);
    }
  }

  /** Adding a word and shifting takes in its lowest bit and leaves the rest of the word to add. */
  lemma TakeLowBit(c: Register, w: bv16)
    ensures c.Plus(Register(w)).Step() == BitStep(c, w & 1 != 0).Plus(Register(w >> 1))
  {
    LowBit(w);
    TakeLowBitWord(c, w);
  }

  lemma TakeLowBitWord(c: Register, w: bv16)
    ensures c.Plus(Register(w)).Step() == c.Plus(Register(w & 1)).Step().Plus(Register(w >> 1))
  {
  }

  lemma {:induction false} TakeBits(c: Register, w: bv16, n: nat)
    requires ShiftedDown(w, n) == 0
    ensures c.Plus(Register(w)).Steps(n) == BitCrc(c, WordBits(w, n))
    decreases n
  {
    if n == 0 {
      assert c.Plus(ZERO) == c;
    } else {
      TakeLowBit(c, w);
      TakeBits(BitStep(c, w & 1 != 0), w >> 1, n - 1);
    }
  }

  lemma ByteShiftsOut(b: bv8)
    ensures ShiftedDown(b as bv16, 8) == 0
  {
    var w := b as bv16;
    assert w >> 8 == 0;
    assert ShiftedDown(w >> 6, 2) == w >> 8;
    assert ShiftedDown(w >> 4, 4) == w >> 8;
    assert ShiftedDown(w >> 2, 6) == w >> 8;
  }

  /** The CRC of a byte string is the CRC of its bits. */
  lemma {:induction false} CrcIsBitCrc(c: Register, data: seq<bv8>)
    ensures CrcFrom(c, data) == BitCrc(c, Bits(data))
  {
    if data != [] {
      var n := |data| - 1;
      var before := CrcFrom(c, data[..n]);
      CrcIsBitCrc(c, data[..n]);
      BitCrcConcat(c, Bits(data[..n]), ByteBits(data[n]));
      ByteShiftsOut(data[n]);
      TakeBits(before, data[n] as bv16, 8);
    }
  }

  // ---- Errors ----

  /** The frame check of the Modbus library: the last two bytes are the CRC of the rest, low byte first. */
  predicate Accepted(f: seq<bv8>) {
    && |f| >= 2
    && Crc(f[..|f| - 2]) == Word(f[|f| - 1], f[|f| - 2])
  }

  /** A frame is accepted exactly when the CRC of the whole frame, its CRC bytes included, is zero. */
  lemma AcceptedIffZero(f: seq<bv8>)
    requires |f| >= 2
    ensures Accepted(f) <==> Crc(f) == ZERO
  {
    var n := |f|;
    var c := Crc(f[..n - 2]);
    assert f[..n - 1][..n - 2] == f[..n - 2] && f[..n] == f;
    hide Register.Update;
    assert Crc(f[..n - 1]) == c.Update(f[n - 2]);
    assert Crc(f) == c.Update(f[n - 2]).Update(f[n - 1]);
    OwnBytesClear(c, f[n - 2], f[n - 1]);
  }

  /** Whether an error `e` in an accepted frame goes unnoticed depends on the error alone. */
  lemma ErrorPasses(f: seq<bv8>, e: seq<bv8>)
    requires Accepted(f) && |e| == |f|
    ensures Accepted(Xor(f, e)) <==> BitCrc(ZERO, Bits(e)) == ZERO
  {
    AcceptedIffZero(f);
    AcceptedIffZero(Xor(f, e));
    CrcLinear(START, ZERO, f, e);
    assert START.Plus(ZERO) == START;
    CrcIsBitCrc(ZERO, e);
  }

  // ---- Bursts ----

  /** The set bits of the error all lie within the 16 bits from `p` on. */
  predicate BurstAt(bits: seq<bool>, p: nat) {
    forall i :: 0 <= i < |bits| && bits[i] ==> p <= i < p + 16
  }

  /** The word with bit `k` set alone. */
  function Bit(k: nat): bv16
    requires k <= 15
  {
    match k
    case 0 => 0x0001 case 1 => 0x0002 case 2 => 0x0004 case 3 => 0x0008
    case 4 => 0x0010 case 5 => 0x0020 case 6 => 0x0040 case 7 => 0x0080
    case 8 => 0x0100 case 9 => 0x0200 case 10 => 0x0400 case 11 => 0x0800
    case 12 => 0x1000 case 13 => 0x2000 case 14 => 0x4000 case 15 => 0x8000
  }

  /** A register of at least 2^k stays at least 2^(k-1) whichever bit it takes in. */
  lemma ShiftKeepsHighBit(c: Register, k: nat, bit: bool)
    requires 1 <= k <= 15 && c.word >= Bit(k)
    ensures BitStep(c, bit).word >= Bit(k - 1)
  {
  }

  lemma {:induction false} QuietLineKeeps(c: Register, bits: seq<bool>)
    requires c != ZERO && forall i :: 0 <= i < |bits| ==> !bits[i]
    ensures BitCrc(c, bits) != ZERO
    decreases |bits|
  {
    if bits != [] {
      assert BitStep(c, false) == c.Step() by { assert c.Plus(ZERO) == c; }
      StepZero(c);
      QuietLineKeeps(c.Step(), bits[1..]);
    }
  }

  lemma {:induction false} BurstTail(c: Register, bits: seq<bool>, k: nat)
    requires k <= 15 && c.word >= Bit(k)
    requires forall i :: 0 <= i < |bits| && bits[i] ==> i < k
    ensures BitCrc(c, bits) != ZERO
    decreases |bits|
  {
    hide BitStep;
    if k == 0 {
      QuietLineKeeps(c, bits);
    } else if bits != [] {
      ShiftKeepsHighBit(c, k, bits[0]);
      BurstTail(BitStep(c, bits[0]), bits[1..], k - 1);
    }
  }

  lemma FirstSetBit()
    ensures BitStep(ZERO, true).word >= Bit(15) && BitStep(ZERO, false) == ZERO
  {
  }

  lemma {:induction false} BurstLeavesTrace(bits: seq<bool>, p: nat)
    requires BurstAt(bits, p) && true in bits
    ensures BitCrc(ZERO, bits) != ZERO
    decreases |bits|
  {
    FirstSetBit();
    var rest := bits[1..];
    assert forall i :: 0 <= i < |rest| ==> rest[i] == bits[i + 1];
    if bits[0] {
      BurstTail(BitStep(ZERO, true), rest, 15);
    } else {
      BurstLeavesTrace(rest, if p == 0 then 0 else p - 1);
    }
  }

  /** Every burst of at most 16 consecutive bits, CRC bytes included, is detected. */
  lemma BurstDetected(f: seq<bv8>, e: seq<bv8>, p: nat)
    requires Accepted(f) && |e| == |f|
    requires BurstAt(Bits(e), p) && true in Bits(e)
    ensures !Accepted(Xor(f, e))
  {
    ErrorPasses(f, e);
    BurstLeavesTrace(Bits(e), p);
  }

  // ---- Parity ----

  function Ones(bits: seq<bool>): nat
    decreases |bits|
  {
    if bits == [] then 0 else (if bits[0] then 1 else 0) + Ones(bits[1..])
  }

  /** The exclusive or of all sixteen bits of the register, in bit 0. */
  function Fold(w: bv16): bv16 {
    w ^ FoldRest(w >> 1)
  }

  function FoldRest(w: bv16): bv16 {
    w ^ (w >> 1) ^ (w >> 2) ^ (w >> 3) ^ (w >> 4) ^ (w >> 5) ^ (w >> 6) ^ (w >> 7)
    ^ (w >> 8) ^ (w >> 9) ^ (w >> 10) ^ (w >> 11) ^ (w >> 12) ^ (w >> 13) ^ (w >> 14)
  }

  function ParityWord(w: bv16): bv16 { Fold(w) & 1 }

  function Parity(c: Register): Register { Register(ParityWord(c.word)) }

  predicate OddParity(c: Register) { Parity(c) == Register(1) }

  lemma ParityOfShift(w: bv16)
    ensures ParityWord(StepWord(w)) == ParityWord(w)
  {
  }

  lemma ParityOfStep(c: Register)
    ensures Parity(c.Step()) == Parity(c)
  {
    hide ParityWord, StepWord;
    ParityOfShift(c.word);
  }

  lemma LowBitShiftsOut(w: bv16)
    ensures (w ^ 1) >> 1 == w >> 1
  {
  }

  lemma RestOfFlip(w: bv16)
    ensures FoldRest((w ^ 1) >> 1) == FoldRest(w >> 1)
  {
    hide FoldRest;
    LowBitShiftsOut(w);
  }

  lemma FlipLowBit(w: bv16, rest: bv16)
    ensures ((w ^ 1) ^ rest) & 1 == ((w ^ rest) & 1) ^ 1
  {
  }

  lemma ParityWordOfFlip(w: bv16)
    ensures ParityWord(w ^ 1) == ParityWord(w) ^ 1
  {
    hide FoldRest;
    RestOfFlip(w);
    FlipLowBit(w, FoldRest(w >> 1));
  }

  lemma ParityOfFlip(c: Register)
    ensures Parity(c.Plus(Register(1))) == Parity(c).Plus(Register(1))
  {
    hide ParityWord;
    ParityWordOfFlip(c.word);
  }

  lemma ParityIsBit(c: Register)
    ensures Parity(c) == ZERO || Parity(c) == Register(1)
    ensures Parity(Register(1)) == Register(1)
    ensures Register(1).Plus(Register(1)) == ZERO && ZERO.Plus(Register(1)) == Register(1) && c.Plus(Register(0)) == c
  {
  }

  /** The step keeps the parity of the register, so only the bit taken in changes it. */
  lemma ParityStep(c: Register, bit: bool)
    ensures OddParity(BitStep(c, bit)) == (OddParity(c) != bit)
  {
    hide Parity, Register.Plus, Register.Step;
    ParityIsBit(c);
    ParityOfFlip(c);
    ParityOfStep(c.Plus(Register(if bit then 1 else 0)));
  }

  lemma {:induction false} ParityOfBits(c: Register, bits: seq<bool>)
    ensures OddParity(BitCrc(c, bits)) == (OddParity(c) != (Ones(bits) % 2 == 1))
    decreases |bits|
  {
    if bits != [] {
      ParityStep(c, bits[0]);
      ParityOfBits(BitStep(c, bits[0]), bits[1..]);
    }
  }

  lemma StartParity()
    ensures !OddParity(START) && !OddParity(ZERO)
  {
  }

  /** An accepted frame has an even number of one bits. */
  lemma AcceptedIsEven(f: seq<bv8>)
    requires Accepted(f)
    ensures Ones(Bits(f)) % 2 == 0
  {
    AcceptedIffZero(f);
    CrcIsBitCrc(START, f);
    ParityOfBits(START, Bits(f));
    StartParity();
  }

  /** Every odd number of flipped bits is detected. */
  lemma OddErrorDetected(f: seq<bv8>, e: seq<bv8>)
    requires Accepted(f) && |e| == |f| && Ones(Bits(e)) % 2 == 1
    ensures !Accepted(Xor(f, e))
  {
    ErrorPasses(f, e);
    ParityOfBits(ZERO, Bits(e));
    StartParity();
  }
}
