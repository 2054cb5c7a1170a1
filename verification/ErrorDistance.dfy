/** How far apart two flipped bits may be before the CRC misses them. The shift step has
    period 32767 on every register it moves, so two flipped bits go unnoticed exactly when
    their distance is a multiple of 32767; no Modbus frame is that long. */
module ErrorDistance {
  import opened Crc16
  import opened ErrorDetection

  // ---- The step as multiplication by x: bit 15 - k of a register stands for x^k ----

  const ONE := Register(0x8000)

  function Choose(bit: bool, v: Register): Register {
    if bit then v else ZERO
  }

  /** Horner's rule over the lowest `n` bits of `w`, starting from `acc`. */
  function Horner(acc: Register, w: bv16, v: Register, n: nat): Register
    decreases n
  {
    if n == 0 then acc else Horner(acc.Step().Plus(Choose(w & 1 != 0, v)), w >> 1, v, n - 1)
  }

  /** The polynomial `p` in the step, applied to `v`. */
  function Product(p: Register, v: Register): Register {
    Horner(ZERO, p.word, v, 16)
  }

  // ---- The step satisfies its own polynomial ----

  /** x^16 = x^15 + x^2 + 1, applied to `v`. */
  predicate Reduces(v: Register) {
    v.Steps(16) == v.Steps(15).Plus(v.Steps(2)).Plus(v)
  }

  lemma StepLast(v: Register, n: nat)
    ensures v.Step().Steps(n) == v.Steps(n).Step()
  {
    StepsAdd(v, n, 1);
    StepsAdd(v, 1, n);
    assert v.Steps(1) == v.Step();
    assert v.Steps(n).Steps(1) == v.Steps(n).Step();
  }

  lemma ReducesStep(v: Register)
    ensures Reduces(v.Step()) <==> Reduces(v)
  {
    hide Register.Steps, Register.Step, Register.Plus;
    StepLast(v, 16);
    StepLast(v, 15);
    StepLast(v, 2);
    var sum := v.Steps(15).Plus(v.Steps(2));
    StepLinear(v.Steps(15), v.Steps(2));
    StepLinear(sum, v);
    StepInjective(v.Steps(16), sum.Plus(v));
  }

  lemma StepInjective(x: Register, y: Register)
    ensures x.Step() == y.Step() <==> x == y
  {
    hide Register.Plus, Register.Step;
    StepLinear(x, y);
    StepZero(x.Plus(y));
    PlusZero(x.Step(), y.Step());
    PlusZero(x, y);
  }

  lemma PlusSwap(a: Register, b: Register, c: Register, d: Register)
    ensures a.Plus(b).Plus(c.Plus(d)) == a.Plus(c).Plus(b.Plus(d))
  {
  }

  lemma ReducesPlus(u: Register, v: Register)
    requires Reduces(u) && Reduces(v)
    ensures Reduces(u.Plus(v))
  {
    hide Register.Steps, Register.Plus;
    StepsLinear(u, v, 16);
    StepsLinear(u, v, 15);
    StepsLinear(u, v, 2);
    PlusSwap(u.Steps(15), v.Steps(15), u.Steps(2), v.Steps(2));
    PlusSwap(u.Steps(15).Plus(u.Steps(2)), v.Steps(15).Plus(v.Steps(2)), u, v);
  }

  lemma ReducesOne()
    ensures Reduces(Register(1))
  {
    assert Register(0xC007).Steps(2) == Register(0x6001);
    assert Register(0xC019).Steps(4) == Register(0x6001);
    assert Register(0xC061).Steps(6) == Register(0x6001);
    assert Register(0xC181).Steps(8) == Register(0x6001);
    assert Register(0xC601).Steps(10) == Register(0x6001);
    assert Register(0xD801).Steps(12) == Register(0x6001);
    assert Register(0xA001).Steps(14) == Register(0x6001);
    StepLast(Register(1), 15);
    assert Register(1).Steps(15) == Register(0x6001) && Register(1).Steps(2) == Register(0xF001);
    assert Register(1).Steps(16) == Register(0x6001).Step();
  }

  /** The polynomial annihilates every register: true of 1, of sums, and one shift either way. */
  lemma {:induction false} ReducesAll(w: bv16, n: nat)
    requires ShiftedDown(w, n) == 0
    ensures Reduces(Register(w))
    decreases n
  {
    if n == 0 {
      ReducesZero();
    } else {
      ReducesAll(w >> 1, n - 1);
      ClearLowBit(w);
      ReducesStep(Register(w ^ (w & 1)));
      LowBit(w);
      if w & 1 == 1 {
        ReducesOne();
        ReducesPlus(Register(w ^ (w & 1)), Register(1));
      }
    }
  }

  lemma ReducesZero()
    ensures Reduces(ZERO)
  {
    StepsZero(ZERO, 16);
    StepsZero(ZERO, 15);
    StepsZero(ZERO, 2);
  }

  lemma ClearedWord(w: bv16)
    ensures (w ^ (w & 1)) & 1 == 0 && (w ^ (w & 1)) >> 1 == w >> 1
    ensures w & 1 == 1 ==> (w ^ (w & 1)) ^ 1 == w
    ensures w & 1 == 0 ==> w ^ (w & 1) == w
  {
  }

  lemma ClearLowBit(w: bv16)
    ensures Register(w ^ (w & 1)).Step() == Register(w >> 1)
    ensures w & 1 == 1 ==> Register(w ^ (w & 1)).Plus(Register(1)) == Register(w)
    ensures w & 1 == 0 ==> w ^ (w & 1) == w
  {
    hide Register.Step;
    ClearedWord(w);
    StepBranches(w ^ (w & 1));
  }

  lemma WordShiftsOut(w: bv16)
    ensures ShiftedDown(w, 16) == 0
  {
    assert w >> 16 == 0;
    assert ShiftedDown(w >> 14, 2) == w >> 16;
    assert ShiftedDown(w >> 12, 4) == w >> 16;
    assert ShiftedDown(w >> 10, 6) == w >> 16;
    assert ShiftedDown(w >> 8, 8) == w >> 16;
    assert ShiftedDown(w >> 6, 10) == w >> 16;
    assert ShiftedDown(w >> 4, 12) == w >> 16;
    assert ShiftedDown(w >> 2, 14) == w >> 16;
  }

  // ---- Products ----

  lemma ChooseStep(bit: bool, v: Register, n: nat)
    ensures Choose(bit, v).Steps(n) == Choose(bit, v.Steps(n))
  {
    StepsZero(ZERO, n);
  }

  lemma {:induction false} HornerPlus(a: Register, b: Register, x: bv16, y: bv16, v: Register, n: nat)
    ensures Horner(a.Plus(b), x ^ y, v, n) == Horner(a, x, v, n).Plus(Horner(b, y, v, n))
    decreases n
  {
    hide Register.Step, Register.Plus, Choose;
    if n > 0 {
      var s, t := Choose(x & 1 != 0, v), Choose(y & 1 != 0, v);
      ChooseXor(x, y, v);
      StepLinear(a, b);
      PlusSwap(a.Step(), b.Step(), s, t);
      HornerPlus(a.Step().Plus(s), b.Step().Plus(t), x >> 1, y >> 1, v, n - 1);
    }
  }

  lemma XorBits(x: bv16, y: bv16)
    ensures ((x ^ y) & 1 != 0) == ((x & 1 != 0) != (y & 1 != 0))
    ensures (x ^ y) >> 1 == (x >> 1) ^ (y >> 1)
  {
  }

  lemma ChooseXor(x: bv16, y: bv16, v: Register)
    ensures Choose((x ^ y) & 1 != 0, v) == Choose(x & 1 != 0, v).Plus(Choose(y & 1 != 0, v))
    ensures (x ^ y) >> 1 == (x >> 1) ^ (y >> 1)
  {
    XorBits(x, y);
    PlusUnits(v);
  }

  lemma PlusZeroRight(v: Register)
    ensures v.Plus(ZERO) == v
  {
  }

  lemma PlusZeroLeft(v: Register)
    ensures ZERO.Plus(v) == v
  {
  }

  lemma PlusUnits(v: Register)
    ensures v.Plus(v) == ZERO && v.Plus(ZERO) == v && ZERO.Plus(v) == v
  {
    hide Register.Plus;
    PlusZero(v, v);
    PlusZeroRight(v);
    PlusZeroLeft(v);
  }

  /** Clear low bits of the multiplier only shift the accumulator. */
  lemma {:induction false} HornerIdle(acc: Register, w: bv16, v: Register, n: nat, k: nat)
    requires k <= n && ShiftsOut(w, k)
    ensures Horner(acc, w, v, n) == Horner(acc.Steps(k), ShiftedDown(w, k), v, n - k)
    decreases k
  {
    hide Register.Plus, Register.Step;
    if k > 0 {
      PlusUnits(acc.Step());
      HornerIdle(acc.Step(), w >> 1, v, n - 1, k - 1);
    }
  }

  /** A clear top bit shifts the result. */
  lemma {:induction false} HornerLast(acc: Register, w: bv16, v: Register, n: nat)
    requires ShiftedDown(w, n) == 0
    ensures Horner(acc, w, v, n + 1) == Horner(acc, w, v, n).Step()
    decreases n
  {
    hide Register.Plus, Register.Step;
    if n == 0 {
      PlusUnits(acc.Step());
      assert Horner(acc, 0, v, 1) == Horner(acc.Step().Plus(ZERO), 0, v, 0);
    } else {
      HornerLast(acc.Step().Plus(Choose(w & 1 != 0, v)), w >> 1, v, n - 1);
    }
  }

  lemma {:induction false} ZeroShiftsOut(n: nat)
    ensures ShiftsOut(0, n) && ShiftedDown(0, n) == 0
    decreases n
  {
    if n > 0 {
      ZeroShiftsOut(n - 1);
    }
  }

  lemma HornerOfZero(acc: Register, v: Register, n: nat)
    ensures Horner(acc, 0, v, n) == acc.Steps(n)
  {
    ZeroShiftsOut(n);
    HornerIdle(acc, 0, v, n, n);
  }

  lemma ProductPlus(p: Register, q: Register, v: Register)
    ensures Product(p.Plus(q), v) == Product(p, v).Plus(Product(q, v))
  {
    hide Horner;
    PlusZeroRight(ZERO);
    HornerPlus(ZERO, ZERO, p.word, q.word, v, 16);
  }

  lemma LowBitsClear()
    ensures ShiftsOut(0x8000, 15) && ShiftedDown(0x8000, 15) == 1
    ensures ShiftsOut(0x5000, 12) && ShiftedDown(0x5000, 12) == 5
  {
    assert ShiftsOut(0x0002, 1) && ShiftedDown(0x0002, 1) == 1;
    assert ShiftsOut(0x0008, 3) && ShiftedDown(0x0008, 3) == 1;
    assert ShiftsOut(0x0020, 5) && ShiftedDown(0x0020, 5) == 1;
    assert ShiftsOut(0x0080, 7) && ShiftedDown(0x0080, 7) == 1;
    assert ShiftsOut(0x0200, 9) && ShiftedDown(0x0200, 9) == 1;
    assert ShiftsOut(0x0800, 11) && ShiftedDown(0x0800, 11) == 1;
    assert ShiftsOut(0x2000, 13) && ShiftedDown(0x2000, 13) == 1;
    assert ShiftsOut(0x0014, 2) && ShiftedDown(0x0014, 2) == 5;
    assert ShiftsOut(0x0050, 4) && ShiftedDown(0x0050, 4) == 5;
    assert ShiftsOut(0x0140, 6) && ShiftedDown(0x0140, 6) == 5;
    assert ShiftsOut(0x0500, 8) && ShiftedDown(0x0500, 8) == 5;
    assert ShiftsOut(0x1400, 10) && ShiftedDown(0x1400, 10) == 5;
  }

  lemma ProductOne(v: Register)
    ensures Product(ONE, v) == v
  {
    hide Register.Plus, Register.Step, Register.Steps;
    LowBitsClear();
    HornerIdle(ZERO, 0x8000, v, 16, 15);
    StepsZero(ZERO, 15);
    StepZero(ZERO);
    PlusUnits(v);
    assert Horner(ZERO, 1, v, 1) == Horner(ZERO.Step().Plus(v), 0, v, 0);
  }

  /** The polynomial 0xA001 stands for x^16. */
  lemma ProductPolynomial(v: Register)
    ensures Product(Register(0xA001), v) == v.Steps(16)
  {
    hide Register.Plus, Register.Step, Register.Steps;
    LowBitsClear();
    StepZero(ZERO);
    PlusUnits(v);
    assert Product(Register(0xA001), v) == Horner(v, 0x5000, v, 15);
    HornerIdle(v, 0x5000, v, 15, 12);
    var acc := v.Steps(12);
    var acc13 := acc.Step().Plus(v);
    PlusUnits(acc13.Step());
    assert Horner(acc, 5, v, 3) == Horner(acc13, 2, v, 2);
    assert Horner(acc13, 2, v, 2) == Horner(acc13.Step(), 1, v, 1);
    assert Horner(acc13.Step(), 1, v, 1) == acc13.Step().Step().Plus(v);
    StepsAdd(v, 12, 1);
    StepsAdd(v, 13, 2);
    StepsOneTwo(acc);
    StepsOneTwo(v.Steps(13));
    StepsOneTwo(v);
    StepsOneTwo(acc13);
    StepsLinear(v.Steps(13), v, 2);
    WordShiftsOut(v.word);
    ReducesAll(v.word, 16);
  }

  lemma StepsOneTwo(c: Register)
    ensures c.Steps(1) == c.Step() && c.Steps(2) == c.Step().Step()
  {
  }

  lemma ProductOfHalf(w: bv16, v: Register)
    ensures Product(Register(w >> 1), v) == Horner(ZERO, w >> 1, v, 15).Step()
  {
    hide Horner;
    WordShiftsOut(w);
    HornerLast(ZERO, w >> 1, v, 15);
  }

  /** Shifting the multiplier shifts the product. */
  lemma ProductStep(p: Register, v: Register)
    ensures Product(p.Step(), v) == Product(p, v).Step()
  {
    hide Register.Plus, Register.Step, Register.Steps, Product, Horner;
    var w := p.word;
    var rest := Horner(ZERO, w >> 1, v, 15);
    ProductSplit(p, v);
    ProductOfHalf(w, v);
    LowBit(w);
    if w & 1 == 1 {
      StepIsShiftAndPolynomial(w);
      ProductPlus(Register(w >> 1), Register(0xA001), v);
      ProductPolynomial(v);
      StepLinear(v.Steps(15), rest);
      StepsAdd(v, 15, 1);
      StepsOneTwo(v.Steps(15));
      PlusCommutes(rest.Step(), v.Steps(16));
    } else {
      StepBranches(w);
      PlusUnits(rest);
    }
  }

  lemma PlusCommutes(u: Register, v: Register)
    ensures u.Plus(v) == v.Plus(u)
  {
  }

  lemma StepIsShiftAndPolynomial(w: bv16)
    requires w & 1 == 1
    ensures Register(w).Step() == Register(w >> 1).Plus(Register(0xA001))
  {
    hide Register.Step;
    StepBranches(w);
  }

  lemma HornerFirst(acc: Register, w: bv16, v: Register, n: nat)
    requires n > 0
    ensures Horner(acc, w, v, n) == Horner(acc.Step().Plus(Choose(w & 1 != 0, v)), w >> 1, v, n - 1)
  {
  }

  lemma XorWithZero(x: bv16)
    ensures 0 ^ x == x
  {
  }

  lemma HornerFromZero(a: Register, x: bv16, v: Register, n: nat)
    ensures Horner(a.Plus(ZERO), x, v, n) == a.Steps(n).Plus(Horner(ZERO, x, v, n))
  {
    hide Register.Plus, Register.Steps, Horner;
    HornerPlus(a, ZERO, 0, x, v, n);
    XorWithZero(x);
    HornerOfZero(a, v, n);
  }

  lemma ProductSplit(p: Register, v: Register)
    ensures Product(p, v)
         == Choose(p.word & 1 != 0, v.Steps(15)).Plus(Horner(ZERO, p.word >> 1, v, 15))
  {
    hide Register.Plus, Register.Step, Register.Steps, Horner, Choose;
    var low := Choose(p.word & 1 != 0, v);
    HornerFirst(ZERO, p.word, v, 16);
    StepZero(ZERO);
    PlusUnits(low);
    HornerFromZero(low, p.word >> 1, v, 15);
    ChooseStep(p.word & 1 != 0, v, 15);
  }

  /** Powers of x act as that many shifts. */
  lemma {:induction false} PowerActs(a: nat, v: Register)
    ensures Product(ONE.Steps(a), v) == v.Steps(a)
  {
    if a == 0 {
      ProductOne(v);
    } else {
      PowerActs(a - 1, v);
      ProductStep(ONE.Steps(a - 1), v);
      StepsAdd(ONE, a - 1, 1);
      StepsAdd(v, a - 1, 1);
      StepsOneTwo(ONE.Steps(a - 1));
      StepsOneTwo(v.Steps(a - 1));
    }
  }

  // ---- Concrete powers of x ----

  function Round(acc: Register, w: bv16, v: Register): Register {
    acc.Step().Plus(Choose(w & 1 != 0, v))
  }

  function Down2(w: bv16): bv16 { w >> 1 >> 1 }

  function Down4(w: bv16): bv16 { Down2(Down2(w)) }

  // Two and four rounds of Horner's rule, written out.

  function Rounds2(acc: Register, w: bv16, v: Register): Register {
    Round(Round(acc, w, v), w >> 1, v)
  }

  function Rounds4(acc: Register, w: bv16, v: Register): Register {
    Rounds2(Rounds2(acc, w, v), Down2(w), v)
  }

  /** Sixteen rounds, written out, so that a product of constants can be computed. */
  function Computed(p: bv16, v: Register): Register {
    var p4 := Down4(p);
    var p8 := Down4(p4);
    Rounds4(Rounds4(Rounds4(Rounds4(ZERO, p, v), p4, v), p8, v), Down4(p8), v)
  }

  lemma HornerRound(acc: Register, w: bv16, v: Register, n: nat)
    ensures Horner(acc, w, v, n + 1) == Horner(Round(acc, w, v), w >> 1, v, n)
  {
  }

  lemma HornerBy2(acc: Register, w: bv16, v: Register, n: nat)
    ensures Horner(acc, w, v, n + 2) == Horner(Rounds2(acc, w, v), Down2(w), v, n)
  {
    hide Round, Horner;
    HornerRound(acc, w, v, n + 1);
    HornerRound(Round(acc, w, v), w >> 1, v, n);
  }

  lemma HornerBy4(acc: Register, w: bv16, v: Register, n: nat)
    ensures Horner(acc, w, v, n + 4) == Horner(Rounds4(acc, w, v), Down4(w), v, n)
  {
    hide Rounds2, Down2, Horner;
    HornerBy2(acc, w, v, n + 2);
    HornerBy2(Rounds2(acc, w, v), Down2(w), v, n);
  }

  lemma ComputedIsProduct(p: bv16, v: Register)
    ensures Computed(p, v) == Product(Register(p), v)
  {
    hide Rounds4, Down4;
    var p4 := Down4(p);
    var p8 := Down4(p4);
    var a4 := Rounds4(ZERO, p, v);
    var a8 := Rounds4(a4, p4, v);
    var a12 := Rounds4(a8, p8, v);
    HornerBy4(ZERO, p, v, 12);
    HornerBy4(a4, p4, v, 8);
    HornerBy4(a8, p8, v, 4);
    HornerBy4(a12, Down4(p8), v, 0);
  }

  /** x^(a+b) from x^a and x^b. */
  lemma PowerOfSum(a: nat, p: bv16, b: nat, q: bv16)
    requires ONE.Steps(a) == Register(p) && ONE.Steps(b) == Register(q)
    ensures ONE.Steps(a + b) == Computed(p, Register(q))
  {
    hide Computed;
    PowerActs(a, ONE.Steps(b));
    StepsAdd(ONE, b, a);
    ComputedIsProduct(p, Register(q));
  }

  // Squaring x fifteen times comes back to x, so x^32767 = 1.

  lemma PowersLowProductA()
    ensures Computed(0x4000, Register(0x4000)) == Register(0x2000)
  {}

  lemma PowersLowProductB()
    ensures Computed(0x2000, Register(0x2000)) == Register(0x0800)
  {}

  lemma PowersLowProductC()
    ensures Computed(0x0800, Register(0x0800)) == Register(0x0080)
  {}

  lemma PowersLowProductD()
    ensures Computed(0x0080, Register(0x0080)) == Register(0xA001)
  {}

  lemma PowersLowProductE()
    ensures Computed(0xA001, Register(0xA001)) == Register(0xE801)
  {}

  lemma PowersLow()
    ensures ONE.Steps(1) == Register(0x4000)
    ensures ONE.Steps(8) == Register(0x0080)
    ensures ONE.Steps(16) == Register(0xA001)
    ensures ONE.Steps(32) == Register(0xE801)
  {
    hide Computed;
    StepsOneTwo(ONE);
    assert ONE.Step() == Register(0x4000);
    PowersLowProductA();
    PowersLowProductB();
    PowersLowProductC();
    PowersLowProductD();
    PowersLowProductE();
    PowerOfSum(1, 0x4000, 1, 0x4000);
    PowerOfSum(2, 0x2000, 2, 0x2000);
    PowerOfSum(4, 0x0800, 4, 0x0800);
    PowerOfSum(8, 0x0080, 8, 0x0080);
    PowerOfSum(16, 0xA001, 16, 0xA001);
  }

  lemma PowersMiddleProductA()
    ensures Computed(0xE801, Register(0xE801)) == Register(0xC881)
  {}

  lemma PowersMiddleProductB()
    ensures Computed(0xC881, Register(0xC881)) == Register(0x6080)
  {}

  lemma PowersMiddleProductC()
    ensures Computed(0x6080, Register(0x6080)) == Register(0x8801)
  {}

  lemma PowersMiddleProductD()
    ensures Computed(0x8801, Register(0x8801)) == Register(0xE081)
  {}

  lemma PowersMiddleProductE()
    ensures Computed(0xE081, Register(0xE081)) == Register(0x6800)
  {}

  lemma PowersMiddle()
    ensures ONE.Steps(64) == Register(0xC881)
    ensures ONE.Steps(128) == Register(0x6080)
    ensures ONE.Steps(512) == Register(0xE081)
    ensures ONE.Steps(1024) == Register(0x6800)
  {
    hide Computed;
    PowersLow();
    PowersMiddleProductA();
    PowersMiddleProductB();
    PowersMiddleProductC();
    PowersMiddleProductD();
    PowersMiddleProductE();
    PowerOfSum(32, 0xE801, 32, 0xE801);
    PowerOfSum(64, 0xC881, 64, 0xC881);
    PowerOfSum(128, 0x6080, 128, 0x6080);
    PowerOfSum(256, 0x8801, 256, 0x8801);
    PowerOfSum(512, 0xE081, 512, 0xE081);
  }

  lemma PowersHighProductA()
    ensures Computed(0x6800, Register(0x6800)) == Register(0x2880)
  {}

  lemma PowersHighProductB()
    ensures Computed(0x2880, Register(0x2880)) == Register(0xA881)
  {}

  lemma PowersHighProductC()
    ensures Computed(0xA881, Register(0xA881)) == Register(0x4880)
  {}

  lemma PowersHigh()
    ensures ONE.Steps(4096) == Register(0xA881)
    ensures ONE.Steps(8192) == Register(0x4880)
  {
    hide Computed;
    PowersMiddle();
    PowersHighProductA();
    PowersHighProductB();
    PowersHighProductC();
    PowerOfSum(1024, 0x6800, 1024, 0x6800);
    PowerOfSum(2048, 0x2880, 2048, 0x2880);
    PowerOfSum(4096, 0xA881, 4096, 0xA881);
  }

  lemma PowersTopProductA()
    ensures Computed(0x4880, Register(0x4880)) == Register(0x8081)
  {}

  lemma PowersTopProductB()
    ensures Computed(0x8081, Register(0x8081)) == Register(0x4000)
  {}

  lemma PowersTop()
    ensures ONE.Steps(32768) == Register(0x4000)
  {
    hide Computed;
    PowersHigh();
    PowersTopProductA();
    PowersTopProductB();
    PowerOfSum(8192, 0x4880, 8192, 0x4880);
    PowerOfSum(16384, 0x8081, 16384, 0x8081);
  }

  lemma PeriodOfOne()
    ensures ONE.Steps(32767) == ONE
  {
    hide Register.Step;
    PowersLow();
    PowersTop();
    StepLast(ONE, 32767);
    StepsOneTwo(ONE);
    StepInjective(ONE.Steps(32767), ONE);
  }

  /** After 32767 shifts every register is back. */
  lemma FullPeriod(v: Register)
    ensures v.Steps(32767) == v
  {
    hide Product, Register.Steps;
    PeriodOfOne();
    PowerActs(32767, v);
    ProductOne(v);
  }

  // 32767 = 7 * 31 * 151; no quotient of it by one of these primes is a period.

  lemma NoPeriod217Product0A()
    ensures Computed(0x6080, Register(0xC881)) == Register(0x6668)
  {}

  lemma NoPeriod217Product0B()
    ensures Computed(0x6668, Register(0xA001)) == Register(0xEAAF)
  {}

  lemma NoPeriod217Product1A()
    ensures Computed(0xEAAF, Register(0x0080)) == Register(0x7CAA)
  {}

  lemma NoPeriod217Product1B()
    ensures Computed(0x7CAA, Register(0x4000)) == Register(0x3E55)
  {}

  lemma NoPeriod217()
    ensures ONE.Steps(217) != ONE
  {
    hide Computed;
    PowersLow();
    PowersMiddle();
    NoPeriod217Product0A();
    NoPeriod217Product0B();
    NoPeriod217Product1A();
    NoPeriod217Product1B();
    PowerOfSum(128, 0x6080, 64, 0xC881);
    PowerOfSum(192, 0x6668, 16, 0xA001);
    PowerOfSum(208, 0xEAAF, 8, 0x0080);
    PowerOfSum(216, 0x7CAA, 1, 0x4000);
  }

  lemma NoPeriod1057ProductA()
    ensures Computed(0x6800, Register(0xE801)) == Register(0xDC81)
  {}

  lemma NoPeriod1057ProductB()
    ensures Computed(0xDC81, Register(0x4000)) == Register(0xCE41)
  {}

  lemma NoPeriod1057()
    ensures ONE.Steps(1057) != ONE
  {
    hide Computed;
    PowersLow();
    PowersMiddle();
    NoPeriod1057ProductA();
    NoPeriod1057ProductB();
    PowerOfSum(1024, 0x6800, 32, 0xE801);
    PowerOfSum(1056, 0xDC81, 1, 0x4000);
  }

  lemma NoPeriod4681Product0A()
    ensures Computed(0xA881, Register(0xE081)) == Register(0x7A48)
  {}

  lemma NoPeriod4681Product0B()
    ensures Computed(0x7A48, Register(0xC881)) == Register(0x51DE)
  {}

  lemma NoPeriod4681Product1A()
    ensures Computed(0x51DE, Register(0x0080)) == Register(0x58D1)
  {}

  lemma NoPeriod4681Product1B()
    ensures Computed(0x58D1, Register(0x4000)) == Register(0x8C69)
  {}

  lemma NoPeriod4681()
    ensures ONE.Steps(4681) != ONE
  {
    hide Computed;
    PowersLow();
    PowersMiddle();
    PowersHigh();
    NoPeriod4681Product0A();
    NoPeriod4681Product0B();
    NoPeriod4681Product1A();
    NoPeriod4681Product1B();
    PowerOfSum(4096, 0xA881, 512, 0xE081);
    PowerOfSum(4608, 0x7A48, 64, 0xC881);
    PowerOfSum(4672, 0x51DE, 8, 0x0080);
    PowerOfSum(4680, 0x58D1, 1, 0x4000);
  }

  // ---- The period of the step ----

  lemma {:induction false} PeriodTimes(r: nat, k: nat)
    requires ONE.Steps(r) == ONE
    ensures ONE.Steps(r * k) == ONE
    decreases k
  {
    if k > 0 {
      PeriodTimes(r, k - 1);
      StepsAdd(ONE, r, r * (k - 1));
      assert r * k == r + r * (k - 1);
    }
  }

  /** The remainder of one period by another is a period. */
  lemma PeriodRemainder(r: nat, n: nat)
    requires r > 0 && ONE.Steps(r) == ONE && ONE.Steps(n) == ONE
    ensures ONE.Steps(n % r) == ONE
  {
    PeriodTimes(r, n / r);
    StepsAdd(ONE, r * (n / r), n % r);
  }

  /** Any period has a common divisor with 32767 that is itself a period. */
  lemma {:induction false} CommonPeriod(r: nat, n: nat) returns (g: nat, q: nat)
    requires 0 < r && ONE.Steps(r) == ONE && ONE.Steps(n) == ONE
    ensures 0 < g <= r && ONE.Steps(g) == ONE && n == g * q
    decreases r
  {
    PeriodRemainder(r, n);
    if n % r == 0 {
      g, q := r, n / r;
    } else {
      // a smaller period exists; look for one that divides n
      g, q := CommonPeriod(n % r, n);
    }
  }

  predicate Divides(k: nat, n: nat) {
    k > 0 && n % k == 0
  }

  ghost predicate Prime(p: nat) {
    p > 1 && forall k :: 1 < k < p ==> !Divides(k, p)
  }

  lemma PrimeSevenThirtyOne()
    ensures Prime(7) && Prime(31)
  {
    assert forall k :: 1 < k < 31 ==> !Divides(k, 31);
  }

  /** A prime that divides a product but not the first factor divides the second. */
  lemma {:induction false} PrimeDivides(p: nat, b: nat, r: int, m: int) returns (w: int)
    requires Prime(p) && 0 < b < p && b * r == p * m
    ensures r == p * w
    decreases b
  {
    if b == 1 {
      w := m;
    } else {
      var t, s := p / b, p % b;
      assert !Divides(b, p);
      calc {
        s * r;
        (p - b * t) * r;
        p * r - t * (b * r);
        p * r - t * (p * m);
        p * (r - t * m);
      }
      w := PrimeDivides(p, s, r, r - t * m);
    }
  }

  lemma FactorOfSecond(p: nat, g: nat, q: nat, n: nat) returns (w: int)
    requires Prime(p) && g * q == p * n && q % p != 0
    ensures g == p * w
  {
    var k, b := q / p, q % p;
    calc {
      b * g;
      (q - p * k) * g;
      g * q - p * (k * g);
      p * n - p * (k * g);
      p * (n - k * g);
    }
    w := PrimeDivides(p, b, g, n - k * g);
  }

  /** No smaller number of shifts brings a register back. */
  lemma NoShortPeriod(r: nat)
    requires 0 < r < 32767
    ensures ONE.Steps(r) != ONE
  {
    if ONE.Steps(r) == ONE {
      PeriodOfOne();
      var g, q := CommonPeriod(r, 32767);
      PrimeSevenThirtyOne();
      if q % 7 == 0 {
        assert g * (q / 7) == 4681;
        PeriodTimes(g, q / 7);
        NoPeriod4681();
      } else if q % 31 == 0 {
        assert g * (q / 31) == 1057;
        PeriodTimes(g, q / 31);
        NoPeriod1057();
      } else {
        var u := FactorOfSecond(7, g, q, 4681);
        assert u * q == 4681;
        var v := FactorOfSecond(31, u, q, 151);
        assert v * q == 151;
        CofactorOf151(v, q);
        assert g == 217;
        NoPeriod217();
      }
      assert false;
    }
  }

  lemma CofactorOf151(v: int, q: nat)
    requires v * q == 151 && q > 1
    ensures v == 1
  {
    assert v <= 12 || q <= 12;
  }

  lemma PeriodIff(d: nat)
    ensures ONE.Steps(d) == ONE <==> d % 32767 == 0
  {
    PeriodOfOne();
    if d % 32767 == 0 {
      PeriodTimes(32767, d / 32767);
    } else if ONE.Steps(d) == ONE {
      PeriodRemainder(32767, d);
      NoShortPeriod(d % 32767);
    }
  }

  // ---- Two flipped bits ----

  lemma {:induction false} QuietBits(c: Register, bits: seq<bool>)
    requires forall i :: 0 <= i < |bits| ==> !bits[i]
    ensures BitCrc(c, bits) == c.Steps(|bits|)
    decreases |bits|
  {
    hide Register.Step;
    if bits != [] {
      assert BitStep(c, false) == c.Step() by { PlusZeroRight(c); }
      QuietBits(c.Step(), bits[1..]);
    }
  }

  /** Exactly the bits `i` and `j` are set. */
  predicate TwoBits(bits: seq<bool>, i: nat, j: nat) {
    i < j < |bits| && forall k :: 0 <= k < |bits| ==> (bits[k] <==> k == i || k == j)
  }

  lemma BitOnePeriod(d: nat)
    ensures Register(1).Steps(d) == Register(1) <==> d % 32767 == 0
  {
    hide Register.Steps;
    BitOneIsPower();
    StepsAdd(ONE, 15, d);
    StepsAdd(ONE, d, 15);
    PeriodIff(d);
    if ONE.Steps(d).Steps(15) == ONE.Steps(15) {
      StepsInjective(ONE.Steps(d), ONE, 15);
    }
  }

  lemma BitOneIsPower()
    ensures ONE.Steps(15) == Register(1)
  {
    assert Register(0x0004).Steps(2) == Register(1);
    assert Register(0x0010).Steps(4) == Register(1);
    assert Register(0x0040).Steps(6) == Register(1);
    assert Register(0x0100).Steps(8) == Register(1);
    assert Register(0x0400).Steps(10) == Register(1);
    assert Register(0x1000).Steps(12) == Register(1);
    assert Register(0x4000).Steps(14) == Register(1);
  }

  lemma TwoBitSyndrome(bits: seq<bool>, i: nat, j: nat)
    requires TwoBits(bits, i, j)
    ensures BitCrc(ZERO, bits) == ZERO <==> (j - i) % 32767 == 0
  {
    hide Register.Plus, Register.Step, Register.Steps, BitCrc;
    var one := Register(1);
    var before, between, after := bits[..i], bits[i + 1..j], bits[j + 1..];
    assert bits == before + ([true] + (between + ([true] + after)));
    BitCrcConcat(ZERO, before, [true] + (between + ([true] + after)));
    QuietBits(ZERO, before);
    StepsZero(ZERO, i);
    var c1 := ZERO.Plus(one).Step();
    BitCrcSet(ZERO, between + ([true] + after));
    PlusZeroLeft(one);
    BitCrcConcat(c1, between, [true] + after);
    QuietBits(c1, between);
    var c2 := c1.Steps(j - i - 1);
    assert c2 == one.Steps(j - i) by { StepsOneTwo(one); StepsAdd(one, 1, j - i - 1); }
    BitCrcSet(c2, after);
    var c3 := c2.Plus(one).Step();
    QuietBits(c3, after);
    StepsZero(c3, |after|);
    StepZero(c2.Plus(one));
    PlusZero(c2, one);
    BitOnePeriod(j - i);
  }

  lemma BitCrcSet(c: Register, rest: seq<bool>)
    ensures BitCrc(c, [true] + rest) == BitCrc(c.Plus(Register(1)).Step(), rest)
  {
    assert ([true] + rest)[1..] == rest;
  }

  /** Two flipped bits of an accepted frame go unnoticed exactly when their distance is a
      multiple of 32767 bits. */
  lemma TwoBitErrorPasses(f: seq<bv8>, e: seq<bv8>, i: nat, j: nat)
    requires Accepted(f) && |e| == |f| && TwoBits(Bits(e), i, j)
    ensures Accepted(Xor(f, e)) <==> (j - i) % 32767 == 0
  {
    ErrorPasses(f, e);
    TwoBitSyndrome(Bits(e), i, j);
  }

  lemma {:induction false} NoOnes(bits: seq<bool>)
    requires Ones(bits) == 0
    ensures forall k :: 0 <= k < |bits| ==> !bits[k]
    decreases |bits|
  {
    if bits != [] {
      NoOnes(bits[1..]);
      assert forall k :: 1 <= k < |bits| ==> bits[k] == bits[1..][k - 1];
    }
  }

  lemma {:induction false} OneBit(bits: seq<bool>) returns (i: nat)
    requires Ones(bits) == 1
    ensures i < |bits| && forall k :: 0 <= k < |bits| ==> (bits[k] <==> k == i)
    decreases |bits|
  {
    assert forall k :: 1 <= k < |bits| ==> bits[k] == bits[1..][k - 1];
    if bits[0] {
      NoOnes(bits[1..]);
      i := 0;
    } else {
      i := OneBit(bits[1..]);
      i := i + 1;
    }
  }

  lemma {:induction false} FindTwoBits(bits: seq<bool>) returns (i: nat, j: nat)
    requires Ones(bits) == 2
    ensures TwoBits(bits, i, j)
    decreases |bits|
  {
    assert forall k :: 1 <= k < |bits| ==> bits[k] == bits[1..][k - 1];
    if bits[0] {
      j := OneBit(bits[1..]);
      i, j := 0, j + 1;
    } else {
      i, j := FindTwoBits(bits[1..]);
      i, j := i + 1, j + 1;
    }
  }

  /** Any two accepted frames of the same length differ in at least four bits, up to 4095
      bytes; a Modbus frame has at most 256. `NoLongerBound` shows that one byte more is too much. */
  lemma AcceptedFramesDifferInFourBits(f: seq<bv8>, e: seq<bv8>)
    requires Accepted(f) && |e| == |f| <= 4095 && 1 <= Ones(Bits(e)) <= 3
    ensures !Accepted(Xor(f, e))
  {
    hide Accepted, Xor, Bits;
    if Ones(Bits(e)) == 2 {
      var i, j := FindTwoBits(Bits(e));
      TwoBitErrorPasses(f, e, i, j);
    } else {
      OddErrorDetected(f, e);
    }
  }

  // ---- The bound is sharp ----

  function Zeros(n: nat): (data: seq<bv8>)
    ensures |data| == n
  {
    seq(n, _ => 0)
  }

  lemma QuietBytes(n: nat)
    ensures forall k :: 0 <= k < 8 * n ==> !Bits(Zeros(n))[k]
  {
    if n > 0 {
      assert Zeros(n)[..n - 1] == Zeros(n - 1);
      QuietBytes(n - 1);
      QuietByte();
    }
  }

  lemma QuietByte()
    ensures ByteBits(0) == [false, false, false, false, false, false, false, false]
  {
    QuietWord(8);
  }

  lemma {:induction false} QuietWord(n: nat)
    ensures WordBits(0, n) == seq(n, _ => false)
    decreases n
  {
    if n > 0 { QuietWord(n - 1); }
  }

  lemma LowBitByte()
    ensures ByteBits(1) == [true] + seq(7, _ => false)
  {
    QuietWord(7);
  }

  lemma HighBitByte()
    ensures ByteBits(0x80) == seq(7, _ => false) + [true]
  {
    assert WordBits(0x10, 5) == [false, false, false, false, true];
    assert WordBits(0x80, 8) == [false, false, false] + WordBits(0x10, 5);
  }

  lemma BitsAppend(data: seq<bv8>, b: bv8)
    ensures Bits(data + [b]) == Bits(data) + ByteBits(b)
  {
    assert (data + [b])[..|data|] == data;
  }

  lemma {:induction false} BitsConcat(a: seq<bv8>, b: seq<bv8>)
    ensures Bits(a + b) == Bits(a) + Bits(b)
    decreases |b|
  {
    hide ByteBits;
    if b == [] {
      assert a + b == a;
    } else {
      var n := |b| - 1;
      BitsConcat(a, b[..n]);
      BitsAppend(a + b[..n], b[n]);
      assert a + b[..n] + [b[n]] == a + b;
    }
  }

  /** The first and the last bit of `n + 2` bytes. */
  function EndBits(n: nat): seq<bv8> {
    [1] + Zeros(n) + [0x80]
  }

  lemma EndBitsAre(n: nat)
    ensures |EndBits(n)| == n + 2 && TwoBits(Bits(EndBits(n)), 0, 8 * n + 15)
  {
    hide ByteBits;
    BitsConcat([1] + Zeros(n), [0x80]);
    BitsConcat([1], Zeros(n));
    BitsAppend([], 1);
    BitsAppend([], 0x80);
    assert [] + [1] == [1] && [] + [0x80] == [0x80];
    LowBitByte();
    HighBitByte();
    QuietBytes(n);
  }

  /** In 4096 bytes the first and the last bit are 32767 apart: every accepted frame of that length
      has an accepted neighbour two bits away. */
  lemma NoLongerBound(f: seq<bv8>)
    requires Accepted(f) && |f| == 4096
    ensures |EndBits(4094)| == 4096 && TwoBits(Bits(EndBits(4094)), 0, 32767)
    ensures Xor(f, EndBits(4094)) != f && Accepted(Xor(f, EndBits(4094)))
  {
    hide Bits, Accepted;
    EndBitsAre(4094);
    TwoBitErrorPasses(f, EndBits(4094), 0, 32767);
    FirstByteFlips(f[0]);
    assert Xor(f, EndBits(4094))[0] == f[0] ^ 1;
  }

  lemma FirstByteFlips(b: bv8)
    ensures b ^ 1 != b
  {
  }
}
