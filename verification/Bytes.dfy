/** Bytes as numbers: what a byte stands for, bit by bit, and numbers cut to a byte. */
module Bytes {

  /** A binary numeral with one more bit at its low end. */
  function Join(bit: bool, rest: nat): nat {
    (if bit then 1 else 0) + 2 * rest
  }

  /** The number written by eight bits, least significant first. */
  function Number(b0: bool, b1: bool, b2: bool, b3: bool, b4: bool, b5: bool, b6: bool, b7: bool): (n: nat)
    ensures n <= 255
  {
    Join(b0, Join(b1, Join(b2, Join(b3, Join(b4, Join(b5, Join(b6, Join(b7, 0))))))))
  }

  /** The number a byte stands for. */
  function Value(b: bv8): (n: nat)
    ensures n <= 255
  {
    Number(b & 1 != 0, b & 2 != 0, b & 4 != 0, b & 8 != 0, b & 16 != 0, b & 32 != 0, b & 64 != 0, b & 128 != 0)
  }

  function Choice(on: bool, mask: bv8): bv8 {
    if on then mask else 0
  }

  function Pack(b0: bool, b1: bool, b2: bool, b3: bool, b4: bool, b5: bool, b6: bool, b7: bool): bv8 {
    Choice(b0, 1) | Choice(b1, 2) | Choice(b2, 4) | Choice(b3, 8)
    | Choice(b4, 16) | Choice(b5, 32) | Choice(b6, 64) | Choice(b7, 128)
  }

  predicate Odd(n: nat) { n % 2 == 1 }

  function Half(n: nat): nat { n / 2 }

  /** The byte that stands for `m`. */
  function ByteOf(m: nat): bv8
    requires m < 0x100
  {
    var m1 := Half(m);
    var m2 := Half(m1);
    var m3 := Half(m2);
    var m4 := Half(m3);
    var m5 := Half(m4);
    var m6 := Half(m5);
    Pack(Odd(m), Odd(m1), Odd(m2), Odd(m3), Odd(m4), Odd(m5), Odd(m6), Odd(Half(m6)))
  }

  /** A size cut to one byte. */
  function CountByte(n: nat): bv8 {
    ByteOf(n % 0x100)
  }

  lemma PackedBits(b0: bool, b1: bool, b2: bool, b3: bool, b4: bool, b5: bool, b6: bool, b7: bool)
    ensures var b := Pack(b0, b1, b2, b3, b4, b5, b6, b7);
      && (b & 1 != 0 <==> b0) && (b & 2 != 0 <==> b1) && (b & 4 != 0 <==> b2) && (b & 8 != 0 <==> b3)
      && (b & 16 != 0 <==> b4) && (b & 32 != 0 <==> b5) && (b & 64 != 0 <==> b6) && (b & 128 != 0 <==> b7)
  {
  }

  lemma PackedValue(b0: bool, b1: bool, b2: bool, b3: bool, b4: bool, b5: bool, b6: bool, b7: bool)
    ensures Value(Pack(b0, b1, b2, b3, b4, b5, b6, b7)) == Number(b0, b1, b2, b3, b4, b5, b6, b7)
  {
    hide Pack, Number;
    PackedBits(b0, b1, b2, b3, b4, b5, b6, b7);
  }

  lemma Halves(m: nat, bound: nat)
    requires m < 2 * bound
    ensures m == Join(Odd(m), Half(m)) && Half(m) < bound
  {
  }

  lemma ByteKeeps(m: nat)
    requires m < 0x100
    ensures Value(ByteOf(m)) == m
  {
    hide Pack, Odd, Half, Value, Join;
    var m1 := Half(m);
    Halves(m, 128);
    var m2 := Half(m1);
    Halves(m1, 64);
    var m3 := Half(m2);
    Halves(m2, 32);
    var m4 := Half(m3);
    Halves(m3, 16);
    var m5 := Half(m4);
    Halves(m4, 8);
    var m6 := Half(m5);
    Halves(m5, 4);
    var m7 := Half(m6);
    Halves(m6, 2);
    Halves(m7, 1);
    PackedValue(Odd(m), Odd(m1), Odd(m2), Odd(m3), Odd(m4), Odd(m5), Odd(m6), Odd(m7));
  }

  lemma CountByteKeeps(n: nat)
    ensures Value(CountByte(n)) == n % 0x100
  {
    hide Value, ByteOf;
    ByteKeeps(n % 0x100);
  }

  lemma SameParts(a: bv8, b: bv8)
    requires (a & 1 != 0 <==> b & 1 != 0) && (a & 2 != 0 <==> b & 2 != 0)
    requires (a & 4 != 0 <==> b & 4 != 0) && (a & 8 != 0 <==> b & 8 != 0)
    requires (a & 16 != 0 <==> b & 16 != 0) && (a & 32 != 0 <==> b & 32 != 0)
    requires (a & 64 != 0 <==> b & 64 != 0) && (a & 128 != 0 <==> b & 128 != 0)
    ensures a == b
  {
  }

  lemma JoinInjective(a: bool, m: nat, b: bool, n: nat)
    requires Join(a, m) == Join(b, n)
    ensures a == b && m == n
  {
  }

  lemma SameHigh(a0: bool, a1: bool, a2: bool, a3: bool, b0: bool, b1: bool, b2: bool, b3: bool)
    requires Join(a0, Join(a1, Join(a2, Join(a3, 0)))) == Join(b0, Join(b1, Join(b2, Join(b3, 0))))
    ensures a0 == b0 && a1 == b1 && a2 == b2 && a3 == b3
  {
    hide Join;
    JoinInjective(a0, Join(a1, Join(a2, Join(a3, 0))), b0, Join(b1, Join(b2, Join(b3, 0))));
    JoinInjective(a1, Join(a2, Join(a3, 0)), b1, Join(b2, Join(b3, 0)));
    JoinInjective(a2, Join(a3, 0), b2, Join(b3, 0));
    JoinInjective(a3, 0, b3, 0);
  }

  lemma SameByteBits(a0: bool, a1: bool, a2: bool, a3: bool, a4: bool, a5: bool, a6: bool, a7: bool,
                 b0: bool, b1: bool, b2: bool, b3: bool, b4: bool, b5: bool, b6: bool, b7: bool)
    requires Number(a0, a1, a2, a3, a4, a5, a6, a7) == Number(b0, b1, b2, b3, b4, b5, b6, b7)
    ensures a0 == b0 && a1 == b1 && a2 == b2 && a3 == b3 && a4 == b4 && a5 == b5 && a6 == b6 && a7 == b7
  {
    hide Join;
    var a := Join(a4, Join(a5, Join(a6, Join(a7, 0))));
    var b := Join(b4, Join(b5, Join(b6, Join(b7, 0))));
    JoinInjective(a0, Join(a1, Join(a2, Join(a3, a))), b0, Join(b1, Join(b2, Join(b3, b))));
    JoinInjective(a1, Join(a2, Join(a3, a)), b1, Join(b2, Join(b3, b)));
    JoinInjective(a2, Join(a3, a), b2, Join(b3, b));
    JoinInjective(a3, a, b3, b);
    SameHigh(a4, a5, a6, a7, b4, b5, b6, b7);
  }

  lemma SameByte(a: bv8, b: bv8)
    requires Value(a) == Value(b)
    ensures a == b
  {
    hide Number;
    SameByteBits(a & 1 != 0, a & 2 != 0, a & 4 != 0, a & 8 != 0, a & 16 != 0, a & 32 != 0, a & 64 != 0, a & 128 != 0,
             b & 1 != 0, b & 2 != 0, b & 4 != 0, b & 8 != 0, b & 16 != 0, b & 32 != 0, b & 64 != 0, b & 128 != 0);
    SameParts(a, b);
  }

  /** So a byte stands for its place in the order of the bytes. */
  lemma ValueCounts(b: bv8)
    ensures Value(0) == 0
    ensures b != 0xFF ==> Value(b + 1) == Value(b) + 1
  {
  }

  function Added(a: bv8, b: bv8): bv8 { a + b }

  lemma ValueWraps(b: bv8)
    ensures Value(Added(b, 1)) == (Value(b) + 1) % 0x100
  {
    hide Value;
    ValueCounts(b);
    LastByte();
  }

  lemma LastByte()
    ensures Value(0xFF) == 255
  {
  }

  lemma PrevByte(a: bv8, b: bv8)
    ensures Added(Added(b, 0xFF), 1) == b && Added(Added(a, Added(b, 0xFF)), 1) == Added(a, b) && Added(a, 0) == a
    ensures b != 0 ==> Added(b, 0xFF) != 0xFF
  {
  }

  lemma PrevValue(b: bv8)
    requires b != 0
    ensures Value(b) == Value(Added(b, 0xFF)) + 1
  {
    hide Value;
    PrevByte(b, b);
    ValueCounts(Added(b, 0xFF));
  }

  lemma NextWraps(n: nat)
    ensures (n % 0x100 + 1) % 0x100 == (n + 1) % 0x100
  {
  }

  lemma ZeroByte()
    ensures Value(0) == 0
  {
  }

  lemma {:induction false} AddedValue(a: bv8, b: bv8)
    ensures Value(Added(a, b)) == (Value(a) + Value(b)) % 0x100
    decreases Value(b)
  {
    hide Value, Added;
    PrevByte(a, b);
    ZeroByte();
    if b != 0 {
      PrevValue(b);
      AddedValue(a, Added(b, 0xFF));
      ValueWraps(Added(a, Added(b, 0xFF)));
      NextWraps(Value(a) + Value(b) - 1);
    }
  }

  /** Bytes are added modulo 256. */
  lemma AddValue(a: bv8, b: bv8)
    ensures Value(a + b) == (Value(a) + Value(b)) % 0x100
  {
    hide Value;
    AddedValue(a, b);
  }

  /** The sum of the numbers the bytes stand for. */
  function Total(bytes: seq<bv8>): nat {
    if bytes == [] then 0 else Total(bytes[..|bytes| - 1]) + Value(bytes[|bytes| - 1])
  }
}
