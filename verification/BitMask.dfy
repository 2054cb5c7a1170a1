/** A 32-bit mask with single bits set and cleared, and masks told apart by their bits. */
module BitMask {

  datatype Mask = Mask(word: bv32) {

    function Or(other: Mask): Mask { Mask(word | other.word) }

    function And(other: Mask): Mask { Mask(word & other.word) }

    function AndNot(other: Mask): Mask { Mask(word & !other.word) }

    function Plus(other: Mask): Mask { Mask(word ^ other.word) }

    function Twice(): Mask { Mask(word << 1) }

    function Less1(): Mask { Mask(word - 1) }
  }

  const EMPTY := Mask(0)

  /** The mask with only bit `k` set: a one shifted left `k` times. */
  function Flag(k: nat): Mask
    requires k < 32
  {
    if k == 0 then Mask(1) else Flag(k - 1).Twice()
  }

  predicate IsSet(mask: Mask, k: nat)
    requires k < 32
  {
    mask.And(Flag(k)) != EMPTY
  }

  // ---- Facts about words ----

  /** What makes a word a single bit: it has nothing in common with its predecessor. */
  predicate Single(p: Mask) {
    p != EMPTY && p.And(p.Less1()) == EMPTY
  }

  lemma SingleTwice(p: Mask)
    requires Single(p) && p.Twice() != EMPTY
    ensures Single(p.Twice()) && p.Less1().Or(p) == p.Twice().Less1()
  {
  }

  lemma SinglePart(a: Mask, p: Mask)
    requires Single(p) && a.And(p) != EMPTY
    ensures a.And(p) == p
  {
  }

  lemma OrSame(m: Mask, p: Mask)
    ensures m.Or(p).And(p) == p
  {
  }

  lemma OrOther(m: Mask, p: Mask, q: Mask)
    requires p.And(q) == EMPTY
    ensures m.Or(p).And(q) == m.And(q)
  {
  }

  lemma AndNotSame(m: Mask, p: Mask)
    ensures m.AndNot(p).And(p) == EMPTY
  {
  }

  lemma AndNotOther(m: Mask, p: Mask, q: Mask)
    requires p.And(q) == EMPTY
    ensures m.AndNot(p).And(q) == m.And(q)
  {
  }

  lemma PlusAndOr(a: Mask, b: Mask, p: Mask, q: Mask)
    requires a.Plus(b).And(p) == EMPTY && a.And(q) == b.And(q)
    ensures a.Plus(b).And(p.Or(q)) == EMPTY
  {
  }

  lemma PlusAll(a: Mask, b: Mask)
    requires a.Plus(b).And(Mask(0xFFFF_FFFF)) == EMPTY
    ensures a == b
  {
  }

  lemma AndEmpty(a: Mask)
    ensures a.And(EMPTY) == EMPTY && EMPTY.And(a) == EMPTY
  {
  }

  lemma WithinApart(p: Mask, q: Mask, r: Mask)
    requires p.And(q) == p && q.And(r) == EMPTY
    ensures p.And(r) == EMPTY && r.And(p) == EMPTY
  {
  }

  lemma WithinOr(p: Mask, q: Mask, r: Mask)
    requires p.And(q) == p
    ensures p.And(q.Or(r)) == p
  {
  }

  // ---- Flags ----

  lemma TopFlag()
    ensures Flag(31) == Mask(0x8000_0000)
  {
    assert Flag(8) == Mask(0x100);
    assert Flag(16) == Mask(0x1_0000);
    assert Flag(24) == Mask(0x100_0000);
  }

  lemma {:induction false} FlagNonempty(k: nat)
    requires k < 32
    ensures Flag(k) != EMPTY
    decreases 31 - k
  {
    if k == 31 { TopFlag(); } else { FlagNonempty(k + 1); }
  }

  lemma {:induction false} FlagSingle(k: nat)
    requires k < 32
    ensures Single(Flag(k)) && Below(k) == Flag(k).Less1()
    decreases k
  {
    hide Single, Mask.Twice, Mask.Less1, Mask.Or;
    if k == 0 {
      FlagZero();
    } else {
      FlagSingle(k - 1);
      FlagNonempty(k);
      SingleTwice(Flag(k - 1));
    }
  }

  lemma FlagZero()
    ensures Single(Flag(0)) && EMPTY == Flag(0).Less1()
  {
  }

  lemma {:induction false} FlagBelow(k: nat, n: nat)
    requires k < n <= 32
    ensures Flag(k).And(Below(n)) == Flag(k)
    decreases n
  {
    if k == n - 1 {
    } else {
      FlagBelow(k, n - 1);
      WithinOr(Flag(k), Below(n - 1), Flag(n - 1));
    }
  }

  lemma FlagsApart(k: nat, j: nat)
    requires k < j < 32
    ensures Flag(k).And(Flag(j)) == EMPTY && Flag(j).And(Flag(k)) == EMPTY
  {
    hide Flag, Mask.And;
    FlagBelow(k, j);
    FlagSingle(j);
    BelowApart(Flag(j));
    WithinApart(Flag(k), Below(j), Flag(j));
  }

  lemma BelowApart(p: Mask)
    requires Single(p)
    ensures p.Less1().And(p) == EMPTY
  {
  }

  lemma BitPart(a: Mask, k: nat)
    requires k < 32
    ensures a.And(Flag(k)) == if IsSet(a, k) then Flag(k) else EMPTY
  {
    hide Flag, Mask.And;
    FlagSingle(k);
    if IsSet(a, k) { SinglePart(a, Flag(k)); }
  }

  /** Setting one bit sets that bit and keeps the others. */
  lemma SetBit(mask: Mask, k: nat, j: nat)
    requires k < 32 && j < 32
    ensures IsSet(mask.Or(Flag(k)), j) <==> j == k || IsSet(mask, j)
  {
    hide Flag, Mask.Or, Mask.And;
    if j == k {
      OrSame(mask, Flag(k));
      FlagNonempty(k);
    } else {
      if k < j { FlagsApart(k, j); } else { FlagsApart(j, k); }
      OrOther(mask, Flag(k), Flag(j));
    }
  }

  /** Clearing one bit clears that bit and keeps the others. */
  lemma ClearBit(mask: Mask, k: nat, j: nat)
    requires k < 32 && j < 32
    ensures IsSet(mask.AndNot(Flag(k)), j) <==> j != k && IsSet(mask, j)
  {
    hide Flag, Mask.AndNot, Mask.And;
    if j == k {
      AndNotSame(mask, Flag(k));
    } else {
      if k < j { FlagsApart(k, j); } else { FlagsApart(j, k); }
      AndNotOther(mask, Flag(k), Flag(j));
    }
  }

  // ---- Masks with the same bits are equal ----

  /** The bits below `n`. */
  function Below(n: nat): Mask
    requires n <= 32
  {
    if n == 0 then EMPTY else Below(n - 1).Or(Flag(n - 1))
  }

  lemma BelowAll()
    ensures Below(32) == Mask(0xFFFF_FFFF)
  {
    FlagSingle(31);
    TopFlag();
  }

  lemma {:induction false} SameBelow(a: Mask, b: Mask, n: nat)
    requires n <= 32
    requires forall k :: 0 <= k < n ==> (IsSet(a, k) <==> IsSet(b, k))
    ensures a.Plus(b).And(Below(n)) == EMPTY
    decreases n
  {
    hide Flag, IsSet, Mask.And, Mask.Or, Mask.Plus;
    if n == 0 {
      AndEmpty(a.Plus(b));
    } else {
      SameBelow(a, b, n - 1);
      BitPart(a, n - 1);
      BitPart(b, n - 1);
      PlusAndOr(a, b, Below(n - 1), Flag(n - 1));
    }
  }

  lemma SameBits(a: Mask, b: Mask)
    requires forall k :: 0 <= k < 32 ==> (IsSet(a, k) <==> IsSet(b, k))
    ensures a == b
  {
    hide Flag, IsSet, Mask.And, Mask.Or, Mask.Plus;
    SameBelow(a, b, 32);
    BelowAll();
    PlusAll(a, b);
  }

  lemma EmptyBits(k: nat)
    requires k < 32
    ensures !IsSet(EMPTY, k)
  {
    AndEmpty(Flag(k));
  }

  // ---- Bits as shifts ----

  function Halved(mask: Mask): Mask { Mask(mask.word >> 1) }

  predicate Lowest(mask: Mask) { mask.word & 1 != 0 }

  lemma ShiftedBit(m: Mask, p: Mask)
    requires Single(p) && p.Twice() != EMPTY
    ensures m.And(p.Twice()) != EMPTY <==> Halved(m).And(p) != EMPTY
  {
  }

  lemma LowestBit(mask: Mask)
    ensures mask.And(Flag(0)) != EMPTY <==> Lowest(mask)
  {
  }

  /** Bit 0 is the lowest bit of the word, and bit `k + 1` is bit `k` of the word shifted down. */
  lemma IsSetShifts(mask: Mask, k: nat)
    requires k < 31
    ensures IsSet(mask, 0) <==> Lowest(mask)
    ensures IsSet(mask, k + 1) <==> IsSet(Halved(mask), k)
  {
    hide Single, Mask.Twice, Mask.And, Halved, Lowest;
    LowestBit(mask);
    FlagSingle(k);
    FlagNonempty(k + 1);
    ShiftedBit(mask, Flag(k));
  }
}
