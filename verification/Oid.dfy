/** The object identifier codec: dotted text to base-128 bytes and back.
    ITU-T X.690, section 8.19. */
module Oid {
  import opened Basics
  import opened Decimal
  import opened Strings

  type byte = x: int | 0 <= x < 256

  const TWO_28 := 0x1000_0000
  const TWO_31 := 0x8000_0000
  const TWO_32 := 0x1_0000_0000
  const TWO_35 := 0x8_0000_0000
  const TWO_64 := 0x1_0000_0000_0000_0000

  // ---- One arc ----

  /** `(unsigned char) (0x80 | x)`. */
  function Continued(x: nat): byte { 128 + x % 128 }

  /** `count` leading groups of seven bits of `x`, most significant first. */
  function Leading(x: nat, count: nat): (bytes: seq<byte>)
    ensures |bytes| == count
    ensures forall i :: 0 <= i < count ==> bytes[i] >= 128
    decreases count
  {
    if count == 0 then [] else Leading(x / 128, count - 1) + [Continued(x)]
  }

  /** `v` in `count` groups of seven bits; only the last group has its top bit clear. */
  function Groups(v: nat, count: nat): (bytes: seq<byte>)
    requires count > 0
    ensures |bytes| == count && IsSubidentifier(bytes)
  {
    Leading(v / 128, count - 1) + [v % 128]
  }

  predicate IsSubidentifier(bytes: seq<byte>) {
    && bytes != [] && bytes[|bytes| - 1] < 128
    && forall i :: 0 <= i < |bytes| - 1 ==> bytes[i] >= 128
  }

  /** The number of groups the encoder uses for an arc. */
  function GroupCount(v: nat): (count: nat)
    ensures 1 <= count <= 8
  {
    if v < 0x80 then 1 else if v < 0x4000 then 2 else if v < 0x20_0000 then 3 else if v < TWO_28 then 4 else 8
  }

  function EncodeArc(v: nat): seq<byte> {
    Groups(v, GroupCount(v))
  }

  // ---- Encoding ----

  datatype Ret = Ok | InvalidParameter | OutOfRange

  datatype Outcome = Outcome(ret: Ret, bytes: seq<byte>)

  /** A `long` taken as an unsigned 64-bit number. */
  function Unsigned(v: int): (u: nat)
    ensures u < TWO_64
  {
    v % TWO_64
  }

  function FirstByte(parts: seq<string>): byte
    requires |parts| >= 2
  {
    (40 * Atol(parts[0]) + Atol(parts[1])) % 256
  }

  /** The first two parts share a byte; each later part is one arc. An arc of 2^35 or more ends
      the encoding with an error, and what was written before it stays. */
  function EncodeParts(parts: seq<string>): Outcome
    requires |parts| >= 2
    decreases |parts|
  {
    if |parts| == 2 then Outcome(Ok, [FirstByte(parts)])
    else
      var before := EncodeParts(parts[..|parts| - 1]);
      var v := Unsigned(Atol(parts[|parts| - 1]));
      if before.ret != Ok then before
      else if v < TWO_35 then Outcome(Ok, before.bytes + EncodeArc(v))
      else Outcome(InvalidParameter, before.bytes)
  }

  /** The whole encoder on a text: fewer than two parts throw. */
  function Encoded(oid: string): Outcome {
    var parts := Kept(Pieces(oid, "."), true);
    if |parts| < 2 then Outcome(OutOfRange, []) else EncodeParts(parts)
  }

  // ---- Decoding ----

  /** The value kept in a 32-bit `int`. */
  function Wrap(v: int): (w: int)
    ensures -TWO_31 <= w < TWO_31
  {
    (v + TWO_31) % TWO_32 - TWO_31
  }

  /** Both conversions keep a number modulo 2^64 or 2^32, the second with a sign. */
  lemma Conversions(v: int)
    ensures 0 <= Unsigned(v) < 0x1_0000_0000_0000_0000 && (Unsigned(v) - v) % 0x1_0000_0000_0000_0000 == 0
    ensures -0x8000_0000 <= Wrap(v) < 0x8000_0000 && (Wrap(v) - v) % 0x1_0000_0000 == 0
  {
  }

  datatype Decoding = Decoding(value: int, text: string)

  function Take(d: Decoding, b: byte): Decoding {
    if b >= 128 then Decoding(Wrap((d.value + b % 128) * 128), d.text)
    else Decoding(0, d.text + "." + IntToString(Wrap(d.value + b)))
  }

  function TakeAll(d: Decoding, bytes: seq<byte>): Decoding {
    if bytes == [] then d else Take(TakeAll(d, bytes[..|bytes| - 1]), bytes[|bytes| - 1])
  }

  function Char(code: nat): string
    requires code < 128
  {
    [code as char]
  }

  function HeadText(first: byte): string {
    Char(48 + first / 40) + "." + Char(48 + first % 40)
  }

  function Decoded(bytes: seq<byte>): string {
    if bytes == [] then "" else TakeAll(Decoding(0, HeadText(bytes[0])), bytes[1..]).text
  }

  // ---- The code ----

  class ByteBuffer {
    var data: seq<byte>
    var position: nat

    constructor ()
      ensures data == [] && position == 0
    {
      data := [];
      position := 0;
    }

    method SetUInt8(item: byte)
      modifies this`data
      ensures data == old(data) + [item]
    {
      data := data + [item];
    }

    /** Past the end the caller's byte stays as it was. */
    method GetUInt8(was: byte) returns (ok: bool, item: byte)
      modifies this`position
      ensures ok <==> old(position) < |data|
      ensures ok ==> item == data[old(position)] && position == old(position) + 1
      ensures !ok ==> item == was && position == old(position)
    {
      if position >= |data| {
        return false, was;
      }
      item := data[position];
      position := position + 1;
      ok := true;
    }
  }

  /** The `len` bytes a reader sees from `position`: behind the end the last byte read again and
      again, or `unset` when none was read. */
  function Seen(data: seq<byte>, position: nat, len: nat, unset: byte): (bytes: seq<byte>)
    ensures |bytes| == len
  {
    seq(len, i requires 0 <= i =>
      if position + i < |data| then data[position + i] else if position < |data| then data[|data| - 1] else unset)
  }

  /** The position after `count` reads. */
  function Reached(size: nat, position: nat, count: nat): nat {
    if position + count <= size then position + count else if position < size then size else position
  }

  /** Reading past the end repeats the last byte and leaves the position at the end. */
  lemma SeenBytes(data: seq<byte>, position: nat, len: nat, unset: byte)
    ensures var seen, reached := Seen(data, position, len, unset), Reached(|data|, position, len);
      && (position + len <= |data| ==> seen == data[position..position + len] && reached == position + len)
      && (position < |data| < position + len ==>
            && seen == data[position..] + seq(len - (|data| - position), _ => data[|data| - 1])
            && reached == |data|)
      && (position >= |data| ==> seen == seq(len, _ => unset) && reached == position)
  {
  }

  lemma SeenStep(data: seq<byte>, position: nat, len: nat, unset: byte, i: nat)
    requires i < len
    ensures var at, seen := Reached(|data|, position, i), Seen(data, position, len, unset);
      && seen[i] == (if at < |data| then data[at] else if i == 0 then unset else seen[i - 1])
      && Reached(|data|, position, i + 1) == if at < |data| then at + 1 else at
  {
  }

  /** The encoder's cases, byte by byte. */
  method WriteArc(v: nat, value: ByteBuffer) returns (ret: Ret)
    requires v < TWO_64
    modifies value`data
    ensures v < 0x8_0000_0000 ==> ret == Ok && value.data == old(value.data) + EncodeArc(v)
    ensures v < 0x8_0000_0000 ==>
              |value.data| - |old(value.data)|
              == if v < 0x80 then 1 else if v < 0x4000 then 2 else if v < 0x20_0000 then 3
                 else if v < 0x1000_0000 then 4 else 8
    ensures v >= 0x8_0000_0000 ==> ret == InvalidParameter && value.data == old(value.data)
  {
    hide Groups;
    if v < TWO_35 { GroupsOf(v); }
    ret := Ok;
    if v < 0x80 {
      value.SetUInt8(v);
    } else if v < 0x4000 {
      value.SetUInt8(Continued(v / 0x80));
      value.SetUInt8(v % 128);
    } else if v < 0x20_0000 {
      value.SetUInt8(Continued(v / 0x4000));
      value.SetUInt8(Continued(v / 0x80));
      value.SetUInt8(v % 128);
    } else if v < TWO_28 {
      value.SetUInt8(Continued(v / 0x20_0000));
      value.SetUInt8(Continued(v / 0x4000));
      value.SetUInt8(Continued(v / 0x80));
      value.SetUInt8(v % 128);
    } else if v < TWO_35 {
      value.SetUInt8(Continued(v / 0x2_0000_0000_0000));
      value.SetUInt8(Continued(v / 0x400_0000_0000));
      value.SetUInt8(Continued(v / 0x8_0000_0000));
      value.SetUInt8(Continued(v / 0x1000_0000));
      value.SetUInt8(Continued(v / 0x20_0000));
      value.SetUInt8(Continued(v / 0x4000));
      value.SetUInt8(Continued(v / 0x80));
      value.SetUInt8(v % 128);
    } else {
      ret := InvalidParameter;
    }
  }

  lemma GroupsOf(v: nat)
    requires v < TWO_35
    ensures EncodeArc(v) ==
      if v < 0x80 then [v]
      else if v < 0x4000 then [Continued(v / 0x80), v % 128]
      else if v < 0x20_0000 then [Continued(v / 0x4000), Continued(v / 0x80), v % 128]
      else if v < TWO_28 then
        [Continued(v / 0x20_0000), Continued(v / 0x4000), Continued(v / 0x80), v % 128]
      else
        [Continued(v / 0x2_0000_0000_0000), Continued(v / 0x400_0000_0000), Continued(v / 0x8_0000_0000),
         Continued(v / 0x1000_0000), Continued(v / 0x20_0000), Continued(v / 0x4000), Continued(v / 0x80), v % 128]
  {
    hide Continued, Leading;
    ShiftedGroups(v);
    LeadingList(v / 0x80, v / 0x4000, v / 0x20_0000, v / 0x1000_0000, v / 0x8_0000_0000, v / 0x400_0000_0000,
                v / 0x2_0000_0000_0000);
  }

  lemma ShiftedGroups(v: nat)
    ensures v / 0x80 / 128 == v / 0x4000 && v / 0x4000 / 128 == v / 0x20_0000
    ensures v / 0x20_0000 / 128 == v / 0x1000_0000 && v / 0x1000_0000 / 128 == v / 0x8_0000_0000
    ensures v / 0x8_0000_0000 / 128 == v / 0x400_0000_0000
    ensures v / 0x400_0000_0000 / 128 == v / 0x2_0000_0000_0000
  {
  }

  lemma LeadingStep(x: nat, count: nat)
    requires count > 0
    ensures Leading(x, count) == Leading(x / 128, count - 1) + [Continued(x)]
    ensures Leading(x / 128, 0) == []
  {
  }

  lemma LeadingList(x1: nat, x2: nat, x3: nat, x4: nat, x5: nat, x6: nat, x7: nat)
    requires x2 == x1 / 128 && x3 == x2 / 128 && x4 == x3 / 128
    requires x5 == x4 / 128 && x6 == x5 / 128 && x7 == x6 / 128
    ensures Leading(x1, 1) == [Continued(x1)]
    ensures Leading(x1, 2) == [Continued(x2), Continued(x1)]
    ensures Leading(x1, 3) == [Continued(x3), Continued(x2), Continued(x1)]
    ensures Leading(x1, 7) ==
      [Continued(x7), Continued(x6), Continued(x5), Continued(x4), Continued(x3), Continued(x2), Continued(x1)]
  {
    hide Continued, Leading;
    LeadingShort(x1, x2, x3);
    LeadingShort(x5, x6, x7);
    assert Leading(x5, 3) == [Continued(x7), Continued(x6), Continued(x5)];
    LeadingStep(x4, 4);
    LeadingStep(x3, 5);
    LeadingStep(x2, 6);
    LeadingStep(x1, 7);
  }

  lemma LeadingShort(x1: nat, x2: nat, x3: nat)
    requires x2 == x1 / 128 && x3 == x2 / 128
    ensures Leading(x1, 1) == [Continued(x1)]
    ensures Leading(x1, 2) == [Continued(x2), Continued(x1)]
    ensures Leading(x1, 3) == [Continued(x3), Continued(x2), Continued(x1)]
  {
    hide Continued, Leading;
    LeadingStep(x3, 1);
    LeadingStep(x2, 1);
    LeadingStep(x1, 1);
    LeadingStep(x2, 2);
    LeadingStep(x1, 2);
    LeadingStep(x1, 3);
  }

  method OidStringToBytes(oid: string, value: ByteBuffer) returns (ret: Ret)
    modifies value`data
    ensures ret == Encoded(oid).ret && value.data == old(value.data) + Encoded(oid).bytes
  {
    hide EncodeArc, Atol, Unsigned, EncodeParts, FirstByte, Pieces, Kept;
    var arr := Split(oid, ".", true);
    if |arr| < 2 {
      return OutOfRange;
    }
    var v := Unsigned(Atol(arr[0]) * 40);
    v := Unsigned(v + Unsigned(Atol(arr[1])));
    FirstByteIs(arr);
    value.SetUInt8(v % 256);
    ret := Ok;
    var pos := 2;
    EncodeHead(arr);
    while pos != |arr|
      invariant 2 <= pos <= |arr| && ret == Ok
      invariant value.data == old(value.data) + EncodeParts(arr[..pos]).bytes
      invariant EncodeParts(arr[..pos]).ret == Ok
      decreases |arr| - pos
    {
      EncodeNext(arr, pos);
      v := Unsigned(Atol(arr[pos]));
      Regroup(old(value.data), EncodeParts(arr[..pos]).bytes, EncodeArc(v));
      ret := WriteArc(v, value);
      if ret != Ok {
        EncodeStops(arr, pos + 1);
        break;
      }
      pos := pos + 1;
    }
    assert arr[..|arr|] == arr;
  }

  lemma DropMultiples(y: int, k: int)
    ensures (y + 256 * k) % 256 == y % 256
  {
  }

  lemma UnsignedTurns(v: int) returns (k: int)
    ensures Unsigned(v) == v + 256 * k
  {
    k := -(v / TWO_64) * (TWO_64 / 256);
  }

  lemma FirstByteIs(parts: seq<string>)
    requires |parts| >= 2
    ensures Unsigned(Unsigned(Atol(parts[0]) * 40) + Unsigned(Atol(parts[1]))) % 256 == FirstByte(parts)
  {
    hide Atol, Unsigned;
    var a, b := Atol(parts[0]) * 40, Atol(parts[1]);
    var j := UnsignedTurns(a);
    var k := UnsignedTurns(b);
    var m := UnsignedTurns(Unsigned(a) + Unsigned(b));
    DropMultiples(a + b, j + k + m);
  }

  lemma EncodeHead(parts: seq<string>)
    requires |parts| >= 2
    ensures EncodeParts(parts[..2]) == Outcome(Ok, [FirstByte(parts)])
  {
    hide Atol;
  }

  lemma EncodeNext(parts: seq<string>, pos: nat)
    requires 2 <= pos < |parts|
    ensures var before, v := EncodeParts(parts[..pos]), Unsigned(Atol(parts[pos]));
      EncodeParts(parts[..pos + 1])
      == if before.ret != Ok then before
         else if v < TWO_35 then Outcome(Ok, before.bytes + EncodeArc(v))
         else Outcome(InvalidParameter, before.bytes)
  {
    hide EncodeArc, Atol;
    assert parts[..pos + 1][..pos] == parts[..pos];
  }

  lemma {:induction false} EncodeStops(parts: seq<string>, pos: nat)
    requires 2 <= pos <= |parts| && EncodeParts(parts[..pos]).ret != Ok
    ensures EncodeParts(parts) == EncodeParts(parts[..pos])
    decreases |parts|
  {
    if pos == |parts| {
      assert parts[..pos] == parts;
    } else {
      assert parts[..|parts| - 1][..pos] == parts[..pos];
      EncodeStops(parts[..|parts| - 1], pos);
    }
  }

  /** The reader: `unset` is what the byte variable holds before its first read. */
  method OidStringFromBytes(bb: ByteBuffer, len: nat, unset: byte) returns (sb: string)
    modifies bb`position
    ensures sb == Decoded(Seen(bb.data, old(bb.position), len, unset))
    ensures bb.position == Reached(|bb.data|, old(bb.position), len)
  {
    hide IntToString, Wrap, Seen, Reached, TakeAll, HeadText;
    ghost var start := bb.position;
    ghost var seen := Seen(bb.data, start, len, unset);
    sb := "";
    ReachedNone(|bb.data|, start);
    if len != 0 {
      SeenStep(bb.data, start, len, unset, 0);
      var ok, ch := bb.GetUInt8(unset);
      sb := Char(48 + ch / 40);
      sb := sb + ".";
      sb := sb + Char(48 + ch % 40);
      HeadTextIs(ch);
      TakeNone(Decoding(0, sb));
      var value := 0;
      assert seen[1..1] == [];
      for pos := 1 to len
        invariant ch == seen[pos - 1]
        invariant bb.position == Reached(|bb.data|, start, pos)
        invariant TakeAll(Decoding(0, HeadText(seen[0])), seen[1..pos]) == Decoding(value, sb)
      {
        SeenStep(bb.data, start, len, unset, pos);
        ok, ch := bb.GetUInt8(ch);
        assert seen[1..pos + 1] == seen[1..pos] + [ch];
        TakeNext(Decoding(0, HeadText(seen[0])), seen[1..pos], ch);
        if ch >= 128 {
          value := Wrap((value + ch % 128) * 128);
        } else {
          value := Wrap(value + ch);
          sb := sb + ".";
          sb := sb + IntToString(value);
          value := 0;
        }
      }
      assert seen[1..len] == seen[1..];
    }
  }

  lemma ReachedNone(size: nat, position: nat)
    ensures Reached(size, position, 0) == position
  {
  }

  lemma HeadTextIs(first: byte)
    ensures HeadText(first) == Char(48 + first / 40) + "." + Char(48 + first % 40)
  {
  }

  lemma TakeNone(d: Decoding)
    ensures TakeAll(d, []) == d
  {
  }

  lemma TakeNext(d: Decoding, bytes: seq<byte>, b: byte)
    ensures TakeAll(d, bytes + [b]) == Take(TakeAll(d, bytes), b)
  {
    hide Take;
    assert (bytes + [b])[..|bytes|] == bytes;
  }
}
