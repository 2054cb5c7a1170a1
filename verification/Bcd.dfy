/** Signed BCD items in the answers of the LTU devices: little-endian bytes of two decimal
    digits, the sign in the top bit of the last byte. */
module Bcd {

  type Byte = b: nat | b < 256

  const MAX_RECV_LEN := 128

  function Digits(b: Byte): nat { b / 16 * 10 + b % 16 }

  /** The number written by the bytes, least significant first. */
  function Magnitude(bytes: seq<Byte>): nat {
    if bytes == [] then 0 else Magnitude(bytes[1..]) * 100 + Digits(bytes[0])
  }

  function ClearSign(item: seq<Byte>): (r: seq<Byte>)
    requires item != []
    ensures |r| == |item|
  {
    item[|item| - 1 := item[|item| - 1] % 128]
  }

  predicate HasSign(item: seq<Byte>)
    requires item != []
  {
    item[|item| - 1] >= 128
  }

  function ItemValue(item: seq<Byte>, isNegative: bool): int
    requires isNegative ==> item != []
  {
    if !isNegative then Magnitude(item)
    else if HasSign(item) then 0 - Magnitude(ClearSign(item)) else Magnitude(ClearSign(item))
  }

  /** What a 32-bit int keeps of a value. */
  function Int32(v: int): (r: int)
    ensures -0x8000_0000 <= r < 0x8000_0000
  {
    (v + 0x8000_0000) % 0x1_0000_0000 - 0x8000_0000
  }

  /** That is, the value modulo 2^32, as a signed number. */
  lemma Int32Is(v: int)
    ensures -0x8000_0000 <= Int32(v) < 0x8000_0000 && (Int32(v) - v) % 0x1_0000_0000 == 0
  {
  }

  lemma Int32Turns(v: int) returns (m: int)
    ensures Int32(v) == v + m * 0x1_0000_0000
  {
    m := -((v + 0x8000_0000) / 0x1_0000_0000);
  }

  lemma Int32Period(v: int, m: int)
    ensures Int32(v + m * 0x1_0000_0000) == Int32(v)
  {
  }

  /** A digit step, and a change of sign, may cut as they go or once at the end. */
  lemma Int32Steps(v: int, d: int)
    ensures Int32(Int32(v) * 100 + d) == Int32(v * 100 + d) && Int32(0 - Int32(v)) == Int32(0 - v)
  {
    hide Int32;
    var m := Int32Turns(v);
    Int32Period(v * 100 + d, 100 * m);
    Int32Period(0 - v, -m);
  }

  lemma {:induction false} MagnitudeBound(bytes: seq<Byte>)
    requires |bytes| <= 4
    ensures Magnitude(bytes) <= 166_666_665
    ensures |bytes| <= 3 ==> Magnitude(bytes) <= 1_666_665
    ensures |bytes| <= 2 ==> Magnitude(bytes) <= 16_665
    ensures |bytes| <= 1 ==> Magnitude(bytes) <= 165
  {
    if bytes != [] {
      MagnitudeBound(bytes[1..]);
    }
  }

  lemma ItemBounds(dateByte: nat, dateNum: nat, i: nat)
    requires i < dateNum
    ensures i * dateByte <= (i + 1) * dateByte <= dateNum * dateByte
    ensures (i + 1) * dateByte == i * dateByte + dateByte
  {
    assert dateNum * dateByte == (i + 1) * dateByte + (dateNum - i - 1) * dateByte;
  }

  lemma MagnitudeSuffix(bytes: seq<Byte>, k: nat)
    requires k < |bytes|
    ensures Magnitude(bytes[k..]) == Magnitude(bytes[k + 1..]) * 100 + Digits(bytes[k])
  {
    assert bytes[k..][1..] == bytes[k + 1..];
  }

  /** The digit loop, from the last byte of the item to the first. */
  method ReadDigits(tempBuf: array<Byte>, first: nat, dateByte: nat) returns (result: int)
    requires first + dateByte <= tempBuf.Length
    ensures result == Int32(Magnitude(tempBuf[first..first + dateByte]))
  {
    hide Magnitude, Int32;
    ghost var bytes := tempBuf[first..first + dateByte];
    result := 0;
    NoDigits(bytes[dateByte..]);
    Int32Zero();
    for j := 1 to dateByte + 1
      invariant result == Int32(Magnitude(bytes[dateByte - (j - 1)..]))
    {
      MagnitudeSuffix(bytes, dateByte - j);
      var byte := tempBuf[first + dateByte - j];
      var high := byte / 16;
      var low := byte % 16;
      Int32Steps(Magnitude(bytes[dateByte - (j - 1)..]), high * 10 + low);
      result := Int32(result * 100 + (high * 10 + low));
    }
    assert bytes[0..] == bytes;
  }

  lemma Int32Zero()
    ensures Int32(0) == 0
  {
  }

  /** Decodes one item in place: its sign bit is taken off in the buffer, nothing else changes. */
  method DecodeItem(tempBuf: array<Byte>, first: nat, dateByte: nat, isNegative: bool) returns (result: int)
    requires first + dateByte <= tempBuf.Length && (isNegative ==> dateByte > 0)
    modifies tempBuf
    ensures result == Int32(ItemValue(old(tempBuf[first..first + dateByte]), isNegative))
    ensures forall k :: 0 <= k < tempBuf.Length && !(isNegative && k == first + dateByte - 1) ==>
              tempBuf[k] == old(tempBuf[k])
  {
    hide Magnitude, Int32;
    var next := first + dateByte;
    ghost var item := tempBuf[first..next];
    var negativeFlag := false;
    if isNegative {
      negativeFlag := tempBuf[next - 1] >= 128;
      tempBuf[next - 1] := tempBuf[next - 1] % 128;
    }
    assert tempBuf[first..next] == if isNegative then ClearSign(item) else item;
    result := ReadDigits(tempBuf, first, dateByte);
    if negativeFlag {
      Int32Steps(Magnitude(ClearSign(item)), 0);
      result := Int32(0 - result);
    }
  }

  lemma NoDigits(bytes: seq<Byte>)
    requires bytes == []
    ensures Magnitude(bytes) == 0
  {
  }

  /** `value` is what a 32-bit int keeps of the item at `first`. */
  ghost predicate Decoded(buffer: seq<Byte>, first: nat, dateByte: nat, isNegative: bool, value: int) {
    && (isNegative ==> 0 < dateByte) && first + dateByte <= |buffer|
    && value == Int32(ItemValue(buffer[first..first + dateByte], isNegative))
  }

  /** Decodes the items of an answer, of any width, in a working copy of the buffer. */
  method DecodeItems(receiveBuf: seq<Byte>, dateNum: nat, dateByte: nat, isNegative: bool)
    returns (values: seq<int>)
    requires |receiveBuf| == MAX_RECV_LEN && dateNum * dateByte <= MAX_RECV_LEN && (isNegative ==> dateByte > 0)
    ensures |values| == dateNum
    ensures forall i :: 0 <= i < dateNum ==> Decoded(receiveBuf, i * dateByte, dateByte, isNegative, values[i])
  {
    hide ItemValue, Int32;
    var tempBuf := new Byte[MAX_RECV_LEN](k requires 0 <= k < MAX_RECV_LEN => receiveBuf[k]);
    values := [];
    var first := 0;
    for i := 0 to dateNum
      invariant |values| == i && first == i * dateByte
      invariant forall k :: first <= k < MAX_RECV_LEN ==> tempBuf[k] == receiveBuf[k]
      invariant forall k :: 0 <= k < i ==> Decoded(receiveBuf, k * dateByte, dateByte, isNegative, values[k])
    {
      ItemBounds(dateByte, dateNum, i);
      ghost var item := receiveBuf[first..first + dateByte];
      assert tempBuf[first..first + dateByte] == item;
      var result := DecodeItem(tempBuf, first, dateByte, isNegative);
      values := values + [result];
      first := first + dateByte;
    }
  }

  /** Items of at most four bytes are decoded in full: nothing is cut. */
  lemma ItemFits(item: seq<Byte>, isNegative: bool)
    requires 1 <= |item| <= 4
    ensures Int32(ItemValue(item, isNegative)) == ItemValue(item, isNegative)
  {
    MagnitudeBound(item);
    MagnitudeBound(ClearSign(item));
  }

  /** The single-item reader's own formula over three bytes. */
  function ThreeByteValue(v0: Byte, v1: Byte, v2: Byte): int {
    var result := v2 / 16 % 8 * 100000 + v2 % 16 * 10000 + v1 / 16 * 1000 + v1 % 16 * 100 + v0 / 16 * 10 + v0 % 16;
    if v2 >= 128 then 0 - result else result
  }

  lemma TopDigits(b: Byte)
    ensures Digits(b % 128) == b / 16 % 8 * 10 + b % 16
  {
    var d, u := b / 16, b % 16;
    assert b == 16 * d + u;
    if d < 8 {
      assert b % 128 == b;
    } else {
      assert b % 128 == 16 * (d - 8) + u;
    }
  }

  lemma {:induction false} MagnitudeOfThree(v0: Byte, v1: Byte, v2: Byte)
    ensures Magnitude([v0, v1, v2]) == 10000 * Digits(v2) + 100 * Digits(v1) + Digits(v0)
  {
    hide Digits;
    var item := [v0, v1, v2];
    assert item[0..] == item;
    MagnitudeSuffix(item, 0);
    MagnitudeSuffix(item, 1);
    MagnitudeSuffix(item, 2);
    NoDigits(item[3..]);
  }

  /** The formula agrees with the general loop on all bytes, decimal digits or not. */
  lemma ThreeByteAgrees(v0: Byte, v1: Byte, v2: Byte)
    ensures ThreeByteValue(v0, v1, v2) == ItemValue([v0, v1, v2], true)
  {
    assert ClearSign([v0, v1, v2]) == [v0, v1, v2 % 128];
    hide Magnitude, ClearSign;
    MagnitudeOfThree(v0, v1, v2 % 128);
    TopDigits(v2);
  }

  // ---- Encoding ----

  function Pow100(n: nat): (p: nat)
    ensures p > 0
  {
    if n == 0 then 1 else 100 * Pow100(n - 1)
  }

  function EncodeMagnitude(m: nat, n: nat): (bytes: seq<Byte>)
    ensures |bytes| == n
    decreases n
  {
    if n == 0 then [] else [m % 100 / 10 * 16 + m % 10] + EncodeMagnitude(m / 100, n - 1)
  }

  function Abs(v: int): nat { if v < 0 then 0 - v else v }

  /** The item a device sends for `v` in `n` bytes. */
  function EncodeSigned(v: int, n: nat): (item: seq<Byte>)
    requires n > 0
    ensures |item| == n
  {
    var bytes := EncodeMagnitude(Abs(v), n);
    var top := bytes[n - 1];
    if v < 0 && top < 128 then bytes[n - 1 := top + 128] else bytes
  }

  lemma ByteDigits(m: nat)
    ensures Digits(m % 100 / 10 * 16 + m % 10) == m % 100
  {
    hide Digits;
    TwoDigits(m % 100 / 10, m % 10);
    LowDigits(m);
  }

  lemma TwoDigits(d: nat, u: nat)
    requires d < 10 && u < 10
    ensures Digits(d * 16 + u) == 10 * d + u
  {
  }

  lemma LowDigits(m: nat)
    ensures m % 100 == 10 * (m % 100 / 10) + m % 10
  {
    LastDigit(m / 100, m % 100);
  }

  lemma LastDigit(q: nat, r: nat)
    ensures (100 * q + r) % 10 == r % 10
  {
  }

  lemma {:induction false} EncodeDecodes(m: nat, n: nat)
    requires m < Pow100(n)
    ensures Magnitude(EncodeMagnitude(m, n)) == m
    decreases n
  {
    hide Digits;
    if n > 0 {
      ByteDigits(m);
      assert EncodeMagnitude(m, n)[1..] == EncodeMagnitude(m / 100, n - 1);
      EncodeDecodes(m / 100, n - 1);
    }
  }

  /** The sign bit is free exactly as long as the top digit stays below 8. */
  lemma {:induction false} TopBitFree(m: nat, n: nat)
    requires n > 0 && m < 80 * Pow100(n - 1)
    ensures EncodeMagnitude(m, n)[n - 1] < 128
    decreases n
  {
    if n > 1 {
      TopBitFree(m / 100, n - 1);
    }
  }

  predicate Decimal(bytes: seq<Byte>) {
    forall i :: 0 <= i < |bytes| ==> Digits(bytes[i]) <= 99
  }

  lemma {:induction false} EncodedDecimal(m: nat, n: nat)
    ensures Decimal(EncodeMagnitude(m, n))
    ensures n > 0 ==> EncodeMagnitude(m, n)[n - 1] % 16 <= 9
    decreases n
  {
    hide Digits;
    if n > 0 {
      EncodedDecimal(m / 100, n - 1);
      ByteDigits(m);
      LowNibble(m % 100 / 10, m % 10);
    }
  }

  lemma LowNibble(d: nat, u: nat)
    requires u < 10
    ensures (d * 16 + u) % 16 == u
  {
  }

  lemma {:induction false} MagnitudeBelow(bytes: seq<Byte>)
    requires Decimal(bytes) && bytes != [] && Digits(bytes[|bytes| - 1]) <= 79
    ensures Magnitude(bytes) < 80 * Pow100(|bytes| - 1)
    decreases |bytes|
  {
    if |bytes| > 1 {
      MagnitudeBelow(bytes[1..]);
    } else {
      NoDigits(bytes[1..]);
    }
  }

  /** Whatever the sign bit, the cleared item is decimal with a top digit below 8. */
  lemma ClearedTop(bytes: seq<Byte>, item: seq<Byte>)
    requires bytes != [] && Decimal(bytes) && bytes[|bytes| - 1] % 16 <= 9
    requires var last := |bytes| - 1;
      item == bytes || (bytes[last] < 128 && item == bytes[last := bytes[last] + 128])
    ensures |ClearSign(item)| == |bytes| && Decimal(ClearSign(item)) && Digits(ClearSign(item)[|bytes| - 1]) <= 79
  {
    hide Digits;
    var last := |bytes| - 1;
    TopDigits(bytes[last]);
    assert Digits(bytes[last] % 128) <= 79;
    assert ClearSign(item) == bytes[last := bytes[last] % 128];
  }

  lemma OutOfRangeLost(v: int, n: nat)
    requires n > 0 && Abs(v) >= 80 * Pow100(n - 1)
    ensures ItemValue(EncodeSigned(v, n), true) != v
  {
    hide Digits, EncodeMagnitude, Magnitude, Pow100;
    var bytes, item := EncodeMagnitude(Abs(v), n), EncodeSigned(v, n);
    EncodedDecimal(Abs(v), n);
    ClearedTop(bytes, item);
    MagnitudeBelow(ClearSign(item));
  }

  lemma InRangeKept(v: int, n: nat)
    requires n > 0 && Abs(v) < 80 * Pow100(n - 1)
    ensures ItemValue(EncodeSigned(v, n), true) == v
  {
    hide EncodeMagnitude, Pow100, Magnitude;
    var bytes, item := EncodeMagnitude(Abs(v), n), EncodeSigned(v, n);
    TopBitFree(Abs(v), n);
    PowNext(n);
    EncodeDecodes(Abs(v), n);
    SignSet(bytes, v < 0);
  }

  lemma PowNext(n: nat)
    requires n > 0
    ensures Pow100(n) == 100 * Pow100(n - 1)
  {
  }

  /** A sign bit put on a clear top bit comes off again. */
  lemma SignSet(bytes: seq<Byte>, negative: bool)
    requires bytes != [] && bytes[|bytes| - 1] < 128
    ensures var last := |bytes| - 1;
      var item := if negative then bytes[last := bytes[last] + 128] else bytes;
      ClearSign(item) == bytes && (HasSign(item) <==> negative)
  {
  }

  /** Decoding the item a device sends for `v` returns `v` exactly when |v| < 8 * 10^(2n - 1). */
  lemma SignedRoundTrip(v: int, n: nat)
    requires n > 0
    ensures ItemValue(EncodeSigned(v, n), true) == v <==> Abs(v) < 80 * Pow100(n - 1)
  {
    if Abs(v) < 80 * Pow100(n - 1) {
      InRangeKept(v, n);
    } else {
      OutOfRangeLost(v, n);
    }
  }

  lemma {:induction false} MagnitudeFull(bytes: seq<Byte>)
    requires Decimal(bytes)
    ensures Magnitude(bytes) < Pow100(|bytes|)
  {
    if bytes != [] { MagnitudeFull(bytes[1..]); }
  }

  /** Without a sign the range is the full one, and no more. */
  lemma UnsignedRoundTrip(m: nat, n: nat)
    requires n > 0
    ensures ItemValue(EncodeMagnitude(m, n), false) == m <==> m < Pow100(n)
  {
    hide EncodeMagnitude, Magnitude, Pow100, Digits;
    if m < Pow100(n) {
      EncodeDecodes(m, n);
    } else {
      EncodedDecimal(m, n);
      MagnitudeFull(EncodeMagnitude(m, n));
    }
  }

  /** An item's value depends on its own bytes alone. */
  lemma ItemsIndependent(a: seq<Byte>, b: seq<Byte>, first: nat, dateByte: nat, isNegative: bool, value: int)
    requires Decoded(a, first, dateByte, isNegative, value) && |a| == |b|
    requires forall k :: first <= k < first + dateByte ==> a[k] == b[k]
    ensures Decoded(b, first, dateByte, isNegative, value)
  {
    hide ItemValue;
    assert a[first..first + dateByte] == b[first..first + dateByte];
  }
}
