/** What the object identifier codec keeps: its round trip, and how its bytes compare with the
    encoding of ITU-T X.690, section 8.19. */
module OidLaws {
  import opened Decimal
  import opened Strings
  import opened Oid

  function Decs(arcs: seq<nat>): (parts: seq<string>)
    ensures |parts| == |arcs|
    ensures forall i :: 0 <= i < |arcs| ==> parts[i] == Dec(arcs[i])
  {
    seq(|arcs|, i requires 0 <= i < |arcs| => Dec(arcs[i]))
  }

  /** An object identifier in dotted notation. */
  function Dotted(arcs: seq<nat>): string {
    Join(Decs(arcs))
  }

  // ---- Decoding what was encoded ----

  lemma WrapPeriod(y: int, m: int)
    ensures Wrap(y + m * TWO_32) == Wrap(y)
  {
  }

  lemma WrapTurns(y: int) returns (m: int)
    ensures Wrap(y) == y + m * TWO_32
  {
    m := -((y + TWO_31) / TWO_32);
  }

  lemma WrapShift(x: int, r: nat)
    ensures Wrap((Wrap(128 * x) + r) * 128) == Wrap(128 * (128 * x + r))
  {
    hide Wrap;
    var m := WrapTurns(128 * x);
    WrapPeriod(128 * (128 * x + r), 128 * m);
  }

  lemma WrapAdd(x: int, r: nat)
    ensures Wrap(Wrap(128 * x) + r) == Wrap(128 * x + r)
  {
    hide Wrap;
    var m := WrapTurns(128 * x);
    WrapPeriod(128 * x + r, m);
  }

  predicate Fits(x: nat, count: nat) {
    if count == 0 then x == 0 else Fits(x / 128, count - 1)
  }

  lemma {:induction false} TakeLeading(text: string, x: nat, count: nat)
    requires Fits(x, count)
    ensures TakeAll(Decoding(0, text), Leading(x, count)) == Decoding(Wrap(128 * x), text)
    decreases count
  {
    hide IntToString, Wrap;
    if count == 0 {
      WrapZero();
    } else {
      TakeLeading(text, x / 128, count - 1);
      TakeNext(Decoding(0, text), Leading(x / 128, count - 1), Continued(x));
      WrapShift(x / 128, x % 128);
    }
  }

  lemma WrapZero()
    ensures Wrap(0) == 0
  {
  }

  lemma {:induction false} FitsZero(count: nat)
    ensures Fits(0, count)
    decreases count
  {
    if count > 0 { FitsZero(count - 1); }
  }

  lemma FitsMore(x: nat, count: nat)
    requires x < 128 || (count > 0 && Fits(x / 128, count))
    ensures Fits(x, count + 1)
  {
    if x < 128 { FitsZero(count); }
  }

  lemma ArcFits(v: nat)
    requires v < TWO_35
    ensures Fits(v / 128, GroupCount(v) - 1)
  {
    hide Fits;
    var x1 := v / 128;
    var x2 := x1 / 128;
    var x3 := x2 / 128;
    var x4 := x3 / 128;
    FitsZero(0);
    if v < 0x80 {
    } else if v < 0x4000 {
      FitsMore(x1, 0);
    } else if v < 0x20_0000 {
      FitsMore(x2, 0);
      FitsMore(x1, 1);
    } else if v < TWO_28 {
      FitsMore(x3, 0);
      FitsMore(x2, 1);
      FitsMore(x1, 2);
    } else {
      FitsMore(x4, 3);
      FitsMore(x3, 4);
      FitsMore(x2, 5);
      FitsMore(x1, 6);
    }
  }

  /** Each arc ends by itself: after any text, its bytes add exactly one number, cut to 32 bits. */
  lemma TakeArc(text: string, v: nat)
    requires v < TWO_35
    ensures TakeAll(Decoding(0, text), EncodeArc(v)) == Decoding(0, text + "." + IntToString(Wrap(v)))
  {
    hide IntToString, Wrap, GroupCount, Leading, Fits, TakeAll;
    ArcFits(v);
    TakeLeading(text, v / 128, GroupCount(v) - 1);
    TakeNext(Decoding(0, text), Leading(v / 128, GroupCount(v) - 1), v % 128);
    WrapAdd(v / 128, v % 128);
  }

  lemma {:induction false} TakeAllConcat(d: Decoding, a: seq<byte>, b: seq<byte>)
    ensures TakeAll(d, a + b) == TakeAll(TakeAll(d, a), b)
    decreases |b|
  {
    hide Take;
    if b == [] {
      assert a + b == a;
    } else {
      TakeAllConcat(d, a, b[..|b| - 1]);
      assert (a + b)[..|a + b| - 1] == a + b[..|b| - 1];
    }
  }

  // ---- Whole identifiers ----

  predicate ArcsFit(arcs: seq<nat>) {
    forall i :: 2 <= i < |arcs| ==> arcs[i] < 0x8_0000_0000
  }

  function HeadParts(first: byte): seq<string> {
    [Char(48 + first / 40), Char(48 + first % 40)]
  }

  /** The parts a decoder prints: two characters, then the later arcs cut to 32 bits. */
  function PrintedParts(first: byte, arcs: seq<nat>): (parts: seq<string>)
    requires |arcs| >= 2
    ensures |parts| == |arcs|
    decreases |arcs|
  {
    if |arcs| == 2 then HeadParts(first)
    else PrintedParts(first, arcs[..|arcs| - 1]) + [IntToString(Wrap(arcs[|arcs| - 1]))]
  }

  lemma {:induction false} PrintedPart(first: byte, arcs: seq<nat>, i: nat)
    requires |arcs| >= 2 && i < |arcs|
    ensures PrintedParts(first, arcs)[i] == if i < 2 then HeadParts(first)[i] else IntToString(Wrap(arcs[i]))
    decreases |arcs|
  {
    hide HeadParts, IntToString, Wrap;
    if |arcs| > 2 && i < |arcs| - 1 { PrintedPart(first, arcs[..|arcs| - 1], i); }
  }

  lemma ArcRead(v: nat)
    ensures v < TWO_35 ==> Unsigned(Atol(Dec(v))) == v
    ensures v >= TWO_35 ==> Unsigned(Atol(Dec(v))) >= TWO_35
  {
    hide Atol;
    AtolOfDec(v);
  }

  function FirstOf(arcs: seq<nat>): byte
    requires |arcs| >= 2
  {
    FirstByte(Decs(arcs))
  }

  lemma DecsPrefix(arcs: seq<nat>)
    requires |arcs| >= 3
    ensures Decs(arcs)[..|arcs| - 1] == Decs(arcs[..|arcs| - 1])
    ensures FirstOf(arcs[..|arcs| - 1]) == FirstOf(arcs)
  {
    hide Atol;
  }

  lemma EncodeStep(arcs: seq<nat>)
    requires |arcs| >= 3
    ensures var before, v := EncodeParts(Decs(arcs[..|arcs| - 1])), arcs[|arcs| - 1];
      EncodeParts(Decs(arcs))
      == if before.ret != Ok then before
         else if v < TWO_35 then Outcome(Ok, before.bytes + EncodeArc(v))
         else Outcome(InvalidParameter, before.bytes)
  {
    hide Atol, Dec, Unsigned, EncodeArc, FirstByte;
    ArcRead(arcs[|arcs| - 1]);
    DecsPrefix(arcs);
  }

  /** Encoding succeeds exactly when every later arc is below 2^35; decoding then gives the printed parts. */
  lemma {:induction false} DecodeOfEncode(arcs: seq<nat>)
    requires |arcs| >= 2
    ensures EncodeParts(Decs(arcs)).ret == Ok <==> ArcsFit(arcs)
    ensures EncodeParts(Decs(arcs)).bytes != [] && EncodeParts(Decs(arcs)).bytes[0] == FirstOf(arcs)
    ensures ArcsFit(arcs) ==>
      TakeAll(Decoding(0, HeadText(FirstOf(arcs))), EncodeParts(Decs(arcs)).bytes[1..])
      == Decoding(0, Join(PrintedParts(FirstOf(arcs), arcs)))
    decreases |arcs|
  {
    if |arcs| == 2 {
      DecodeHead(arcs);
    } else {
      hide EncodeParts, Decs, FirstOf, TakeAll, HeadText, Join, ArcsFit, IntToString, Wrap, EncodeArc, PrintedParts;
      var before, v := arcs[..|arcs| - 1], arcs[|arcs| - 1];
      DecodeOfEncode(before);
      EncodeStep(arcs);
      DecsPrefix(arcs);
      FitsButLast(arcs);
      PrintedStep(FirstOf(arcs), arcs);
      if ArcsFit(arcs) {
        DecodeStep(FirstOf(arcs), EncodeParts(Decs(before)).bytes, PrintedParts(FirstOf(arcs), before), v);
      }
    }
  }

  lemma PrintedStep(first: byte, arcs: seq<nat>)
    requires |arcs| >= 3
    ensures PrintedParts(first, arcs)
         == PrintedParts(first, arcs[..|arcs| - 1]) + [IntToString(Wrap(arcs[|arcs| - 1]))]
  {
  }

  lemma DecodeStep(first: byte, earlier: seq<byte>, printed: seq<string>, v: nat)
    requires earlier != [] && printed != [] && v < TWO_35
    requires TakeAll(Decoding(0, HeadText(first)), earlier[1..]) == Decoding(0, Join(printed))
    ensures TakeAll(Decoding(0, HeadText(first)), (earlier + EncodeArc(v))[1..])
         == Decoding(0, Join(printed + [IntToString(Wrap(v))]))
  {
    hide TakeAll, HeadText, Join, IntToString, Wrap, EncodeArc;
    assert (earlier + EncodeArc(v))[1..] == earlier[1..] + EncodeArc(v);
    TakeAllConcat(Decoding(0, HeadText(first)), earlier[1..], EncodeArc(v));
    TakeArc(Join(printed), v);
    JoinAppend(printed, IntToString(Wrap(v)));
  }

  lemma DecodeHead(arcs: seq<nat>)
    requires |arcs| == 2
    ensures EncodeParts(Decs(arcs)) == Outcome(Ok, [FirstOf(arcs)]) && ArcsFit(arcs)
    ensures EncodeParts(Decs(arcs)).bytes[1..] == []
    ensures TakeAll(Decoding(0, HeadText(FirstOf(arcs))), []) == Decoding(0, Join(PrintedParts(FirstOf(arcs), arcs)))
  {
    hide FirstByte;
    HeadTextIs(FirstOf(arcs));
  }

  lemma FitsButLast(arcs: seq<nat>)
    requires |arcs| >= 3
    ensures ArcsFit(arcs) <==> ArcsFit(arcs[..|arcs| - 1]) && arcs[|arcs| - 1] < TWO_35
  {
    var before := arcs[..|arcs| - 1];
    if ArcsFit(before) && arcs[|arcs| - 1] < TWO_35 {
      forall i | 2 <= i < |arcs| ensures arcs[i] < TWO_35 {
        if i < |arcs| - 1 { assert before[i] == arcs[i]; }
      }
    }
  }

  lemma DecIsPlain(n: nat)
    ensures Plain(Dec(n))
  {
  }

  lemma IntIsPlain(value: int)
    ensures Plain(IntToString(value))
  {
    DecIsPlain(if value < 0 then -value else value);
  }

  lemma DecsPlain(arcs: seq<nat>)
    ensures AllPlain(Decs(arcs))
  {
    forall i | 0 <= i < |arcs| ensures Plain(Decs(arcs)[i]) { DecIsPlain(arcs[i]); }
  }

  lemma PrintedPlain(first: byte, arcs: seq<nat>)
    requires |arcs| >= 2
    ensures AllPlain(PrintedParts(first, arcs))
  {
    hide IntToString, Wrap;
    forall i | 0 <= i < |arcs| ensures Plain(PrintedParts(first, arcs)[i]) {
      PrintedPart(first, arcs, i);
      IntIsPlain(Wrap(arcs[i]));
    }
  }

  lemma CharIsDec(k: nat, n: nat)
    requires k < 40
    ensures Char(48 + k) == Dec(n) <==> k == n && n <= 9
  {
    if n >= 10 { assert |Dec(n)| >= 2; }
  }

  /** Two arcs in one byte come apart again as long as their sum does not wrap. */
  lemma HeadSplits(a: nat, b: nat, first: nat)
    requires first == (40 * a + b) % 256
    ensures first / 40 == a && first % 40 == b && b <= 9 <==> a <= 6 && b <= 9
  {
    if a <= 6 && b <= 9 {
      assert first == 40 * a + b;
    }
  }

  lemma HeadRoundTrip(arcs: seq<nat>)
    requires |arcs| >= 2
    ensures HeadParts(FirstOf(arcs))[0] == Dec(arcs[0]) && HeadParts(FirstOf(arcs))[1] == Dec(arcs[1])
       <==> arcs[0] <= 6 && arcs[1] <= 9
  {
    hide Atol, Char, Dec;
    var first := FirstOf(arcs);
    AtolOfDec(arcs[0]);
    AtolOfDec(arcs[1]);
    var a, b := Min(arcs[0], LONG_MAX), Min(arcs[1], LONG_MAX);
    HeadSplits(a, b, first);
    CharIsDec(first / 40, arcs[0]);
    CharIsDec(first % 40, arcs[1]);
  }

  lemma WrapIs(v: nat)
    requires v < TWO_35
    ensures Wrap(v) == v <==> v < TWO_31
  {
  }

  /** The arcs the codec keeps. */
  predicate Kept32(arcs: seq<nat>)
    requires |arcs| >= 2
  {
    arcs[0] <= 6 && arcs[1] <= 9 && forall i :: 2 <= i < |arcs| ==> arcs[i] < 0x8000_0000
  }

  lemma PartsKeptIff(arcs: seq<nat>)
    requires |arcs| >= 2 && ArcsFit(arcs)
    ensures PrintedParts(FirstOf(arcs), arcs) == Decs(arcs) <==> Kept32(arcs)
  {
    hide Dec, IntToString, Wrap, FirstOf, PrintedParts, Char;
    var printed := PrintedParts(FirstOf(arcs), arcs);
    HeadRoundTrip(arcs);
    forall i | 0 <= i < |arcs|
      ensures printed[i] == if i < 2 then HeadParts(FirstOf(arcs))[i] else IntToString(Wrap(arcs[i]))
      ensures i >= 2 ==> (printed[i] == Dec(arcs[i]) <==> arcs[i] < TWO_31)
    {
      PrintedPart(FirstOf(arcs), arcs, i);
      if i >= 2 {
        IntTextIsDec(Wrap(arcs[i]), arcs[i]);
        WrapIs(arcs[i]);
      }
    }
    if printed == Decs(arcs) {
      assert forall i :: 0 <= i < |arcs| ==> printed[i] == Dec(arcs[i]);
    }
    if Kept32(arcs) {
      assert forall i :: 0 <= i < |arcs| ==> printed[i] == Decs(arcs)[i];
    }
  }

  /** Encoding and decoding an identifier of any number of arcs gives it back exactly when its first
      arc is at most 6, its second at most 9 and every later one below 2^31. */
  lemma RoundTripIff(arcs: seq<nat>)
    requires |arcs| >= 2
    ensures (Encoded(Dotted(arcs)).ret == Ok && Decoded(Encoded(Dotted(arcs)).bytes) == Dotted(arcs)) <==> Kept32(arcs)
  {
    hide EncodeParts, PrintedParts, TakeAll, HeadText, Wrap, IntToString, Join, Pieces, Kept;
    DecsPlain(arcs);
    SplitOfJoin(Decs(arcs));
    DecodeOfEncode(arcs);
    if ArcsFit(arcs) {
      PrintedPlain(FirstOf(arcs), arcs);
      SplitOfJoin(PrintedParts(FirstOf(arcs), arcs));
      PartsKeptIff(arcs);
    }
  }

  /** Text with fewer than two parts between dots is refused before anything is written. */
  lemma TwoPartsNeeded(arcs: seq<nat>)
    requires arcs != []
    ensures Encoded(Dotted(arcs)).ret == OutOfRange <==> |arcs| == 1
  {
    hide EncodeParts, Pieces, Kept, Join;
    DecsPlain(arcs);
    SplitOfJoin(Decs(arcs));
    if |arcs| >= 2 { NeverOutOfRange(Decs(arcs)); }
  }

  lemma {:induction false} NeverOutOfRange(parts: seq<string>)
    requires |parts| >= 2
    ensures EncodeParts(parts).ret != OutOfRange
    decreases |parts|
  {
    if |parts| > 2 { NeverOutOfRange(parts[..|parts| - 1]); }
  }

  /** The byte the first two arcs share, as far as each fits a `long`. */
  lemma FirstByteOf(arcs: seq<nat>)
    requires |arcs| >= 2 && arcs[0] < 0x8000_0000_0000_0000 && arcs[1] < 0x8000_0000_0000_0000
    ensures EncodeParts(Decs(arcs)).bytes != []
    ensures EncodeParts(Decs(arcs)).bytes[0] == (40 * arcs[0] + arcs[1]) % 256
  {
    hide Atol, EncodeParts;
    DecodeOfEncode(arcs);
    AtolOfDec(arcs[0]);
    AtolOfDec(arcs[1]);
  }

  /** An arc of 2^35 or more ends the encoding with an error; the bytes of the arcs before it stay. */
  lemma {:induction false} ErrorKeepsBytes(arcs: seq<nat>, i: nat)
    requires 2 <= i < |arcs| && ArcsFit(arcs[..i]) && arcs[i] >= 0x8_0000_0000
    ensures EncodeParts(Decs(arcs)) == Outcome(InvalidParameter, EncodeParts(Decs(arcs[..i])).bytes)
    decreases |arcs|
  {
    hide EncodeParts, Decs, ArcsFit, EncodeArc;
    EncodeStep(arcs);
    var before := arcs[..|arcs| - 1];
    if i == |arcs| - 1 {
      DecodeOfEncode(before);
    } else {
      assert before[..i] == arcs[..i] && before[i] == arcs[i];
      ErrorKeepsBytes(before, i);
    }
  }
}
