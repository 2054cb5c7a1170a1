/** The object identifier encoder against ITU-T X.690, section 8.19: each arc in groups of seven
    bits, in as few bytes as possible, the first two arcs combined into one subidentifier. */
module OidX690 {
  import opened Strings
  import opened Oid
  import opened OidLaws

  /** The number a subidentifier stands for (section 8.19.2). */
  function SubidentifierValue(bytes: seq<byte>): nat {
    if bytes == [] then 0 else 128 * SubidentifierValue(bytes[..|bytes| - 1]) + bytes[|bytes| - 1] % 128
  }

  function ShortestCount(v: nat): (count: nat)
    ensures count > 0
  {
    if v < 128 then 1 else 1 + ShortestCount(v / 128)
  }

  function Subidentifier(v: nat): seq<byte> {
    Groups(v, ShortestCount(v))
  }

  // ---- One arc ----

  lemma {:induction false} LeadingValue(x: nat, count: nat)
    requires Fits(x, count)
    ensures SubidentifierValue(Leading(x, count)) == x
    decreases count
  {
    if count > 0 {
      LeadingValue(x / 128, count - 1);
      assert Leading(x, count)[..count - 1] == Leading(x / 128, count - 1);
    }
  }

  lemma GroupsValue(v: nat, count: nat)
    requires count > 0 && Fits(v / 128, count - 1)
    ensures SubidentifierValue(Groups(v, count)) == v
  {
    LeadingValue(v / 128, count - 1);
    assert Groups(v, count)[..count - 1] == Leading(v / 128, count - 1);
  }

  lemma {:induction false} ValueFits(bytes: seq<byte>)
    ensures Fits(SubidentifierValue(bytes), |bytes|)
  {
    if bytes != [] {
      ValueFits(bytes[..|bytes| - 1]);
    }
  }

  lemma {:induction false} ShortestFits(v: nat)
    ensures Fits(v / 128, ShortestCount(v) - 1)
  {
    if v >= 128 { ShortestFits(v / 128); }
  }

  lemma {:induction false} FitsIsLonger(v: nat, count: nat)
    requires Fits(v, count)
    ensures ShortestCount(v) <= count || count == 0
    decreases count
  {
    if count > 1 && v >= 128 { FitsIsLonger(v / 128, count - 1); }
  }

  /** The bytes of the standard stand for the number, and no other subidentifier of it is shorter. */
  lemma SubidentifierShortest(v: nat, t: seq<byte>)
    requires IsSubidentifier(t) && SubidentifierValue(t) == v
    ensures IsSubidentifier(Subidentifier(v)) && SubidentifierValue(Subidentifier(v)) == v
    ensures |Subidentifier(v)| <= |t|
  {
    ShortestFits(v);
    GroupsValue(v, ShortestCount(v));
    ValueFits(t);
    FitsIsLonger(v, |t|);
  }

  lemma CountIsShortestIff(v: nat)
    requires v < TWO_35
    ensures GroupCount(v) == ShortestCount(v) <==> v < TWO_28
    ensures ShortestCount(v) <= GroupCount(v)
  {
    var x1 := v / 128;
    var x2 := x1 / 128;
    var x3 := x2 / 128;
    var x4 := x3 / 128;
    assert ShortestCount(x4) == 1;
    assert ShortestCount(x3) == if x3 < 128 then 1 else 2;
    assert ShortestCount(x2) == if x2 < 128 then 1 else 1 + ShortestCount(x3);
    assert ShortestCount(x1) == if x1 < 128 then 1 else 1 + ShortestCount(x2);
  }

  /** The bytes of an arc are a subidentifier of exactly that arc, whatever form they take. */
  lemma ArcValue(v: nat)
    requires v < TWO_35
    ensures IsSubidentifier(EncodeArc(v)) && SubidentifierValue(EncodeArc(v)) == v
  {
    hide Fits, Groups, SubidentifierValue;
    ArcFits(v);
    GroupsValue(v, GroupCount(v));
  }

  /** An arc is written in as few bytes as possible exactly when it is below 2^28; otherwise it
      starts with a group of zeros, which the standard forbids. */
  lemma ArcShortestIff(v: nat)
    requires v < TWO_35
    ensures (forall t :: IsSubidentifier(t) && SubidentifierValue(t) == v ==> |EncodeArc(v)| <= |t|)
       <==> v < 0x1000_0000
    ensures EncodeArc(v)[0] == 0x80 <==> v >= 0x1000_0000
  {
    hide Fits, Groups, SubidentifierValue, ShortestCount, IsSubidentifier, GroupCount;
    ArcValue(v);
    CountIsShortestIff(v);
    SubidentifierShortest(v, EncodeArc(v));
    forall t | IsSubidentifier(t) && SubidentifierValue(t) == v ensures |Subidentifier(v)| <= |t| {
      SubidentifierShortest(v, t);
    }
    FirstGroupIff(v);
  }

  lemma FirstGroupIff(v: nat)
    requires v < TWO_35
    ensures EncodeArc(v)[0] == 0x80 <==> v >= TWO_28
  {
    hide Groups;
    GroupsOf(v);
  }

  // ---- Strings of subidentifiers come apart in one way only ----

  predicate AllSubidentifiers(list: seq<seq<byte>>) {
    forall i :: 0 <= i < |list| ==> IsSubidentifier(list[i])
  }

  function Flatten(list: seq<seq<byte>>): seq<byte> {
    if list == [] then [] else list[0] + Flatten(list[1..])
  }

  lemma SameFirst(a: seq<byte>, s: seq<byte>, b: seq<byte>, t: seq<byte>)
    requires IsSubidentifier(a) && IsSubidentifier(b) && a + s == b + t
    ensures a == b && s == t
  {
    var whole := a + s;
    assert whole[|a| - 1] == a[|a| - 1] && whole[|b| - 1] == b[|b| - 1];
    if |a| < |b| {
      assert false;
    } else if |b| < |a| {
      assert false;
    }
    assert a == whole[..|a|] && b == whole[..|a|];
    assert s == whole[|a|..] && t == whole[|a|..];
  }

  /** Two lists of subidentifiers with the same bytes are the same list. */
  lemma {:induction false} UniqueParse(x: seq<seq<byte>>, y: seq<seq<byte>>)
    requires AllSubidentifiers(x) && AllSubidentifiers(y) && Flatten(x) == Flatten(y)
    ensures x == y
    decreases |x|
  {
    if x != [] && y != [] {
      SameFirst(x[0], Flatten(x[1..]), y[0], Flatten(y[1..]));
      UniqueParse(x[1..], y[1..]);
      assert x == [x[0]] + x[1..] && y == [y[0]] + y[1..];
    }
  }

  lemma {:induction false} FlattenAppend(list: seq<seq<byte>>, last: seq<byte>)
    ensures Flatten(list + [last]) == Flatten(list) + last
  {
    if list == [] {
      assert [last][1..] == [];
    } else {
      FlattenAppend(list[1..], last);
      assert (list + [last])[1..] == list[1..] + [last];
    }
  }

  /** The number of bytes that end a subidentifier. */
  function Ends(bytes: seq<byte>): nat {
    if bytes == [] then 0 else Ends(bytes[..|bytes| - 1]) + if bytes[|bytes| - 1] < 128 then 1 else 0
  }

  lemma {:induction false} EndsConcat(a: seq<byte>, b: seq<byte>)
    ensures Ends(a + b) == Ends(a) + Ends(b)
    decreases |b|
  {
    if b == [] {
      assert a + b == a;
    } else {
      EndsConcat(a, b[..|b| - 1]);
      assert (a + b)[..|a + b| - 1] == a + b[..|b| - 1];
    }
  }

  lemma {:induction false} NoEnds(bytes: seq<byte>)
    requires forall i :: 0 <= i < |bytes| ==> bytes[i] >= 128
    ensures Ends(bytes) == 0
  {
    if bytes != [] { NoEnds(bytes[..|bytes| - 1]); }
  }

  lemma {:induction false} EndsOfFlatten(list: seq<seq<byte>>)
    requires AllSubidentifiers(list)
    ensures Ends(Flatten(list)) == |list|
  {
    if list != [] {
      EndsOfFlatten(list[1..]);
      EndsConcat(list[0], Flatten(list[1..]));
      NoEnds(list[0][..|list[0]| - 1]);
    }
  }

  // ---- Whole identifiers ----

  /** The identifiers the standard allows (section 8.19.4). */
  predicate Valid(arcs: seq<nat>) {
    |arcs| >= 2 && arcs[0] <= 2 && (arcs[0] < 2 ==> arcs[1] < 40)
  }

  function LaterArcs(arcs: seq<nat>): seq<seq<byte>>
    requires |arcs| >= 2
  {
    seq(|arcs| - 2, i requires 0 <= i < |arcs| - 2 => EncodeArc(arcs[i + 2]))
  }

  function LaterSubidentifiers(arcs: seq<nat>): seq<seq<byte>>
    requires |arcs| >= 2
  {
    seq(|arcs| - 2, i requires 0 <= i < |arcs| - 2 => Subidentifier(arcs[i + 2]))
  }

  /** The encoding of the standard. */
  function Standard(arcs: seq<nat>): seq<byte>
    requires |arcs| >= 2
  {
    Flatten([Subidentifier(40 * arcs[0] + arcs[1])] + LaterSubidentifiers(arcs))
  }

  lemma {:induction false} EncodedBytes(arcs: seq<nat>)
    requires |arcs| >= 2 && ArcsFit(arcs)
    ensures EncodeParts(Decs(arcs)) == Outcome(Ok, [FirstOf(arcs)] + Flatten(LaterArcs(arcs)))
    decreases |arcs|
  {
    hide EncodeArc, FirstByte, Unsigned, Atol;
    if |arcs| > 2 {
      var before := arcs[..|arcs| - 1];
      EncodedBytes(before);
      EncodeStep(arcs);
      DecsPrefix(arcs);
      FlattenAppend(LaterArcs(before), EncodeArc(arcs[|arcs| - 1]));
      assert LaterArcs(arcs) == LaterArcs(before) + [EncodeArc(arcs[|arcs| - 1])];
    }
  }

  lemma ListsAreSubidentifiers(arcs: seq<nat>)
    requires |arcs| >= 2 && ArcsFit(arcs)
    ensures AllSubidentifiers(LaterArcs(arcs))
    ensures AllSubidentifiers([Subidentifier(40 * arcs[0] + arcs[1])] + LaterSubidentifiers(arcs))
  {
    hide IsSubidentifier, Groups, ShortestCount, GroupCount;
  }

  lemma SmallFirst(arcs: seq<nat>)
    requires Valid(arcs) && 40 * arcs[0] + arcs[1] < 128
    ensures FirstOf(arcs) == 40 * arcs[0] + arcs[1]
    ensures Subidentifier(40 * arcs[0] + arcs[1]) == [FirstOf(arcs)]
  {
    hide Atol;
    AtolOfDec(arcs[0]);
    AtolOfDec(arcs[1]);
  }

  lemma LaterSameIff(arcs: seq<nat>)
    requires |arcs| >= 2 && ArcsFit(arcs)
    ensures LaterArcs(arcs) == LaterSubidentifiers(arcs) <==> forall i :: 2 <= i < |arcs| ==> arcs[i] < TWO_28
  {
    hide Groups, GroupCount, ShortestCount;
    forall i | 2 <= i < |arcs| ensures EncodeArc(arcs[i]) == Subidentifier(arcs[i]) <==> arcs[i] < TWO_28 {
      CountIsShortestIff(arcs[i]);
    }
    if LaterArcs(arcs) == LaterSubidentifiers(arcs) {
      forall i | 2 <= i < |arcs| ensures arcs[i] < TWO_28 {
        assert LaterArcs(arcs)[i - 2] == LaterSubidentifiers(arcs)[i - 2];
      }
    }
  }

  /** The bytes are those of the standard exactly when the first subidentifier fits one byte and
      every later arc is below 2^28. */
  lemma StandardIff(arcs: seq<nat>)
    requires Valid(arcs)
    ensures Encoded(Dotted(arcs)) == Outcome(Ok, Standard(arcs))
       <==> 40 * arcs[0] + arcs[1] < 128 && forall i :: 2 <= i < |arcs| ==> arcs[i] < 0x1000_0000
  {
    hide EncodeParts, Join, Pieces, Kept, Subidentifier, LaterArcs, LaterSubidentifiers, FirstOf, Flatten;
    DecsPlain(arcs);
    SplitOfJoin(Decs(arcs));
    DecodeOfEncode(arcs);
    if ArcsFit(arcs) {
      EncodedBytes(arcs);
      ListsAreSubidentifiers(arcs);
      LaterSameIff(arcs);
      HeadSameIff(arcs);
      SubidentifiersFront(arcs);
      BytesSameIff(FirstOf(arcs), LaterArcs(arcs), Subidentifier(40 * arcs[0] + arcs[1]), LaterSubidentifiers(arcs));
    }
  }

  lemma SubidentifiersFront(arcs: seq<nat>)
    requires |arcs| >= 2
    ensures |LaterArcs(arcs)| == |LaterSubidentifiers(arcs)|
    ensures IsSubidentifier(Subidentifier(40 * arcs[0] + arcs[1]))
    ensures AllSubidentifiers([Subidentifier(40 * arcs[0] + arcs[1])] + LaterSubidentifiers(arcs))
        ==> AllSubidentifiers(LaterSubidentifiers(arcs))
  {
    hide Groups, ShortestCount, GroupCount;
  }

  lemma HeadSameIff(arcs: seq<nat>)
    requires Valid(arcs)
    ensures [FirstOf(arcs)] == Subidentifier(40 * arcs[0] + arcs[1]) <==> 40 * arcs[0] + arcs[1] < 128
  {
    hide Atol;
    if 40 * arcs[0] + arcs[1] < 128 { SmallFirst(arcs); }
  }

  /** A first byte of 128 or more ends no subidentifier, so the bytes hold one too few. */
  lemma FirstEndsNothing(first: byte, later: seq<seq<byte>>, standard: seq<seq<byte>>)
    requires first >= 128 && AllSubidentifiers(later) && AllSubidentifiers(standard)
    requires |standard| == |later| + 1
    ensures [first] + Flatten(later) != Flatten(standard)
  {
    EndsConcat([first], Flatten(later));
    NoEnds([first]);
    EndsOfFlatten(later);
    EndsOfFlatten(standard);
  }

  lemma BytesSameIff(first: byte, later: seq<seq<byte>>, head: seq<byte>, standard: seq<seq<byte>>)
    requires AllSubidentifiers(later) && IsSubidentifier(head) && AllSubidentifiers(standard)
    requires |standard| == |later|
    ensures [first] + Flatten(later) == Flatten([head] + standard) <==> [first] == head && later == standard
  {
    hide Flatten;
    if first < 128 {
      FlattenFront([first], later);
      if [first] + Flatten(later) == Flatten([head] + standard) {
        var x, y := [[first]] + later, [head] + standard;
        UniqueParse(x, y);
        assert x[0] == [first] && x[1..] == later && y[0] == head && y[1..] == standard;
      }
    } else {
      FirstEndsNothing(first, later, [head] + standard);
    }
  }

  lemma FlattenFront(first: seq<byte>, later: seq<seq<byte>>)
    ensures Flatten([first] + later) == first + Flatten(later)
  {
    assert ([first] + later)[1..] == later;
  }

  // ---- Decoding any bytes ----

  lemma {:induction false} TakePending(text: string, bytes: seq<byte>)
    requires forall i :: 0 <= i < |bytes| ==> bytes[i] >= 128
    ensures TakeAll(Decoding(0, text), bytes) == Decoding(Wrap(128 * SubidentifierValue(bytes)), text)
  {
    hide Wrap, IntToString;
    if bytes == [] {
      WrapZero();
    } else {
      TakePending(text, bytes[..|bytes| - 1]);
      WrapShift(SubidentifierValue(bytes[..|bytes| - 1]), bytes[|bytes| - 1] % 128);
    }
  }

  lemma TakeSubidentifier(text: string, t: seq<byte>)
    requires IsSubidentifier(t)
    ensures TakeAll(Decoding(0, text), t) == Decoding(0, text + "." + IntToString(Wrap(SubidentifierValue(t))))
  {
    hide Wrap, IntToString;
    TakePending(text, t[..|t| - 1]);
    WrapAdd(SubidentifierValue(t[..|t| - 1]), t[|t| - 1]);
  }

  /** The numbers of a list of subidentifiers, each behind a dot and kept to 32 bits. */
  function ArcTexts(list: seq<seq<byte>>): string {
    if list == [] then ""
    else ArcTexts(list[..|list| - 1]) + "." + IntToString(Wrap(SubidentifierValue(list[|list| - 1])))
  }

  lemma {:induction false} TakeList(text: string, list: seq<seq<byte>>)
    requires AllSubidentifiers(list)
    ensures TakeAll(Decoding(0, text), Flatten(list)) == Decoding(0, text + ArcTexts(list))
  {
    hide TakeAll, Flatten, Wrap, IntToString, SubidentifierValue, IsSubidentifier;
    if list == [] {
      NothingTaken(text);
    } else {
      var n := |list| - 1;
      assert list == list[..n] + [list[n]];
      FlattenAppend(list[..n], list[n]);
      TakeList(text, list[..n]);
      TakeAllConcat(Decoding(0, text), Flatten(list[..n]), list[n]);
      TakeSubidentifier(text + ArcTexts(list[..n]), list[n]);
    }
  }

  lemma NothingTaken(text: string)
    ensures TakeAll(Decoding(0, text), Flatten([])) == Decoding(0, text) && text + "" == text
  {
  }

  /** What the decoder prints of any bytes: two characters for the first, then the number of each
      subidentifier, kept to 32 bits; bytes of a subidentifier that does not end print nothing. */
  lemma DecodedText(first: byte, list: seq<seq<byte>>, rest: seq<byte>)
    requires AllSubidentifiers(list) && forall i :: 0 <= i < |rest| ==> rest[i] >= 128
    ensures Decoded([first] + Flatten(list) + rest)
         == [(48 + first / 40) as char, '.', (48 + first % 40) as char] + ArcTexts(list)
  {
    hide TakeAll, Flatten, Wrap, IntToString, SubidentifierValue, ArcTexts, AllSubidentifiers;
    var bytes := [first] + Flatten(list) + rest;
    assert bytes[1..] == Flatten(list) + rest;
    assert HeadText(first) == [(48 + first / 40) as char, '.', (48 + first % 40) as char];
    TakeList(HeadText(first), list);
    TakeAllConcat(Decoding(0, HeadText(first)), Flatten(list), rest);
    TakePending(HeadText(first) + ArcTexts(list), rest);
  }
}
