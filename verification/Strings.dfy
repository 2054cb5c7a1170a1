/** Splitting dotted text and reading numbers out of it, as the OID codec does. */
module Strings {
  import opened Basics
  import opened Decimal

  const LONG_MAX := 0x7FFF_FFFF_FFFF_FFFF

  // ---- Split ----

  /** The index of the first separator at or after `from`, or -1. */
  function FindFirstOf(s: string, separators: string, from: nat): (p: int)
    requires from <= |s|
    ensures p == -1 || from <= p < |s|
    decreases |s| - from
  {
    if from == |s| then -1 else if s[from] in separators then from else FindFirstOf(s, separators, from + 1)
  }

  lemma {:induction false} FindFirstOfIs(s: string, separators: string, from: nat)
    requires from <= |s|
    ensures var p := FindFirstOf(s, separators, from);
      if p == -1 then forall k :: from <= k < |s| ==> s[k] !in separators
      else s[p] in separators && forall k :: from <= k < p ==> s[k] !in separators
    decreases |s| - from
  {
    if from < |s| && s[from] !in separators { FindFirstOfIs(s, separators, from + 1); }
  }

  /** What lies between the separators of `s`, empty pieces included. */
  function Pieces(s: string, separators: string): seq<string>
    decreases |s|
  {
    var p := FindFirstOf(s, separators, 0);
    if p < 0 then [s] else [s[..p]] + Pieces(s[p + 1..], separators)
  }

  function Kept(items: seq<string>, ignoreEmpty: bool): seq<string> {
    if items == [] then []
    else (if ignoreEmpty && items[0] == "" then [] else [items[0]]) + Kept(items[1..], ignoreEmpty)
  }

  lemma FindIs(s: string, separators: string, from: nat, p: nat)
    requires from <= p < |s| && s[p] in separators
    requires forall k :: from <= k < p ==> s[k] !in separators
    ensures FindFirstOf(s, separators, from) == p
  {
    FindFirstOfIs(s, separators, from);
  }

  lemma FindNone(s: string, separators: string, from: nat)
    requires from <= |s|
    requires forall k :: from <= k < |s| ==> s[k] !in separators
    ensures FindFirstOf(s, separators, from) == -1
  {
    FindFirstOfIs(s, separators, from);
  }

  lemma FindInTail(s: string, separators: string, from: nat)
    requires from <= |s|
    ensures FindFirstOf(s[from..], separators, 0)
         == if FindFirstOf(s, separators, from) < 0 then -1 else FindFirstOf(s, separators, from) - from
  {
    hide FindFirstOf;
    var p, t := FindFirstOf(s, separators, from), s[from..];
    FindFirstOfIs(s, separators, from);
    assert forall k :: 0 <= k < |t| ==> t[k] == s[from + k];
    if p < 0 {
      FindNone(t, separators, 0);
    } else {
      FindIs(t, separators, 0, p - from);
    }
  }

  lemma TailSlices(s: string, from: nat, p: nat)
    requires from <= p < |s|
    ensures s[from..][..p - from] == s[from..p] && s[from..][p - from + 1..] == s[p + 1..]
  {
  }

  lemma PiecesFront(s: string, separators: string)
    ensures var p := FindFirstOf(s, separators, 0);
      Pieces(s, separators) == if p < 0 then [s] else [s[..p]] + Pieces(s[p + 1..], separators)
  {
    hide FindFirstOf;
  }

  /** One turn of the loop takes one piece off the rest of the text. */
  lemma PiecesCut(s: string, separators: string, from: nat)
    requires from <= |s|
    ensures var p := FindFirstOf(s, separators, from);
      Pieces(s[from..], separators)
      == if p < 0 then [s[from..]] else [s[from..p]] + Pieces(s[p + 1..], separators)
  {
    hide Pieces, FindFirstOf;
    var p := FindFirstOf(s, separators, from);
    FindInTail(s, separators, from);
    PiecesFront(s[from..], separators);
    if p >= 0 { TailSlices(s, from, p); }
  }

  lemma KeptFront(item: string, rest: seq<string>, ignoreEmpty: bool)
    ensures Kept([item] + rest, ignoreEmpty)
         == (if ignoreEmpty && item == "" then [] else [item]) + Kept(rest, ignoreEmpty)
  {
    assert ([item] + rest)[1..] == rest;
  }

  lemma KeptLast(item: string, ignoreEmpty: bool)
    ensures Kept([item], ignoreEmpty) == if ignoreEmpty && item == "" then [] else [item]
  {
    assert [item][1..] == [];
  }

  lemma WholeTail(s: string, last: nat)
    requires last <= |s|
    ensures s[last..] == s[last..|s|] && (s[last..] == "" <==> last == |s|)
  {
  }

  /** What the rest of the text from `last` on still adds to the list: a piece and a shorter rest. */
  lemma RestContinues(s: string, separators: string, ignoreEmpty: bool, last: nat)
    requires last <= |s| && FindFirstOf(s, separators, last) >= 0
    ensures var p := FindFirstOf(s, separators, last);
      Kept(Pieces(s[last..], separators), ignoreEmpty)
      == (if ignoreEmpty && last == p then [] else [s[last..p]]) + Kept(Pieces(s[p + 1..], separators), ignoreEmpty)
  {
    hide Pieces, Kept, FindFirstOf;
    var p := FindFirstOf(s, separators, last);
    PiecesCut(s, separators, last);
    KeptFront(s[last..p], Pieces(s[p + 1..], separators), ignoreEmpty);
    assert s[last..p] == "" <==> last == p;
  }

  /** Without a separator left, it adds itself. */
  lemma RestEnds(s: string, separators: string, ignoreEmpty: bool, last: nat)
    requires last <= |s| && FindFirstOf(s, separators, last) < 0
    ensures Kept(Pieces(s[last..], separators), ignoreEmpty)
         == if ignoreEmpty && last == |s| then [] else [s[last..|s|]]
  {
    hide Pieces, Kept, FindFirstOf;
    PiecesCut(s, separators, last);
    KeptLast(s[last..], ignoreEmpty);
    WholeTail(s, last);
  }

  method Split(s: string, separators: string, ignoreEmpty: bool) returns (items: seq<string>)
    ensures items == Kept(Pieces(s, separators), ignoreEmpty)
  {
    hide Pieces, Kept, FindFirstOf;
    items := [];
    var last := 0;
    var pos := FindFirstOf(s, separators, 0);
    assert s[0..] == s;
    while pos != -1
      invariant 0 <= last <= |s|
      invariant pos == FindFirstOf(s, separators, last)
      invariant items + Kept(Pieces(s[last..], separators), ignoreEmpty) == Kept(Pieces(s, separators), ignoreEmpty)
      decreases |s| - last
    {
      RestContinues(s, separators, ignoreEmpty, last);
      Regroup(items, [s[last..pos]], Kept(Pieces(s[pos + 1..], separators), ignoreEmpty));
      if !ignoreEmpty || pos - last != 0 {
        items := items + [s[last..pos]];
      }
      last := pos + 1;
      pos := FindFirstOf(s, separators, pos + 1);
    }
    RestEnds(s, separators, ignoreEmpty, last);
    var length := |s|;
    if !ignoreEmpty || length - last != 0 {
      items := items + [s[last..length]];
    }
  }

  /** The parts put together again with dots in between. */
  function Join(parts: seq<string>): string {
    if parts == [] then "" else if |parts| == 1 then parts[0] else parts[0] + "." + Join(parts[1..])
  }

  predicate Plain(part: string) {
    part != "" && '.' !in part
  }

  predicate AllPlain(parts: seq<string>) {
    forall i :: 0 <= i < |parts| ==> Plain(parts[i])
  }

  lemma {:induction false} KeptPlain(parts: seq<string>)
    requires AllPlain(parts)
    ensures Kept(parts, true) == parts
  {
    if parts != [] { KeptPlain(parts[1..]); }
  }

  lemma JoinCut(parts: seq<string>)
    requires |parts| > 1
    ensures var s, end := Join(parts), |parts[0]|;
      end < |s| && s[end] == '.' && s[0..end] == parts[0] && s[end + 1..] == Join(parts[1..])
    ensures forall k :: 0 <= k < |parts[0]| ==> Join(parts)[k] == parts[0][k]
  {
  }

  lemma {:induction false} PiecesOfJoin(parts: seq<string>)
    requires parts != [] && AllPlain(parts)
    ensures Pieces(Join(parts), ".") == parts
  {
    hide FindFirstOf, Pieces;
    var s := Join(parts);
    assert s[0..] == s;
    PiecesCut(s, ".", 0);
    if |parts| == 1 {
      FindNone(s, ".", 0);
    } else {
      PiecesOfJoin(parts[1..]);
      JoinCut(parts);
      FindIs(s, ".", 0, |parts[0]|);
    }
  }

  /** Splitting joined parts gives them back, for any number of parts without dots. */
  lemma SplitOfJoin(parts: seq<string>)
    requires parts != [] && AllPlain(parts)
    ensures Kept(Pieces(Join(parts), "."), true) == parts
  {
    PiecesOfJoin(parts);
    KeptPlain(parts);
  }

  lemma {:induction false} JoinAppend(parts: seq<string>, part: string)
    requires parts != []
    ensures Join(parts + [part]) == Join(parts) + "." + part
  {
    if |parts| == 1 {
      assert (parts + [part])[1..] == [part];
    } else {
      JoinAppend(parts[1..], part);
      assert (parts + [part])[1..] == parts[1..] + [part];
    }
  }

  // ---- Tokens of a line ----

  predicate AllTokens(tokens: seq<string>, separators: string) {
    forall i :: 0 <= i < |tokens| ==>
      tokens[i] != "" && forall k :: 0 <= k < |tokens[i]| ==> tokens[i][k] !in separators
  }

  predicate AllGaps(gaps: seq<string>, separators: string) {
    forall i :: 0 <= i < |gaps| ==> gaps[i] != "" && forall k :: 0 <= k < |gaps[i]| ==> gaps[i][k] in separators
  }

  /** Each token followed by its gap. */
  function Laid(tokens: seq<string>, gaps: seq<string>): string
    requires |gaps| == |tokens|
  {
    if tokens == [] then "" else tokens[0] + gaps[0] + Laid(tokens[1..], gaps[1..])
  }

  lemma PieceInFront(token: string, sep: char, rest: string, separators: string)
    requires sep in separators && forall k :: 0 <= k < |token| ==> token[k] !in separators
    ensures Pieces(token + [sep] + rest, separators) == [token] + Pieces(rest, separators)
  {
    hide FindFirstOf, Pieces;
    var s := token + [sep] + rest;
    FindIs(s, separators, 0, |token|);
    PiecesFront(s, separators);
    assert s[..|token|] == token && s[|token| + 1..] == rest;
  }

  lemma {:induction false} GapDropped(gap: string, rest: string, separators: string)
    requires forall k :: 0 <= k < |gap| ==> gap[k] in separators
    ensures Kept(Pieces(gap + rest, separators), true) == Kept(Pieces(rest, separators), true)
    decreases |gap|
  {
    hide Pieces, Kept;
    if gap == "" {
      assert gap + rest == rest;
    } else {
      GapDropped(gap[1..], rest, separators);
      assert gap + rest == "" + [gap[0]] + (gap[1..] + rest);
      PieceInFront("", gap[0], gap[1..] + rest, separators);
      KeptFront("", Pieces(gap[1..] + rest, separators), true);
    }
  }

  /** Splitting a line gives its tokens back, however wide the gaps. */
  lemma {:induction false} LaidTokens(tokens: seq<string>, gaps: seq<string>, separators: string)
    requires |gaps| == |tokens| && AllTokens(tokens, separators) && AllGaps(gaps, separators)
    ensures Kept(Pieces(Laid(tokens, gaps), separators), true) == tokens
  {
    hide Pieces, Kept, FindFirstOf;
    if tokens == [] {
      EmptyLine(separators);
    } else {
      var rest := Laid(tokens[1..], gaps[1..]);
      LaidTokens(tokens[1..], gaps[1..], separators);
      assert Laid(tokens, gaps) == tokens[0] + [gaps[0][0]] + (gaps[0][1..] + rest);
      PieceInFront(tokens[0], gaps[0][0], gaps[0][1..] + rest, separators);
      GapDropped(gaps[0][1..], rest, separators);
      KeptFront(tokens[0], Pieces(gaps[0][1..] + rest, separators), true);
    }
  }

  lemma EmptyLine(separators: string)
    ensures Kept(Pieces("", separators), true) == []
  {
  }

  // ---- Reading numbers ----

  predicate IsDigit(c: char) { '0' <= c <= '9' }

  predicate IsSpace(c: char) {
    c == ' ' || 9 <= c as int <= 13
  }

  function DigitPrefix(s: string): (d: string)
    ensures forall i :: 0 <= i < |d| ==> IsDigit(d[i])
  {
    if s == "" || !IsDigit(s[0]) then "" else [s[0]] + DigitPrefix(s[1..])
  }

  function DigitsValue(d: string): nat
    requires forall i :: 0 <= i < |d| ==> IsDigit(d[i])
  {
    if d == "" then 0
    else
      assert IsDigit(d[|d| - 1]);
      10 * DigitsValue(d[..|d| - 1]) + (d[|d| - 1] as int - 48)
  }

  function Min(a: int, b: int): int { if a <= b then a else b }

  /** The C library's `atol` with a 64-bit `long`: white space, a sign, digits; saturating. */
  function Atol(s: string): (v: int)
    ensures -LONG_MAX - 1 <= v <= LONG_MAX
    decreases |s|
  {
    if s == "" then 0
    else if IsSpace(s[0]) then Atol(s[1..])
    else if s[0] == '-' then -Min(DigitsValue(DigitPrefix(s[1..])), LONG_MAX + 1)
    else if s[0] == '+' then Min(DigitsValue(DigitPrefix(s[1..])), LONG_MAX)
    else Min(DigitsValue(DigitPrefix(s)), LONG_MAX)
  }

  lemma {:induction false} DigitPrefixWhole(s: string)
    requires forall i :: 0 <= i < |s| ==> IsDigit(s[i])
    ensures DigitPrefix(s) == s
  {
    if s != "" { DigitPrefixWhole(s[1..]); }
  }

  lemma {:induction false} DecValue(n: nat)
    ensures DigitsValue(Dec(n)) == n
  {
    if n >= 10 {
      DecValue(n / 10);
      assert Dec(n)[..|Dec(n)| - 1] == Dec(n / 10);
    }
  }

  /** Reading back a printed number gives the number, up to the largest `long`. */
  lemma AtolOfDec(n: nat)
    ensures Atol(Dec(n)) == Min(n, LONG_MAX)
  {
    DigitPrefixWhole(Dec(n));
    DecValue(n);
  }

  lemma DecInjective(m: nat, n: nat)
    ensures Dec(m) == Dec(n) <==> m == n
  {
    DecValue(m);
    DecValue(n);
  }

  /** The `%d` of the C library. */
  function IntToString(value: int): string {
    if value < 0 then "-" + Dec(-value) else Dec(value)
  }

  lemma IntTextIsDec(value: int, n: nat)
    ensures IntToString(value) == Dec(n) <==> value == n
  {
    if value < 0 {
      assert IntToString(value)[0] == '-';
    } else {
      DecInjective(value, n);
    }
  }

  /** A sign, white space in front and anything behind the digits: what `atol` makes of them. */
  lemma AtolOfSigned(n: nat, rest: string, space: char)
    requires rest == "" || !('0' <= rest[0] <= '9')
    requires space in " \t\n\r" || space as int == 11 || space as int == 12
    ensures Atol("-" + Dec(n) + rest) == if n < 0x8000_0000_0000_0000 then 0 - n else -0x8000_0000_0000_0000
    ensures Atol("+" + Dec(n) + rest) == Atol(Dec(n) + rest)
    ensures Atol(Dec(n) + rest) == if n < 0x8000_0000_0000_0000 then n else 0x7FFF_FFFF_FFFF_FFFF
    ensures Atol([space] + rest) == Atol(rest) && Atol("") == 0
  {
    hide Dec, DigitsValue;
    DecValue(n);
    DigitPrefixStops(Dec(n), rest);
    assert ("-" + Dec(n) + rest)[1..] == Dec(n) + rest && ("+" + Dec(n) + rest)[1..] == Dec(n) + rest;
    assert ([space] + rest)[1..] == rest;
  }

  lemma {:induction false} DigitPrefixStops(digits: string, rest: string)
    requires forall i :: 0 <= i < |digits| ==> IsDigit(digits[i])
    requires rest == "" || !IsDigit(rest[0])
    ensures DigitPrefix(digits + rest) == digits
  {
    if digits == "" {
      assert digits + rest == rest;
    } else {
      assert (digits + rest)[1..] == digits[1..] + rest;
      DigitPrefixStops(digits[1..], rest);
    }
  }
}
