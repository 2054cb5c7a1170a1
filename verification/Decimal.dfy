/** Decimal numerals, as printed into commands and read back out of text. */
module Decimal {

  function Digit(d: nat): char
    requires d < 10
  {
    (d + 48) as char
  }

  function Dec(n: nat): (s: string)
    ensures |s| > 0
    ensures forall i :: 0 <= i < |s| ==> '0' <= s[i] <= '9'
  {
    if n < 10 then [Digit(n)] else Dec(n / 10) + [Digit(n % 10)]
  }

  lemma DecLengths(n: nat)
    requires n < 100000
    ensures |Dec(n)| == if n < 10 then 1 else if n < 100 then 2 else if n < 1000 then 3 else if n < 10000 then 4 else 5
  {
    if n >= 10 {
      DecLengths(n / 10);
    }
  }
}
