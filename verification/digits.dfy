/**
 Decimal digit characters and the two ways of adding up a digit sequence.

 `tcKimlikNo.split('').map(Number)` turns each character of an already validated
 string into its digit value; `reduce((acc, curr) => acc + curr, 0)` adds a sequence
 from the left.
 */
module Digits {

  /** The regular-expression class `[0-9]`: ASCII digits only. */
  predicate IsDigit(c: char) {
    '0' <= c <= '9'
  }

  /** The regular-expression class `[1-9]`. */
  predicate IsNonZeroDigit(c: char) {
    '1' <= c <= '9'
  }

  predicate AllDigits(s: string) {
    forall i :: 0 <= i < |s| ==> IsDigit(s[i])
  }

  predicate AllBelowTen(ds: seq<nat>) {
    forall i :: 0 <= i < |ds| ==> ds[i] <= 9
  }

  /** The character that spells the digit `d`. */
  function DigitChar(d: nat): (c: char)
    requires d <= 9
    ensures IsDigit(c)
    ensures c == '0' <==> d == 0
  {
    ('0' as int + d) as char
  }

  /** `Number(c)` for a digit character `c`: the inverse of `DigitChar`. */
  function DigitValue(c: char): (d: nat)
    requires IsDigit(c)
    ensures d <= 9
    ensures DigitChar(d) == c
    ensures d == 0 <==> c == '0'
  {
    c as int - '0' as int
  }

  lemma DigitCharInjective(d: nat, e: nat)
    requires d <= 9 && e <= 9
    requires DigitChar(d) == DigitChar(e)
    ensures d == e
  {
  }

  /** `s.split('').map(Number)` for a string of digits. */
  function ToDigits(s: string): (ds: seq<nat>)
    requires AllDigits(s)
    ensures |ds| == |s|
    ensures AllBelowTen(ds)
    ensures forall i :: 0 <= i < |s| ==> DigitChar(ds[i]) == s[i]
  {
    if |s| == 0 then [] else [DigitValue(s[0])] + ToDigits(s[1..])
  }

  /** Spells a digit sequence as a string: the inverse of `ToDigits`. */
  function FromDigits(ds: seq<nat>): (s: string)
    requires AllBelowTen(ds)
    ensures |s| == |ds|
    ensures AllDigits(s)
    ensures forall i :: 0 <= i < |ds| ==> s[i] == DigitChar(ds[i])
  {
    if |ds| == 0 then [] else [DigitChar(ds[0])] + FromDigits(ds[1..])
  }

  /** Each digit value is determined by its character and each character by its value. */
  lemma ToDigitsPointwise(s: string, i: nat)
    requires AllDigits(s) && i < |s|
    ensures ToDigits(s)[i] == DigitValue(s[i])
  {
    DigitCharInjective(ToDigits(s)[i], DigitValue(s[i]));
  }

  lemma FromDigitsToDigits(s: string)
    requires AllDigits(s)
    ensures FromDigits(ToDigits(s)) == s
  {
  }

  lemma ToDigitsFromDigits(ds: seq<nat>)
    requires AllBelowTen(ds)
    ensures ToDigits(FromDigits(ds)) == ds
  {
    var s := FromDigits(ds);
    forall i | 0 <= i < |ds|
      ensures ToDigits(s)[i] == ds[i]
    {
      DigitCharInjective(ToDigits(s)[i], ds[i]);
    }
  }

  /** Reference sum, right to left. */
  function Sum(xs: seq<int>): int {
    if |xs| == 0 then 0 else xs[0] + Sum(xs[1..])
  }

  /** `xs.reduce((acc, curr) => acc + curr, acc)`: a fold from the left. */
  function Reduce(xs: seq<int>, acc: int): int {
    if |xs| == 0 then acc else Reduce(xs[1..], acc + xs[0])
  }

  /** The left fold with seed `acc` adds `acc` to the reference sum. */
  lemma {:induction false} ReduceIsSum(xs: seq<int>, acc: int)
    ensures Reduce(xs, acc) == acc + Sum(xs)
  {
    if |xs| > 0 {
      ReduceIsSum(xs[1..], acc + xs[0]);
    }
  }

  /** Appending one element adds it to the sum. */
  lemma {:induction false} SumSnoc(xs: seq<int>, x: int)
    ensures Sum(xs + [x]) == Sum(xs) + x
  {
    if |xs| > 0 {
      assert (xs + [x])[1..] == xs[1..] + [x];
      SumSnoc(xs[1..], x);
    }
  }

  /** Extending a prefix by one element adds that element to the sum. */
  lemma SumPrefixStep(xs: seq<int>, k: nat)
    requires k < |xs|
    ensures Sum(xs[..k + 1]) == Sum(xs[..k]) + xs[k]
  {
    assert xs[..k + 1] == xs[..k] + [xs[k]];
    SumSnoc(xs[..k], xs[k]);
  }

  /** A sum of digits lies between 0 and 9 times their number. */
  lemma {:induction false} DigitSumBounds(ds: seq<nat>)
    requires AllBelowTen(ds)
    ensures 0 <= Sum(ds) <= 9 * |ds|
  {
    if |ds| > 0 {
      DigitSumBounds(ds[1..]);
    }
  }
}
