/**
 The offline checksum validator for Turkish national identity numbers
 (T.C. Kimlik No), `TCKimlikNoDogrulayici.algoritmaDogrula`.

 An identity number is eleven decimal digits d0 .. d10, the first one non-zero.
 The tenth digit d9 is the remainder modulo 10 of seven times the sum of the digits
 in the odd places (d0, d2, d4, d6, d8) minus the sum of the digits in the even
 places (d1, d3, d5, d7); the eleventh digit d10 is the sum of d0 .. d9 modulo 10.

 The validator computes the first remainder with JavaScript's truncating `%`, so it
 is modelled with `JsRem`; `AlgoritmaDogrulaFloored` is the same rule with the
 floored remainder the algorithm's definition asks for.
 */
module TcKimlikNo {
  import opened Digits
  import opened JsArith

  /** `/^[1-9][0-9]{10}$/.test(s)`: one character of `[1-9]` followed by exactly ten
      of `[0-9]` and nothing else. Equivalently: eleven ASCII digits, the first not
      `0`. */
  function MatchesFormat(s: string): (ok: bool)
    ensures ok <==> |s| == 11 && AllDigits(s) && s[0] != '0'
  {
    |s| == 1 + 10 && IsNonZeroDigit(s[0]) && AllDigits(s[1..])
  }

  /** The anchored regular expression `^[1-9][0-9]{10}$` run as a left-to-right scan
      that stops at the first character outside its class. */
  method TestFormat(s: string) returns (ok: bool)
    ensures ok <==> MatchesFormat(s)
  {
    if |s| != 11 || !IsNonZeroDigit(s[0]) {
      return false;
    }
    var i := 1;
    while i < |s|
      invariant 1 <= i <= |s|
      invariant forall j :: 0 <= j < i ==> IsDigit(s[j])
    {
      if !IsDigit(s[i]) {
        return false;
      }
      i := i + 1;
    }
    return true;
  }

  /** d0 + d2 + d4 + d6 + d8: the digits in the 1st, 3rd, 5th, 7th and 9th places. */
  function OddPlacesSum(d: seq<nat>): (r: nat)
    requires |d| >= 9 && AllBelowTen(d)
    ensures r <= 45
    ensures d[0] >= 1 ==> r >= 1
  {
    d[0] + d[2] + d[4] + d[6] + d[8]
  }

  /** d1 + d3 + d5 + d7: the digits in the 2nd, 4th, 6th and 8th places. */
  function EvenPlacesSum(d: seq<nat>): (r: nat)
    requires |d| >= 9 && AllBelowTen(d)
    ensures r <= 36
  {
    d[1] + d[3] + d[5] + d[7]
  }

  /** Seven times the odd-places sum minus the even-places sum. It can be negative:
      with a non-zero first digit it is at least 1 * 7 - 36 = -29. */
  function WeightedDifference(d: seq<nat>): (r: int)
    requires |d| >= 9 && AllBelowTen(d)
    ensures -36 <= r <= 315
    ensures d[0] >= 1 ==> r >= -29
  {
    OddPlacesSum(d) * 7 - EvenPlacesSum(d)
  }

  /** `onuncuHane`, the value the tenth digit is compared with: negative exactly when
      the difference is negative and not a multiple of 10, and then no digit equals it. */
  function TenthDigitCheck(d: seq<nat>): (r: int)
    requires |d| >= 9 && AllBelowTen(d)
    ensures -9 <= r <= 9
    ensures r < 0 <==> WeightedDifference(d) < 0 && WeightedDifference(d) % 10 != 0
  {
    JsRem(WeightedDifference(d), 10)
  }

  /** `onbirinciHane`, the value the eleventh digit is compared with: the left fold
      over the first ten digits, truncated modulo 10. The fold is never negative, so
      it is the ordinary last decimal digit of the sum. */
  function EleventhDigitCheck(d: seq<nat>): (r: int)
    requires |d| >= 10 && AllBelowTen(d)
    ensures 0 <= r <= 9
    ensures r == Sum(d[..10]) % 10
  {
    ReduceIsSum(d[..10], 0);
    DigitSumBounds(d[..10]);
    JsRem(Reduce(d[..10], 0), 10)
  }

  /** `algoritmaDogrula`: the format gate, then both checksum digits. A result of
      true also satisfies the floored reading of the algorithm, because the only
      negative difference that passes is a multiple of 10 (JavaScript's `-0 === 0`). */
  function AlgoritmaDogrula(s: string): (r: bool)
    ensures r ==> MatchesFormat(s)
    ensures r ==> AlgoritmaDogrulaFloored(s)
  {
    if !MatchesFormat(s) then
      false
    else
      var digits := ToDigits(s);
      var onuncuHane := TenthDigitCheck(digits);
      var onbirinciHane := EleventhDigitCheck(digits);
      JsRemVersusFloored(WeightedDifference(digits));
      digits[9] == onuncuHane && digits[10] == onbirinciHane
  }

  /** Where the tenth-digit check agrees with the floored remainder of the difference. */
  lemma JsRemVersusFloored(diff: int)
    ensures diff >= 0 || diff % 10 == 0 ==> JsRem(diff, 10) == diff % 10
    ensures diff < 0 && diff % 10 != 0 ==> JsRem(diff, 10) < 0
  {
  }

  /** The algorithm with the floored (never negative) remainder for the tenth digit. */
  predicate AlgoritmaDogrulaFloored(s: string) {
    MatchesFormat(s) &&
    var d := ToDigits(s);
    d[9] == WeightedDifference(d) % 10 && d[10] == Sum(d[..10]) % 10
  }

  /** The first nine digits of an identity number. */
  predicate IsPrefix(p: string) {
    |p| == 9 && IsNonZeroDigit(p[0]) && AllDigits(p)
  }

  /** The identity number that starts with `p`, its two check digits computed with
      the floored remainder. */
  function Complete(p: string): (s: string)
    requires IsPrefix(p)
    ensures |s| == 11 && s[..9] == p
    ensures AlgoritmaDogrulaFloored(s)
  {
    var d := ToDigits(p);
    var d9 := WeightedDifference(d) % 10;
    DigitSumBounds(d);
    var d10 := (Sum(d) + d9) % 10;
    var s := p + [DigitChar(d9), DigitChar(d10)];
    CompleteDigits(p, d9, d10);
    SumSnoc(d, d9);
    var ds := ToDigits(s);
    assert ds[9] == d9 && ds[10] == d10;
    assert ds[..10] == d + [d9];
    assert WeightedDifference(ds) == WeightedDifference(d) by {
      assert forall i :: 0 <= i < 9 ==> ds[i] == d[i];
    }
    assert s[..9] == p;
    s
  }

  /** The digits of `p` followed by two check characters. */
  lemma CompleteDigits(p: string, d9: nat, d10: nat)
    requires IsPrefix(p) && d9 <= 9 && d10 <= 9
    ensures var s := p + [DigitChar(d9), DigitChar(d10)];
      MatchesFormat(s) && ToDigits(s) == ToDigits(p) + [d9, d10]
      && ToDigits(s)[..10] == ToDigits(p) + [d9]
      && ToDigits(s)[..9] == ToDigits(p)
  {
    var s := p + [DigitChar(d9), DigitChar(d10)];
    var e := ToDigits(p) + [d9, d10];
    forall i | 0 <= i < 11
      ensures ToDigits(s)[i] == e[i]
    {
      if i < 9 {
        DigitCharInjective(ToDigits(s)[i], ToDigits(p)[i]);
      } else {
        DigitCharInjective(ToDigits(s)[i], e[i]);
      }
    }
    assert ToDigits(s) == e;
    assert e[..10] == ToDigits(p) + [d9];
    assert e[..9] == ToDigits(p);
  }
}
