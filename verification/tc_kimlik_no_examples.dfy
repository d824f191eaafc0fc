/**
 Concrete identity numbers: the known-valid vector, strings the format gate rejects,
 well-formed strings with wrong check digits, and a number on which the truncating
 and the floored remainder disagree.
 */
module TcKimlikNoExamples {
  import opened Digits
  import opened JsArith
  import opened TcKimlikNo
  import opened TcKimlikNoProperties

  /** The verdict on a well-formed string, once its digits are known. */
  lemma Verdict(s: string, d: seq<nat>)
    requires MatchesFormat(s) && ToDigits(s) == d
    ensures AlgoritmaDogrula(s) <==> d[9] == TenthDigitCheck(d) && d[10] == EleventhDigitCheck(d)
  {
  }

  /** "10000000146": the difference is (1 + 1) * 7 - 0 = 14, so the tenth digit is 4,
      and the first ten digits add up to 6. */
  lemma ValidVector()
    ensures AlgoritmaDogrula("10000000146")
  {
    ValidVectorAt("10000000146");
  }

  lemma ValidVectorAt(s: string)
    requires s == "10000000146"
    ensures AlgoritmaDogrula(s)
  {
    ReadValidVector(s);
    ValidVectorChecks(ToDigits(s));
    Verdict(s, ToDigits(s));
  }

  lemma ReadValidVector(s: string)
    requires s == "10000000146"
    ensures MatchesFormat(s) && ToDigits(s) == [1, 0, 0, 0, 0, 0, 0, 0, 1, 4, 6]
  {
  }

  lemma ValidVectorChecks(d: seq<nat>)
    requires d == [1, 0, 0, 0, 0, 0, 0, 0, 1, 4, 6]
    ensures TenthDigitCheck(d) == 4 && EleventhDigitCheck(d) == 6
  {
    SumFirstTen(d);
  }

  /** The same number with its last digit changed. */
  lemma AlteredLastDigit()
    ensures !AlgoritmaDogrula("10000000147")
  {
    AlteredLastDigitAt("10000000146", "10000000147");
  }

  lemma AlteredLastDigitAt(v: string, s: string)
    requires v == "10000000146" && s == "10000000147"
    ensures !AlgoritmaDogrula(s)
  {
    ValidVectorAt(v);
    assert v[10 := '7'] == s;
    LastDigitChangeInvalidates(v, '7');
  }

  /** "12345678901": the difference is (1+3+5+7+9) * 7 - (2+4+6+8) = 155, so the tenth
      digit would have to be 5, not 0. */
  lemma ArbitraryDigits()
    ensures !AlgoritmaDogrula("12345678901")
  {
    ArbitraryDigitsAt("12345678901");
  }

  lemma ArbitraryDigitsAt(s: string)
    requires s == "12345678901"
    ensures !AlgoritmaDogrula(s)
  {
    ReadArbitraryDigits(s);
    ArbitraryDigitsChecks(ToDigits(s));
    Verdict(s, ToDigits(s));
  }

  lemma ArbitraryDigitsChecks(d: seq<nat>)
    requires d == [1, 2, 3, 4, 5, 6, 7, 8, 9, 0, 1]
    ensures WeightedDifference(d) == 155 && TenthDigitCheck(d) == 5
  {
  }

  lemma ReadArbitraryDigits(s: string)
    requires s == "12345678901"
    ensures MatchesFormat(s) && ToDigits(s) == [1, 2, 3, 4, 5, 6, 7, 8, 9, 0, 1]
  {
  }

  /** Strings the format gate rejects: empty, too short, letters, a leading zero. */
  lemma FormatRejections()
    ensures !AlgoritmaDogrula("")
    ensures !AlgoritmaDogrula("123")
    ensures !AlgoritmaDogrula("abcdefghijk")
    ensures !AlgoritmaDogrula("01234567890")
  {
    FormatRejectionAt("");
    FormatRejectionAt("123");
    FormatRejectionAt("abcdefghijk");
    FormatRejectionAt("01234567890");
  }

  lemma FormatRejectionAt(s: string)
    requires s in ["", "123", "abcdefghijk", "01234567890"]
    ensures !AlgoritmaDogrula(s)
  {
    assert !MatchesFormat(s);
  }

  /** "19090000098": the difference is 1 * 7 - (9 + 9) = -11. Its floored remainder 9 is
      the tenth digit and the first ten digits add up to 28, so the floored algorithm
      accepts it; JavaScript's `-11 % 10` is -1, so the validator rejects it. */
  lemma NegativeDifferenceCounterexample()
    ensures AlgoritmaDogrulaFloored("19090000098")
    ensures !AlgoritmaDogrula("19090000098")
  {
    NegativeDifferenceCounterexampleAt("19090000098");
  }

  lemma NegativeDifferenceCounterexampleAt(s: string)
    requires s == "19090000098"
    ensures AlgoritmaDogrulaFloored(s)
    ensures !AlgoritmaDogrula(s)
  {
    ReadNegativeDifferenceVector(s);
    NegativeDifferenceChecks(ToDigits(s));
    Verdict(s, ToDigits(s));
  }

  lemma ReadNegativeDifferenceVector(s: string)
    requires s == "19090000098"
    ensures MatchesFormat(s) && ToDigits(s) == [1, 9, 0, 9, 0, 0, 0, 0, 0, 9, 8]
  {
  }

  lemma NegativeDifferenceChecks(d: seq<nat>)
    requires d == [1, 9, 0, 9, 0, 0, 0, 0, 0, 9, 8]
    ensures WeightedDifference(d) == -11 && WeightedDifference(d) % 10 == 9
    ensures TenthDigitCheck(d) == -1
    ensures Sum(d[..10]) % 10 == 8
  {
    SumFirstTen(d);
  }

  /** The prefix "190900000" has no completion the validator accepts. */
  lemma PrefixWithoutCompletion(s: string)
    requires |s| == 11 && s[..9] == "190900000"
    ensures !AlgoritmaDogrula(s)
  {
    var p := s[..9];
    assert IsPrefix(p);
    assert ToDigits(p) == [1, 9, 0, 9, 0, 0, 0, 0, 0];
    JsCompletionExists(p);
  }
}
