/**
 Properties of the identity-number validator: what a true result implies, the exact
 characterisation of the result, how the truncating remainder departs from the floored
 one, and uniqueness of the two check digits.
 */
module TcKimlikNoProperties {
  import opened Digits
  import opened JsArith
  import opened TcKimlikNo

  /** The digit value at every position of a well-formed string. */
  lemma DigitsAt(s: string)
    requires AllDigits(s)
    ensures forall i :: 0 <= i < |s| ==> ToDigits(s)[i] == DigitValue(s[i])
  {
    forall i | 0 <= i < |s|
      ensures ToDigits(s)[i] == DigitValue(s[i])
    {
      ToDigitsPointwise(s, i);
    }
  }

  /** The sum of the first ten digits written out term by term. */
  lemma SumFirstTen(d: seq<nat>)
    requires |d| >= 10
    ensures Sum(d[..10]) == d[0] + d[1] + d[2] + d[3] + d[4] + d[5] + d[6] + d[7] + d[8] + d[9]
  {
    assert d[..0] == [];
    SumPrefixStep(d, 0);
    SumPrefixStep(d, 1);
    SumPrefixStep(d, 2);
    SumPrefixStep(d, 3);
    SumPrefixStep(d, 4);
    SumPrefixStep(d, 5);
    SumPrefixStep(d, 6);
    SumPrefixStep(d, 7);
    SumPrefixStep(d, 8);
    SumPrefixStep(d, 9);
  }

  /** A valid number satisfies both positional identities of the algorithm: the tenth
      digit is the JavaScript remainder of the weighted difference and the eleventh is
      the last decimal digit of the sum of the first ten. */
  lemma ValidImpliesIdentities(s: string)
    requires AlgoritmaDogrula(s)
    ensures var d := ToDigits(s);
      d[9] == JsRem((d[0] + d[2] + d[4] + d[6] + d[8]) as int * 7 - (d[1] + d[3] + d[5] + d[7]), 10)
      && d[10] == (d[0] + d[1] + d[2] + d[3] + d[4] + d[5] + d[6] + d[7] + d[8] + d[9]) % 10
  {
    SumFirstTen(ToDigits(s));
  }

  /** When the weighted difference is not negative, the result is true exactly when
      both check digits are the ordinary remainders. */
  lemma ExactCharacterisation(s: string)
    requires MatchesFormat(s)
    requires WeightedDifference(ToDigits(s)) >= 0
    ensures var d := ToDigits(s);
      AlgoritmaDogrula(s) <==> d[9] == WeightedDifference(d) % 10 && d[10] == Sum(d[..10]) % 10
  {
  }

  /** A negative difference that is not a multiple of 10 leaves a negative remainder,
      which no digit equals: such a string is rejected whatever its last two digits. */
  lemma NegativeDifferenceRejects(s: string)
    requires MatchesFormat(s)
    requires WeightedDifference(ToDigits(s)) < 0 && WeightedDifference(ToDigits(s)) % 10 != 0
    ensures !AlgoritmaDogrula(s)
  {
  }

  /** The validator accepts exactly the numbers the floored algorithm accepts whose
      weighted difference is non-negative or a multiple of 10. */
  lemma JsVersusFloored(s: string)
    ensures AlgoritmaDogrula(s) <==>
      AlgoritmaDogrulaFloored(s) &&
      (WeightedDifference(ToDigits(s)) >= 0 || WeightedDifference(ToDigits(s)) % 10 == 0)
  {
    if AlgoritmaDogrulaFloored(s) {
      JsRemVersusFloored(WeightedDifference(ToDigits(s)));
    }
  }

  /** Two well-formed strings with the same first nine characters have the same first
      nine digits and so the same weighted difference. */
  lemma SamePrefixSameDifference(s: string, t: string)
    requires MatchesFormat(s) && MatchesFormat(t)
    requires s[..9] == t[..9]
    ensures forall i :: 0 <= i < 9 ==> ToDigits(s)[i] == ToDigits(t)[i]
    ensures WeightedDifference(ToDigits(s)) == WeightedDifference(ToDigits(t))
  {
    DigitsAt(s);
    DigitsAt(t);
    assert forall i :: 0 <= i < 9 ==> s[i] == s[..9][i] && t[i] == t[..9][i];
  }

  /** Under the floored algorithm the first nine digits determine the last two. */
  lemma FlooredCompletionUnique(s: string, t: string)
    requires AlgoritmaDogrulaFloored(s) && AlgoritmaDogrulaFloored(t)
    requires s[..9] == t[..9]
    ensures s == t
  {
    var ds, dt := ToDigits(s), ToDigits(t);
    SamePrefixSameDifference(s, t);
    assert ds[9] == dt[9];
    assert ds[..10] == dt[..10];
    assert ds[10] == dt[10];
    assert ds == dt;
    FromDigitsToDigits(s);
    FromDigitsToDigits(t);
  }

  /** At most one pair of check digits completes a given nine-digit prefix. */
  lemma CompletionUnique(s: string, t: string)
    requires AlgoritmaDogrula(s) && AlgoritmaDogrula(t)
    requires s[..9] == t[..9]
    ensures s == t
  {
    FlooredCompletionUnique(s, t);
  }

  /** Changing only the last character of a valid number makes it invalid. */
  lemma LastDigitChangeInvalidates(s: string, c: char)
    requires AlgoritmaDogrula(s)
    requires c != s[10]
    ensures !AlgoritmaDogrula(s[10 := c])
  {
    var t := s[10 := c];
    assert t[..9] == s[..9];
    if AlgoritmaDogrula(t) {
      CompletionUnique(s, t);
      assert false;
    }
  }

  /** `Complete(p)` is the only completion of `p` the floored algorithm accepts. */
  lemma CompleteIsOnlyCompletion(p: string, s: string)
    requires IsPrefix(p)
    requires AlgoritmaDogrulaFloored(s) && s[..9] == p
    ensures s == Complete(p)
  {
    FlooredCompletionUnique(s, Complete(p));
  }

  /** A prefix has a completion the validator accepts exactly when its weighted
      difference is non-negative or a multiple of 10; otherwise no string starting
      with it is accepted. */
  lemma JsCompletionExists(p: string)
    requires IsPrefix(p)
    ensures var diff := WeightedDifference(ToDigits(p));
      AlgoritmaDogrula(Complete(p)) <==> diff >= 0 || diff % 10 == 0
    ensures var diff := WeightedDifference(ToDigits(p));
      !(diff >= 0 || diff % 10 == 0) ==>
        forall s :: |s| == 11 && s[..9] == p ==> !AlgoritmaDogrula(s)
  {
    var c := Complete(p);
    var diff := WeightedDifference(ToDigits(p));
    SamePrefixDifference(p, c);
    JsVersusFloored(c);
    forall s | |s| == 11 && s[..9] == p && AlgoritmaDogrula(s)
      ensures diff >= 0 || diff % 10 == 0
    {
      SamePrefixDifference(p, s);
      JsVersusFloored(s);
    }
  }

  /** A well-formed number has the weighted difference of its nine-digit prefix. */
  lemma SamePrefixDifference(p: string, s: string)
    requires IsPrefix(p) && MatchesFormat(s) && s[..9] == p
    ensures WeightedDifference(ToDigits(s)) == WeightedDifference(ToDigits(p))
  {
    DigitsAt(s);
    DigitsAt(p);
    assert forall i :: 0 <= i < 9 ==> s[i] == p[i];
  }

  /** Because every converted digit is in 0..9, the eleventh-digit check is a digit,
      and so is the tenth-digit check whenever the difference is not negative. */
  lemma ChecksInDigitRange(s: string)
    requires MatchesFormat(s)
    ensures 0 <= EleventhDigitCheck(ToDigits(s)) <= 9
    ensures WeightedDifference(ToDigits(s)) >= 0 ==> 0 <= TenthDigitCheck(ToDigits(s)) <= 9
    ensures -29 <= WeightedDifference(ToDigits(s)) <= 315
  {
    DigitsAt(s);
  }
}
