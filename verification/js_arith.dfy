/**
 JavaScript integer arithmetic that differs from Dafny's.

 Dafny's `%` on `int` is Euclidean: the remainder is never negative. JavaScript's `%`
 is a truncating remainder: the result takes the sign of the dividend, so `-11 % 10`
 is `-1` and `-30 % 10` is `-0` (which compares `===` to `0`). The validator's
 arithmetic stays far below 2^53, so every JavaScript number involved is an exact
 integer and `int` models it without rounding.
 */
module JsArith {

  /** The value of the JavaScript expression `a % b` for integer operands and a
      positive divisor: the magnitude is `|a| % b` and the sign is the dividend's. */
  function JsRem(a: int, b: int): (r: int)
    requires b > 0
    ensures a >= 0 ==> 0 <= r < b
    ensures a < 0 ==> -b < r <= 0
    // agreement with the Euclidean remainder, and the one way it can differ
    ensures a >= 0 ==> r == a % b
    ensures a < 0 ==> r == (if a % b == 0 then 0 else a % b - b)
  {
    if a >= 0 then
      a % b
    else
      NegatedRemainder(a, b);
      -((-a) % b)
  }

  /** Euclidean division is unique: any decomposition `a == q * b + r` with
      `0 <= r < b` is the one `/` and `%` produce. */
  lemma {:induction false} DivModUnique(a: int, b: int, q: int, r: int)
    requires b > 0
    requires a == q * b + r
    requires 0 <= r < b
    ensures a / b == q && a % b == r
  {
    var t := a / b - q;
    assert t * b == r - a % b by {
      assert a == (a / b) * b + a % b;
    }
    if t >= 1 {
      ProductAtLeast(t, b);
      assert false;
    } else if t <= -1 {
      ProductAtLeast(-t, b);
      assert false;
    }
  }

  lemma ProductAtLeast(t: int, b: int)
    requires t >= 1 && b > 0
    ensures t * b >= b
  {
  }

  /** The remainder of `-a` is `b` minus the remainder of `a`, unless it is zero. */
  lemma NegatedRemainder(a: int, b: int)
    requires b > 0
    ensures (-a) % b == (if a % b == 0 then 0 else b - a % b)
  {
    var q, s := a / b, a % b;
    if s == 0 {
      DivModUnique(-a, b, -q, 0);
    } else {
      DivModUnique(-a, b, -q - 1, b - s);
    }
  }
}
