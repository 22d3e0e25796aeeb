/**
 * PHP's `round()` as used by the models: the nearest integer, halves rounded away from zero.
 * The models apply it to exact rationals n/d (amounts are integer cents), so rounding to
 * two decimals of a currency amount is rounding a number of cents to an integer.
 */
module Rounding {

  /** r is n/d rounded to the nearest integer, ties away from zero. */
  ghost predicate IsRoundHalfAway(n: int, d: int, r: int)
    requires d > 0
  {
    if n >= 0 then -d <= 2 * (n - r * d) < d
    else -d < 2 * (n - r * d) <= d
  }

  function RoundHalfAway(n: int, d: int): (r: int)
    requires d > 0
    ensures IsRoundHalfAway(n, d, r)
  {
    if n >= 0 then
      var q := (2 * n + d) / (2 * d);
      assert q * (2 * d) <= 2 * n + d < q * (2 * d) + 2 * d;
      q
    else
      var q := (d - 2 * n) / (2 * d);
      assert q * (2 * d) <= d - 2 * n < q * (2 * d) + 2 * d;
      -q
  }

  lemma MulGap(a: int, b: int, d: int)
    requires d > 0 && a > b
    ensures a * d >= b * d + d
  {
    var k := a - b - 1;
    assert k >= 0;
    assert k * d >= 0;
    assert a * d == b * d + d + k * d;
  }

  /** The characterisation pins the rounded value down: there is exactly one. */
  lemma RoundHalfAwayUnique(n: int, d: int, r1: int, r2: int)
    requires d > 0
    requires IsRoundHalfAway(n, d, r1) && IsRoundHalfAway(n, d, r2)
    ensures r1 == r2
  {
    if r1 > r2 {
      MulGap(r1, r2, d);
    } else if r2 > r1 {
      MulGap(r2, r1, d);
    }
  }

  /** Rounding is monotone in the numerator. */
  lemma RoundHalfAwayMonotone(n1: int, n2: int, d: int)
    requires d > 0 && n1 <= n2
    ensures RoundHalfAway(n1, d) <= RoundHalfAway(n2, d)
  {
    var r1, r2 := RoundHalfAway(n1, d), RoundHalfAway(n2, d);
    if r1 > r2 {
      MulGap(r1, r2, d);
    }
  }

  /** An exact quotient is left as it is. */
  lemma RoundHalfAwayExact(k: int, d: int)
    requires d > 0
    ensures RoundHalfAway(k * d, d) == k
  {
    RoundHalfAwayUnique(k * d, d, RoundHalfAway(k * d, d), k);
  }
}
