/**
 * Rounding as JavaScript's `Math.round` does it, and the completion
 * percentages the pages derive from it.  `Math.round` rounds to the nearest
 * integer with halves going up; on a non-negative ratio `n / d` this is the
 * integer expression `(2n + d) / (2d)`.
 */
module Numbers {

  /** `Math.round(x)`: the integer nearest to `x`, halves rounded up. */
  function MathRound(x: real): (r: int)
    ensures r as real - 0.5 <= x < r as real + 0.5
  {
    (x + 0.5).Floor
  }

  /** `Math.round(n / d)` for a non-negative ratio, in integer arithmetic. */
  function RoundRatio(n: nat, d: nat): (r: nat)
    requires d > 0
    ensures d * (2 * r) <= 2 * n + d < d * (2 * r + 2)
  {
    var r := (2 * n + d) / (2 * d);
    assert (2 * d) * r <= 2 * n + d < (2 * d) * r + 2 * d;
    r
  }

  /** The integer formula and `Math.round` of the exact quotient agree. */
  lemma RoundRatioIsMathRound(n: nat, d: nat)
    requires d > 0
    ensures RoundRatio(n, d) == MathRound(n as real / d as real)
  {
    var r: int := RoundRatio(n, d);
    RatioWithinHalf(n, d, r);
    MathRoundUnique(n as real / d as real, r);
  }

  /** The bounds `RoundRatio` keeps, restated on the exact quotient. */
  lemma RatioWithinHalf(n: nat, d: nat, r: int)
    requires d > 0 && d * (2 * r) <= 2 * n + d < d * (2 * r + 2)
    ensures r as real - 0.5 <= n as real / d as real < r as real + 0.5
  {
    var dr, nr, rr := d as real, n as real, r as real;
    CastMul(d, 2 * r);
    CastMul(d, 2 * r + 2);
    assert dr * (2.0 * rr) <= 2.0 * nr + dr < dr * (2.0 * rr + 2.0);
    Distribute(dr, rr);
    QuotientBounds(nr, dr, rr - 0.5, rr + 0.5);
  }

  lemma CastMul(a: int, b: int)
    ensures (a * b) as real == a as real * b as real
  {
  }

  lemma Distribute(d: real, r: real)
    ensures d * (2.0 * r) == 2.0 * (d * r)
    ensures d * (2.0 * r + 2.0) == 2.0 * (d * r) + 2.0 * d
    ensures d * (r - 0.5) == d * r - 0.5 * d
    ensures d * (r + 0.5) == d * r + 0.5 * d
  {
  }

  /** Bounds on a product carry over to the quotient. */
  lemma QuotientBounds(a: real, d: real, lo: real, hi: real)
    requires d > 0.0 && d * lo <= a < d * hi
    ensures lo <= a / d < hi
  {
    var q := a / d;
    assert d * q == a;
    RealCancelLe(lo, q, d);
    RealCancelLt(q, hi, d);
  }

  /** Sign, upper bound and the value 1 of a quotient of non-negatives. */
  lemma QuotientFacts(a: real, d: real)
    requires d > 0.0 && a >= 0.0
    ensures a / d >= 0.0
    ensures a <= d ==> a / d <= 1.0
    ensures a / d == 1.0 <==> a == d
  {
    var q := a / d;
    QuotientTimesDivisor(a, d);
    assert d * 0.0 == 0.0 && d * 1.0 == d;
    RealCancelLe(0.0, q, d);
    if a <= d {
      RealCancelLe(q, 1.0, d);
    }
    if a == d {
      RealCancelLe(1.0, q, d);
    }
  }

  lemma QuotientTimesDivisor(n: real, d: real)
    requires d > 0.0
    ensures d * (n / d) == n
  {
  }

  lemma RealCancelLe(a: real, b: real, d: real)
    requires d > 0.0 && d * a <= d * b
    ensures a <= b
  {
  }

  lemma RealCancelLt(a: real, b: real, d: real)
    requires d > 0.0 && d * a < d * b
    ensures a < b
  {
  }

  /** `Math.round` is the only integer within half a unit (halves going up). */
  lemma MathRoundUnique(x: real, r: int)
    requires r as real - 0.5 <= x < r as real + 0.5
    ensures MathRound(x) == r
  {
  }

  /**
   * `Math.round(c / t * 100)`: the rounded percentage of `c` out of `t`.
   * It is 100 exactly when `c / t` lies in [99.5%, 100.5%), so a count short
   * of `t` already shows 100 once `t` reaches 200.
   */
  function Percent(c: nat, t: nat): (p: nat)
    requires t > 0
    ensures c <= t ==> p <= 100
    ensures c == 0 ==> p == 0
    ensures c == t ==> p == 100
    ensures p == 100 <==> 199 * t <= 200 * c < 201 * t
  {
    var p := RoundRatio(100 * c, t);
    PercentBounds(c, t, p);
    PercentIsHundred(c, t, p);
    p
  }

  lemma PercentBounds(c: nat, t: nat, p: nat)
    requires t > 0
    requires t * (2 * p) <= 200 * c + t < t * (2 * p + 2)
    ensures c <= t ==> p <= 100
    ensures c == 0 ==> p == 0
    ensures c == t ==> p == 100
  {
    if c <= t {
      assert t * (2 * p) <= 201 * t;
      IntCancelLe(2 * p, 201, t);
    }
    if c == 0 {
      assert t * (2 * p) <= t;
      IntCancelLe(2 * p, 1, t);
    }
    if c == t {
      assert t * (2 * p) <= 201 * t < t * (2 * p + 2);
      IntCancelLt(201, 2 * p + 2, t);
    }
  }

  lemma IntCancelLe(a: int, b: int, d: int)
    requires d > 0 && d * a <= d * b
    ensures a <= b
  {
  }

  lemma IntCancelLt(a: int, b: int, d: int)
    requires d > 0 && d * a < d * b
    ensures a < b
  {
  }

  lemma PercentIsHundred(c: nat, t: nat, p: nat)
    requires t > 0
    requires t * (2 * p) <= 200 * c + t < t * (2 * p + 2)
    ensures p == 100 <==> 199 * t <= 200 * c < 201 * t
  {
    if p == 100 {
      assert t * (2 * p) == 200 * t;
      assert t * (2 * p + 2) == 202 * t;
    }
    if 199 * t <= 200 * c < 201 * t {
      assert t * (2 * p) < t * 202;
      IntCancelLt(2 * p, 202, t);
      assert t * 200 < t * (2 * p + 2);
      IntCancelLt(200, 2 * p + 2, t);
    }
  }

  /** The pages' `Math.round(c / t * 100)` is `Percent(c, t)`. */
  lemma PercentIsMathRound(c: nat, t: nat)
    requires t > 0
    ensures MathRound(c as real / t as real * 100.0) == Percent(c, t)
  {
    RoundRatioIsMathRound(100 * c, t);
    ScaledQuotient(c as real, t as real);
  }

  /** Scaling the dividend scales the quotient. */
  lemma ScaledQuotient(c: real, t: real)
    requires t > 0.0
    ensures (100.0 * c) / t == c / t * 100.0
  {
    var q := c / t;
    var q100 := (100.0 * c) / t;
    QuotientTimesDivisor(c, t);
    QuotientTimesDivisor(100.0 * c, t);
    assert t * q100 == t * (q * 100.0);
    RealCancelLe(q100, q * 100.0, t);
    RealCancelLe(q * 100.0, q100, t);
  }

  /** Below 200 lessons, a rounded percentage of 100 means every lesson is done. */
  lemma PercentHundredSmallTotal(c: nat, t: nat)
    requires 0 < t < 200 && c <= t
    ensures Percent(c, t) == 100 <==> c == t
  {
  }
}
