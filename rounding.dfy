/** Integer models of the two rounding operations in the allocation engine:
    Python's floor division `//`, and `int(round(t * v / 100.0))` for a
    percentage `v` of a target `t`. */
module Rounding {

  /** Python's `a // b`: the floor of the exact quotient, for a divisor of
      either sign. (Dafny's `/` is Euclidean and differs for `b < 0`.) */
  function FloorDiv(a: int, b: int): (q: int)
    requires b != 0
    ensures b > 0 ==> q * b <= a < q * b + b
    ensures b < 0 ==> q * b + b < a <= q * b
  {
    if b > 0 then a / b else (-a) / (-b)
  }

  /** Python's `round` of the rational `n / d` to an integer: the nearest
      integer, and on an exact half the even one. */
  function RoundHalfEven(n: int, d: int): (r: int)
    requires d > 0
    ensures -d <= 2 * (n - r * d) <= d
    ensures 2 * (n - r * d) == d || 2 * (n - r * d) == -d ==> r % 2 == 0
  {
    var q := n / d;
    var rest := n % d;
    assert n - q * d == rest && 0 <= rest < d;
    assert n - (q + 1) * d == rest - d;
    if 2 * rest < d then q
    else if 2 * rest > d then q + 1
    else if q % 2 == 0 then q
    else q + 1
  }

  /** Denominator of a percentage held in hundredths of a percent. */
  const PercentScale: int := 10000

  /** `int(round(t * v / 100.0))` where the percentage `v` is held as the
      integer `hundredths` = v * 100 (the column has two decimal places). */
  function PercentOf(t: int, hundredths: int): (r: int)
    ensures -PercentScale <= 2 * (t * hundredths - r * PercentScale) <= PercentScale
  {
    RoundHalfEven(t * hundredths, PercentScale)
  }

  /** A percentage in [0, 100] of a non-negative target is a whole number
      of cents between zero and the target. */
  lemma PercentWithinTarget(t: int, hundredths: int)
    requires t >= 0 && 0 <= hundredths <= PercentScale
    ensures 0 <= PercentOf(t, hundredths) <= t
  {
    var n := t * hundredths;
    assert 0 <= n <= t * PercentScale;
    var q := n / PercentScale;
    assert q * PercentScale <= n < q * PercentScale + PercentScale;
    assert 0 <= q <= t;
    if q == t {
      assert n % PercentScale == 0;
    }
  }
}
