/** `Math.round` of a quotient of integers, as the library uses it for every
    percentage and average. For a positive divisor, `Math.round(n / d)` is
    `floor(n / d + 1/2)`: the nearest integer, halves rounded up. */
module Percent {

  /** `Math.round(n / d)` for a positive `d`. */
  function RoundDiv(n: int, d: int): (r: int)
    requires d > 0
    ensures 2 * d * r <= 2 * n + d < 2 * d * r + 2 * d
  {
    (2 * n + d) / (2 * d)
  }

  /** `Math.round((k / n) * 100)` for a positive `n`. */
  function Percentual(k: int, n: int): (r: int)
    requires n > 0
    ensures 2 * n * r <= 200 * k + n < 2 * n * r + 2 * n
  {
    RoundDiv(100 * k, n)
  }

  /** Rounding a quotient that lies between two integers stays between them. */
  lemma RoundDivBetween(n: int, d: int, lo: int, hi: int)
    requires d > 0 && lo * d <= n <= hi * d
    ensures lo <= RoundDiv(n, d) <= hi
  {
    var r := RoundDiv(n, d);
    if r < lo {
      assert 2 * d * r + 2 * d <= 2 * d * lo by {
        assert r + 1 <= lo;
        MulLeft(2 * d, r + 1, lo);
      }
    }
    if r > hi {
      assert 2 * d * hi + 2 * d <= 2 * d * r by {
        assert hi + 1 <= r;
        MulLeft(2 * d, hi + 1, r);
      }
    }
  }

  lemma MulLeft(c: int, a: int, b: int)
    requires c >= 0 && a <= b
    ensures c * a <= c * b
  {
  }

  /** Rounding is monotone in the dividend. */
  lemma RoundDivMonotone(n1: int, n2: int, d: int)
    requires d > 0 && n1 <= n2
    ensures RoundDiv(n1, d) <= RoundDiv(n2, d)
  {
    var r1, r2 := RoundDiv(n1, d), RoundDiv(n2, d);
    if r1 > r2 {
      MulLeft(2 * d, r2 + 1, r1);
    }
  }

  /** A share of a whole is a percentage in 0..100; none is 0% and all is 100%. */
  lemma PercentualBounds(k: int, n: int)
    requires n > 0 && 0 <= k <= n
    ensures 0 <= Percentual(k, n) <= 100
    ensures Percentual(k, n) == 0 <==> 200 * k < n
    ensures k == n ==> Percentual(k, n) == 100
  {
    MulLeft(100, k, n);
    RoundDivBetween(100 * k, n, 0, 100);
    if k == n {
      RoundDivBetween(100 * k, n, 100, 100);
    }
    var r := Percentual(k, n);
    if r > 0 {
      MulLeft(2 * n, 1, r);
    }
  }

  lemma PercentualMonotone(k1: int, k2: int, n: int)
    requires n > 0 && k1 <= k2
    ensures Percentual(k1, n) <= Percentual(k2, n)
  {
    RoundDivMonotone(100 * k1, 100 * k2, n);
  }
}
