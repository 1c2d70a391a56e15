/**
 * Facts about Euclidean division that the solver does not find on its own
 * when the divisor is a variable. Every other module builds on ModUnique.
 */
module Arith {

  lemma MulAtLeast(d: int, n: int)
    requires d >= 1 && n > 0
    ensures d * n >= n
  {}

  /** Quotient and remainder are unique: x == q * n + r with 0 <= r < n fixes both. */
  lemma ModUnique(x: int, n: int, q: int, r: int)
    requires n > 0 && 0 <= r < n && x == q * n + r
    ensures x / n == q && x % n == r
  {
    var q', r' := x / n, x % n;
    assert x == q' * n + r';
    if q > q' {
      MulAtLeast(q - q', n);
    } else if q < q' {
      MulAtLeast(q' - q, n);
    }
  }

  /** The quotient of a non-negative number by a positive one is non-negative. */
  lemma DivNonNegative(x: int, n: int)
    requires x >= 0 && n > 0
    ensures x / n >= 0
  {}

  /** Adding a multiple of n does not change the remainder modulo n. */
  lemma AddMultipleMod(x: int, t: int, n: int)
    requires n > 0
    ensures (x + t * n) % n == x % n
  {
    ModUnique(x + t * n, n, x / n + t, x % n);
  }

  /** A multiple of a multiple of m is a multiple of m. */
  lemma MulDivisible(a: int, b: int, m: int)
    requires m > 0 && b % m == 0
    ensures (a * b) % m == 0
  {
    assert b == (b / m) * m;
    assert a * b == (a * (b / m)) * m;
    ModUnique(a * b, m, a * (b / m), 0);
  }

  /** Two multiples of p less than p apart are equal. */
  lemma MultiplesApart(n: int, m: int, p: int)
    requires p > 0 && n % p == 0 && m % p == 0 && m <= n < m + p
    ensures n == m
  {
    var a, b := n / p, m / p;
    assert n == a * p && m == b * p;
    if a > b {
      MulAtLeast(a - b, p);
    } else if a < b {
      MulAtLeast(b - a, p);
    }
  }

  /**
   * Position arithmetic of a block-aligned segment: if low sits q periods
   * plus off blocks into the pattern, and off + i is s whole wheels plus m
   * blocks, then block i of the segment is m blocks into period q + s.
   */
  lemma ShiftByPeriods(period: int, n: int, low: int, i: int, q: int, off: int, s: int, m: int)
    requires period == 30 * n && low == q * period + 30 * off && off + i == s * n + m
    ensures low + 30 * i == (q + s) * period + 30 * m
  {
    assert (q + s) * period == q * period + s * period;
    assert s * period == 30 * (s * n);
  }
}
