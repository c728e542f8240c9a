/** Facts about Euclidean division and remainder used by the cursor
    arithmetic. */
module Arith {

  lemma MulAtLeast(d: int, m: int)
    requires d >= 1 && m > 0
    ensures d * m >= m
  {
  }

  lemma MulMonotone(a: int, b: int, m: int)
    requires 0 <= a <= b && m >= 0
    ensures a * m <= b * m
  {
  }

  /** Quotient and remainder are determined by x == q * m + rem. */
  lemma DivModUnique(x: int, m: int, q: int, rem: int)
    requires m > 0 && 0 <= rem < m && x == q * m + rem
    ensures x / m == q && x % m == rem
  {
    var q', rem' := x / m, x % m;
    assert x == q' * m + rem';
    if q > q' {
      MulAtLeast(q - q', m);
    } else if q < q' {
      MulAtLeast(q' - q, m);
    }
  }

  /** Adding a multiple of m does not change the remainder. */
  lemma ModAddMultiple(x: int, q: int, m: int)
    requires m > 0
    ensures (x + q * m) % m == x % m
  {
    assert x + q * m == (x / m + q) * m + x % m;
    DivModUnique(x + q * m, m, x / m + q, x % m);
  }

  /** A remainder can be taken before adding. */
  lemma ModAddLeft(a: int, b: int, m: int)
    requires m > 0
    ensures (a % m + b) % m == (a + b) % m
  {
    assert a % m + b == (a + b) + (-(a / m)) * m;
    ModAddMultiple(a + b, -(a / m), m);
  }

  /** A remainder can be taken before subtracting. */
  lemma ModSubLeft(a: int, b: int, m: int)
    requires m > 0
    ensures (b - a % m) % m == (b - a) % m
  {
    assert b - a % m == (b - a) + (a / m) * m;
    ModAddMultiple(b - a, a / m, m);
  }

  /** A value already in [0, m) is its own remainder. */
  lemma ModSmall(x: int, m: int)
    requires 0 <= x < m
    ensures x % m == x
  {
    DivModUnique(x, m, 0, x);
  }

  /** Two values closer than m but not equal have different remainders. */
  lemma ModDistinct(x: int, e: int, m: int)
    requires m > 0 && 0 < e < m
    ensures (x + e) % m != x % m
  {
    var q, rem := x / m, x % m;
    if rem + e < m {
      DivModUnique(x + e, m, q, rem + e);
    } else {
      DivModUnique(x + e, m, q + 1, rem + e - m);
    }
  }

  /** a * n + b, with a and b below n, is below n * n and has quotient a
      and remainder b. */
  lemma LinearRoundTrip(a: int, b: int, n: int)
    requires 0 <= a < n && 0 <= b < n
    ensures a * n + b < n * n
    ensures (a * n + b) / n == a && (a * n + b) % n == b
  {
    MulMonotone(a, n - 1, n);
    assert (n - 1) * n == n * n - n;
    DivModUnique(a * n + b, n, a, b);
  }
}
