/** Multiples of an alignment. */
module Multiples {

  lemma FarFromZero(d: int, n: int)
    requires 0 < n
    ensures 1 <= d ==> n <= d * n
    ensures d <= -1 ==> d * n <= -n
  {
    if 1 <= d {
      assert d * n == (d - 1) * n + n;
      assert 0 <= (d - 1) * n;
    } else if d <= -1 {
      assert d * n == (d + 1) * n - n;
      assert (d + 1) * n <= 0;
    }
  }

  /** Quotient and remainder are unique. */
  lemma Remainder(x: int, n: int, q: int, r: int)
    requires 0 <= r < n && x == q * n + r
    ensures x % n == r
    ensures x / n == q
  {
    var q', r' := x / n, x % n;
    assert x == n * q' + r';
    assert (q - q') * n == r' - r;
    FarFromZero(q - q', n);
  }

  lemma Sum(a: int, b: int, n: int)
    requires 0 < n && a % n == 0 && b % n == 0
    ensures (a + b) % n == 0
  {
    assert a == n * (a / n) && b == n * (b / n);
    assert a + b == (a / n + b / n) * n;
    Remainder(a + b, n, a / n + b / n, 0);
  }

  lemma Product(q: int, n: int)
    requires 0 < n
    ensures (q * n) % n == 0
  {
    Remainder(q * n, n, q, 0);
  }

  /** Reducing a multiple modulo another multiple gives a multiple. */
  lemma Reduced(a: int, m: int, n: int)
    requires 0 < n && 0 < m && a % n == 0 && m % n == 0
    ensures (a % m) % n == 0
  {
    var q := a / m;
    assert a == m * q + a % m;
    assert a == n * (a / n) && m == n * (m / n);
    assert m * q == n * ((m / n) * q) by { assert n * (m / n) * q == n * ((m / n) * q); }
    assert a % m == (a / n - (m / n) * q) * n;
    Product(a / n - (m / n) * q, n);
  }

  /** Two different multiples of n are at least n apart. */
  lemma Gap(a: int, b: int, n: int)
    requires 0 < n && a % n == 0 && b % n == 0 && a < b
    ensures a + n <= b
  {
    assert a == n * (a / n) && b == n * (b / n);
    assert b - a == (b / n - a / n) * n;
    FarFromZero(b / n - a / n, n);
  }
}
