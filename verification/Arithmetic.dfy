/** Products and quotients of natural numbers. */
module Arithmetic {

  function Max(a: int, b: int): int { if a < b then b else a }

  function Min(a: int, b: int): int { if a < b then a else b }

  lemma MulLe(a: nat, b: nat, d: nat)
    requires a <= b
    ensures a * d <= b * d
  {
    assert b * d - a * d == (b - a) * d;
  }

  lemma MulNonNegative(a: nat, b: nat)
    ensures a * b >= 0
  {
  }

  lemma Commute(a: int, b: int)
    ensures a * b == b * a
  {
  }

  lemma Distribute(a: int, b: int, w: nat)
    ensures a * w == b * w + (a - b) * w
  {
  }

  lemma SmallMultiple(d: int, m: nat)
    ensures 0 - m < d * m < m && m > 0 ==> d == 0
  {
    if d > 0 {
      MulLe(1, d, m);
    } else if d < 0 {
      MulLe(1, -d, m);
      assert (-d) * m == -(d * m);
    }
  }

  /** A number below the modulus that differs from `x` by a multiple of it is the remainder. */
  lemma ModUnique(v: nat, k: int, m: nat, x: nat)
    requires m > 0 && v < m && v + k * m == x
    ensures v == x % m
  {
    var d := k - x / m;
    assert d * m == x % m - v by {
      assert x == (x / m) * m + x % m;
      Distribute(k, x / m, m);
    }
    SmallMultiple(d, m);
  }

  /** Quotient and remainder are the only numbers of their kind. */
  lemma DivUnique(q: nat, r: nat, d: nat, x: nat)
    requires r < d && q * d + r == x
    ensures q == x / d && r == x % d
  {
    ModUnique(r, q, d, x);
    var p := x / d;
    assert x == p * d + x % d;
    if p < q {
      MulLe(p + 1, q, d);
    } else if q < p {
      MulLe(q + 1, p, d);
    }
  }

  lemma DivMonotone(m: nat, n: nat, d: nat)
    requires m <= n && d > 0
    ensures m / d <= n / d
  {
    var a, b := m / d, n / d;
    assert m == a * d + m % d && n == b * d + n % d;
    if a > b {
      MulLe(b + 1, a, d);
    }
  }
}
