/** Division and multiplication of numbers. */
module Arithmetic {
  lemma ProductNonNegative(a: real, b: real)
    requires a >= 0.0 && b >= 0.0
    ensures a * b >= 0.0
  {
  }

  /** Scaling by a factor between 0 and 1 moves toward zero; `t` names the product. */
  lemma ShrinkPositive(a: real, r: real, t: real)
    requires 0.0 <= r <= 1.0 && a >= 0.0 && t == a * r
    ensures 0.0 <= t <= a
  {
    ProductNonNegative(a, r);
    ProductNonNegative(a, 1.0 - r);
    assert a * (1.0 - r) == a - a * r;
  }

  lemma ProductNonPositive(a: real, b: real)
    requires a <= 0.0 && b >= 0.0
    ensures a * b <= 0.0
  {
  }

  lemma ShrinkNegative(a: real, r: real, t: real)
    requires 0.0 <= r <= 1.0 && a <= 0.0 && t == a * r
    ensures a <= t <= 0.0
  {
    ProductNonPositive(a, r);
    ProductNonPositive(a, 1.0 - r);
    assert a * (1.0 - r) == a - a * r;
  }

  lemma MulMono(m: nat, a: int, b: int)
    requires a <= b
    ensures m * a <= m * b
  {
  }

  lemma MulSucc(m: int, a: int)
    ensures m * (a + 1) == m * a + m
  {
  }

  /** A quotient is determined by its remainder's range. */
  lemma DivIs(a: int, d: int, q: int, r: int)
    requires 0 <= r < d && a == d * q + r
    ensures a / d == q && a % d == r
  {
    var p := a / d;
    assert a == d * p + a % d;
    assert d * (p + 1) == d * p + d && d * (q + 1) == d * q + d;
    if p < q {
      MulMono(d, p + 1, q);
    } else if p > q {
      MulMono(d, q + 1, p);
    }
  }

  lemma DivMono(a: int, b: int, d: int)
    requires d > 0 && a <= b
    ensures a / d <= b / d
  {
    var q, r := a / d, b / d;
    assert a == d * q + a % d && b == d * r + b % d;
    assert d * (r + 1) == d * r + d;
    if q > r {
      MulMono(d, r + 1, q);
    }
  }

  lemma DivNonNegative(a: int, d: int)
    requires d > 0 && a >= 0
    ensures a / d >= 0
  {
    DivIs(0, d, 0, 0);
    DivMono(0, a, d);
  }

  lemma DivAddOne(b: int, d: int)
    requires d > 0
    ensures (b + d) / d == b / d + 1
  {
    assert b == d * (b / d) + b % d;
    assert d * (b / d + 1) == d * (b / d) + d;
    DivIs(b + d, d, b / d + 1, b % d);
  }

  /** A multiple within a bound has its factor within the quotient. */
  lemma DivBound(n: nat, k: int, b: nat)
    requires n > 0 && n * k <= b
    ensures k <= b / n
  {
    var q := b / n;
    assert b == n * q + b % n;
    MulSucc(n, q);
    if k > q {
      MulMono(n, q + 1, k);
    }
  }
}
