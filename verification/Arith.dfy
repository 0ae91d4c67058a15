/** Facts about division that the solver needs spelled out. */
module Arith {
  lemma MulAssoc(a: int, b: int, c: int)
    ensures a * (b * c) == (a * b) * c
  {
  }

  lemma MulGe(d: int, k: int)
    requires d >= 1 && k >= 1
    ensures d * k >= d
  {
  }

  lemma MulNonNeg(d: int, k: int)
    requires d >= 0 && k >= 0
    ensures d * k >= 0
  {
  }

  lemma MulSub(d: int, a: int, b: int)
    ensures d * a - d * b == d * (a - b)
  {
  }

  /** Quotient and remainder are unique. */
  lemma DivUnique(x: int, d: int, q: int, r: int)
    requires d >= 1 && x == d * q + r && 0 <= r < d
    ensures x / d == q && x % d == r
  {
    var q', r' := x / d, x % d;
    assert x == d * q' + r' && 0 <= r' < d;
    MulSub(d, q, q');
    MulSub(d, q', q);
    if q > q' { MulGe(d, q - q'); }
    if q < q' { MulGe(d, q' - q); }
  }

  lemma DivMod(x: int, d: int)
    requires d >= 1
    ensures x == d * (x / d) + x % d && 0 <= x % d < d
  {
  }

  lemma DivPos(x: int, d: int)
    requires d >= 1 && x >= 0
    ensures 0 <= x / d <= x
  {
    DivMod(x, d);
    var q := x / d;
    if q < 0 { MulGe(d, -q); }
    if q >= 1 { MulGe(q, d); }
  }

  /** Dropping the low digit of both numerator and denominator. */
  lemma DivShift(m: int, b: int, n: int, p: int)
    requires m >= 1 && 0 <= b < m && p >= 1
    ensures m * p >= 1 && (b + m * n) / (m * p) == n / p
  {
    DivMod(n, p);
    var q, r := n / p, n % p;
    MulGe(m, p);
    MulAssoc(m, p, q);
    assert m * n == m * (p * q) + m * r;
    MulSub(m, p, r);
    MulGe(m, p - r);
    assert m * r >= 0;
    DivUnique(b + m * n, m * p, q, b + m * r);
  }

  /** Rounding up, a divisor at a time. */
  lemma CeilStep(n: int, d: int)
    requires d >= 1 && n >= 0
    ensures n == 0 ==> (n + d - 1) / d == 0
    ensures 1 <= n <= d ==> (n + d - 1) / d == 1
    ensures n > d ==> (n + d - 1) / d == 1 + (n - d + d - 1) / d
  {
    if n == 0 {
      DivUnique(d - 1, d, 0, d - 1);
    } else if n <= d {
      DivUnique(n + d - 1, d, 1, n - 1);
    } else {
      DivMod(n - 1, d);
      DivUnique(n + d - 1, d, (n - 1) / d + 1, (n - 1) % d);
    }
  }

  lemma DivStep(i: int, d: int)
    requires d >= 1 && i >= 0
    ensures i < d ==> i / d == 0 && i % d == i
    ensures i >= d ==> i / d == (i - d) / d + 1 && i % d == (i - d) % d
  {
    if i < d {
      DivUnique(i, d, 0, i);
    } else {
      DivMod(i - d, d);
      DivUnique(i, d, (i - d) / d + 1, (i - d) % d);
    }
  }
}
