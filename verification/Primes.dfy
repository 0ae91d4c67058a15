/** next_hash_prime (weak.c): the search always ends, and with a prime. */
module Primes {
  import opened Arith

  predicate Prime(p: int) { p >= 2 && forall d :: 2 <= d < p ==> p % d != 0 }

  lemma ModZero(n: int, d: int, q: int)
    requires d >= 1 && n == d * q
    ensures n % d == 0
  {
    DivUnique(n, d, q, 0);
  }

  /** The least divisor of a number is a prime. */
  lemma LeastDivisor(m: int) returns (p: int)
    requires m >= 2
    ensures Prime(p) && p <= m && m % p == 0
  {
    p := 2;
    while m % p != 0
      invariant 2 <= p <= m && forall d :: 2 <= d < p ==> m % d != 0
      decreases m - p
    {
      if p == m { ModZero(m, m, 1); }
      p := p + 1;
    }
    forall d | 2 <= d < p ensures p % d != 0 {
      if p % d == 0 {
        DivMod(p, d);
        DivMod(m, p);
        MulAssoc(d, p / d, m / p);
        ModZero(m, d, (p / d) * (m / p));
      }
    }
  }

  function Factorial(n: nat): (f: int)
    ensures f >= 1
  {
    if n == 0 then 1 else MulGe(n, Factorial(n - 1)); n * Factorial(n - 1)
  }

  lemma {:induction false} FactorialDivides(n: nat, d: int)
    requires 1 <= d <= n
    ensures Factorial(n) % d == 0
  {
    var f := Factorial(n - 1);
    if d == n {
      ModZero(n * f, n, f);
    } else {
      FactorialDivides(n - 1, d);
      DivMod(f, d);
      var q := f / d;
      MulAssoc(n, d, q);
      MulAssoc(d, n, q);
      ModZero(n * f, d, n * q);
    }
  }

  /** Euclid: there is a prime above every number. */
  lemma PrimeAbove(n: nat) returns (p: int)
    ensures Prime(p) && p > n
  {
    var f := Factorial(n);
    p := LeastDivisor(f + 1);
    if p <= n {
      FactorialDivides(n, p);
      DivMod(f, p);
      DivUnique(f + 1, p, f / p, 1);
    }
  }

  /** An odd number with no odd divisor up to its square root is a prime. */
  lemma TrialDivision(c: int)
    requires c >= 3 && c % 2 == 1
    requires forall d :: 3 <= d <= c / d && d % 2 == 1 ==> c % d != 0
    ensures Prime(c)
  {
    forall k | 2 <= k < c ensures c % k != 0 {
      if c % k == 0 {
        DivMod(c, k);
        var m := c / k;
        CoDivisor(c, k, m);
        OddFactors(k, m);
        if k > m {
          ModZero(c, m, k);
          DivUnique(c, m, k, 0);
        }
      }
    }
  }

  lemma CoDivisor(c: int, k: int, m: int)
    requires c == k * m && 2 <= k < c
    ensures 2 <= m
  {
    if m <= 0 { MulNonNeg(k, -m); }
  }

  lemma OddFactors(k: int, m: int)
    requires (k * m) % 2 == 1
    ensures k % 2 == 1 && m % 2 == 1
  {
    if k % 2 == 0 { var h := k / 2; assert k == 2 * h; MulAssoc(2, h, m); ModZero(k * m, 2, h * m); }
    if m % 2 == 0 { var h := m / 2; assert m == 2 * h; assert k * m == 2 * (k * h); ModZero(k * m, 2, k * h); }
  }

  /** The inner loop: trial division by odd numbers. */
  method Composite(candidate: int) returns (composite: bool)
    requires candidate >= 17 && candidate % 2 == 1
    ensures composite <==> !Prime(candidate)
  {
    hide Prime;
    var d := 3;
    while d <= candidate / d
      invariant d >= 3 && d % 2 == 1
      invariant forall k :: 3 <= k < d && k % 2 == 1 ==> candidate % k != 0
      decreases candidate - d
    {
      DivisorBelow(candidate, d);
      if candidate % d == 0 {
        NotPrime(candidate, d);
        return true;
      }
      NextOdd(candidate, d);
      d := d + 2;
    }
    QuotientsFall(candidate, d);
    TrialDivision(candidate);
    composite := false;
  }

  lemma NotPrime(c: int, d: int)
    requires 2 <= d < c && c % d == 0
    ensures !Prime(c)
  {
  }

  lemma NextOdd(c: int, d: int)
    requires d % 2 == 1 && c % d != 0 && d >= 3
    requires forall k :: 3 <= k < d && k % 2 == 1 ==> c % k != 0
    ensures forall k :: 3 <= k < d + 2 && k % 2 == 1 ==> c % k != 0
  {
  }

  method NextHashPrime(n: int) returns (candidate: int)
    ensures candidate >= n && candidate >= 17 && Prime(candidate)
    ensures forall c :: n <= c < candidate && c >= 17 ==> !Prime(c)
  {
    hide Prime;
    var from := if n < 17 then 17 else n;
    candidate := if from % 2 == 0 then from + 1 else from;
    ghost var p := PrimeAbove(candidate);
    if from % 2 == 0 { EvenNotPrime(from); }
    if p % 2 == 0 { EvenNotPrime(p); }
    while true
      invariant from <= candidate <= p && candidate % 2 == 1
      invariant forall c :: from <= c < candidate ==> !Prime(c)
      decreases p - candidate
    {
      var composite := Composite(candidate);
      if !composite { return; }
      EvenNotPrime(candidate + 1);
      candidate := candidate + 2;
    }
  }

  lemma EvenNotPrime(n: int)
    requires n > 2 && n % 2 == 0
    ensures !Prime(n)
  {
  }

  lemma DivisorBelow(c: int, d: int)
    requires 3 <= d <= c / d
    ensures d < c
  {
    DivMod(c, d);
    MulGe(c / d, 1);
    var q := c / d;
    MulSub(q, d, 1);
    MulGe(q, d - 1);
  }

  lemma QuotientsFall(c: int, d: int)
    requires c >= 3 && d >= 3 && d > c / d
    ensures forall k :: k >= d ==> k > c / k
  {
    forall k | k >= d ensures k > c / k {
      DivMod(c, k);
      DivMod(c, d);
      var q := c / k;
      if q >= k {
        MulNonNeg(k, q - k);
        MulSub(k, q, k);
        MulNonNeg(d, k - d);
        MulSub(d, k, d);
        MulNonNeg(k - d, k);
        assert c >= k * q && k * q >= k * k;
        Squares(d, k);
        assert c >= d * d;
        DivAtLeast(c, d);
      }
    }
  }

  lemma Squares(d: int, k: int)
    requires 0 <= d <= k
    ensures d * d <= k * k
  {
    assert k * k - d * d == (k - d) * (k + d);
    MulNonNeg(k - d, k + d);
  }

  lemma DivAtLeast(c: int, d: int)
    requires d >= 1 && c >= d * d
    ensures c / d >= d
  {
    DivMod(c, d);
    var q := c / d;
    if q < d { MulSub(d, d, q); MulGe(d, d - q); }
  }
}
