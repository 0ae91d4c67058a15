/** Fixnum instructions of loop.c: C arithmetic on tagged words, and exactly when it traps.
    `w` is the word size in bits; two of them are the tag. */
module Fixnum {
  import opened Options
  import opened Arith

  function Pow2(n: nat): (p: int)
    ensures p >= 1
  {
    if n == 0 then 1 else 2 * Pow2(n - 1)
  }

  lemma {:induction false} PowAdd(m: nat, n: nat)
    ensures Pow2(m + n) == Pow2(m) * Pow2(n)
    decreases n
  {
    if n > 0 {
      PowAdd(m, n - 1);
      MulAssoc(Pow2(m), 2, Pow2(n - 1));
    }
  }

  lemma {:induction false} PowMono(m: nat, n: nat)
    requires m <= n
    ensures Pow2(m) <= Pow2(n)
    decreases n
  {
    if m < n { PowMono(m, n - 1); }
  }

  /** One more than the largest fixnum of a `w`-bit word. */
  function Half(w: nat): int
    requires w >= 3
  {
    Pow2(w - 3)
  }

  predicate IsFix(w: nat, x: int)
    requires w >= 3
  {
    -Half(w) <= x < Half(w)
  }

  /** INT_TO_REF of a fixnum, as a signed word. */
  function Raw(x: int): int { 4 * x }

  /** The low `w` bits of a number, as a signed word. */
  function Wrap(w: nat, x: int): int
    requires w >= 1
  {
    var m := x % Pow2(w);
    if m >= Pow2(w - 1) then m - Pow2(w) else m
  }

  lemma WrapIs(w: nat, x: int)
    requires w >= 1
    ensures -Pow2(w - 1) <= Wrap(w, x) < Pow2(w - 1)
    ensures exists k :: Wrap(w, x) == x - k * Pow2(w)
    ensures -Pow2(w - 1) <= x < Pow2(w - 1) ==> Wrap(w, x) == x
  {
    var p := Pow2(w);
    DivMod(x, p);
    var q, m := x / p, x % p;
    if m >= Pow2(w - 1) {
      assert Wrap(w, x) == x - (q + 1) * p;
    } else {
      assert Wrap(w, x) == x - q * p;
    }
    if 0 <= x < Pow2(w - 1) { DivUnique(x, p, 0, x); }
    if -Pow2(w - 1) <= x < 0 { DivUnique(x, p, -1, x + p); }
  }

  /** OVERFLOWN_INT: are the top three bits of the word all alike? */
  predicate Overflown(w: nat, x: int)
    requires w >= 3
  {
    var high := (x % Pow2(w)) / Half(w);
    high != 0 && high != 7
  }

  lemma OverflownExact(w: nat, x: int)
    requires w >= 3 && -Pow2(w - 1) <= x < Pow2(w - 1)
    ensures Overflown(w, x) <==> !IsFix(w, x)
  {
    var p, h := Pow2(w), Half(w);
    assert Pow2(w - 1) == 4 * h by { assert Pow2(w - 2) == 2 * h; }
    assert p == 8 * h;
    var m := if x >= 0 then x else x + p;
    DivUnique(x, p, if x >= 0 then 0 else -1, m);
    DivMod(m, h);
    var q := m / h;
    if 0 <= x < h { DivUnique(m, h, 0, m); }
    if -h <= x < 0 { DivUnique(m, h, 7, m - 7 * h); }
    if x >= h { if q >= 7 { MulSub(h, q, 7); MulNonNeg(h, q - 7); } }
    if x < -h { if q >= 7 { MulSub(h, q, 7); MulNonNeg(h, q - 7); } if q <= 0 { MulNonNeg(h, -q); } }
  }

  // ---- Division ----

  /** C's / and %, which round toward zero. */
  function TruncDiv(x: int, y: int): int
    requires y != 0
  {
    if x >= 0 then (if y > 0 then x / y else -(x / -y))
    else (if y > 0 then -(-x / y) else -x / -y)
  }

  function TruncRem(x: int, y: int): int
    requires y != 0
  {
    x - y * TruncDiv(x, y)
  }

  predicate TowardZero(x: int, y: int, q: int, r: int)
    requires y != 0
  {
    x == q * y + r && (if x >= 0 then 0 <= r else r <= 0) && -Abs(y) < r < Abs(y)
  }

  predicate TowardMinus(x: int, y: int, q: int, r: int)
    requires y != 0
  {
    x == q * y + r && if y > 0 then 0 <= r < y else y < r <= 0
  }

  function Abs(x: int): int { if x < 0 then -x else x }

  lemma NegMul(a: int, b: int)
    ensures (-a) * b == -(a * b) && a * (-b) == -(a * b) && (-a) * (-b) == a * b
  {
  }

  lemma TruncIs(x: int, y: int)
    requires y != 0
    ensures TowardZero(x, y, TruncDiv(x, y), TruncRem(x, y))
  {
    var a, b := Abs(x), Abs(y);
    DivMod(a, b);
    var q, r := a / b, a % b;
    NegMul(b, q);
    TruncCases(x, y, a, b, q, r, b * q);
  }

  lemma TruncCases(x: int, y: int, a: int, b: int, q: int, r: int, bq: int)
    requires y != 0 && a == Abs(x) && b == Abs(y) && a == bq + r && 0 <= r < b
    requires bq == b * q && (-b) * q == -bq && b * (-q) == -bq && (-b) * (-q) == bq
    requires TruncDiv(x, y) == if (x < 0) != (y < 0) then -q else q
    ensures TowardZero(x, y, TruncDiv(x, y), TruncRem(x, y))
  {
    hide TruncDiv;
    var t := TruncDiv(x, y);
    assert y * t == (if x < 0 then -bq else bq);
    assert t * y == y * t;
  }

  lemma TowardZeroUnique(x: int, y: int, q: int, r: int)
    requires y != 0 && TowardZero(x, y, q, r)
    ensures q == TruncDiv(x, y) && r == TruncRem(x, y)
  {
    TruncIs(x, y);
    var q', r' := TruncDiv(x, y), TruncRem(x, y);
    assert y * (q - q') == r' - r by { MulSub(y, q, q'); }
    Small(y, q - q');
  }

  lemma Small(y: int, k: int)
    ensures k != 0 ==> Abs(y * k) >= Abs(y)
  {
    if k >= 1 { if y >= 1 { MulGe(y, k); } else if y <= -1 { MulGe(-y, k); assert (-y) * k == -(y * k); } }
    if k <= -1 {
      if y >= 1 {
        MulGe(y, -k);
        assert y * -k == -(y * k);
      } else if y <= -1 {
        MulGe(-y, -k);
        assert (-y) * (-k) == y * k;
      }
    }
  }

  /** Dividing the tagged words is dividing the integers. */
  lemma RawDiv(x: int, y: int)
    requires y != 0
    ensures TruncDiv(Raw(x), Raw(y)) == TruncDiv(x, y)
  {
    TruncIs(x, y);
    var q, r := TruncDiv(x, y), TruncRem(x, y);
    assert Raw(x) == q * Raw(y) + 4 * r;
    TowardZeroUnique(Raw(x), Raw(y), q, 4 * r);
  }

  /** DIV */
  function Div(w: nat, x: int, y: int): Option<int>
    requires w >= 3
  {
    if y == 0 || (y == -1 && x == -Half(w)) then None else Some(TruncDiv(Raw(x), Raw(y)))
  }

  /** REMAINDER */
  function Remainder(x: int, y: int): Option<int> {
    if y == 0 then None else Some(TruncRem(x, y))
  }

  /** QUOTIENTM */
  function Quotientm(w: nat, x: int, y: int): Option<int>
    requires w >= 3
  {
    if y == 0 || (y == -1 && x == -Half(w)) then None
    else
      var a := TruncDiv(Raw(x), Raw(y));
      Some(if (x < 0 && y > 0 && a * Raw(y) > Raw(x)) || (y < 0 && x > 0 && a * Raw(y) < Raw(x))
           then a - 1 else a)
  }

  /** MODULO */
  function Modulo(x: int, y: int): Option<int> {
    if y == 0 then None
    else
      var a := TruncRem(x, y);
      Some(if (a < 0 && y > 0) || (y < 0 && x > 0 && a > 0) then a + y else a)
  }

  lemma QuotientFits(w: nat, x: int, y: int, q: int, r: int)
    requires w >= 3 && IsFix(w, x) && IsFix(w, y) && y != 0 && !(y == -1 && x == -Half(w))
    requires TowardZero(x, y, q, r) || TowardMinus(x, y, q, r)
    ensures IsFix(w, q) && IsFix(w, r)
  {
    var h := Half(w);
    if Abs(y) == 1 {
      assert q * 1 == q && q * -1 == -q;
    } else {
      // |q| can be at most (|x| + |r|) / |y|, which is no more than |x|.
      assert q * y == x - r;
      if q >= h { MulBound(q, y, h); }
      if q < -h {
        assert (-q) * y == -(q * y);
        MulBound(-q, y, h + 1);
      }
    }
  }

  lemma MulBound(q: int, y: int, h: int)
    requires q >= h >= 1 && (y >= 2 || y <= -2)
    ensures y >= 2 ==> q * y >= h + h && q * y >= h + y - 1
    ensures y <= -2 ==> q * y <= -(h + h) && q * y <= -(h - y - 1)
    decreases y < 0
  {
    if y >= 2 {
      MulNonNeg(q - h, y);
      MulNonNeg(h, y - 2);
      MulNonNeg(h - 1, y - 1);
      assert q * y == (q - h) * y + h * y;
      assert h * y == h * (y - 2) + 2 * h;
      assert h * y == (h - 1) * (y - 1) + h + y - 1;
    } else {
      MulBound(q, -y, h);
      assert q * -y == -(q * y);
    }
  }

  /** DIV and REMAINDER: for all fixnums but the two cases that trap, quotient and remainder are
      fixnums, satisfy the identity, and round toward zero.  DIV traps exactly when there is no
      quotient or it is not a fixnum. */
  lemma DivRemainder(w: nat, x: int, y: int)
    requires w >= 3 && IsFix(w, x) && IsFix(w, y)
    ensures Div(w, x, y) == None <==> y == 0 || !IsFix(w, TruncDiv(x, y))
    ensures Remainder(x, y) == None <==> y == 0
    ensures Div(w, x, y).Some? ==>
              var q, r := Div(w, x, y).value, Remainder(x, y).value;
              IsFix(w, q) && IsFix(w, r) && TowardZero(x, y, q, r)
  {
    if y != 0 {
      RawDiv(x, y);
      TruncIs(x, y);
      if y == -1 && x == -Half(w) {
        TowardZeroUnique(x, y, Half(w), 0);
      } else {
        QuotientFits(w, x, y, TruncDiv(x, y), TruncRem(x, y));
      }
    }
  }

  /** QUOTIENTM and MODULO: the same, rounding toward minus infinity. */
  lemma QuotientmModulo(w: nat, x: int, y: int)
    requires w >= 3 && IsFix(w, x) && IsFix(w, y)
    ensures Quotientm(w, x, y) == None <==> Div(w, x, y) == None
    ensures Modulo(x, y) == None <==> y == 0
    ensures Quotientm(w, x, y).Some? ==>
              var q, r := Quotientm(w, x, y).value, Modulo(x, y).value;
              IsFix(w, q) && IsFix(w, r) && TowardMinus(x, y, q, r)
  {
    if Quotientm(w, x, y).Some? {
      hide TruncDiv, TruncRem, TowardZero;
      RawDiv(x, y);
      TruncIs(x, y);
      LowerTest(x, y, TruncDiv(x, y), TruncRem(x, y));
      Lower(x, y, TruncDiv(x, y), TruncRem(x, y));
      QuotientFits(w, x, y, Quotientm(w, x, y).value, Modulo(x, y).value);
    }
  }

  lemma LowerTest(x: int, y: int, q: int, r: int)
    requires y != 0 && TowardZero(x, y, q, r)
    ensures q * Raw(y) > Raw(x) <==> r < 0
    ensures q * Raw(y) < Raw(x) <==> r > 0
  {
    MulAssoc(4, y, q);
    assert q * Raw(y) == 4 * (q * y);
  }

  /** Going down by one turns rounding toward zero into rounding toward minus infinity. */
  lemma Lower(x: int, y: int, q: int, r: int)
    requires y != 0 && TowardZero(x, y, q, r)
    ensures if (r < 0 && y > 0) || (y < 0 && x > 0 && r > 0) then TowardMinus(x, y, q - 1, r + y)
            else TowardMinus(x, y, q, r)
  {
    assert (q - 1) * y == q * y - y;
  }

  // ---- Multiplication ----

  /** TIMES with a double-width product: the bits above the fixnum must be all alike. */
  function Times(w: nat, x: int, y: int): Option<int>
    requires w >= 3
  {
    var a := x * y;
    var high := a / Half(w);
    if high != 0 && high != -1 then None else Some(a)
  }

  lemma TimesExact(w: nat, x: int, y: int)
    requires w >= 3
    ensures Times(w, x, y) == if IsFix(w, x * y) then Some(x * y) else None
  {
    var a, h := x * y, Half(w);
    DivMod(a, h);
    if 0 <= a < h { DivUnique(a, h, 0, a); }
    if -h <= a < 0 { DivUnique(a, h, -1, a + h); }
  }

  const SPLIT := 32768

  /** The partial products of 15-bit halves. */
  function LowLow(a: int, b: int): int { (a % SPLIT) * (b % SPLIT) }

  function Cross(a: int, b: int): int { (a % SPLIT) * (b / SPLIT) + (a / SPLIT) * (b % SPLIT) }

  function HighHigh(a: int, b: int): int { (a / SPLIT) * (b / SPLIT) }

  /** TIMES in 15-bit halves, for words without a double-width product. */
  function TimesSplit(x: int, y: int): Option<int> {
    var neg := (x < 0) != (y < 0);
    var a, b := Abs(x), Abs(y);
    var ll, hllh, hh := LowLow(a, b), Cross(a, b), HighHigh(a, b);
    if hh != 0 || hllh / SPLIT != 0 then None
    else
      var answer := hllh * SPLIT + ll;
      var signed := if neg then -answer else answer;
      if Overflown(32, signed) then None else Some(signed)
  }

  lemma Parts(a: int, b: int)
    requires 0 <= a <= 0x2000_0000 && 0 <= b <= 0x2000_0000
    ensures 0 <= LowLow(a, b) <= 32767 * 32767 && 0 <= Cross(a, b) <= 2 * 32767 * 16384
        && 0 <= HighHigh(a, b) <= 16384 * 16384
    ensures a * b == HighHigh(a, b) * SPLIT * SPLIT + Cross(a, b) * SPLIT + LowLow(a, b)
  {
    DivMod(a, SPLIT);
    DivMod(b, SPLIT);
    Products(a % SPLIT, a / SPLIT, b % SPLIT, b / SPLIT);
  }

  /** On 32-bit words the split multiply gives what the double-width one does, and no partial product
      leaves the word. */
  lemma SplitAgrees(x: int, y: int)
    requires IsFix(32, x) && IsFix(32, y)
    ensures TimesSplit(x, y) == Times(32, x, y)
    ensures var a, b := Abs(x), Abs(y);
            && 0 <= LowLow(a, b) < 0x1_0000_0000 && 0 <= Cross(a, b) < 0x1_0000_0000
            && 0 <= HighHigh(a, b) < 0x1_0000_0000
            && (Cross(a, b) < SPLIT ==> Cross(a, b) * SPLIT + LowLow(a, b) < 0x8000_0000)
  {
    HalfOf32();
    TimesExact(32, x, y);
    var a, b := Abs(x), Abs(y);
    Parts(a, b);
    Signs(x, y);
    hide Overflown, Times, LowLow, Cross, HighHigh;
    SplitSum(x * y, (x < 0) != (y < 0), LowLow(a, b), Cross(a, b), HighHigh(a, b));
  }

  lemma SplitSum(product: int, neg: bool, ll: int, hllh: int, hh: int)
    requires 0 <= ll <= 32767 * 32767 && 0 <= hllh <= 2 * 32767 * 16384 && 0 <= hh
    requires var a := hh * SPLIT * SPLIT + hllh * SPLIT + ll; product == if neg then -a else a
    ensures hh != 0 || hllh / SPLIT != 0 ==> !IsFix(32, product)
    ensures !(hh != 0 || hllh / SPLIT != 0) ==>
              hh == 0 && hllh < SPLIT && (Overflown(32, product) <==> !IsFix(32, product))
  {
    HalfOf32();
    DivMod(hllh, SPLIT);
    if hh == 0 && hllh < SPLIT { OverflownExact(32, product); }
  }

  lemma HalfOf32()
    ensures Half(32) == 0x2000_0000 && Pow2(31) == 0x8000_0000
  {
    assert Pow2(10) == 1024;
    PowAdd(10, 10);
    PowAdd(20, 9);
    PowAdd(29, 2);
  }

  lemma Signs(x: int, y: int)
    ensures x * y == if (x < 0) != (y < 0) then -(Abs(x) * Abs(y)) else Abs(x) * Abs(y)
  {
    assert (-x) * y == -(x * y) && x * (-y) == -(x * y) && (-x) * (-y) == x * y;
  }

  lemma Products(al: int, ah: int, bl: int, bh: int)
    requires 0 <= al < SPLIT && 0 <= bl < SPLIT && 0 <= ah <= 16384 && 0 <= bh <= 16384
    ensures 0 <= al * bl <= 32767 * 32767 && 0 <= al * bh <= 32767 * 16384
    ensures 0 <= ah * bl <= 32767 * 16384 && 0 <= ah * bh <= 16384 * 16384
    ensures (ah * SPLIT + al) * (bh * SPLIT + bl)
            == ah * bh * SPLIT * SPLIT + (al * bh + ah * bl) * SPLIT + al * bl
  {
    Within(al, bl, 32767, 32767);
    Within(al, bh, 32767, 16384);
    Within(ah, bl, 16384, 32767);
    Within(ah, bh, 16384, 16384);
    assert (ah * SPLIT + al) * (bh * SPLIT + bl) == (ah * SPLIT + al) * (bh * SPLIT) + (ah * SPLIT + al) * bl;
  }

  lemma Within(a: int, b: int, m: int, n: int)
    requires 0 <= a <= m && 0 <= b <= n
    ensures 0 <= a * b <= m * n
  {
    MulNonNeg(a, b);
    MulNonNeg(m - a, b);
    MulNonNeg(m, n - b);
    assert m * n - a * b == (m - a) * b + m * (n - b);
  }

  // ---- Shifts ----

  /** ASH: a right shift of any size saturates; a left shift shifts the word and checks it. */
  function Ash(w: nat, x: int, y: int): Option<int>
    requires w >= 3
  {
    if y < 0 then Some(if -y >= w - 2 then (if x < 0 then -1 else 0) else x / Pow2(-y))
    else if x == 0 || y == 0 then Some(x)
    else if y >= w - 2 then None
    else
      var r := Wrap(w, x * Pow2(y));
      if r / Pow2(y) != x || Overflown(w, r) then None else Some(r)
  }

  /** A left shift is multiplication by a power of two, and traps exactly when the product is not a
      fixnum; a right shift divides, rounding toward minus infinity. */
  lemma AshExact(w: nat, x: int, y: int)
    requires w >= 3 && IsFix(w, x)
    ensures y >= 0 ==> Ash(w, x, y) == if IsFix(w, x * Pow2(y)) then Some(x * Pow2(y)) else None
    ensures y < 0 ==> Ash(w, x, y) == Some(x / Pow2(-y))
  {
    if y < 0 {
      RightShift(w, x, -y);
    } else if x != 0 && y > 0 {
      if y >= w - 2 { Huge(w, x, y); } else { LeftShift(w, x, y); }
    } else {
      assert Pow2(0) == 1 && x * 1 == x && 0 * Pow2(y) == 0;
    }
  }

  lemma RightShift(w: nat, x: int, c: nat)
    requires w >= 3 && IsFix(w, x)
    ensures c >= w - 2 ==> x / Pow2(c) == if x < 0 then -1 else 0
  {
    if c >= w - 2 {
      PowMono(w - 3, c);
      if x >= 0 { DivUnique(x, Pow2(c), 0, x); } else { DivUnique(x, Pow2(c), -1, x + Pow2(c)); }
    }
  }

  lemma Huge(w: nat, x: int, y: int)
    requires w >= 3 && x != 0 && y >= w - 2
    ensures !IsFix(w, x * Pow2(y))
  {
    PowMono(w - 2, y);
    assert Pow2(w - 2) == 2 * Half(w);
    Small(Pow2(y), x);
    assert x * Pow2(y) == Pow2(y) * x;
  }

  lemma ShiftBack(x: int, p: int, k: int, m: int)
    ensures x * p - k * (m * p) == p * (x - k * m)
  {
    MulAssoc(k, m, p);
    MulSub(p, x, k * m);
  }

  lemma LeftShift(w: nat, x: int, y: int)
    requires w >= 3 && IsFix(w, x) && 0 < y < w - 2
    ensures var r := Wrap(w, x * Pow2(y));
            if IsFix(w, x * Pow2(y)) then r == x * Pow2(y) && r / Pow2(y) == x && !Overflown(w, r)
            else r / Pow2(y) != x || Overflown(w, r)
  {
    var v, p, m := x * Pow2(y), Pow2(y), Pow2(w - y);
    WrapIs(w, v);
    var k :| Wrap(w, v) == v - k * Pow2(w);
    var r := Wrap(w, v);
    PowAdd(w - y, y);
    ShiftBack(x, p, k, m);
    hide Overflown, Wrap, Pow2;
    DivUnique(r, p, x - k * m, 0);
    if k == 0 {
      OverflownExact(w, r);
    } else {
      NotShifted(w, x, y, k);
    }
  }

  /** A product that has lost bits is no fixnum. */
  lemma NotShifted(w: nat, x: int, y: int, k: int)
    requires w >= 3 && k != 0 && 0 < y < w - 2
    requires var r := x * Pow2(y) - k * Pow2(w); -Pow2(w - 1) <= r < Pow2(w - 1)
    ensures x - k * Pow2(w - y) != x && !IsFix(w, x * Pow2(y))
  {
    assert Pow2(w - 2) == 2 * Half(w);
    assert Pow2(w - 1) == 4 * Half(w);
    assert Pow2(w) == 8 * Half(w);
    Small(Pow2(w - y), k);
    Small(Pow2(w), k);
    var a, b := k * Pow2(w - y), k * Pow2(w);
    assert a == Pow2(w - y) * k && b == Pow2(w) * k;
  }

  /** ROT, on the field of `n` bits above the tag, as an unsigned number. */
  function Rot(n: nat, u: int, y: int): int {
    if n == 0 then u
    else
      var b := y % n;
      if b == 0 then u else (u * Pow2(b)) % Pow2(n) + u / Pow2(n - b)
  }

  lemma Expand(hi: int, q: int, lo: int, p: int)
    ensures (hi * q + lo) * p == (q * p) * hi + lo * p && hi * q == q * hi
  {
    MulAssoc(hi, q, p);
    assert (hi * q + lo) * p == (hi * q) * p + lo * p;
  }

  lemma Below(lo: int, q: int, p: int)
    requires 0 <= lo < q && p >= 1
    ensures 0 <= lo * p && lo * p + p <= q * p
  {
    MulNonNeg(lo, p);
    MulNonNeg(q - 1 - lo, p);
    assert (q - 1 - lo) * p == q * p - p - lo * p;
  }

  /** The two shifted parts do not overlap: the high bits come around to the bottom. */
  lemma RotSplits(n: nat, hi: int, lo: int, b: nat)
    requires 0 < b < n && 0 <= hi < Pow2(b) && 0 <= lo < Pow2(n - b)
    ensures Rot(n, hi * Pow2(n - b) + lo, b) == lo * Pow2(b) + hi
    ensures 0 <= lo * Pow2(b) + hi < Pow2(n)
  {
    var p, q := Pow2(b), Pow2(n - b);
    var u := hi * q + lo;
    DivUnique(b, n, 0, b);
    PowAdd(n - b, b);
    Expand(hi, q, lo, p);
    Below(lo, q, p);
    hide Pow2;
    DivUnique(u, q, hi, lo);
    DivUnique(u * p, Pow2(n), hi, lo * p);
  }

  /** The high and low parts of a number. */
  lemma Halves(n: nat, u: int, b: nat) returns (hi: int, lo: int)
    requires 0 < b < n && 0 <= u < Pow2(n)
    ensures u == hi * Pow2(n - b) + lo && 0 <= hi < Pow2(b) && 0 <= lo < Pow2(n - b)
  {
    var q, p := Pow2(n - b), Pow2(b);
    DivMod(u, q);
    hi, lo := u / q, u % q;
    PowAdd(n - b, b);
    assert q * hi == hi * q;
    if hi >= p { MulNonNeg(q, hi - p); MulSub(q, hi, p); }
    if hi < 0 { MulGe(q, -hi); NegMul(q, hi); }
  }

  lemma RotBack(n: nat, u: int, b: nat)
    requires 0 < b < n && 0 <= u < Pow2(n)
    ensures 0 <= Rot(n, u, b) < Pow2(n) && Rot(n, Rot(n, u, b), n - b) == u
  {
    hide Rot, Pow2;
    var hi, lo := Halves(n, u, b);
    var k := n - b;
    RotSplits(n, hi, lo, b);
    RotSplits(n, lo, hi, k);
    assert n - k == b;
  }

  lemma RotNone(n: nat, u: int, y: int)
    requires n > 0 && y % n == 0
    ensures Rot(n, u, y) == u && Rot(n, u, n) == u
  {
    DivUnique(n, n, 1, 0);
  }

  /** A rotation loses nothing: rotating on by the rest of the width gives the number back. */
  lemma RotInverse(n: nat, u: int, y: int)
    requires n > 0 && 0 <= u < Pow2(n)
    ensures 0 <= Rot(n, u, y) < Pow2(n) && Rot(n, Rot(n, u, y), n - y % n) == u
  {
    hide Rot, Pow2;
    DivMod(y, n);
    var b := y % n;
    if b == 0 {
      RotNone(n, u, y);
    } else {
      SameRotation(n, u, y, b);
      RotBack(n, u, b);
    }
  }

  lemma SameRotation(n: nat, u: int, y: int, b: int)
    requires n > 0 && b == y % n
    ensures Rot(n, u, y) == Rot(n, u, b)
  {
    DivMod(y, n);
    DivUnique(b, n, 0, b);
  }

  // ---- The program counter ----

  /** The instructions before the physical position `pc`, with `ipr` of them in each cell of
      `stride` positions. */
  function Logical(pc: int, ipr: int, stride: int): int
    requires stride > 0
  {
    (pc / stride) * ipr + pc % stride
  }

  /** _advance_pc, with C's division for the negative case. */
  function AdvancePc(pc: int, n: int, ipr: int, stride: int): int
    requires stride >= ipr > 0
  {
    var sub := pc % stride;
    var total := sub + n;
    var refDelta := if total >= 0 then TruncDiv(total, ipr) else -TruncDiv(ipr - 1 - total, ipr);
    var newSub := total - refDelta * ipr;
    pc + refDelta * stride + newSub - sub
  }

  /** C's division, made to round down. */
  lemma RefDelta(total: int, ipr: int)
    requires ipr > 0
    ensures (if total >= 0 then TruncDiv(total, ipr) else -TruncDiv(ipr - 1 - total, ipr)) == total / ipr
  {
    DivMod(total, ipr);
    if total < 0 {
      var t, m := total / ipr, total % ipr;
      NegMul(ipr, t);
      DivUnique(ipr - 1 - total, ipr, -t, ipr - 1 - m);
    }
  }

  /** Advancing skips the gaps: it moves by exactly `n` instructions, forward or back, and never stops
      in a gap. */
  lemma AdvanceMoves(pc: int, n: int, ipr: int, stride: int)
    requires stride >= ipr > 0 && pc % stride < ipr
    ensures var p := AdvancePc(pc, n, ipr, stride);
            Logical(p, ipr, stride) == Logical(pc, ipr, stride) + n && 0 <= p % stride < ipr
  {
    DivMod(pc, stride);
    var cell, sub := pc / stride, pc % stride;
    var total := sub + n;
    RefDelta(total, ipr);
    DivMod(total, ipr);
    var d, rest := total / ipr, total % ipr;
    var p := AdvancePc(pc, n, ipr, stride);
    hide TruncDiv;
    Moved(cell, d, stride, ipr);
    assert p == stride * (cell + d) + rest;
    DivUnique(p, stride, cell + d, rest);
  }

  lemma Moved(cell: int, d: int, stride: int, ipr: int)
    ensures stride * cell + d * stride == stride * (cell + d)
    ensures (cell + d) * ipr == cell * ipr + d * ipr && d * ipr == ipr * d
  {
  }

  /** Steps add up: in particular a step back undoes one forward. */
  lemma {:induction false} AdvanceAdds(pc: int, n: int, m: int, ipr: int, stride: int)
    requires stride >= ipr > 0 && pc % stride < ipr
    ensures AdvancePc(AdvancePc(pc, n, ipr, stride), m, ipr, stride) == AdvancePc(pc, n + m, ipr, stride)
  {
    hide AdvancePc, Logical;
    AdvanceMoves(pc, n, ipr, stride);
    AdvanceMoves(AdvancePc(pc, n, ipr, stride), m, ipr, stride);
    AdvanceMoves(pc, n + m, ipr, stride);
    LogicalInjective(AdvancePc(AdvancePc(pc, n, ipr, stride), m, ipr, stride), AdvancePc(pc, n + m, ipr, stride),
        ipr, stride);
  }

  lemma LogicalInjective(p: int, q: int, ipr: int, stride: int)
    requires stride >= ipr > 0 && p % stride < ipr && q % stride < ipr
    requires Logical(p, ipr, stride) == Logical(q, ipr, stride)
    ensures p == q
  {
    DivMod(p, stride);
    DivMod(q, stride);
    var l := Logical(p, ipr, stride);
    assert (p / stride) * ipr == ipr * (p / stride) && (q / stride) * ipr == ipr * (q / stride);
    DivUnique(l, ipr, p / stride, p % stride);
    DivUnique(l, ipr, q / stride, q % stride);
  }

  // ---- The cold linker's encoding ----

  /** tagize_int: the constant as an unsigned word, unless it is out of range. */
  function TagizeBits(w: nat, x: int): Option<int>
    requires w >= 3
  {
    if x < -Half(w) || x > Half(w) - 1 then None
    else Some(4 * (if x < 0 then x + Pow2(w - 2) else x))
  }

  /** REF_TO_INT of an unsigned word */
  function RefToInt(w: nat, r: int): int
    requires w >= 3
  {
    (if r >= Pow2(w - 1) then r - Pow2(w) else r) / 4
  }

  /** What the linker writes for an integer is what the emulator reads, exactly for the integers that
      are fixnums. */
  lemma TagizeRoundTrip(w: nat, x: int)
    requires w >= 3
    ensures TagizeBits(w, x).Some? <==> IsFix(w, x)
    ensures IsFix(w, x) ==>
              var r := TagizeBits(w, x).value; 0 <= r < Pow2(w) && r % 4 == 0 && RefToInt(w, r) == x
  {
    assert Pow2(w - 2) == 2 * Half(w);
    assert Pow2(w - 1) == 4 * Half(w);
    assert Pow2(w) == 8 * Half(w);
  }
}
