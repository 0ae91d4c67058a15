/** Bitmaps stored in 64-bit words (the BM_* macros of gc-ms.c); a word is its 64 bits. */
module Bitmap {

  type Bits64 = s: seq<bool> | |s| == 64 witness seq(64, _ => false)

  const ZERO: Bits64 := seq(64, _ => false)

  /** BM_TEST */
  predicate Has(b: seq<Bits64>, i: int) {
    0 <= i < 64 * |b| && b[i / 64][i % 64]
  }

  /** The bitmap represents the set `s`. */
  ghost predicate Represents(b: seq<Bits64>, s: set<int>) {
    && (forall i :: 0 <= i < 64 * |b| ==> (Has(b, i) <==> i in s))
    && (forall i <- s :: 0 <= i < 64 * |b|)
  }

  /** BM_SET */
  method Set(bm: array<Bits64>, i: int, ghost s: set<int>)
    requires 0 <= i < 64 * bm.Length && Represents(bm[..], s)
    modifies bm
    ensures Represents(bm[..], s + {i})
  {
    ghost var b := bm[..];
    bm[i / 64] := bm[i / 64][i % 64 := true];
    forall j | 0 <= j < 64 * bm.Length ensures Has(bm[..], j) <==> j in s + {i} {
      assert Has(b, j) <==> j in s;
      assert j / 64 == i / 64 && j % 64 == i % 64 ==> j == i;
    }
  }

  /** BM_CLR */
  method Clear(bm: array<Bits64>, i: int, ghost s: set<int>)
    requires 0 <= i < 64 * bm.Length && Represents(bm[..], s)
    modifies bm
    ensures Represents(bm[..], s - {i})
  {
    ghost var b := bm[..];
    bm[i / 64] := bm[i / 64][i % 64 := false];
    forall j | 0 <= j < 64 * bm.Length ensures Has(bm[..], j) <==> j in s - {i} {
      assert Has(b, j) <==> j in s;
      assert j / 64 == i / 64 && j % 64 == i % 64 ==> j == i;
    }
  }

  /** memset of a whole bitmap */
  method ClearAll(bm: array<Bits64>)
    modifies bm
    ensures Represents(bm[..], {})
  {
    var i := 0;
    while i < bm.Length
      invariant 0 <= i <= bm.Length
      invariant forall k :: 0 <= k < i ==> bm[k] == ZERO
    {
      bm[i] := ZERO;
      i := i + 1;
    }
  }

  /** Is any bit of the word set? */
  predicate NonZero(w: Bits64) { exists k :: 0 <= k < 64 && w[k] }

  /** `w & ((2ULL << bit) - 1)`: the bits at or below `bit`. */
  function AtOrBelow(w: Bits64, bit: nat): (r: Bits64)
    requires bit < 64
    ensures forall k :: 0 <= k < 64 ==> r[k] == (k <= bit && w[k])
  {
    seq(64, k requires 0 <= k < 64 => k <= bit && w[k])
  }

  /** 63 - CLZ64(w) */
  function Highest(w: Bits64, from: nat): (h: nat)
    requires from < 64 && NonZero(w) && forall k :: from < k < 64 ==> !w[k]
    ensures h < 64 && w[h] && forall k :: h < k < 64 ==> !w[k]
  {
    if w[from] then from else Highest(w, from - 1)
  }

  /** CTZ64(w) */
  function Lowest(w: Bits64, from: nat): (h: nat)
    requires from < 64 && NonZero(w) && forall k :: 0 <= k < from ==> !w[k]
    ensures h < 64 && w[h] && forall k :: 0 <= k < h ==> !w[k]
    decreases 64 - from
  {
    if w[from] then from else Lowest(w, from + 1)
  }

  /** `w & (w - 1)`: drop the lowest set bit. */
  function DropLowest(w: Bits64): Bits64
    requires NonZero(w)
  {
    w[Lowest(w, 0) := false]
  }

  /** The number of set bits at or above `from`. */
  ghost function OnesFrom(w: Bits64, from: nat): nat
    requires from <= 64
    decreases 64 - from
  {
    if from == 64 then 0 else (if w[from] then 1 else 0) + OnesFrom(w, from + 1)
  }

  ghost function Ones(w: Bits64): nat { OnesFrom(w, 0) }

  lemma OnesDrop(w: Bits64, b: nat, from: nat)
    requires from <= b < 64 && w[b]
    ensures OnesFrom(w[b := false], from) == OnesFrom(w, from) - 1
    decreases 64 - from
  {
    if from < b { OnesDrop(w, b, from + 1); } else { OnesSame(w, w[b := false], b + 1); }
  }

  lemma OnesSame(w: Bits64, w': Bits64, from: nat)
    requires from <= 64 && forall k :: from <= k < 64 ==> w[k] == w'[k]
    ensures OnesFrom(w, from) == OnesFrom(w', from)
    decreases 64 - from
  {
    if from < 64 { OnesSame(w, w', from + 1); }
  }

  lemma DropOnes(w: Bits64)
    requires NonZero(w)
    ensures Ones(DropLowest(w)) < Ones(w)
  {
    OnesDrop(w, Lowest(w, 0), 0);
  }

  /** The backward scan of find_object_start: the greatest member at or below `idx`, or -1. */
  method GreatestAtOrBelow(bm: array<Bits64>, idx: int, ghost s: set<int>) returns (r: int)
    requires 0 <= idx < 64 * bm.Length && Represents(bm[..], s)
    ensures r == -1 ==> forall j <- s :: j > idx
    ensures r != -1 ==> 0 <= r <= idx && r in s && forall j <- s :: j <= idx ==> j <= r
  {
    var w := idx / 64;
    var word := AtOrBelow(bm[w], idx % 64);
    while !NonZero(word)
      invariant 0 <= w < bm.Length && 64 * w <= idx
      invariant forall k :: 0 <= k < 64 ==> word[k] == (64 * w + k <= idx && bm[w][k])
      invariant forall j :: 64 * w + 64 <= j <= idx ==> !Has(bm[..], j)
      decreases w
    {
      forall j | 64 * w <= j <= idx ensures !Has(bm[..], j) {
        if j < 64 * w + 64 { assert !word[j - 64 * w]; }
      }
      if w == 0 {
        return -1;
      }
      w := w - 1;
      word := bm[w];
    }
    var h := Highest(word, 63);
    r := 64 * w + h;
    assert Has(bm[..], r);
    forall j <- s | j <= idx ensures j <= r {
      assert Has(bm[..], j);
      if 64 * w <= j < 64 * w + 64 { assert word[j - 64 * w]; }
    }
  }
}
