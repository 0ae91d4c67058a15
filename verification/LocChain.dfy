/** Chains of locatives through old space, and why the tortoise and hare of gc_touch0 stops. */
module LocChain {
  import opened Words
  import opened CopyHeap
  import opened Counting

  /** The n-th word of the chain from `w`; a chain stays at its end. */
  ghost function Nth(l: Layout, m: seq<Word>, w: Word, n: nat): Word
    requires l.Valid() && |m| == l.size
  {
    if n == 0 then w
    else
      var p := Nth(l, m, w, n - 1);
      if OldLoc(l, p) then m[p.a] else p
  }

  lemma {:induction false} NthShift(l: Layout, m: seq<Word>, w: Word, i: nat, n: nat)
    requires l.Valid() && |m| == l.size
    ensures Nth(l, m, w, i + n) == Nth(l, m, Nth(l, m, w, i), n)
  {
    if n > 0 { NthShift(l, m, w, i, n - 1); }
  }

  /** Once two words of a chain agree the chain repeats with their distance. */
  lemma {:induction false} Periodic(l: Layout, m: seq<Word>, w: Word, i: nat, d: nat, n: nat, c: nat)
    requires l.Valid() && |m| == l.size
    requires Nth(l, m, w, i) == Nth(l, m, w, i + d) && n >= i
    ensures Nth(l, m, w, n) == Nth(l, m, w, n + d * c)
    decreases c
  {
    if c > 0 {
      Periodic(l, m, w, i, d, n, c - 1);
      var k := n + d * (c - 1);
      NthShift(l, m, w, i, k - i);
      NthShift(l, m, w, i + d, k - i);
      assert d * c == d * (c - 1) + d;
    }
  }

  /** A chain that never leaves old space visits some cell twice. */
  lemma Repeats(l: Layout, m: seq<Word>, w: Word) returns (i: nat, j: nat)
    requires l.Valid() && |m| == l.size
    requires forall n: nat :: n <= l.size ==> OldLoc(l, Nth(l, m, w, n))
    ensures i < j && Nth(l, m, w, i) == Nth(l, m, w, j)
  {
    var s := seq(l.size + 1, n requires 0 <= n <= l.size => Nth(l, m, w, n).a);
    i, j := Pigeonhole(s, l.size);
  }

  lemma {:induction false} Ended(l: Layout, m: seq<Word>, w: Word, n: nat, k: nat)
    requires l.Valid() && |m| == l.size && !OldLoc(l, Nth(l, m, w, n)) && n <= k
    ensures !OldLoc(l, Nth(l, m, w, k))
    decreases k
  {
    if n < k { Ended(l, m, w, n, k - 1); }
  }

  /** A round past i whose number plus one is a multiple of d. */
  lemma Round(d: nat, i: nat) returns (k: nat)
    requires d >= 1
    ensures k >= i && k + d * (i + 1) == 2 * k + 1
  {
    var p := d * (i + 1);
    assert p >= i + 1;
    k := p - 1;
  }

  /** After `k` rounds the tortoise is at word `k` and the hare at word 2k+1. */
  ghost predicate AtRound(l: Layout, m: seq<Word>, w: Word, k: nat, r0: Word, r1: Word)
    requires l.Valid() && |m| == l.size
  {
    r0 == Nth(l, m, w, k) && r1 == Nth(l, m, w, 2 * k + 1)
  }

  /** The walk is over by round `bound`. */
  ghost predicate OverBy(l: Layout, m: seq<Word>, w: Word, bound: nat)
    requires l.Valid() && |m| == l.size
  {
    !OldLoc(l, Nth(l, m, w, 2 * bound + 1)) || Nth(l, m, w, bound) == Nth(l, m, w, 2 * bound + 1)
  }

  /** In some round either the hare has left old space or the two agree. */
  lemma Meet(l: Layout, m: seq<Word>, w: Word) returns (k: nat)
    requires l.Valid() && |m| == l.size
    ensures OverBy(l, m, w, k)
  {
    if n: nat :| n <= l.size && !OldLoc(l, Nth(l, m, w, n)) {
      Ended(l, m, w, n, 2 * n + 1);
      k := n;
    } else {
      var i, j := Repeats(l, m, w);
      k := Round(j - i, i);
      Periodic(l, m, w, i, j - i, k, i + 1);
    }
  }

  /** One round of the walk: the tortoise takes a step and the hare, if it can, two. */
  lemma ChainRound(l: Layout, m: seq<Word>, w: Word, bound: nat, k: nat, r0: Word, r1: Word)
    requires l.Valid() && |m| == l.size && AtRound(l, m, w, k, r0, r1) && OverBy(l, m, w, bound) && k <= bound
    requires OldLoc(l, r0) && OldLoc(l, r1) && r0 != r1
    ensures k < bound
    ensures OldLoc(l, m[r1.a]) ==> AtRound(l, m, w, k + 1, m[r0.a], m[m[r1.a].a])
  {
    assert Nth(l, m, w, 2 * k + 2) == m[r1.a];
  }
}
