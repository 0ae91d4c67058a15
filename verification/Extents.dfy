/** Object extents as recorded by the object-start bitmap: each object runs from its start to the
    next start, so the starts tile the used part of the heap. */
module Extents {

  /** The least start at or after `j`, or `free`. */
  function NextFrom(starts: set<int>, free: int, j: int): (r: int)
    ensures j <= free ==> j <= r <= free && (r == free || r in starts) && forall k :: j <= k < r ==> k !in starts
    ensures j > free ==> r == free
    decreases free - j
  {
    if j >= free then free else if j in starts then j else NextFrom(starts, free, j + 1)
  }

  /** One past the last word of the object starting at `o`. */
  function End(starts: set<int>, free: int, o: int): int { NextFrom(starts, free, o + 1) }

  function Size(starts: set<int>, free: int, o: int): int { End(starts, free, o) - o }

  /** The object containing `a`. */
  ghost predicate Contains(starts: set<int>, free: int, o: int, a: int) {
    o in starts && o <= a < End(starts, free, o)
  }

  /** Every start is a used address, and the first used word starts an object. */
  ghost predicate Tiled(starts: set<int>, free: int) {
    && (forall o <- starts :: 0 <= o < free)
    && (free > 0 ==> 0 in starts)
  }

  function OwnerFrom(starts: set<int>, a: int): (o: int)
    ensures o <= a
    ensures o >= 0 ==> o in starts && forall k <- starts :: k <= a ==> k <= o
    ensures o < 0 ==> forall k <- starts :: 0 <= k ==> k > a
    decreases a
  {
    if a < 0 then (if a < -1 then a else -1) else if a in starts then a else OwnerFrom(starts, a - 1)
  }

  /** The extents tile the used heap: every used address lies in exactly one object. */
  lemma Tiling(starts: set<int>, free: int, a: int)
    requires Tiled(starts, free) && 0 <= a < free
    ensures Contains(starts, free, OwnerFrom(starts, a), a)
    ensures forall o :: Contains(starts, free, o, a) ==> o == OwnerFrom(starts, a)
  {
    var o := OwnerFrom(starts, a);
    assert 0 <= o;
    assert End(starts, free, o) == free || End(starts, free, o) in starts;
    forall p | Contains(starts, free, p, a) ensures p == o {
      assert p + 1 <= o < End(starts, free, p) ==> o !in starts;
    }
  }

  /** Bump allocation of `n` words at `free` leaves the extent of every older object as it was. */
  lemma {:induction false} NextAfterBump(starts: set<int>, free: int, n: int, j: int)
    requires Tiled(starts, free) && n > 0 && j <= free
    ensures NextFrom(starts + {free}, free + n, j) == NextFrom(starts, free, j)
    decreases free - j
  {
    if j < free && j !in starts { NextAfterBump(starts, free, n, j + 1); }
  }

  lemma BumpExtents(starts: set<int>, free: int, n: int)
    requires Tiled(starts, free) && free >= 0 && n > 0
    ensures free !in starts && Tiled(starts + {free}, free + n)
    ensures forall o <- starts :: End(starts + {free}, free + n, o) == End(starts, free, o)
    ensures End(starts + {free}, free + n, free) == free + n
  {
    forall o <- starts ensures End(starts + {free}, free + n, o) == End(starts, free, o) {
      NextAfterBump(starts, free, n, o + 1);
    }
    var e := NextFrom(starts + {free}, free + n, free + 1);
    assert e == free + n || e in starts + {free};
  }
}
