/** Flushed stack segments (stacks.h, stacks.c): heap objects linked from the newest to the oldest.
    The heap of segments only ever grows, so a segment is named by its position in it. */
module Segments {
  import opened Words

  datatype Segment = Segment(data: seq<Word>, prev: int)

  const NIL := -1

  /** Every segment holds between one and `max` references and links to an older one. */
  ghost predicate Linked(segs: seq<Segment>, max: int) {
    forall i :: 0 <= i < |segs| ==> 1 <= |segs[i].data| <= max && NIL <= segs[i].prev < i
  }

  /** What the list of segments starting at `s` holds, oldest reference first. */
  function Contents(segs: seq<Segment>, s: int): seq<Word>
    decreases s
  {
    if s < 0 || s >= |segs| || segs[s].prev >= s then []
    else Contents(segs, segs[s].prev) + segs[s].data
  }

  /** Segments are never modified, so a list keeps its contents while the heap grows. */
  lemma {:induction false} ContentsGrow(segs: seq<Segment>, more: seq<Segment>, s: int)
    requires segs <= more && s < |segs|
    ensures Contents(more, s) == Contents(segs, s)
    decreases s
  {
    if s >= 0 {
      assert more[s] == segs[s];
      if segs[s].prev < s { ContentsGrow(segs, more, segs[s].prev); }
    }
  }

  /** The list left when `k` segments are taken off, and the number of references in those. */
  function Skip(segs: seq<Segment>, s: int, k: nat): (r: int)
    ensures s < |segs| ==> r < |segs|
    decreases k
  {
    if k == 0 || s < 0 || s >= |segs| || segs[s].prev >= s then s else Skip(segs, segs[s].prev, k - 1)
  }

  function Span(segs: seq<Segment>, s: int, k: nat): nat
    decreases k
  {
    if k == 0 || s < 0 || s >= |segs| || segs[s].prev >= s then 0
    else |segs[s].data| + Span(segs, segs[s].prev, k - 1)
  }

  /** There are at least `k` segments in the list. */
  predicate Has(segs: seq<Segment>, s: int, k: nat)
    decreases k
  {
    k == 0 || (0 <= s < |segs| && segs[s].prev < s && Has(segs, segs[s].prev, k - 1))
  }

  lemma {:induction false} OneMore(segs: seq<Segment>, max: int, s: int, k: nat)
    requires Linked(segs, max) && NIL <= s < |segs| && Has(segs, s, k)
    ensures NIL <= Skip(segs, s, k) < |segs|
    ensures var t := Skip(segs, s, k);
            t >= 0 ==> Has(segs, s, k + 1) && Skip(segs, s, k + 1) == segs[t].prev
                       && Span(segs, s, k + 1) == Span(segs, s, k) + |segs[t].data|
    decreases k
  {
    if k > 0 {
      OneMore(segs, max, segs[s].prev, k - 1);
    } else if s >= 0 {
      assert Span(segs, segs[s].prev, 0) == 0;
      assert Has(segs, segs[s].prev, 0);
      assert Skip(segs, segs[s].prev, 0) == segs[s].prev;
    }
  }

  lemma {:induction false} SpanIs(segs: seq<Segment>, max: int, s: int, k: nat)
    requires Linked(segs, max) && NIL <= s < |segs| && Has(segs, s, k)
    ensures Span(segs, s, k) == |Contents(segs, s)| - |Contents(segs, Skip(segs, s, k))|
    decreases k
  {
    if k > 0 { SpanIs(segs, max, segs[s].prev, k - 1); }
  }

  /** How many references the buffer holds once whole segments have been pulled in until it holds
      more than `n`; -1 if the list ends first. */
  function Pulled(segs: seq<Segment>, s: int, count: int, n: int): int
    decreases s
  {
    if count > n then count
    else if s < 0 || s >= |segs| || segs[s].prev >= s then -1
    else Pulled(segs, segs[s].prev, count + |segs[s].data|, n)
  }

  /** Pulling succeeds exactly when the whole stack is deeper than `n`, and overshoots by less
      than a segment. */
  lemma {:induction false} PulledBound(segs: seq<Segment>, max: int, s: int, count: int, n: int)
    requires Linked(segs, max) && NIL <= s < |segs| && count >= 0
    ensures Pulled(segs, s, count, n) == -1 <==> count + |Contents(segs, s)| <= n
    ensures Pulled(segs, s, count, n) != -1 ==> Pulled(segs, s, count, n) > n && Pulled(segs, s, count, n) >= count
    ensures count <= n ==> Pulled(segs, s, count, n) <= n + max || Pulled(segs, s, count, n) == -1
    decreases s
  {
    if count <= n && s >= 0 { PulledBound(segs, max, segs[s].prev, count + |segs[s].data|, n); }
  }

  /** With an empty buffer and a first segment longer than `n`, one segment is enough. */
  lemma PulledOne(segs: seq<Segment>, max: int, s: int, n: int)
    requires Linked(segs, max) && 0 <= s < |segs| && 0 <= n < |segs[s].data|
    ensures Pulled(segs, s, 0, n) == |segs[s].data| <= max && |Contents(segs, s)| > n
  {
    assert Pulled(segs, segs[s].prev, |segs[s].data|, n) == |segs[s].data|;
  }

  /** Some number of whole segments holds just what is missing from `count` to `n`. */
  ghost predicate AtBoundary(segs: seq<Segment>, s: int, count: int, n: int) {
    exists k: nat :: Has(segs, s, k) && count + Span(segs, s, k) == n
  }

  /** Pulling overshoots by nothing exactly when what is wanted ends at a segment boundary. */
  lemma {:induction false} PulledExact(segs: seq<Segment>, max: int, s: int, count: int, n: int)
    requires Linked(segs, max) && NIL <= s < |segs| && n >= 0
    ensures Pulled(segs, s, count, n) == n + 1 <==> AtBoundary(segs, s, count, n + 1)
    decreases s
  {
    assert Has(segs, s, 0) && Span(segs, s, 0) == 0;
    if count <= n && s >= 0 {
      var prev, more := segs[s].prev, count + |segs[s].data|;
      PulledExact(segs, max, prev, more, n);
      if AtBoundary(segs, prev, more, n + 1) {
        var k: nat :| Has(segs, prev, k) && more + Span(segs, prev, k) == n + 1;
        assert Has(segs, s, k + 1) && Span(segs, s, k + 1) == |segs[s].data| + Span(segs, prev, k);
      }
      if AtBoundary(segs, s, count, n + 1) {
        var k: nat :| Has(segs, s, k) && count + Span(segs, s, k) == n + 1;
        assert Has(segs, prev, k - 1) && more + Span(segs, prev, k - 1) == n + 1;
      }
    }
  }

  lemma BoundaryHere(segs: seq<Segment>, s: int, count: int)
    ensures AtBoundary(segs, s, count, count)
  {
    assert Has(segs, s, 0) && Span(segs, s, 0) == 0;
  }

  lemma BoundaryDeep(segs: seq<Segment>, max: int, s: int, count: int, n: int)
    requires Linked(segs, max) && NIL <= s < |segs|
    ensures AtBoundary(segs, s, count, n) ==> n <= count + |Contents(segs, s)|
  {
    if AtBoundary(segs, s, count, n) {
      var k: nat :| Has(segs, s, k) && count + Span(segs, s, k) == n;
      SpanIs(segs, max, s, k);
    }
  }
}
