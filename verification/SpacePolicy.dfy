/** How the copying collector sizes its spaces (the resize part of gc and ALLOCATE_PROT), and
    exactly when a collection can run out of to-space. */
module SpacePolicy {
  import CopyHeap

  /** Sizes in words: new space, its used part, the next new space, static space, and the
      configured size. */
  datatype Sizes = Sizes(size: nat, taken: nat, next: nat, stat: nat, original: nat)

  const RECLAIM_FACTOR := 3

  /** Cells a collection may have to move. */
  function Used(s: Sizes, full: bool): nat { s.taken + if full then s.stat else 0 }

  /** The size of to-space at the flip. */
  function ToSpace(s: Sizes, full: bool): nat { if full then s.size + s.stat else s.next }

  /** Sizes between collections: the next new space is never smaller than this one. */
  predicate Steady(s: Sizes) { 0 < s.size && s.taken <= s.size <= s.next && s.original > 0 }

  datatype Outcome = Exhausted | Ok(s: Sizes)

  /** One flip: `live` cells survive.  Exhausted is the exit in gc_touch0 and loc_touch0. */
  function Flip(s: Sizes, full: bool, live: nat): Outcome {
    if live >= ToSpace(s, full) then Exhausted else Ok(s.(size := ToSpace(s, full), taken := live))
  }

  /** The sizing at the end of a partial collection. */
  function Expand(s: Sizes, amount: nat): Sizes {
    var want := RECLAIM_FACTOR * s.taken + amount;
    if want > s.size then s.(next := want) else s
  }

  /** The sizing at the end of a full collection: new space becomes static space. */
  function Promote(s: Sizes, amount: nat): Sizes {
    var size := if s.original <= amount then RECLAIM_FACTOR * amount else s.original;
    Sizes(size, 0, size, s.taken, s.original)
  }

  /** A whole collection; `live` and `again` are what survives the first and the second flip. */
  function Collection(s: Sizes, full: bool, amount: nat, live: nat, again: nat): Outcome {
    match Flip(s, full, live)
    case Exhausted => Exhausted
    case Ok(f) =>
      if full then Ok(Promote(f, amount))
      else
        var x := Expand(f, amount);
        if x.next != f.next && x.size - x.taken < amount then
          match Flip(x, false, again) case Exhausted => Exhausted case Ok(g) => Ok(Expand(g, amount))
        else Ok(x)
  }

  function Allocation(s: Sizes, words: nat, live: nat, again: nat): Outcome {
    if words < s.size - s.taken then Ok(s.(taken := s.taken + words))
    else match Collection(s, false, words, live, again)
         case Exhausted => Exhausted
         case Ok(g) => Ok(g.(taken := g.taken + words))
  }

  class Spaces {
    var s: Sizes

    constructor (original: nat)
      requires original > 0
      ensures s == Sizes(original, 0, original, 0, original)
    {
      s := Sizes(original, 0, original, 0, original);
    }

    /** gc's sizing, with the jump back to gc_top as a loop. */
    method Gc(full: bool, amount: nat, live: nat, again: nat) returns (ok: bool)
      requires Steady(s) && again <= live
      modifies this
      ensures ok == Collection(old(s), full, amount, live, again).Ok?
      ensures ok ==> s == Collection(old(s), full, amount, live, again).s
    {
      var survivors := live;
      var flips := 0;
      while true
        invariant 0 <= flips <= 1
        invariant flips == 0 ==> s == old(s) && survivors == live
        invariant flips == 1 ==> !full && survivors == again && Flip(old(s), false, live).Ok?
        invariant flips == 1 ==> var f := Flip(old(s), false, live).s;
                                 s == Expand(f, amount) && s.next != f.next && s.size - s.taken < amount
        decreases 1 - flips
      {
        var size := if full then s.size + s.stat else s.next;
        if survivors >= size { return false; }
        s := s.(size := size, taken := survivors);
        if full || RECLAIM_FACTOR * s.taken + amount <= s.size { break; }
        s := s.(next := RECLAIM_FACTOR * s.taken + amount);
        if !(s.size - s.taken < amount) { break; }
        // goto gc_top; the second flip had room for three times what survived the first
        if flips == 1 { assert false; }
        flips, survivors := flips + 1, again;
      }
      if full {
        var size := s.original;
        if size <= amount { size := RECLAIM_FACTOR * amount; }
        s := Sizes(size, 0, size, s.taken, s.original);
      }
      ok := true;
    }

    /** ALLOCATE_PROT: collect when the request would not leave a word to spare, then take the
        words unconditionally. */
    method Allocate(words: nat, live: nat, again: nat) returns (ok: bool)
      requires Steady(s) && again <= live
      modifies this
      ensures ok == Allocation(old(s), words, live, again).Ok?
      ensures ok ==> s == Allocation(old(s), words, live, again).s
    {
      ok := true;
      if words >= s.size - s.taken {
        ok := Gc(false, words, live, again);
        if !ok { return; }
      }
      s := s.(taken := s.taken + words);
    }
  }

  /** A collection keeps the sizes steady and makes room for the request; it fails only in its first
      flip. */
  lemma CollectionKeeps(s: Sizes, full: bool, amount: nat, live: nat, again: nat)
    requires Steady(s) && again <= live
    ensures Collection(s, full, amount, live, again).Ok? <==> live < ToSpace(s, full)
    ensures var c := Collection(s, full, amount, live, again);
            c.Ok? ==> Steady(c.s) && c.s.size - c.s.taken >= amount && (full ==> c.s.size > amount)
  {
  }

  /** What a full collection leaves: everything that survived is static, and new space is empty and of the
      configured size, or three times the request if that is more than the configured size allows. */
  lemma FullResult(s: Sizes, amount: nat, live: nat, again: nat)
    requires Steady(s) && live < s.size + s.stat
    ensures var c := Collection(s, true, amount, live, again);
            && c.Ok? && c.s.stat == live && c.s.taken == 0 && c.s.next == c.s.size && c.s.original == s.original
            && (amount < s.original ==> c.s.size == s.original)
            && (s.original <= amount ==> c.s.size == 3 * amount)
  {
  }

  /** What a partial one leaves: static space as it was, and the survivors, in what was to be the next new space.
      A second flip, at once, is made only if the request does not fit beside them and the space after that is
      to be larger; it then is the space after that.  The next new space has room for three times the survivors
      and the request, and otherwise stays as large as this one. */
  lemma PartialResult(s: Sizes, amount: nat, live: nat, again: nat)
    requires Steady(s) && again <= live < s.next
    ensures var c := Collection(s, false, amount, live, again);
            var twice := s.next < 3 * live + amount && s.next - live < amount;
            && c.Ok? && c.s.stat == s.stat && c.s.original == s.original
            && c.s.taken == (if twice then again else live)
            && c.s.size == (if twice then 3 * live + amount else s.next)
            && c.s.next == (if 3 * c.s.taken + amount > c.s.size then 3 * c.s.taken + amount else c.s.size)
  {
  }

  /** An allocation takes its words, from the space there is if that leaves one to spare, and otherwise from
      what a partial collection for the request leaves. */
  lemma AllocationResult(s: Sizes, words: nat, live: nat, again: nat)
    requires Steady(s) && again <= live
    ensures var a := Allocation(s, words, live, again);
            if s.taken + words < s.size then
              a.Ok? && a.s.taken == s.taken + words && a.s == s.(taken := a.s.taken)
            else
              var c := Collection(s, false, words, live, again);
              && (a.Ok? <==> c.Ok?)
              && (a.Ok? ==> a.s.taken == c.s.taken + words && a.s == c.s.(taken := a.s.taken))
  {
  }

  /** An allocation never takes more words than there are. */
  lemma AllocationFits(s: Sizes, words: nat, live: nat, again: nat)
    requires Steady(s) && again <= live
    ensures Allocation(s, words, live, again).Ok? ==> Steady(Allocation(s, words, live, again).s)
  {
    CollectionKeeps(s, false, words, live, again);
  }

  /** In which states can a collection find to-space exhausted?  For a full collection exactly
      when new space is completely used; for a partial one, when in addition the next new space
      is no bigger.  A caller can check both before the call. */
  lemma ExhaustionExact(s: Sizes, full: bool, amount: nat)
    requires Steady(s)
    ensures (exists live: nat, again: nat :: live <= Used(s, full) && again <= live
                                             && Collection(s, full, amount, live, again).Exhausted?)
        <==> s.taken == s.size && (full || s.next == s.size)
  {
    if s.taken == s.size && (full || s.next == s.size) {
      assert Collection(s, full, amount, Used(s, full), 0).Exhausted?;
    }
    forall live: nat, again: nat | live <= Used(s, full) && again <= live
        && Collection(s, full, amount, live, again).Exhausted?
      ensures s.taken == s.size && (full || s.next == s.size)
    {
      CollectionKeeps(s, full, amount, live, again);
    }
  }

  /** The heap of one collection is laid out in spaces of these sizes. */
  predicate Sized(l: CopyHeap.Layout, s: Sizes) {
    && l.oldFree - l.oldLo == s.taken && l.spHi - l.spLo == s.stat
    && l.newHi - l.newLo == ToSpace(s, l.full)
  }

  /** What survives a flip is what the collector has moved by its end, and so at most what was used;
      with a word to spare in the spaces, the collector has the room it asks for. */
  lemma SurvivorsFit(e: CopyHeap.Env, v: CopyHeap.Move, free: int, s: Sizes)
    requires e.l.Valid() && CopyHeap.Bijection(e, v, free) && Sized(e.l, s) && Steady(s)
    ensures 0 <= free - e.l.newLo <= Used(s, e.l.full)
    ensures e.l.UsedCells() == Used(s, e.l.full)
    ensures s.taken < s.size ==> e.l.UsedCells() < e.l.newHi - e.l.newLo
  {
    CopyHeap.MovedFits(e, v, free);
  }

  /** Such states are reachable.  With five live words in a ten-word space, a request for exactly five
      more fills the space; a full collection with everything live then exits.  And a request for a
      whole empty space fills it without enlarging the next one; then a partial collection with
      everything live exits too. */
  lemma ExactFit()
    ensures var s0 := Sizes(10, 0, 10, 0, 10);
            var s1 := Allocation(s0, 5, 0, 0).s;
            var s2 := Allocation(s1, 5, 5, 5).s;
            s2.taken == s2.size && Collection(s2, true, 0, 10, 10).Exhausted?
    ensures var s := Allocation(Sizes(10, 0, 10, 0, 10), 10, 0, 0).s;
            s.taken == s.size == s.next && Collection(s, false, 1, 10, 10).Exhausted?
  {
    var s1 := Allocation(Sizes(10, 0, 10, 0, 10), 5, 0, 0);
    assert s1 == Ok(Sizes(10, 5, 10, 0, 10));
    assert Allocation(s1.s, 5, 5, 5) == Ok(Sizes(10, 10, 20, 0, 10));
    assert Allocation(Sizes(10, 0, 10, 0, 10), 10, 0, 0) == Ok(Sizes(10, 10, 10, 0, 10));
  }
}
