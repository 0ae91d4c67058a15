/** Weak pointers (weak.c): a table from indices to references, an open-addressing hash back, and a
    list of slots to reuse. */
module WeakTable {
  import opened Words
  import opened WeakHash
  import Counting
  import Primes

  const INT_MAX := 0x7FFF_FFFF

  /** The free list holds distinct empty slots. */
  ghost predicate FreeSlots(table: seq<Word>, index: int, f: Word, free: seq<int>) {
    && (forall k :: 0 <= k < |free| ==> 0 <= free[k] < index <= |table| && table[free[k]] == f)
    && (forall i, j :: 0 <= i < j < |free| ==> free[i] != free[j])
  }

  /** No empty slot below `index` is missing from it. */
  ghost predicate AllFree(table: seq<Word>, index: int, f: Word, free: seq<int>) {
    forall i :: 0 <= i < index && i < |table| && table[i] == f ==> i in free
  }

  ghost predicate FreeOk(table: seq<Word>, index: int, f: Word, free: seq<int>) {
    FreeSlots(table, index, f, free) && AllFree(table, index, f, free)
  }

  lemma PopFree(table: seq<Word>, index: int, f: Word, free: seq<int>, r: Word)
    requires FreeOk(table, index, f, free) && free != [] && r != f
    ensures var slot := free[|free| - 1];
            && 0 <= slot < index <= |table| && table[slot := f] == table
            && FreeOk(table[slot := r], index, f, free[..|free| - 1])
  {
    var slot, rest := free[|free| - 1], free[..|free| - 1];
    forall i | 0 <= i < index && table[slot := r][i] == f ensures i in rest {
      assert i in free;
      var k :| 0 <= k < |free| && free[k] == i;
      assert rest[k] == i;
    }
  }

  /** Every slot handed out is in use or on the free list: there are no more slots than that. */
  lemma SlotsCounted(table: seq<Word>, index: int, f: Word, free: seq<int>, m: map<Word, int>)
    requires Inverse(table, index, f, m) && FreeOk(table, index, f, free)
    ensures |m| + |free| == index
  {
    var image := set r | r in m :: m[r];
    ImageSize(m, image);
    var empty := Counting.PrefixSet(free, |free|);
    SlotsCover(table, index, f, free, m, image, empty);
    assert |image + empty| == |image| + |empty|;
  }

  lemma SlotsCover(table: seq<Word>, index: int, f: Word, free: seq<int>, m: map<Word, int>, image: set<int>,
                   empty: set<int>)
    requires Inverse(table, index, f, m) && FreeOk(table, index, f, free)
    requires image == (set r | r in m :: m[r]) && empty == set i | 0 <= i < |free| :: free[i]
    ensures image + empty == Counting.Interval(0, index) && image * empty == {}
  {
    forall i | i in empty ensures 0 <= i < index && i !in image {
      var k :| 0 <= k < |free| && free[k] == i;
    }
    forall i | 0 <= i < index ensures i in image || i in empty {
      if table[i] != f { assert table[i] in m && m[table[i]] in image; }
    }
    forall i | i in image ensures 0 <= i < index { var r :| r in m && m[r] == i; }
  }

  lemma NoFree(table: seq<Word>, f: Word)
    ensures FreeOk(table, 0, f, [])
  {
  }

  lemma MoreSlots(table: seq<Word>, i: int, f: Word, free: seq<int>)
    requires FreeSlots(table, i, f, free) && 0 <= i < |table| && table[i] == f
    ensures FreeSlots(table, i + 1, f, free + [i])
  {
  }

  lemma MoreFree(table: seq<Word>, i: int, f: Word, free: seq<int>)
    requires AllFree(table, i, f, free) && 0 <= i < |table|
    ensures AllFree(table, i + 1, f, free + [i])
  {
    forall k | 0 <= k <= i && table[k] == f ensures k in free + [i] {
      if k == i { assert (free + [i])[|free|] == i; }
    }
  }

  lemma FreeMore(table: seq<Word>, i: int, f: Word, free: seq<int>)
    requires FreeOk(table, i, f, free) && 0 <= i < |table|
    ensures FreeOk(table, i + 1, f, if table[i] == f then free + [i] else free)
  {
    if table[i] == f {
      MoreSlots(table, i, f, free);
      MoreFree(table, i, f, free);
    }
  }

  lemma NextSlot(table: seq<Word>, index: int, f: Word, free: seq<int>, m: map<Word, int>, r: Word)
    requires Inverse(table, index, f, m) && FreeOk(table, index, f, free) && index < |table| && r != f
    ensures Inverse(table[index := f], index + 1, f, m) && FreeOk(table[index := r], index + 1, f, free)
  {
  }

  lemma FillSlot(table: seq<Word>, index: int, f: Word, m: map<Word, int>, slot: int, r: Word)
    requires 0 <= slot < index <= |table| && Inverse(table[slot := f], index, f, m) && r != f && r !in m
    ensures Inverse(table[slot := r], index, f, m[r := slot])
    ensures |m| < index && forall x <- m :: m[x] != slot
  {
    var t, after := table[slot := f], table[slot := r];
    LiveBound(t, index, f, m);
    assert t[slot] == f;
    forall x <- m ensures m[x] != slot && after[m[x]] == x {
      assert t[m[x]] == x;
    }
    forall i | 0 <= i < index && after[i] != f ensures after[i] in m[r := slot] && m[r := slot][after[i]] == i {
      if i != slot { assert t[i] == after[i]; }
    }
  }

  /** What a collection does to a reference in the table: one into the spaces collected follows its
      object, or is dropped with it (`f` marks an empty slot); any other stays. */
  function Update(r: Word, moving: set<Word>, fwd: map<Word, Word>, f: Word): Word {
    if r !in moving then r else if r in fwd then fwd[r] else f
  }

  /** The collection keeps references apart, and away from the empty mark. */
  ghost predicate Apart(m: map<Word, int>, moving: set<Word>, fwd: map<Word, Word>, f: Word) {
    forall r <- m, s <- m :: r != s && Update(r, moving, fwd, f) != f ==>
      Update(r, moving, fwd, f) != Update(s, moving, fwd, f)
  }

  ghost function Remap(m: map<Word, int>, moving: set<Word>, fwd: map<Word, Word>, f: Word): map<Word, int>
    requires Apart(m, moving, fwd, f)
  {
    map r | r in m && Update(r, moving, fwd, f) != f :: Update(r, moving, fwd, f) := m[r]
  }

  lemma RemapInverse(table: seq<Word>, index: int, f: Word, m: map<Word, int>, moving: set<Word>,
                     fwd: map<Word, Word>, f': Word, after: seq<Word>)
    requires Inverse(table, index, f, m) && Apart(m, moving, fwd, f') && |after| == |table|
    requires Update(f, moving, fwd, f') == f'
    requires forall i :: 0 <= i < index ==> after[i] == Update(table[i], moving, fwd, f')
    ensures Inverse(after, index, f', Remap(m, moving, fwd, f'))
  {
    var m' := Remap(m, moving, fwd, f');
    forall i | 0 <= i < index && after[i] != f' ensures after[i] in m' && m'[after[i]] == i {
      assert table[i] in m;
    }
    forall x <- m' ensures 0 <= m'[x] < index && after[m'[x]] == x {
      var r :| r in m && Update(r, moving, fwd, f') == x && m[r] == m'[x];
    }
  }

  function Doubled(size: int, k: nat): int { if k == 0 then size else 2 * Doubled(size, k - 1) }

  class Table {
    var nil: Word            // e_false, which is e_nil
    var table: seq<Word>     // wp_table, from its second cell; its length is wp_table_size
    var index: int           // wp_index
    var hash: seq<Slot>      // wp_hashtable
    var free: seq<int>       // wp_free_list
    ghost var live: map<Word, int>

    ghost predicate Valid()
      reads this
    {
      && Inverse(table, index, nil, live) && HashOk(hash, nil, live) && FreeOk(table, index, nil, free)
      && |table| < |hash|
    }

    constructor (e: Word)
      ensures Valid() && nil == e && live == map[] && index == 0
    {
      nil, table, index, free, live := e, seq(3000, i => e), 0, [], map[];
      hash := seq(3017, i => Slot(e, Fix(0)));
      new;
      EmptyHash(3017, nil, hash);
    }

    /** wp_to_ref, on a fixnum */
    function WpToRef(w: int): Word
      reads this
      requires index <= |table|
    {
      if w < 0 || w >= index then nil else table[w]
    }

    /** enter_wp: the full-table exit is unreachable. */
    method EnterWp(r: Word, w: int)
      requires HashOk(hash, nil, live) && r != nil && r !in live && |live| + 1 < |hash|
      modifies this`hash, this`live
      ensures HashOk(hash, nil, live) && live == old(live)[r := w] && |hash| == |old(hash)|
    {
      hide HashOk, At;
      HashSize(hash, nil, live);
      var i, probes := Key(r) % |hash|, 0;
      AtStart(|hash|, r);
      while probes < |hash|
        invariant 0 <= probes <= |hash| && |hash| > 0 && i == At(|hash|, r, probes) && hash == old(hash)
            && live == old(live)
        invariant Reach(hash, nil, r, probes)
      {
        if hash[i].obj == nil {
          Insert(hash, nil, live, r, w, probes);
          hash := hash[i := Slot(r, Fix(w))];
          live := live[r := w];
          return;
        }
        NextAt(|hash|, r, probes);
        i := i + 1;
        if i == |hash| { i := 0; }
        probes := probes + 1;
      }
      ProbeEnds(hash, nil, live, r, probes);
      assert false;
    }

    /** rebuild_wp_hashtable_locked: `m` is what the table says. */
    method Rebuild(ghost m: map<Word, int>)
      requires Inverse(table, index, nil, m) && |table| < |hash|
      modifies this`hash, this`live, this`free
      ensures Valid() && live == m && |hash| == |old(hash)|
    {
      hide HashOk, Inverse, FreeOk, Restrict;
      Bounds(table, index, nil, m);
      NoFree(table, nil);
      ClearHash();
      free := [];
      RestrictEnds(table, index, nil, m);
      var i := 0;
      while i < index
        invariant 0 <= i <= index && HashOk(hash, nil, live) && live == Restrict(m, i) && |hash| == |old(hash)|
        invariant FreeOk(table, i, nil, free)
      {
        FreeMore(table, i, nil, free);
        RestrictStep(table, index, nil, m, i);
        if table[i] != nil {
          EnterWp(table[i], i);
        } else {
          free := free + [i];
        }
        i := i + 1;
      }
    }

    method ClearHash()
      requires |hash| > 0
      modifies this`hash, this`live
      ensures HashOk(hash, nil, live) && live == map[] && |hash| == |old(hash)|
    {
      var i := 0;
      while i < |hash|
        invariant 0 <= i <= |hash| == |old(hash)| && forall j :: 0 <= j < i ==> hash[j].obj == nil
      {
        hash := hash[i := Slot(nil, hash[i].wp)];
        i := i + 1;
      }
      live := map[];
      EmptyHash(|hash|, nil, hash);
    }

    /** grow_wp_tables: false when there would be too many weak pointers for an int. */
    method Grow(needed: int) returns (ok: bool)
      requires Valid()
      modifies this`table, this`hash, this`live, this`free
      ensures !ok ==> needed > INT_MAX / 2 && unchanged(this)
      ensures ok ==> Valid() && live == old(live) && |table| >= needed && 2 * |table| < |hash|
      ensures ok ==> |table| >= old(|table|) && table[..index] == old(table[..index])
      ensures ok ==> var size := if old(|table|) < 1 then 3000 else old(|table|);
                     exists k: nat :: |table| == Doubled(size, k) && (k > 0 ==> Doubled(size, k - 1) < needed)
      ensures ok ==> |hash| >= 2 * |table| + 1 && |hash| >= 17 && Primes.Prime(|hash|)
      ensures ok ==> forall c :: 2 * |table| + 1 <= c < |hash| && c >= 17 ==> !Primes.Prime(c)
    {
      hide HashOk;
      var size := |table|;
      if size < 1 { size := 3000; }
      ghost var k: nat := 0;
      while size < needed
        invariant size >= 1 && size >= |table| && unchanged(this)
        invariant size == Doubled(if |table| < 1 then 3000 else |table|, k)
        invariant k > 0 ==> Doubled(if |table| < 1 then 3000 else |table|, k - 1) < needed
      {
        if size > INT_MAX / 2 { return false; }
        size := size * 2;
        k := k + 1;
      }
      var buckets := Primes.NextHashPrime(2 * size + 1);
      table := table + seq(size - |table|, i => Fix(0));
      hash := seq(buckets, i => Slot(Fix(0), Fix(0)));
      assert Inverse(table, index, nil, live);
      Rebuild(live);
      ok := true;
    }

    /** ensure_wp_capacity */
    method EnsureCapacity(n: int) returns (ok: bool)
      requires Valid()
      modifies this`table, this`hash, this`live, this`free
      ensures ok ==> Valid() && live == old(live) && |table| >= n && table[..index] == old(table[..index])
      ensures n <= old(|table|) ==> ok && unchanged(this)
      ensures !ok ==> n > INT_MAX / 2 && n > old(|table|) && unchanged(this)
    {
      ok := true;
      if n > |table| { ok := Grow(n); }
    }

    /** ref_to_wp: a live reference keeps the weak pointer it has, a new one gets an index that is no
        live reference's, and either way the weak pointer leads back to the reference.  The index is the
        one freed last, and only if none is free a further one; the tables grow only if that one does not
        fit, and there can be too many weak pointers only if so many are live at once. */
    method RefToWp(r: Word) returns (ok: bool, wp: Word)
      requires Valid()
      modifies this`table, this`index, this`hash, this`free, this`live
      ensures !ok ==> r != nil && r !in old(live) && |old(live)| == old(index) > INT_MAX / 2 - 1 && unchanged(this)
      ensures ok ==> Valid() && wp.Fix? && WpToRef(wp.n) == r
      ensures ok && r == nil ==> wp == Fix(-1) && unchanged(this)
      ensures r != nil ==> old(Scan(table, index, r)) == if r in old(live) then old(live)[r] else -1
      ensures ok && r in old(live) ==> wp == Fix(old(live)[r]) && unchanged(this)
      ensures ok && r != nil && r !in old(live) ==>
                live == old(live)[r := wp.n] && forall x <- old(live) :: old(live)[x] != wp.n
      ensures r != nil && r !in old(live) && old(free) != [] ==>
                && ok && wp == Fix(old(free)[|old(free)| - 1]) && free == old(free)[..|old(free)| - 1]
                && index == old(index) && |table| == old(|table|)
      ensures ok && r != nil && r !in old(live) && old(free) == [] ==>
                && wp == Fix(old(index)) && index == old(index) + 1 && free == []
                && (old(index < |table| && 2 * (index + 1) < |hash|) ==>
                      |table| == old(|table|) && |hash| == old(|hash|))
    {
      hide HashOk, At, FreeOk;
      if r == nil { return true, Fix(-1); }
      ScanAgrees(table, index, nil, live, r);
      HashSize(hash, nil, live);
      var i := Key(r) % |hash|;
      ghost var k := 0;
      AtStart(|hash|, r);
      while true
        invariant Valid() && unchanged(this) && |hash| > 0 && 0 <= k && i == At(|hash|, r, k)
        invariant Reach(hash, nil, r, k) && forall j :: 0 <= j < k ==> hash[At(|hash|, r, j)].obj != r
        decreases |hash| - k
      {
        ProbeEnds(hash, nil, live, r, k);
        if hash[i].obj == r {
          EntryIs(hash, nil, live, i);
          return true, hash[i].wp;
        } else if hash[i].obj == nil {
          NotThere(hash, nil, live, r, k);
          ok, wp := NewWp(r, i, k);
          return;
        }
        NextAt(|hash|, r, k);
        i := i + 1;
        if i == |hash| { i := 0; }
        k := k + 1;
      }
    }

    /** The probe restarted after growing. */
    method FirstFree(r: Word) returns (i: int, ghost k: int)
      requires HashOk(hash, nil, live)
      ensures |hash| > 0 && 0 <= k < |hash| && i == At(|hash|, r, k) && Reach(hash, nil, r, k) && hash[i].obj == nil
    {
      hide HashOk, At;
      HashSize(hash, nil, live);
      AtStart(|hash|, r);
      i, k := Key(r) % |hash|, 0;
      ProbeEnds(hash, nil, live, r, k);
      while hash[i].obj != nil
        invariant 0 <= k < |hash| && i == At(|hash|, r, k) && Reach(hash, nil, r, k)
        decreases |hash| - k
      {
        NextAt(|hash|, r, k);
        ProbeEnds(hash, nil, live, r, k + 1);
        i := i + 1;
        if i == |hash| { i := 0; }
        k := k + 1;
      }
    }

    /** A slot for a new weak pointer: one that was freed, or the next, growing first if need be. */
    method TakeSlot(r: Word, at: int, ghost k: int) returns (ok: bool, slot: int, i: int, ghost steps: int)
      requires Valid() && |hash| > 0 && r != nil
      requires 0 <= k < |hash| && at == At(|hash|, r, k) && Reach(hash, nil, r, k) && hash[at].obj == nil
      modifies this`table, this`index, this`hash, this`free, this`live
      ensures !ok ==> |old(live)| == old(index) > INT_MAX / 2 - 1 && unchanged(this)
      ensures old(free) != [] ==>
                && ok && slot == old(free)[|old(free)| - 1] && free == old(free)[..|old(free)| - 1]
                && index == old(index) && |table| == old(|table|)
      ensures ok && old(free) == [] ==>
                && slot == old(index) && index == old(index) + 1 && free == []
                && (old(index < |table| && 2 * (index + 1) < |hash|) ==>
                      |table| == old(|table|) && |hash| == old(|hash|))
      ensures ok ==> && 0 <= slot < index <= |table| < |hash| && HashOk(hash, nil, live)
                     && FreeOk(table[slot := r], index, nil, free)
                     && Inverse(table[slot := nil], index, nil, live) && live == old(live)
                     && 0 <= steps < |hash| && i == At(|hash|, r, steps) && Reach(hash, nil, r, steps)
                     && hash[i].obj == nil
    {
      hide HashOk, At, Inverse, FreeOk;
      Bounds(table, index, nil, live);
      ok, i, steps := true, at, k;
      if |free| > 0 {
        PopFree(table, index, nil, free, r);
        slot := free[|free| - 1];
        free := free[..|free| - 1];
      } else {
        SlotsCounted(table, index, nil, free, live);
        if index >= |table| || 2 * (index + 1) >= |hash| {
          ok := Grow(index + 1);
          if !ok { return false, 0, 0, 0; }
          SlotsCounted(table, index, nil, free, live);
          i, steps := FirstFree(r);
        }
        NextSlot(table, index, nil, free, live, r);
        slot := index;
        index := index + 1;
      }
    }

    /** The part of ref_to_wp that makes a new weak pointer; the probe has stopped at `at`. */
    method NewWp(r: Word, at: int, ghost k: int) returns (ok: bool, wp: Word)
      requires Valid() && r != nil && r !in live && |hash| > 0
      requires 0 <= k < |hash| && at == At(|hash|, r, k) && Reach(hash, nil, r, k) && hash[at].obj == nil
      modifies this`table, this`index, this`hash, this`free, this`live
      ensures !ok ==> |old(live)| == old(index) > INT_MAX / 2 - 1 && unchanged(this)
      ensures ok ==> Valid() && wp.Fix? && WpToRef(wp.n) == r
      ensures ok ==> live == old(live)[r := wp.n] && forall x <- old(live) :: old(live)[x] != wp.n
      ensures old(free) != [] ==>
                && ok && wp == Fix(old(free)[|old(free)| - 1]) && free == old(free)[..|old(free)| - 1]
                && index == old(index) && |table| == old(|table|)
      ensures ok && old(free) == [] ==>
                && wp == Fix(old(index)) && index == old(index) + 1 && free == []
                && (old(index < |table| && 2 * (index + 1) < |hash|) ==>
                      |table| == old(|table|) && |hash| == old(|hash|))
    {
      hide HashOk, At;
      var took, slot, i, steps := TakeSlot(r, at, k);
      if !took { return false, Fix(0); }
      FillSlot(table, index, nil, live, slot, r);
      hide FreeOk, Inverse;
      Insert(hash, nil, live, r, slot, steps);
      hash := hash[i := Slot(r, Fix(slot))];
      table := table[slot := r];
      live := live[r := slot];
      return true, Fix(slot);
    }

    /** post_gc_wp, once the collector has moved e_nil to `newNil`: every surviving reference keeps
        its weak pointer, and the slots of the others can be used again. */
    method PostGc(moving: set<Word>, fwd: map<Word, Word>, newNil: Word)
      requires Valid() && Apart(live, moving, fwd, newNil) && Update(nil, moving, fwd, newNil) == newNil
      modifies this`nil, this`table, this`hash, this`free, this`live
      ensures Valid() && nil == newNil && live == Remap(old(live), moving, fwd, newNil)
      ensures |table| == old(|table|) && |hash| == old(|hash|)
      ensures forall i :: 0 <= i < index ==>
                var r := old(table[i]); table[i] == if r !in moving then r else if r in fwd then fwd[r] else newNil
    {
      hide HashOk, Inverse, Apart, Remap, FreeOk;
      Bounds(table, index, nil, live);
      ghost var was, f := table, nil;
      nil := newNil;
      var i := 0;
      while i < index
        invariant 0 <= i <= index && |table| == |was|
        invariant forall j :: 0 <= j < i ==> table[j] == Update(was[j], moving, fwd, newNil)
        invariant forall j :: i <= j < |was| ==> table[j] == was[j]
        modifies this`table
      {
        var r := table[i];
        if r in moving {
          if r in fwd { table := table[i := fwd[r]]; } else { table := table[i := nil]; }
        }
        i := i + 1;
      }
      RemapInverse(was, index, f, live, moving, fwd, newNil, table);
      Rebuild(Remap(live, moving, fwd, newNil));
    }
  }

  lemma EntryIs(hash: seq<Slot>, f: Word, m: map<Word, int>, i: int)
    requires HashOk(hash, f, m) && 0 <= i < |hash| && hash[i].obj != f
    ensures hash[i].obj in m && hash[i].wp == Fix(m[hash[i].obj])
  {
  }

  lemma Bounds(table: seq<Word>, index: int, f: Word, m: map<Word, int>)
    requires Inverse(table, index, f, m)
    ensures 0 <= index <= |table|
  {
  }

  lemma AtStart(size: int, r: Word)
    requires size > 0
    ensures At(size, r, 0) == Key(r) % size
  {
  }

  lemma HashSize(hash: seq<Slot>, f: Word, m: map<Word, int>)
    requires HashOk(hash, f, m)
    ensures |hash| > 0
  {
  }
}
