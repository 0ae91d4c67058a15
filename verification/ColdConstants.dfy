/** constant_refgen and the allocators under it (oak-cold-linker.c), in place on the world array. */
module ColdConstants {
  import opened Options
  import opened Words
  import opened ColdData
  import opened ColdPairs
  import Arith

  /** `w` with `cells` at `at`. */
  function Written(w: seq<Cell>, at: int, cells: seq<Cell>): (r: seq<Cell>)
    requires 0 <= at && at + |cells| <= |w|
    ensures |r| == |w|
  {
    w[..at] + cells + w[at + |cells|..]
  }

  ghost predicate AllZero(w: seq<Cell>, from: int) {
    forall a :: 0 <= from <= a < |w| ==> w[a].Zero()
  }

  lemma WriteNext(w: seq<Cell>, at: int, cells: seq<Cell>, c: Cell)
    requires 0 <= at && at + |cells| < |w|
    ensures Written(w, at, cells)[at + |cells| := c] == Written(w, at, cells + [c])
    ensures Written(w, at, cells)[at + |cells|] == w[at + |cells|]
  {
  }

  lemma WrittenNone(w: seq<Cell>, at: int)
    requires 0 <= at <= |w|
    ensures Written(w, at, []) == w
  {
  }

  lemma ZeroAt(w: seq<Cell>, from: int, a: int)
    requires AllZero(w, from) && 0 <= from <= a < |w|
    ensures w[a].Zero()
  {
  }

  lemma ZeroLater(w: seq<Cell>, from: int, to: int)
    requires AllZero(w, from) && 0 <= from <= to
    ensures AllZero(w, to)
  {
  }

  lemma RestZero(w: seq<Cell>, at: int, cells: seq<Cell>)
    requires 0 <= at && at + |cells| <= |w| && AllZero(w, at)
    ensures AllZero(Written(w, at, cells), at + |cells|)
  {
  }

  /** tagize_int */
  function TagizeInt(e: Env, x: int): Option<Word> {
    if x < -e.limit || x > e.limit - 1 then None else Some(Fix(x))
  }

  lemma PackFits(e: Env, s: Bytes)
    requires e.Valid() && AreBytes(s) && |s| <= e.cpw
    ensures 0 <= PackWord(s) < e.limit
  {
    PackRange(s);
    PowMono(|s|, e.cpw);
    assert Pow256(7) == 0x100_0000_0000_0000;
    assert Pow256(3) == 0x100_0000;
  }

  lemma {:induction false} PowMono(i: nat, j: nat)
    requires i <= j
    ensures Pow256(i) <= Pow256(j)
    decreases j
  {
    if i < j { PowMono(i, j - 1); }
  }

  lemma NoWords(cpw: int)
    requires cpw >= 1
    ensures StringWords([], cpw) == []
  {
  }

  lemma StringStep(s: Bytes, off: int, cpw: int)
    requires cpw >= 1 && 0 <= off < |s|
    ensures var k := Min(cpw, |s| - off);
            StringWords(s[off..], cpw) == [Num(Fix(PackWord(s[off..off + k])))] + StringWords(s[off + k..], cpw)
  {
    var k := Min(cpw, |s| - off);
    assert s[off..][..k] == s[off..off + k] && s[off..][k..] == s[off + k..];
  }

  /** The inner loop of real_string_alloc: the shifted characters do not overlap, so or-ing them
      together adds them. */
  method Pack(s: Bytes, off: int, cpw: int) returns (w: int)
    requires 0 <= off <= |s| && cpw >= 1
    ensures w == PackWord(s[off..off + Min(cpw, |s| - off)])
  {
    w := 0;
    var k := 0;
    while k < cpw && k < |s| - off
      invariant 0 <= k <= cpw && k <= |s| - off && w == PackWord(s[off..off + k])
    {
      PackSnoc(s[off..off + k], s[off + k]);
      assert s[off..off + k + 1] == s[off..off + k] + [s[off + k]];
      w := w + s[off + k] * Pow256(k);
      k := k + 1;
    }
  }

  /** The data region of the world: everything from `e.base` is handed out in order. */
  lemma SizeFits(e: Env, s: Bytes)
    requires e.Valid() && |s| < 65536
    ensures 3 <= StringSize(s, e.cpw) < e.limit && |s| < e.limit
  {
    Arith.DivPos(|s| + e.cpw - 1, e.cpw);
  }

  lemma ZeroAfter(w: seq<Cell>, cur: int, c: Cell)
    requires 0 <= cur < |w| && AllZero(w, cur)
    ensures AllZero(w[cur := c], cur + 1) && AllZero(w[cur := c], cur + 3)
  {
  }

  lemma PairCellsWritten(e: Env, w: seq<Cell>, cur: int, car: Word, cells: seq<Cell>)
    requires 0 <= cur && cur + 3 + |cells| <= |w| && AllZero(w, cur)
    ensures var w2 := Written(w[cur := Num(Ptr(e.cons))], cur + 3, cells);
            && w2[cur + 1].Zero()
            && w2[cur + 1 := Num(car)] == Written(w, cur, PairCells(e, car, w[cur + 2], cells))
            && AllZero(w2[cur + 1 := Num(car)], cur + 3 + |cells|)
  {
  }

  lemma ThirdCell(e: Env, w: seq<Cell>, cur: int, car: Word, cells: seq<Cell>, cdr: Word)
    requires 0 <= cur && cur + 3 + |cells| <= |w| && w[cur + 2].Zero()
    ensures var w3 := Written(w, cur, PairCells(e, car, w[cur + 2], cells));
            && w3[cur + 2].Zero()
            && w3[cur + 2 := Num(cdr)] == Written(w, cur, PairCells(e, car, Num(cdr), cells))
  {
  }

  lemma Advance(w: seq<Cell>, at: int, done: seq<Cell>, cells: seq<Cell>, rest: seq<Cell>, total: seq<Cell>)
    requires total == done + (cells + rest) && 0 <= at && at + |done| + |cells| <= |w|
    ensures total == (done + cells) + rest && |done + cells| == |done| + |cells|
    ensures total == (done + cells) + (rest + [])
    ensures rest == [] ==> total == done + cells
    ensures Written(Written(w, at, done), at + |done|, cells) == Written(w, at, done + cells)
  {
  }

  lemma LimitLess(e: Env, cache: map<Sexp, Word>, n: int, m: int)
    requires CacheLayable(e, cache, n) && m <= n
    ensures CacheLayable(e, cache, m)
  {
  }

  lemma EnterBigger(e: Env, cache: map<Sexp, Word>, n: int, k: Sexp, v: Word)
    requires CacheLayable(e, cache, n) && Size(k) - 1 <= n
    ensures CacheLayable(e, cache[k := v], Size(k) - 1)
  {
  }

  lemma CachedLayable(e: Env, cache: map<Sexp, Word>, k: Sexp)
    requires k in cache && CacheLayable(e, cache, Size(k))
    ensures Layable(e, k)
  {
  }

  lemma WriteUnder(w: seq<Cell>, i: int, c: Cell, at: int, cells: seq<Cell>)
    requires 0 <= i < at && at + |cells| <= |w|
    ensures Written(w, at, cells)[i := c] == Written(w[i := c], at, cells)
    ensures Written(w, at, cells)[i] == w[i]
    ensures AllZero(Written(w, at, cells), at + |cells|) ==> AllZero(Written(w[i := c], at, cells), at + |cells|)
  {
  }

  /** pair_alloc has come to `c`, whose cells at `cur` are allocated: `done` lies below them, and
      laying out `c` recursively from here would complete what `total` says. */
  ghost predicate Chain(e: Env, w: seq<Cell>, m: seq<Cell>, first: int, cur: int, done: seq<Cell>,
                        total: Out, st: State, c: Sexp)
  {
    && e.cpw >= 1 && c.Cons? && 0 <= first && cur == first + |done| && st.next == cur + 3
    && cur + 3 <= |w| == |m| && AllZero(w, first) && m == Written(w, first, done)
    && total.st.next == first + |total.cells|
    && var p := LayPair(e, st.(next := cur), c); total.cells == done + p.cells && total.st == p.st
  }

  lemma ChainStart(e: Env, w: seq<Cell>, st: State, c: Sexp)
    requires e.cpw >= 1 && c.Cons? && 0 <= st.next <= |w| && AllZero(w, st.next)
    ensures var total := LayPair(e, st, c);
            && (st.next + 3 <= |w| ==> Chain(e, w, w, st.next, st.next, [], total, st.(next := st.next + 3), c))
            && total.st.next >= st.next + 3 && total.ref == Ptr(st.next)
            && total.st.next == st.next + |total.cells|
  {
    var total := LayPair(e, st, c);
    assert total.cells == [] + total.cells;
    assert st.(next := st.next + 3).(next := st.next) == st;
    WrittenNone(w, st.next);
  }

  lemma ChainHead(e: Env, w: seq<Cell>, m: seq<Cell>, first: int, cur: int, done: seq<Cell>,
                  total: Out, st: State, c: Sexp)
    requires Chain(e, w, m, first, cur, done, total, st, c)
    ensures c.Cons? && st.next == cur + 3 && cur >= first >= 0 && AllZero(m, cur) && |w| == |m|
    ensures var a := Lay(e, st, c.car);
            && a.st.next <= total.st.next && Lay(e, a.st, c.cdr).st.next <= total.st.next
            && (c.cdr.Cons? && c.cdr !in a.st.cache ==> a.st.next + 3 <= total.st.next)
    ensures Layable(e, c) <==> Layable(e, c.car) && Layable(e, c.cdr)
  {
    hide PairCells, Written, Denotes, CellCost, StateOk;
    RestZero(w, first, done);
    PairUnfolds(e, st.(next := cur), c);
    assert st.(next := cur).(next := cur + 3) == st;
  }

  lemma ChainOn(e: Env, w: seq<Cell>, m: seq<Cell>, first: int, cur: int, done: seq<Cell>,
                total: Out, st: State, c: Sexp) returns (more: seq<Cell>)
    requires Chain(e, w, m, first, cur, done, total, st, c)
    requires c.cdr.Cons? && c.cdr !in Lay(e, st, c.car).st.cache
    ensures var a := Lay(e, st, c.car);
            var n := a.st.next;
            n + 3 <= |w| ==>
              && m[cur + 2].Zero()
              && Chain(e, w, Written(m, cur, PairCells(e, a.ref, m[cur + 2], a.cells))[cur + 2 := Num(Ptr(n))],
                       first, n, more, total, State(n + 3, a.st.cache[c.cdr := Ptr(n)], a.st.empty), c.cdr)
  {
    hide Lay, LayPair, PairCells, Written;
    var a := Lay(e, st, c.car);
    var n := a.st.next;
    var cells := PairCells(e, a.ref, Num(Ptr(n)), a.cells);
    more := done + cells;
    ChainStep(e, st.(next := cur), c);
    assert st.(next := cur).(next := cur + 3) == st;
    if n + 3 <= |w| {
      RestZero(w, first, done);
      ThirdCell(e, m, cur, a.ref, a.cells, Ptr(n));
      var o := LayPair(e, a.st.(cache := a.st.cache[c.cdr := Ptr(n)]), c.cdr);
      assert State(n + 3, a.st.cache[c.cdr := Ptr(n)], a.st.empty).(next := n)
             == a.st.(cache := a.st.cache[c.cdr := Ptr(n)]);
      Advance(w, first, done, cells, o.cells, total.cells);
    }
  }

  lemma ChainEnd(e: Env, w: seq<Cell>, m: seq<Cell>, first: int, cur: int, done: seq<Cell>,
                 total: Out, st: State, c: Sexp)
    requires Chain(e, w, m, first, cur, done, total, st, c)
    requires Lay(e, Lay(e, st, c.car).st, c.cdr).st.next <= |w|
    requires c.cdr.Cons? ==> c.cdr in Lay(e, st, c.car).st.cache
    ensures var a := Lay(e, st, c.car);
            var d := Lay(e, a.st, c.cdr);
            var m2 := Written(m, cur, PairCells(e, a.ref, m[cur + 2], a.cells));
            && total.st == d.st && first + |total.cells| <= |w|
            && Written(m2[cur + 2 := Num(d.ref)], a.st.next, d.cells) == Written(w, first, total.cells)
  {
    hide Lay, LayPair, PairCells, Written;
    var a := Lay(e, st, c.car);
    var d := Lay(e, a.st, c.cdr);
    PairUnfolds(e, st.(next := cur), c);
    assert st.(next := cur).(next := cur + 3) == st;
    RestZero(w, first, done);
    ThirdCell(e, m, cur, a.ref, a.cells, d.ref);
    var cells := PairCells(e, a.ref, Num(d.ref), a.cells);
    Advance(w, first, done, cells, d.cells, total.cells);
    Advance(w, first, done + cells, d.cells, [], total.cells);
  }

  class Data {
    const e: Env
    const world: array<Cell>
    const buckets: array<seq<Entry>>
    var next: int                        // next_free_dat
    var empty: Option<Word>              // the_empty_string
    ghost var cache: map<Sexp, Word>

    /** What has been handed out, and nothing written beyond it. */
    ghost predicate Valid()
      reads this, world, buckets
    {
      && e.Valid() && e.base <= next <= world.Length
      && Bucketed(buckets[..], cache)
      && AllZero(world[..], next)
    }

    ghost function St(): State
      reads this
    {
      State(next, cache, empty)
    }

    constructor (env: Env, w: array<Cell>)
      requires env.Valid() && env.base <= w.Length
      requires AllZero(w[..], env.base)
      ensures Valid() && e == env && world == w && fresh(buckets) && St() == State(env.base, map[], None)
    {
      e, world, next, empty, cache := env, w, env.base, None, map[];
      buckets := new seq<Entry>[PC_SIZE](i => []);
    }

    /** pair_cache_lookup */
    method Lookup(key: Sexp) returns (r: Option<Word>)
      requires Bucketed(buckets[..], cache)
      ensures r == if key in cache then Some(cache[key]) else None
    {
      var h := SexpHash(key);
      var chain := buckets[h % PC_SIZE];
      assert chain == buckets[..][h % PC_SIZE];
      var i := 0;
      while i < |chain|
        invariant 0 <= i <= |chain|
        invariant forall j :: 0 <= j < i ==> chain[j].key != key
      {
        var same := SexpEqual(chain[i].key, key);
        if same { return Some(chain[i].val); }
        i := i + 1;
      }
      return None;
    }

    /** pair_cache_insert */
    method Insert(key: Sexp, val: Word)
      requires Bucketed(buckets[..], cache) && key !in cache
      modifies this`cache, buckets
      ensures Bucketed(buckets[..], cache) && cache == old(cache)[key := val]
    {
      BucketedInsert(buckets[..], cache, key, val);
      var h := SexpHash(key);
      h := h % PC_SIZE;
      ghost var was := buckets[..];
      buckets[h] := [Entry(key, val)] + buckets[h];
      assert buckets[..] == was[h := [Entry(key, val)] + was[h]];
      cache := cache[key := val];
    }

    /** alloc_dat: false when the region is exhausted. */
    method Alloc(n: nat) returns (ok: bool, at: int)
      requires Valid()
      modifies this`next
      ensures at == old(next) && next == at + n
      ensures ok <==> at + n <= world.Length
    {
      at := next;
      next := next + n;
      ok := next <= world.Length;
    }

    /** store_world_word: false when it would overwrite. */
    method Store(w: Word, addr: int) returns (ok: bool)
      modifies world
      ensures ok <==> 0 <= addr < world.Length && old(world[addr].Zero())
      ensures ok ==> world[..] == old(world[..])[addr := Num(w)]
      ensures !ok ==> world[..] == old(world[..])
    {
      ok := 0 <= addr < world.Length && world[addr].Zero();
      if ok { world[addr] := Num(w); }
    }

    /** store_world_int: false also when the number is not a fixnum of the target. */
    method StoreInt(x: int, addr: int) returns (ok: bool)
      modifies world
      ensures ok <==> TagizeInt(e, x).Some? && 0 <= addr < world.Length && old(world[addr].Zero())
      ensures ok ==> world[..] == old(world[..])[addr := Num(Fix(x))]
    {
      match TagizeInt(e, x) {
        case None => ok := false;
        case Some(w) => ok := Store(w, addr);
      }
    }

    /** The next cell of an object laid out at `at`: neither check of the store can fail. */
    method StoreNext(x: Word, addr: int, ghost w: seq<Cell>, ghost at: int, ghost done: seq<Cell>)
      requires 0 <= at && addr == at + |done| < world.Length == |w| && AllZero(w, at)
      requires x.Fix? ==> -e.limit <= x.n < e.limit
      requires world[..] == Written(w, at, done)
      modifies world
      ensures world[..] == Written(w, at, done + [Num(x)])
    {
      WriteNext(w, at, done, Num(x));
      var ok: bool;
      if x.Fix? {
        ok := StoreInt(x.n, addr);
      } else {
        ok := Store(x, addr);
      }
      assert ok;
    }

    /** The packing loop of real_string_alloc. */
    method FillString(ghost w: seq<Cell>, at: int, s: Bytes)
      requires e.Valid() && AreBytes(s) && 0 <= at && at + StringSize(s, e.cpw) <= world.Length == |w|
      requires AllZero(w, at)
      requires world[..] == Written(w, at, [Num(Ptr(e.str)), Num(Fix(StringSize(s, e.cpw))), Num(Fix(|s|))])
      modifies world
      ensures world[..] == Written(w, at, RealString(e, s))
    {
      hide Written, AllZero, PackWord, TagizeInt, StringWords;
      StringWordsCount(s, e.cpw);
      assert s[0..] == s;
      var todo, addr, off := |s|, at + 3, 0;
      ghost var done := [Num(Ptr(e.str)), Num(Fix(StringSize(s, e.cpw))), Num(Fix(|s|))];
      while todo > 0
        invariant 0 <= off <= |s| && (todo == |s| - off || (todo <= 0 && off == |s|))
        invariant addr == at + |done| <= at + StringSize(s, e.cpw)
        invariant done + StringWords(s[off..], e.cpw) == RealString(e, s)
        invariant world[..] == Written(w, at, done)
        decreases todo
      {
        var n := Pack(s, off, e.cpw);
        var k := Min(e.cpw, |s| - off);
        StringStep(s, off, e.cpw);
        PackFits(e, s[off..off + k]);
        StoreNext(Fix(n), addr, w, at, done);
        ghost var rest := StringWords(s[off + k..], e.cpw);
        assert done + ([Num(Fix(n))] + rest) == done + [Num(Fix(n))] + rest;
        done := done + [Num(Fix(n))];
        addr := addr + 1;
        off := off + k;
        todo := todo - e.cpw;
      }
      assert s[off..] == [];
      NoWords(e.cpw);
      assert done + [] == done;
    }

    /** real_string_alloc */
    method RealStringAlloc(s: Bytes) returns (ok: bool, ref: Word)
      requires Valid() && AreBytes(s) && |s| < 65536
      modifies this`next, world
      ensures ok <==> old(next) + StringSize(s, e.cpw) <= world.Length
      ensures ok ==> Valid() && St() == old(St()).(next := old(next) + StringSize(s, e.cpw))
      ensures ok ==> ref == Ptr(old(next))
      ensures ok ==> world[..] == Written(old(world[..]), old(next), RealString(e, s))
    {
      hide Bucketed, RealString, Written, TagizeInt;
      StringWordsCount(s, e.cpw);
      SizeFits(e, s);
      var size := StringSize(s, e.cpw);
      ref := Fix(0);
      var at: int;
      ok, at := Alloc(size);
      if !ok { return; }
      ghost var w := world[..];
      WrittenNone(w, at);
      ghost var h0, h1, h2 := Num(Ptr(e.str)), Num(Fix(size)), Num(Fix(|s|));
      StoreNext(Ptr(e.str), at, w, at, []);
      assert [] + [h0] == [h0];
      StoreNext(Fix(size), at + 1, w, at, [h0]);
      assert [h0] + [h1] == [h0, h1];
      StoreNext(Fix(|s|), at + 2, w, at, [h0, h1]);
      assert [h0, h1] + [h2] == [h0, h1, h2];
      FillString(w, at, s);
      RestZero(w, at, RealString(e, s));
      ref := Ptr(at);
    }

    /** string_alloc */
    method StringAlloc(s: Bytes) returns (ok: bool, ref: Word)
      requires Valid() && AreBytes(s) && |s| < 65536
      modifies this`next, this`empty, world
      ensures ok <==> LayString(e, old(St()), s).st.next <= world.Length
      ensures ok ==> Valid() && Did(LayString(e, old(St()), s)) && ref == LayString(e, old(St()), s).ref
    {
      hide Bucketed, RealString, Written;
      WrittenNone(world[..], next);
      if |s| > 0 {
        ok, ref := RealStringAlloc(s);
        return;
      }
      if empty.Some? { return true, empty.value; }
      ok, ref := RealStringAlloc(s);
      empty := Some(ref);
    }

    /** The state is what `o` says, and exactly its cells have been written. */
    twostate predicate Did(o: Out)
      reads this, world
    {
      && old(next) >= 0 && old(next) + |o.cells| <= world.Length
      && St() == o.st && world[..] == Written(old(world[..]), old(next), o.cells)
    }

    /** constant_refgen: it fails exactly when the constant cannot be represented, or the region is
        too small for the cells it needs. */
    method ConstantRefgen(c: Sexp) returns (ok: bool, ref: Word)
      requires Valid() && Readable(c) && CacheLayable(e, cache, Size(c))
      modifies this, world, buckets
      ensures ok <==> Layable(e, c) && Lay(e, old(St()), c).st.next <= world.Length
      ensures ok ==> Valid() && Did(Lay(e, old(St()), c)) && ref == Lay(e, old(St()), c).ref
      decreases Size(c), 4
    {
      hide Bucketed, Written, LayPair;
      WrittenNone(world[..], next);
      match c {
        case Sym(n) =>
          if n !in e.syms { return false, Fix(0); }
          return true, Ptr(e.syms[n]);
        case Nil => return true, Ptr(e.nil);
        case Bool(b) => return true, Ptr(if b then e.t else e.nil);
        case Int(i) =>
          match TagizeInt(e, i) {
            case None => return false, Fix(0);
            case Some(w) => return true, w;
          }
        case Chr(x) => return true, Imm(x * 64);
        case Str(s) =>
          ok, ref := StringAlloc(s);
        case Cons(_, _) =>
          ok, ref := CachingPairAlloc(c);
      }
    }

    /** caching_pair_alloc */
    method CachingPairAlloc(c: Sexp) returns (ok: bool, ref: Word)
      requires Valid() && c.Cons? && Readable(c) && CacheLayable(e, cache, Size(c))
      modifies this, world, buckets
      ensures ok <==> Layable(e, c) && Lay(e, old(St()), c).st.next <= world.Length
      ensures ok ==> Valid() && Did(Lay(e, old(St()), c)) && ref == Lay(e, old(St()), c).ref
      decreases Size(c), 3
    {
      hide Bucketed, Written, LayPair;
      WrittenNone(world[..], next);
      var cached := Lookup(c);
      if cached.Some? { return true, cached.value; }
      EntriesInside(e, St(), c);
      ok, ref := PairAlloc(c);
      if ok { Insert(c, ref); }
    }

    /** The type and car of the pair at `cur`, whose three cells are allocated. */
    method LayCar(c: Sexp, cur: int) returns (ok: bool)
      requires Valid() && c.Cons? && Readable(c) && CacheLayable(e, cache, Size(c.car))
      requires e.base <= cur && next == cur + 3 && AllZero(world[..], cur)
      modifies this, world, buckets
      ensures var a := Lay(e, old(St()), c.car);
              && (ok <==> Layable(e, c.car) && a.st.next <= world.Length)
              && (ok ==> Valid() && St() == a.st &&
                         world[..] == Written(old(world[..]), cur, PairCells(e, a.ref, old(world[cur + 2]), a.cells)))
      decreases Size(c), 0
    {
      hide Bucketed, Written, LayPair, Layable, CacheLayable;
      ghost var w := world[..];
      ok := Store(Ptr(e.cons), cur);
      ZeroAfter(w, cur, Num(Ptr(e.cons)));
      var car: Word;
      ok, car := ConstantRefgen(c.car);
      if ok {
        ghost var a := Lay(e, old(St()), c.car);
        PairCellsWritten(e, w, cur, car, a.cells);
        ok := Store(car, cur + 1);
      }
    }

    /** The next pair of a cdr chain, allocated, entered in the cache, and linked to. */
    method Link(key: Sexp, cur: int) returns (ok: bool, n: int)
      requires Valid() && key !in cache && 0 <= cur && cur + 3 <= next && world[cur + 2].Zero()
      modifies this, world, buckets
      ensures n == old(next) && next == n + 3 && (ok <==> next <= world.Length)
      ensures ok ==> Valid() && St() == State(n + 3, old(cache)[key := Ptr(n)], old(empty))
      ensures ok ==> world[..] == old(world[..])[cur + 2 := Num(Ptr(n))]
    {
      hide Bucketed;
      ok, n := Alloc(3);
      if !ok { return; }
      Insert(key, Ptr(n));
      ok := Store(Ptr(n), cur + 2);
    }

    /** The cdr of the last pair of a chain. */
    method LayLast(c: Sexp, cur: int) returns (ok: bool)
      requires Valid() && c.Cons? && Readable(c) && CacheLayable(e, cache, Size(c.cdr))
      requires c.cdr.Cons? ==> c.cdr in cache
      requires 0 <= cur && cur + 3 <= next && world[cur + 2].Zero()
      modifies this, world, buckets
      ensures var d := Lay(e, old(St()), c.cdr);
              && (ok <==> Layable(e, c.cdr) && d.st.next <= world.Length)
              && (ok ==> Valid() && St() == d.st &&
                         world[..] == Written(old(world[..])[cur + 2 := Num(d.ref)], old(next), d.cells))
      decreases Size(c), 0
    {
      hide Bucketed, Written, LayPair, CacheLayable;
      ghost var w := world[..];
      var cdr: Word;
      if c.cdr.Cons? {
        var cached := Lookup(c.cdr);
        WrittenNone(w, next);
        CachedLayable(e, cache, c.cdr);
        ok, cdr := true, cached.value;
      } else {
        ok, cdr := ConstantRefgen(c.cdr);
      }
      if ok {
        WriteUnder(w, cur + 2, Num(cdr), old(next), Lay(e, old(St()), c.cdr).cells);
        ok := Store(cdr, cur + 2);
      }
    }

    /** One turn of pair_alloc's loop: lay out the pair at `cur`, and either link it to the next pair
        of the chain or finish the chain. */
    method Turn(c: Sexp, cur: int, ghost w: seq<Cell>, ghost first: int, ghost done: seq<Cell>, ghost total: Out)
      returns (ok: bool, finished: bool, n: int, ghost more: seq<Cell>)
      requires Valid() && c.Cons? && Readable(c) && e.base <= first && CacheLayable(e, cache, Size(c) - 1)
      requires Chain(e, w, world[..], first, cur, done, total, St(), c)
      modifies this, world, buckets
      ensures ok ==> Valid()
      ensures !ok ==> !Layable(e, c) || total.st.next > world.Length
      ensures ok && finished ==> Layable(e, c) && first + |total.cells| <= |w| && St() == total.st
                                 && world[..] == Written(w, first, total.cells)
      ensures ok && !finished ==> && c.cdr.Cons? && (Layable(e, c) <==> Layable(e, c.cdr))
                                  && Chain(e, w, world[..], first, n, more, total, St(), c.cdr)
                                  && CacheLayable(e, cache, Size(c.cdr) - 1)
      decreases Size(c), 1
    {
      hide Bucketed, Written, LayPair, Lay, Layable, CacheLayable, AllZero, PairCells, Chain;
      finished, n, more := false, cur, done;
      ghost var m, st := world[..], St();
      ghost var a := Lay(e, st, c.car);
      ChainHead(e, w, m, first, cur, done, total, st, c);
      LimitLess(e, cache, Size(c) - 1, Size(c.car));
      ok := LayCar(c, cur);
      if !ok { return; }
      EntriesLayable(e, st, c.car, Size(c) - 1);
      ZeroAt(m, cur, cur + 2);
      ThirdCell(e, m, cur, a.ref, a.cells, Fix(0));
      var cached: Option<Word> := None;
      if c.cdr.Cons? { cached := Lookup(c.cdr); }
      if c.cdr.Cons? && cached.None? {
        ok, n := Link(c.cdr, cur);
        more := ChainOn(e, w, m, first, cur, done, total, st, c);
        EnterBigger(e, a.st.cache, Size(c) - 1, c.cdr, Ptr(n));
      } else {
        LimitLess(e, cache, Size(c) - 1, Size(c.cdr));
        ok := LayLast(c, cur);
        finished := true;
        if ok { ChainEnd(e, w, m, first, cur, done, total, st, c); }
      }
    }

    /** pair_alloc: the cdr chain is a loop, and each pair after the first is entered in the cache
        before its cells are written. */
    method PairAlloc(c0: Sexp) returns (ok: bool, ref: Word)
      requires Valid() && c0.Cons? && Readable(c0) && CacheLayable(e, cache, Size(c0))
      modifies this, world, buckets
      ensures ok <==> Layable(e, c0) && LayPair(e, old(St()), c0).st.next <= world.Length
      ensures ok ==> Valid() && Did(LayPair(e, old(St()), c0)) && ref == LayPair(e, old(St()), c0).ref
      decreases Size(c0), 2
    {
      hide Bucketed, Written, LayPair, Lay, Layable, CacheLayable, AllZero, PairCells, Chain;
      ghost var w, total, done := world[..], LayPair(e, St(), c0), [];
      ChainStart(e, w, St(), c0);
      ref := Ptr(next);
      var first: int;
      ok, first := Alloc(3);
      if !ok { return; }
      ZeroLater(w, first, next);
      LimitLess(e, cache, Size(c0), Size(c0) - 1);
      var cur, c, finished := first, c0, false;
      while !finished
        invariant ok && Valid() && |w| == world.Length && e.base <= first
        invariant !finished ==>
                    && c.Cons? && Readable(c) && Size(c) <= Size(c0) && (Layable(e, c0) <==> Layable(e, c))
                    && Chain(e, w, world[..], first, cur, done, total, St(), c)
                    && CacheLayable(e, cache, Size(c) - 1)
        invariant finished ==> Layable(e, c0) && first + |total.cells| <= |w| && St() == total.st
                               && world[..] == Written(w, first, total.cells)
        decreases !finished, Size(c)
      {
        ok, finished, cur, done := Turn(c, cur, w, first, done, total);
        if !ok { return; }
        if !finished { c := c.cdr; }
      }
    }
  }
}
