/** Constants in the cold world (oak-cold-linker.c): what laying out an s-expression in the data
    region means, in the natural recursive formulation, and that the image decodes to the source. */
module ColdData {
  import opened Options
  import opened Words
  import opened Arith

  type Bytes = seq<int>

  datatype Sexp = Nil | Int(i: int) | Sym(name: Bytes) | Chr(c: int) | Str(s: Bytes)
                | Cons(car: Sexp, cdr: Sexp) | Bool(b: bool)

  /** A cell of the world: a number or a word of opcodes. */
  datatype Cell = Num(w: Word) | Opcodes(ops: seq<int>)
  {
    /** zero_enough */
    predicate Zero() {
      match this
      case Num(w) => w == Fix(0)
      case Opcodes(ops) => forall o <- ops :: o == 0
    }
  }

  function Size(s: Sexp): (n: nat)
    ensures n >= 1
  {
    match s
    case Cons(a, d) => 1 + Size(a) + Size(d)
    case _ => 1
  }

  /** Where the linker has put the objects constants refer to, and the target architecture:
      characters per word, and the bound on fixnums. */
  datatype Env = Env(nil: int, t: int, str: int, cons: int, base: int, cpw: int, limit: int,
                     syms: map<Bytes, int>)
  {
    ghost predicate Valid() {
      && ((cpw == 7 && limit == 0x2000_0000_0000_0000) || (cpw == 3 && limit == 0x2000_0000))
      && nil != t && str != cons && nil != str && nil != cons
      && 0 <= nil < base && 0 <= t < base && 0 <= str < base && 0 <= cons < base
      && (forall n <- syms :: 0 <= syms[n] < base && syms[n] != nil && syms[n] != t)
      && (forall m <- syms, n <- syms :: syms[m] == syms[n] ==> m == n)
    }
  }

  // ---- Strings ----

  function PackWord(s: Bytes): int {
    if s == [] then 0 else s[0] + 256 * PackWord(s[1..])
  }

  predicate AreBytes(s: Bytes) { forall i :: 0 <= i < |s| ==> 0 <= s[i] < 256 }

  function Pow256(k: nat): (p: int)
    ensures p >= 1
  {
    if k == 0 then 1 else 256 * Pow256(k - 1)
  }

  lemma {:induction false} PackRange(s: Bytes)
    requires AreBytes(s)
    ensures 0 <= PackWord(s) < Pow256(|s|)
  {
    if s != [] {
      PackRange(s[1..]);
    }
  }

  lemma {:induction false} PackSnoc(s: Bytes, b: int)
    ensures PackWord(s + [b]) == PackWord(s) + Pow256(|s|) * b
  {
    if s == [] {
      assert PackWord([b]) == b + 256 * PackWord([]);
    } else {
      PackSnoc(s[1..], b);
      assert (s + [b])[1..] == s[1..] + [b];
      MulAssoc(256, Pow256(|s| - 1), b);
    }
  }

  /** Byte `k` of a packed word, counted from the least significant. */
  lemma {:induction false} UnpackByte(s: Bytes, k: nat)
    requires AreBytes(s) && k < |s|
    ensures PackWord(s) / Pow256(k) % 256 == s[k]
  {
    if k == 0 {
      assert Pow256(0) == 1;
      assert PackWord(s) / 1 == PackWord(s);
    } else {
      assert AreBytes(s[1..]);
      UnpackByte(s[1..], k - 1);
      var n, p := PackWord(s[1..]), Pow256(k - 1);
      PackRange(s[1..]);
      assert PackWord(s) == s[0] + 256 * n && Pow256(k) == 256 * p;
      hide PackWord, Pow256;
      DivShift(256, s[0], n, p);
    }
  }

  function Min(a: int, b: int): int { if a < b then a else b }

  /** The words of a packed string, `cpw` characters to a word. */
  function StringWords(s: Bytes, cpw: int): (r: seq<Cell>)
    requires cpw >= 1
    decreases |s|
  {
    if s == [] then []
    else var k := Min(cpw, |s|);
         [Num(Fix(PackWord(s[..k])))] + StringWords(s[k..], cpw)
  }

  /** string_size: two header words, the length, and the packed characters. */
  function StringSize(s: Bytes, cpw: int): int
    requires cpw >= 1
  {
    3 + (|s| + cpw - 1) / cpw
  }

  lemma {:induction false} StringWordsCount(s: Bytes, cpw: int)
    requires cpw >= 1
    ensures 3 + |StringWords(s, cpw)| == StringSize(s, cpw)
    decreases |s|
  {
    hide PackWord;
    CeilStep(|s|, cpw);
    if s != [] {
      var k := Min(cpw, |s|);
      StringWordsCount(s[k..], cpw);
      if |s| <= cpw { CeilStep(0, cpw); }
    }
  }

  /** What oak_c_string_fill reads from the words at `at`: character `i` is byte `i % cpw` of
      word `i / cpw`. */
  function CharAt(w: seq<Cell>, at: int, cpw: int, i: int): int
    requires cpw >= 1
  {
    var j, k := at + i / cpw, i % cpw;
    if 0 <= j < |w| && w[j].Num? && w[j].w.Fix? then w[j].w.n / Pow256(k) % 256 else 0
  }

  /** Word `i / cpw` of a packed string holds character `i`. */
  lemma {:induction false} StringDecodes(s: Bytes, cpw: int, i: int)
    requires cpw >= 1 && AreBytes(s) && 0 <= i < |s|
    ensures 0 <= i / cpw < |StringWords(s, cpw)| && CharAt(StringWords(s, cpw), 0, cpw, i) == s[i]
    decreases |s|
  {
    var k := Min(cpw, |s|);
    DivStep(i, cpw);
    if i < cpw {
      UnpackByte(s[..k], i);
    } else {
      StringDecodes(s[cpw..], cpw, i - cpw);
    }
  }

  lemma CharAtShift(w: seq<Cell>, at: int, cells: seq<Cell>, cpw: int, i: int)
    requires cpw >= 1 && 0 <= at && at + |cells| <= |w| && w[at..at + |cells|] == cells
    requires 0 <= i / cpw < |cells|
    ensures CharAt(w, at, cpw, i) == CharAt(cells, 0, cpw, i)
  {
    assert w[at + i / cpw] == cells[i / cpw];
  }

  // ---- Layout ----

  /** next_free_dat, the pair cache and the empty string cache. */
  datatype State = State(next: int, cache: map<Sexp, Word>, empty: Option<Word>)

  /** The cells allocated from `State.next` on, the state after, and the reference. */
  datatype Out = Out(cells: seq<Cell>, st: State, ref: Word)

  function RealString(e: Env, s: Bytes): (r: seq<Cell>)
    requires e.cpw >= 1
    ensures |r| == StringSize(s, e.cpw)
  {
    StringWordsCount(s, e.cpw);
    [Num(Ptr(e.str)), Num(Fix(StringSize(s, e.cpw))), Num(Fix(|s|))] + StringWords(s, e.cpw)
  }

  function LayString(e: Env, st: State, s: Bytes): Out
    requires e.cpw >= 1
  {
    if s == [] && st.empty.Some? then Out([], st, st.empty.value)
    else
      var cells, ref := RealString(e, s), Ptr(st.next);
      Out(cells, State(st.next + |cells|, st.cache, if s == [] then Some(ref) else st.empty), ref)
  }

  /** constant_refgen */
  function Lay(e: Env, st: State, s: Sexp): (o: Out)
    requires e.cpw >= 1
    ensures o.st.next == st.next + |o.cells|
    decreases s, 1
  {
    match s
    case Nil => Out([], st, Ptr(e.nil))
    case Bool(b) => Out([], st, Ptr(if b then e.t else e.nil))
    case Int(i) => Out([], st, Fix(i))
    case Chr(c) => Out([], st, Imm(c * 64))
    case Sym(n) => Out([], st, Ptr(if n in e.syms then e.syms[n] else 0))
    case Str(x) => LayString(e, st, x)
    case Cons(_, _) =>
      if s in st.cache then Out([], st, st.cache[s])
      else var o := LayPair(e, st, s); o.(st := o.st.(cache := o.st.cache[s := o.ref]))
  }

  /** pair_alloc, recursing on the car and on the cdr. */
  function LayPair(e: Env, st: State, s: Sexp): (o: Out)
    requires e.cpw >= 1 && s.Cons?
    ensures o.st.next == st.next + |o.cells|
    decreases s, 0
  {
    var a := Lay(e, st.(next := st.next + 3), s.car);
    var d := Lay(e, a.st, s.cdr);
    Out([Num(Ptr(e.cons)), Num(a.ref), Num(d.ref)] + a.cells + d.cells, d.st, Ptr(st.next))
  }

  function WithEntry(o: Out, k: Sexp, v: Word): Out { o.(st := o.st.(cache := o.st.cache[k := v])) }

  /** An entry for a larger pair makes no difference to laying out `s`: that is why a pair may be
      entered in the cache before its own cells have been written. */
  lemma {:induction false} EntryCommutes(e: Env, st: State, s: Sexp, k: Sexp, v: Word)
    requires e.cpw >= 1 && Size(k) > Size(s)
    ensures Lay(e, st.(cache := st.cache[k := v]), s) == WithEntry(Lay(e, st, s), k, v)
    decreases s, 1
  {
    if s.Cons? && s !in st.cache {
      PairCommutes(e, st, s, k, v);
      var o := LayPair(e, st, s);
      assert o.st.cache[k := v][s := o.ref] == o.st.cache[s := o.ref][k := v];
    }
  }

  lemma {:induction false} PairCommutes(e: Env, st: State, s: Sexp, k: Sexp, v: Word)
    requires e.cpw >= 1 && s.Cons? && Size(k) >= Size(s)
    ensures LayPair(e, st.(cache := st.cache[k := v]), s) == WithEntry(LayPair(e, st, s), k, v)
    decreases s, 0
  {
    var st3 := st.(next := st.next + 3);
    EntryCommutes(e, st3, s.car, k, v);
    EntryCommutes(e, Lay(e, st3, s.car).st, s.cdr, k, v);
  }

  /** Entries of the caches are never changed. */
  lemma {:induction false} CacheKept(e: Env, st: State, s: Sexp)
    requires e.cpw >= 1
    ensures var r := Lay(e, st, s).st;
            && (forall k <- st.cache :: k in r.cache && r.cache[k] == st.cache[k])
            && (st.empty.Some? ==> r.empty == st.empty)
    ensures s.Cons? && s !in st.cache ==>
              var p := LayPair(e, st, s);
              && (forall k <- st.cache :: k in p.st.cache && p.st.cache[k] == st.cache[k])
              && (st.empty.Some? ==> p.st.empty == st.empty)
    decreases s
  {
    if s.Cons? && s !in st.cache {
      var st3 := st.(next := st.next + 3);
      CacheKept(e, st3, s.car);
      CacheKept(e, Lay(e, st3, s.car).st, s.cdr);
    }
  }

  /** A constant that is no string, or the empty one, is laid out once: another time, whatever has been laid out
      in between, it takes no cells and gets the same reference. */
  lemma {:induction false} LaidOnce(e: Env, st: State, s: Sexp, between: seq<Sexp>, states: seq<State>)
    requires e.cpw >= 1 && (s.Str? ==> s.s == []) && |states| == |between| + 1 && states[0] == Lay(e, st, s).st
    requires forall i :: 0 <= i < |between| ==> states[i + 1] == Lay(e, states[i], between[i]).st
    ensures Lay(e, states[|between|], s) == Out([], states[|between|], Lay(e, st, s).ref)
    decreases |between|
  {
    var n := |between| - 1;
    if n >= 0 {
      LaidOnce(e, st, s, between[..n], states[..n + 1]);
      assert states[n + 1] == Lay(e, states[n], between[n]).st;
      CacheKept(e, states[n], between[n]);
      hide Lay;
      Kept(e, states[n], states[n + 1], s);
    }
  }

  lemma Kept(e: Env, st: State, later: State, s: Sexp)
    requires e.cpw >= 1 && Lay(e, st, s).st == st && Lay(e, st, s).cells == [] && (s.Str? ==> s.s == [])
    requires forall k <- st.cache :: k in later.cache && later.cache[k] == st.cache[k]
    requires st.empty.Some? ==> later.empty == st.empty
    ensures Lay(e, later, s) == Out([], later, Lay(e, st, s).ref)
  {
  }

  lemma PairUnfolds(e: Env, st: State, c: Sexp)
    requires e.cpw >= 1 && c.Cons?
    ensures var p := LayPair(e, st, c);
            var a := Lay(e, st.(next := st.next + 3), c.car);
            var d := Lay(e, a.st, c.cdr);
            && p.ref == Ptr(st.next) && p.st == d.st && p.st.next == st.next + |p.cells|
            && p.cells == PairCells(e, a.ref, Num(d.ref), a.cells) + d.cells
            && |p.cells| == 3 + |a.cells| + |d.cells|
  {
  }

  /** Only pairs inside `s` are entered. */
  lemma {:induction false} EntriesInside(e: Env, st: State, s: Sexp)
    requires e.cpw >= 1
    ensures forall k <- Lay(e, st, s).st.cache :: k in st.cache || Size(k) <= Size(s)
    ensures s.Cons? ==> forall k <- LayPair(e, st, s).st.cache :: k in st.cache || Size(k) < Size(s)
    decreases s
  {
    if s.Cons? {
      var st3 := st.(next := st.next + 3);
      EntriesInside(e, st3, s.car);
      EntriesInside(e, Lay(e, st3, s.car).st, s.cdr);
    }
  }

  /** The cells of a pair, and of what its car needed. */
  function PairCells(e: Env, car: Word, third: Cell, cells: seq<Cell>): (r: seq<Cell>)
    ensures |r| == 3 + |cells|
  {
    [Num(Ptr(e.cons)), Num(car), third] + cells
  }

  /** One turn of pair_alloc's loop: the next pair of the cdr chain is allocated and entered before
      its own cells are written, and the result is that of recursing on the cdr. */
  lemma ChainStep(e: Env, st: State, s: Sexp)
    requires e.cpw >= 1 && s.Cons? && s.cdr.Cons?
    requires s.cdr !in Lay(e, st.(next := st.next + 3), s.car).st.cache
    ensures var a := Lay(e, st.(next := st.next + 3), s.car);
            var ref := Ptr(a.st.next);
            var o := LayPair(e, a.st.(cache := a.st.cache[s.cdr := ref]), s.cdr);
            && LayPair(e, st, s).cells == PairCells(e, a.ref, Num(ref), a.cells) + o.cells
            && LayPair(e, st, s).st == o.st
  {
    var a := Lay(e, st.(next := st.next + 3), s.car);
    PairCommutes(e, a.st, s.cdr, s.cdr, Ptr(a.st.next));
  }

  // ---- What the counting pass adds for a constant ----

  /** The cells a constant can need: what count_data adds for everything but the symbols in it. */
  function CellCost(s: Sexp, cpw: int): (n: nat)
    requires cpw >= 1
  {
    match s
    case Str(x) => StringWordsCount(x, cpw); StringSize(x, cpw)
    case Cons(a, d) => 3 + CellCost(a, cpw) + CellCost(d, cpw)
    case _ => 0
  }

  /** However much is already cached, laying out a constant takes no more cells than were counted
      for it. */
  lemma {:induction false} LayFits(e: Env, st: State, s: Sexp)
    requires e.cpw >= 1
    ensures |Lay(e, st, s).cells| <= CellCost(s, e.cpw)
    decreases s
  {
    if s.Cons? && s !in st.cache {
      LayFits(e, st.(next := st.next + 3), s.car);
      LayFits(e, Lay(e, st.(next := st.next + 3), s.car).st, s.cdr);
    }
  }

  // ---- Meaning ----

  /** The symbols are in the table and the integers are fixnums of the target. */
  predicate Layable(e: Env, s: Sexp) {
    match s
    case Sym(n) => n in e.syms
    case Int(i) => -e.limit <= i < e.limit
    case Cons(a, d) => Layable(e, a) && Layable(e, d)
    case _ => true
  }

  /** Strings are as the reader makes them: bytes, and less than 65536 of them. */
  predicate Readable(s: Sexp) {
    match s
    case Sym(n) => AreBytes(n)
    case Str(x) => AreBytes(x) && |x| < 65536
    case Cons(a, d) => Readable(a) && Readable(d)
    case _ => true
  }

  /** Every cached pair of size at most `n` is layable. */
  ghost predicate CacheLayable(e: Env, cache: map<Sexp, Word>, n: int) {
    forall k <- cache :: Size(k) <= n ==> Layable(e, k)
  }

  lemma {:induction false} EntriesLayable(e: Env, st: State, s: Sexp, n: int)
    requires e.cpw >= 1 && Layable(e, s) && CacheLayable(e, st.cache, n)
    ensures CacheLayable(e, Lay(e, st, s).st.cache, n)
    decreases s
  {
    if s.Cons? && s !in st.cache {
      var st3 := st.(next := st.next + 3);
      EntriesLayable(e, st3, s.car, n);
      EntriesLayable(e, Lay(e, st3, s.car).st, s.cdr, n);
    }
  }

  /** The reference `r` stands for `s` in the world `w`, using data cells below `n` only. */
  ghost predicate Denotes(e: Env, w: seq<Cell>, n: int, r: Word, s: Sexp)
    requires e.cpw >= 1
    decreases s
  {
    match s
    case Nil => r == Ptr(e.nil)
    case Bool(b) => r == Ptr(if b then e.t else e.nil)
    case Int(i) => r == Fix(i)
    case Chr(c) => r == Imm(c * 64)
    case Sym(name) => name in e.syms && r == Ptr(e.syms[name])
    case Str(x) =>
      && r.Ptr? && 0 <= e.base <= r.a && r.a + StringSize(x, e.cpw) <= n <= |w|
      && w[r.a..r.a + StringSize(x, e.cpw)] == RealString(e, x)
    case Cons(a, d) =>
      && r.Ptr? && 0 <= e.base <= r.a && r.a + 3 <= n <= |w| && w[r.a] == Num(Ptr(e.cons))
      && w[r.a + 1].Num? && Denotes(e, w, n, w[r.a + 1].w, a)
      && w[r.a + 2].Num? && Denotes(e, w, n, w[r.a + 2].w, d)
  }

  /** What a reference stands for depends only on the data cells below its bound. */
  lemma {:induction false} DenotesKept(e: Env, w: seq<Cell>, n: int, w': seq<Cell>, n': int, r: Word, s: Sexp)
    requires e.cpw >= 1 && Denotes(e, w, n, r, s) && n <= n' <= |w'|
    requires 0 <= e.base && n <= |w|
    requires forall a :: e.base <= a < n ==> w'[a] == w[a]
    ensures Denotes(e, w', n', r, s)
    decreases s
  {
    if s.Cons? {
      DenotesKept(e, w, n, w', n', w[r.a + 1].w, s.car);
      DenotesKept(e, w, n, w', n', w[r.a + 2].w, s.cdr);
    } else if s.Str? {
      var top := r.a + StringSize(s.s, e.cpw);
      assert w'[r.a..top] == w[r.a..top];
    }
  }

  ghost predicate StateOk(e: Env, w: seq<Cell>, st: State)
    requires e.cpw >= 1
  {
    && 0 <= e.base <= st.next <= |w|
    && (forall k <- st.cache :: Denotes(e, w, st.next, st.cache[k], k))
    && (st.empty.Some? ==> Denotes(e, w, st.next, st.empty.value, Str([])))
  }

  lemma StateGrows(e: Env, w: seq<Cell>, st: State, n: int)
    requires e.cpw >= 1 && StateOk(e, w, st) && st.next <= n <= |w|
    ensures StateOk(e, w, st.(next := n))
  {
    forall k <- st.cache ensures Denotes(e, w, n, st.cache[k], k) {
      DenotesKept(e, w, st.next, w, n, st.cache[k], k);
    }
    if st.empty.Some? { DenotesKept(e, w, st.next, w, n, st.empty.value, Str([])); }
  }

  lemma StringDenotes(e: Env, w: seq<Cell>, st: State, x: Bytes)
    requires e.cpw >= 1 && StateOk(e, w, st)
    requires var o := LayString(e, st, x); o.st.next <= |w| && w[st.next..o.st.next] == o.cells
    ensures var o := LayString(e, st, x); Denotes(e, w, o.st.next, o.ref, Str(x)) && StateOk(e, w, o.st)
  {
    var o := LayString(e, st, x);
    StateGrows(e, w, st, o.st.next);
  }

  /** The reference returned for a constant stands for it, in any world that holds the cells. */
  lemma {:induction false} LayDenotes(e: Env, w: seq<Cell>, st: State, s: Sexp)
    requires e.cpw >= 1 && StateOk(e, w, st) && Layable(e, s)
    requires var o := Lay(e, st, s); o.st.next <= |w| && w[st.next..o.st.next] == o.cells
    ensures var o := Lay(e, st, s); Denotes(e, w, o.st.next, o.ref, s) && StateOk(e, w, o.st)
    decreases s, 1
  {
    match s
    case Str(x) => StringDenotes(e, w, st, x);
    case Cons(_, _) => if s !in st.cache { PairDenotes(e, w, st, s); }
    case _ =>
  }

  lemma {:induction false} PairDenotes(e: Env, w: seq<Cell>, st: State, s: Sexp)
    requires e.cpw >= 1 && s.Cons? && StateOk(e, w, st) && Layable(e, s)
    requires var o := LayPair(e, st, s); o.st.next <= |w| && w[st.next..o.st.next] == o.cells
    ensures var o := LayPair(e, st, s); Denotes(e, w, o.st.next, o.ref, s) && StateOk(e, w, o.st)
    decreases s, 0
  {
    hide StateOk, Denotes, Lay, LayPair, Layable, PairCells;
    var o := LayPair(e, st, s);
    LayableParts(e, s);
    PairUnfolds(e, st, s);
    var st3 := st.(next := st.next + 3);
    var a := Lay(e, st3, s.car);
    var d := Lay(e, a.st, s.cdr);
    BaseBelow(e, w, st);
    PairParts(e, w, st.next, a.ref, d.ref, a.cells, d.cells);
    StateGrows(e, w, st, st3.next);
    LayDenotes(e, w, st3, s.car);
    LayDenotes(e, w, a.st, s.cdr);
    DenotesKept(e, w, a.st.next, w, o.st.next, a.ref, s.car);
    PairIs(e, w, o.st.next, st.next, s, a.ref, d.ref);
  }

  lemma PairParts(e: Env, w: seq<Cell>, at: int, car: Word, cdr: Word, a: seq<Cell>, d: seq<Cell>)
    requires 0 <= at && at + 3 + |a| + |d| <= |w|
    requires w[at..at + 3 + |a| + |d|] == PairCells(e, car, Num(cdr), a) + d
    ensures w[at] == Num(Ptr(e.cons)) && w[at + 1] == Num(car) && w[at + 2] == Num(cdr)
    ensures w[at + 3..at + 3 + |a|] == a && w[at + 3 + |a|..at + 3 + |a| + |d|] == d
  {
    var cells := PairCells(e, car, Num(cdr), a) + d;
    Parts(w, at, cells, 3, 3 + |a|);
    assert cells[3..3 + |a|] == a && cells[3 + |a|..] == d;
    assert w[at + 0] == cells[0] && w[at + 1] == cells[1] && w[at + 2] == cells[2];
  }

  lemma LayableParts(e: Env, s: Sexp)
    requires s.Cons?
    ensures Layable(e, s) <==> Layable(e, s.car) && Layable(e, s.cdr)
  {
  }

  lemma PairIs(e: Env, w: seq<Cell>, n: int, at: int, s: Sexp, car: Word, cdr: Word)
    requires e.cpw >= 1 && s.Cons? && 0 <= e.base <= at && at + 3 <= n <= |w|
    requires w[at] == Num(Ptr(e.cons)) && w[at + 1] == Num(car) && w[at + 2] == Num(cdr)
    requires Denotes(e, w, n, car, s.car) && Denotes(e, w, n, cdr, s.cdr)
    ensures Denotes(e, w, n, Ptr(at), s)
  {
  }

  lemma BaseBelow(e: Env, w: seq<Cell>, st: State)
    requires e.cpw >= 1 && StateOk(e, w, st)
    ensures 0 <= e.base <= st.next
  {
  }

  lemma Parts(w: seq<Cell>, at: int, cells: seq<Cell>, i: int, j: int)
    requires 0 <= at && at + |cells| <= |w| && w[at..at + |cells|] == cells && 0 <= i <= j <= |cells|
    ensures w[at + i..at + j] == cells[i..j] && w[at + j..at + |cells|] == cells[j..]
    ensures forall k :: 0 <= k < |cells| ==> w[at + k] == cells[k]
  {
    forall k | 0 <= k < |cells| ensures w[at + k] == cells[k] {
      assert w[at..at + |cells|][k] == cells[k];
    }
  }

  // ---- Decoding ----

  /** `#f` and `()` are one object in the image. */
  function Norm(s: Sexp): Sexp {
    match s
    case Bool(b) => if b then s else Nil
    case Cons(a, d) => Cons(Norm(a), Norm(d))
    case _ => s
  }

  /** It changes nothing but `#f`. */
  lemma {:induction false} NormIs(s: Sexp)
    ensures NoFalse(s) <==> Norm(s) == s
    ensures NoFalse(Norm(s))
    decreases s
  {
    if s.Cons? {
      NormIs(s.car);
      NormIs(s.cdr);
    }
  }

  predicate NoFalse(s: Sexp) {
    match s
    case Bool(b) => b
    case Cons(a, d) => NoFalse(a) && NoFalse(d)
    case _ => true
  }

  function ReadString(w: seq<Cell>, at: int, cpw: int, len: int): Option<Bytes>
    requires cpw >= 1
  {
    if len >= 0 then Some(seq(len, i requires 0 <= i < len => CharAt(w, at, cpw, i)))
    else None
  }

  /** The string object at `a`. */
  function StringAt(e: Env, w: seq<Cell>, a: int): Option<Bytes>
    requires e.cpw >= 1
  {
    if 0 <= a < |w| - 2 && w[a] == Num(Ptr(e.str)) && w[a + 2].Num? && w[a + 2].w.Fix?
    then ReadString(w, a + 3, e.cpw, w[a + 2].w.n)
    else None
  }

  /** A symbol object, whose type is filled in when the world starts, is told by its type slot; its
      name is a string. */
  function SymbolAt(e: Env, w: seq<Cell>, a: int): Option<Bytes>
    requires e.cpw >= 1
  {
    if 0 <= a < |w| - 1 && w[a] == Num(Ptr(e.nil)) && w[a + 1].Num? && w[a + 1].w.Ptr?
    then StringAt(e, w, w[a + 1].w.a)
    else None
  }

  /** Read a reference back from the image alone, following at most `fuel` pairs in a row. */
  function Decode(e: Env, w: seq<Cell>, r: Word, fuel: nat): Option<Sexp>
    requires e.cpw >= 1
    decreases fuel
  {
    match r
    case Fix(n) => Some(Int(n))
    case Imm(c) => Some(Chr(c / 64))
    case Loc(_) => None
    case Ptr(a) =>
      if a == e.nil then Some(Nil)
      else if a == e.t then Some(Bool(true))
      else if SymbolAt(e, w, a).Some? then Some(Sym(SymbolAt(e, w, a).value))
      else if StringAt(e, w, a).Some? then Some(Str(StringAt(e, w, a).value))
      else if 0 <= a < |w| - 2 && fuel > 0 && w[a] == Num(Ptr(e.cons)) && w[a + 1].Num? && w[a + 2].Num? then
        var car := Decode(e, w, w[a + 1].w, fuel - 1);
        var cdr := Decode(e, w, w[a + 2].w, fuel - 1);
        if car.Some? && cdr.Some? then Some(Cons(car.value, cdr.value)) else None
      else None
  }

  /** The symbol object of `name` is in the image. */
  ghost predicate Named(e: Env, w: seq<Cell>, n: int, name: Bytes)
    requires e.cpw >= 1
  {
    && name in e.syms
    && var a := e.syms[name];
    && 0 <= a && a + 1 < |w| && w[a] == Num(Ptr(e.nil))
    && w[a + 1].Num? && Denotes(e, w, n, w[a + 1].w, Str(name))
  }

  lemma NameDecodes(e: Env, w: seq<Cell>, n: int, name: Bytes)
    requires e.Valid() && Named(e, w, n, name) && AreBytes(name)
    ensures SymbolAt(e, w, e.syms[name]) == Some(name)
  {
    hide RealString, StringSize, AreBytes, ReadString;
    StringBack(e, w, n, w[e.syms[name] + 1], name);
  }

  lemma StringBack(e: Env, w: seq<Cell>, n: int, c: Cell, x: Bytes)
    requires e.cpw >= 1 && AreBytes(x) && c.Num? && Denotes(e, w, n, c.w, Str(x))
    ensures c.w.Ptr? && StringAt(e, w, c.w.a) == Some(x) && 0 <= c.w.a < |w| && w[c.w.a] == Num(Ptr(e.str))
  {
    hide RealString, AreBytes, ReadString;
    StringWordsCount(x, e.cpw);
    ReadBack(e, w, c.w.a, x);
  }

  lemma ReadBack(e: Env, w: seq<Cell>, at: int, x: Bytes)
    requires e.cpw >= 1 && AreBytes(x) && 0 <= at && at + StringSize(x, e.cpw) <= |w|
    requires w[at..at + StringSize(x, e.cpw)] == RealString(e, x)
    ensures w[at] == Num(Ptr(e.str)) && w[at + 2] == Num(Fix(|x|)) && at + 3 <= |w|
    ensures ReadString(w, at + 3, e.cpw, |x|) == Some(x)
  {
    hide CharAt, StringWords;
    var n := StringSize(x, e.cpw);
    var cells := RealString(e, x);
    StringWordsCount(x, e.cpw);
    assert |cells| == n;
    Parts(w, at, cells, 3, n);
    assert w[at + 0] == cells[0];
    assert w[at + 2] == cells[2];
    assert cells[3..n] == StringWords(x, e.cpw);
    forall i | 0 <= i < |x| ensures CharAt(w, at + 3, e.cpw, i) == x[i] {
      StringDecodes(x, e.cpw, i);
      CharAtShift(w, at + 3, StringWords(x, e.cpw), e.cpw, i);
    }
    assert ReadString(w, at + 3, e.cpw, |x|).value == x;
  }

  /** The image is the source: a reference that stands for a constant decodes to it. */
  lemma {:induction false} DenotesDecodes(e: Env, w: seq<Cell>, n: int, r: Word, s: Sexp, fuel: nat)
    requires e.Valid() && Readable(s) && Denotes(e, w, n, r, s) && fuel >= Size(s)
    requires forall name <- e.syms :: Named(e, w, n, name)
    ensures Decode(e, w, r, fuel) == Some(Norm(s))
    decreases s
  {
    hide StringAt, RealString, StringSize, AreBytes, StringWords, PackWord, Lay, CellCost, StateOk, Named;
    match s
    case Sym(name) => NameDecodes(e, w, n, name);
    case Str(x) => StringBack(e, w, n, Num(r), x);
    case Cons(a, d) =>
      DenotesDecodes(e, w, n, w[r.a + 1].w, a, fuel - 1);
      DenotesDecodes(e, w, n, w[r.a + 2].w, d, fuel - 1);
      NoString(e, w, r.a);
    case _ =>
  }

  lemma NoString(e: Env, w: seq<Cell>, a: int)
    requires e.Valid() && 0 <= a < |w| && w[a] == Num(Ptr(e.cons))
    ensures StringAt(e, w, a) == None && SymbolAt(e, w, a) == None
  {
  }
}
