/** What a finished copying collection means: the new heap is the old one with cells renamed. */
module Isomorphism {
  import opened Words
  import opened CopyHeap
  import opened CopyPassTwo
  import opened Firm
  import opened LocChain

  /** Every copied word, and every static word that was scanned, is the image of its original. */
  ghost predicate Collected(e: Env, v: Move, m: seq<Word>, free: int) {
    && PassTwo(e, v, m, free)
    && DoneFrom(e, v, m, e.l.newLo, free)
    && StaticDone(e, v, m)
  }

  ghost predicate StaticDone(e: Env, v: Move, m: seq<Word>) {
    |m| <= |e.orig| && forall a :: 0 <= a < |m| && e.l.IsStatic(a) ==> Done(e, v, e.orig[a], m[a])
  }

  lemma CopyAt(e: Env, v: Move, m: seq<Word>, free: int, a: int)
    requires Collected(e, v, m, free) && a in v.fwd
    ensures e.l.IsUsed(a) && 0 <= a < |e.orig| && WordOk(e, e.orig[a])
    ensures e.l.newLo <= v.fwd[a] < free <= |m| && 0 <= v.fwd[a] && Done(e, v, e.orig[a], m[v.fwd[a]])
  {
    hide ObjectsOk, Closed, GoodOk, WholeOk, Done, Forwarding, WordOk;
    assert Source(e, v, v.fwd[a]) == e.orig[a];
  }

  /** The moved cells are closed under reference: nothing reachable is left behind. */
  lemma MovedClosed(e: Env, v: Move, m: seq<Word>, free: int)
    requires Collected(e, v, m, free)
    ensures Closed(e, v.fwd.Keys)
  {
    hide EnvOk, GoodOk, Forwarding, Bijection, Image, DoneFrom, StaticDone, Len, RefIn;
    forall a <- v.fwd.Keys ensures 0 <= a < |e.orig| && RefIn(e, v.fwd.Keys, e.orig[a]) {
      CopyAt(e, v, m, free, a);
      DoneRefIn(e, v, e.orig[a], m[v.fwd[a]]);
    }
  }

  lemma DoneRefIn(e: Env, v: Move, w0: Word, w: Word)
    requires WholeOk(e, v) && Done(e, v, w0, w)
    ensures RefIn(e, v.fwd.Keys, w0)
  {
  }

  /** EQ? is preserved: distinct references have distinct images, and references never become
      equal to other words. */
  lemma ImageInjective(e: Env, v: Move, m: seq<Word>, free: int, w1: Word, w1': Word, w2: Word, w2': Word)
    requires Collected(e, v, m, free) && WordOk(e, w1) && WordOk(e, w2)
    requires Done(e, v, w1, w1') && Done(e, v, w2, w2')
    ensures w1 == w2 <==> w1' == w2'
  {
    hide ObjectsOk, Closed, GoodOk, Forwarding, DoneFrom, StaticDone, Len;
    if w1.IsRef() && w1.a in v.fwd && w2.IsRef() && w2.a in v.fwd {
      assert v.back[v.fwd[w1.a] - e.l.newLo] == w1.a && v.back[v.fwd[w2.a] - e.l.newLo] == w2.a;
    }
  }

  // ------------------------------------------------------------------ access paths

  /** The cell reached from a reference: slot k of an object, or the cell of a locative. */
  function Target(w: Word, k: nat): int
    requires w.IsRef()
  {
    if w.Ptr? then w.a + k else w.a
  }

  /** Following a path of slot numbers; the walk stops at a word that is no reference. */
  function Follow(m: seq<Word>, w: Word, path: seq<nat>): Word
    decreases |path|
  {
    if path == [] || !w.IsRef() || !(0 <= Target(w, path[0]) < |m|) then w
    else Follow(m, m[Target(w, path[0])], path[1..])
  }

  /** The slots a program may access: within the object's length, or in static space. */
  ghost predicate MayAccess(e: Env, w: Word, k: nat) {
    w.IsRef() ==>
      if OldPtr(e.l, w) then k < Len(e, w.a)
      else OldLoc(e.l, w) || e.l.IsStatic(Target(w, k))
  }

  ghost predicate Legal(e: Env, w: Word, path: seq<nat>)
    decreases |path|
  {
    path == [] ||
    (MayAccess(e, w, path[0]) &&
     (w.IsRef() && 0 <= Target(w, path[0]) < |e.orig| ==> Legal(e, e.orig[Target(w, path[0])], path[1..])))
  }

  /** One access in the old heap and the same access in the new heap. */
  lemma AccessSame(e: Env, v: Move, m: seq<Word>, free: int, w0: Word, w: Word, k: nat)
    requires Collected(e, v, m, free) && WordOk(e, w0) && Done(e, v, w0, w) && MayAccess(e, w0, k) && w0.IsRef()
    ensures w.IsRef() && 0 <= Target(w0, k) < |e.orig| && 0 <= Target(w, k) < |m|
    ensures WordOk(e, e.orig[Target(w0, k)]) && Done(e, v, e.orig[Target(w0, k)], m[Target(w, k)])
  {
    hide ObjectsOk, Closed, GoodOk, Bijection, Forwarding, DoneFrom, Len, WordOk;
    PassTwoShape(e, v, m, free);
    if OldPtr(e.l, w0) || OldLoc(e.l, w0) {
      var a := Target(w0, k);
      assert w0.a in v.fwd;
      assert a in v.fwd && v.fwd[a] == Target(w, k);
      CopyAt(e, v, m, free, a);
    }
  }

  /** Any program that reads its way through the heap from corresponding roots sees corresponding
      words: sharing, cycles and locatives into objects are all preserved. */
  lemma {:induction false} FollowSame(e: Env, v: Move, m: seq<Word>, free: int, w0: Word, w: Word, path: seq<nat>)
    requires Collected(e, v, m, free) && WordOk(e, w0) && Done(e, v, w0, w) && Legal(e, w0, path)
    ensures Done(e, v, Follow(e.orig, w0, path), Follow(m, w, path)) && WordOk(e, Follow(e.orig, w0, path))
    decreases |path|
  {
    hide Collected, WordOk, PtrDone, LocDone;
    if path != [] && w0.IsRef() {
      AccessSame(e, v, m, free, w0, w, path[0]);
      FollowSame(e, v, m, free, e.orig[Target(w0, path[0])], m[Target(w, path[0])], path[1..]);
    }
  }

  /** Word `w` leads to a cell of memory, an object's slot `k` or a locative's own, that holds `next`. */
  predicate Reads(m: seq<Word>, w: Word, k: nat, next: Word) {
    w.IsRef() && var a := if w.Ptr? then w.a + k else w.a; 0 <= a < |m| && m[a] == next
  }

  /** The same without any notion of a path: whatever words a program has read one after the other before the
      collection, from a root on, it would read their images in the same way after it. */
  lemma {:induction false} ReadsSame(e: Env, v: Move, m: seq<Word>, free: int, words: seq<Word>, slots: seq<nat>)
    requires Collected(e, v, m, free) && |words| == |slots| + 1
    requires WordOk(e, words[0]) && PtrDone(e, v, words[0]) && LocDone(e, v, words[0])
    requires forall i :: 0 <= i < |slots| ==>
               MayAccess(e, words[i], slots[i]) && Reads(e.orig, words[i], slots[i], words[i + 1])
    ensures forall i :: 0 <= i < |slots| ==>
              Reads(m, Image(e, v, words[i]), slots[i], Image(e, v, words[i + 1]))
    decreases |slots|
  {
    hide Collected, WordOk, PtrDone, LocDone, Image, MayAccess;
    if slots != [] {
      var tail, rest := words[1..], slots[1..];
      assert MayAccess(e, words[0], slots[0]) && Reads(e.orig, words[0], slots[0], words[0 + 1]);
      AccessSame(e, v, m, free, words[0], Image(e, v, words[0]), slots[0]);
      hide Reads;
      forall i | 0 <= i < |rest|
        ensures MayAccess(e, tail[i], rest[i]) && Reads(e.orig, tail[i], rest[i], tail[i + 1])
      {
        var j := i + 1;
        assert MayAccess(e, words[j], slots[j]) && Reads(e.orig, words[j], slots[j], words[j + 1]);
      }
      ReadsSame(e, v, m, free, tail, rest);
      forall i | 0 <= i < |slots| ensures Reads(m, Image(e, v, words[i]), slots[i], Image(e, v, words[i + 1])) {
        if i > 0 {
          var j := i - 1;
          assert Reads(m, Image(e, v, tail[j]), rest[j], Image(e, v, tail[j + 1]));
        }
      }
    }
  }

  // ------------------------------------------------------------------ roots of pass two only

  /** Cells that come through the collection whole although locatives alone lead to them: each is
      moved with its object, or on its own and then holds nothing that pass one leaves behind.
      All of it can be found out before the collection. */
  ghost predicate Redirectable(e: Env, roots: seq<Word>, g: set<int>) {
    forall a <- g :: 0 <= a < |e.orig| ==> (a in FirmCells(e, roots) || LonelyFine(e, roots, g, e.orig[a]))
  }

  ghost predicate LonelyFine(e: Env, roots: seq<Word>, g: set<int>, w: Word) {
    && (OldPtr(e.l, w) ==> w.a in FirmCells(e, roots))
    && (OldLoc(e.l, w) ==> w.a in g)
  }

  /** A locative that is only looked at in pass two (e_bp, the program counter). */
  ghost predicate InnerOk(e: Env, roots: seq<Word>, w: Word) {
    && WordOk(e, w) && RefIn(e, e.live, w) && !OldPtr(e.l, w)
    && (OldLoc(e.l, w) ==> exists g :: w.a in g && Redirectable(e, roots, g))
  }

  /** Word `n` of the chain from `w` is a locative to a cell that pass one does not move. */
  ghost predicate LonelyLink(e: Env, roots: seq<Word>, w: Word, n: nat)
    requires e.l.Valid() && |e.orig| == e.l.size
  {
    OldLoc(e.l, Nth(e.l, e.orig, w, n)) && Nth(e.l, e.orig, w, n).a !in FirmCells(e, roots)
  }

  /** After `n` links through such cells the chain comes to one more, whose object is left behind. */
  ghost predicate LostAt(e: Env, roots: seq<Word>, w: Word, n: nat)
    requires e.l.Valid() && |e.orig| == e.l.size
  {
    && (forall i: nat :: i <= n ==> LonelyLink(e, roots, w, i))
    && var c := Nth(e.l, e.orig, w, n + 1); OldPtr(e.l, c) && c.a !in FirmCells(e, roots)
  }

  /** The condition, read along the chain: it holds exactly when no such cell is come to. */
  lemma InnerExact(e: Env, roots: seq<Word>, w: Word)
    requires e.l.Valid() && |e.orig| == e.l.size && OldLoc(e.l, w)
    ensures (exists g :: w.a in g && Redirectable(e, roots, g)) <==> !exists n: nat :: LostAt(e, roots, w, n)
  {
    if g, n: nat :| w.a in g && Redirectable(e, roots, g) && LostAt(e, roots, w, n) {
      ChainInside(e, roots, g, w, n);
    }
    if forall n: nat :: !LostAt(e, roots, w, n) { ChainRedirects(e, roots, w); }
  }

  lemma {:induction false} ChainInside(e: Env, roots: seq<Word>, g: set<int>, w: Word, n: nat)
    requires e.l.Valid() && |e.orig| == e.l.size && OldLoc(e.l, w) && w.a in g && Redirectable(e, roots, g)
    requires forall i: nat :: i <= n ==> LonelyLink(e, roots, w, i)
    ensures !LostAt(e, roots, w, n)
    ensures OldLoc(e.l, Nth(e.l, e.orig, w, n)) && Nth(e.l, e.orig, w, n).a in g
  {
    hide FirmCells;
    if n > 0 {
      ChainInside(e, roots, g, w, n - 1);
      assert LonelyLink(e, roots, w, n - 1) && LonelyLink(e, roots, w, n);
      assert LonelyFine(e, roots, g, Nth(e.l, e.orig, w, n));
    }
    assert LonelyLink(e, roots, w, n);
    assert LonelyFine(e, roots, g, Nth(e.l, e.orig, w, n + 1));
  }

  /** The cells of the chain up to the first one that pass one moves. */
  ghost predicate OnWay(e: Env, roots: seq<Word>, w: Word, n: nat, a: int)
    requires e.l.Valid() && |e.orig| == e.l.size
  {
    && (forall i: nat :: i < n ==> LonelyLink(e, roots, w, i))
    && OldLoc(e.l, Nth(e.l, e.orig, w, n)) && Nth(e.l, e.orig, w, n).a == a
  }

  ghost predicate OnSomeWay(e: Env, roots: seq<Word>, w: Word, a: int)
    requires e.l.Valid() && |e.orig| == e.l.size
  {
    exists n: nat :: OnWay(e, roots, w, n, a)
  }

  lemma ChainRedirects(e: Env, roots: seq<Word>, w: Word)
    requires e.l.Valid() && |e.orig| == e.l.size && OldLoc(e.l, w)
    requires forall n: nat :: !LostAt(e, roots, w, n)
    ensures exists g :: w.a in g && Redirectable(e, roots, g)
  {
    hide FirmCells;
    var g := set a | 0 <= a < |e.orig| && OnSomeWay(e, roots, w, a);
    assert OnWay(e, roots, w, 0, w.a);
    forall a <- g | a !in FirmCells(e, roots) ensures LonelyFine(e, roots, g, e.orig[a]) {
      var n: nat :| OnWay(e, roots, w, n, a);
      assert LonelyLink(e, roots, w, n);
      assert e.orig[a] == Nth(e.l, e.orig, w, n + 1);
      assert !LostAt(e, roots, w, n);
      if OldLoc(e.l, e.orig[a]) { assert OnWay(e, roots, w, n + 1, e.orig[a].a); }
    }
    assert Redirectable(e, roots, g);
  }

  /** The cells such locatives may lead to. */
  ghost function InnerCells(e: Env, roots: seq<Word>): set<int> {
    set a | a in e.live && 0 <= a < |e.orig| && e.l.IsUsed(a) && (exists g :: a in g && Redirectable(e, roots, g))
  }

  /** Add the cells the inner roots lead to to those whose chain has been followed. */
  ghost function InnerMove(e: Env, roots: seq<Word>, v: Move): Move {
    v.(good := v.good + InnerCells(e, roots))
  }

  lemma InnerGood(e: Env, v: Move, m: seq<Word>, free: int, roots: seq<Word>)
    requires PassTwo(e, v, m, free) && v.fwd.Keys == FirmCells(e, roots) && FirmMoved(e, v, roots)
    ensures PassTwo(e, InnerMove(e, roots, v), m, free)
    ensures Extends(v, InnerMove(e, roots, v)) && InnerMove(e, roots, v).whole == v.whole
  {
    hide ObjectsOk, FirmCells, Len, Redirectable;
    var u := InnerMove(e, roots, v);
    forall a <- u.good
      ensures 0 <= a < |e.orig| && e.l.IsUsed(a)
              && (a in u.fwd || (PtrDone(e, u, e.orig[a]) && LocGood(e, u, e.orig[a])))
    {
      if a !in v.good && a !in v.fwd { InnerStep(e, v, roots, a); }
    }
  }

  lemma InnerStep(e: Env, v: Move, roots: seq<Word>, a: int)
    requires EnvOk(e) && a in InnerCells(e, roots) && a !in FirmCells(e, roots) && FirmMoved(e, v, roots)
    ensures PtrDone(e, v, e.orig[a]) && (OldLoc(e.l, e.orig[a]) ==> e.orig[a].a in InnerCells(e, roots))
  {
    hide ObjectsOk, FirmCells, Len;
    var g :| a in g && Redirectable(e, roots, g);
    assert LonelyFine(e, roots, g, e.orig[a]);
    assert WordOk(e, e.orig[a]) && RefIn(e, e.live, e.orig[a]);
  }

  /** Then a locative can be redirected if it meets the condition. */
  lemma InnerReady(e: Env, v: Move, m: seq<Word>, free: int, roots: seq<Word>, w: Word)
    requires PassTwo(e, v, m, free) && InnerCells(e, roots) <= v.good && InnerOk(e, roots, w)
    ensures Ready(e, v, w) && PtrDone(e, v, w) && PtrImage(e, v, w) == w
  {
    hide ObjectsOk, Forwarding, Len, Redirectable;
    if OldLoc(e.l, w) { assert w.a in InnerCells(e, roots); }
  }

  /** And a cell that is moved on its own gets the image of a pointer exactly if the object it points
      to is one that pointers and chains of locatives lead to from the roots of pass one. */
  lemma LonelyExactBefore(e: Env, v: Move, m: seq<Word>, free: int, roots: seq<Word>, a: int)
    requires PassTwo(e, v, m, free) && FirmMoved(e, v, roots)
    requires e.l.IsUsed(a) && 0 <= a < |e.orig| && a !in v.fwd && |m| == |e.orig| && OldPtr(e.l, e.orig[a])
    ensures 0 <= e.orig[a].a < |m|
    ensures Half(e, v, e.orig[a], LonelyWord(e.l, m, e.orig[a])) <==> e.orig[a].a in FirmCells(e, roots)
  {
    hide Len, Closed, GoodOk, FirmCells;
    assert WordOk(e, e.orig[a]);
    LonelyExact(e, v, m, free, a);
  }

  // ------------------------------------------------------------------ weak pointers

  /** A weak table entry survives exactly when its target cell was moved. */
  ghost function WeakImage(e: Env, v: Move, w: Word, nil: Word): Word {
    if w.IsRef() && e.l.IsOld(w.a) then
      if w.a !in v.fwd then nil else if w.Loc? then Loc(v.fwd[w.a]) else Ptr(v.fwd[w.a])
    else w
  }

  ghost predicate AllDone(e: Env, v: Move, olds: seq<Word>, news: seq<Word>) {
    |news| == |olds| && forall k :: 0 <= k < |olds| ==> Done(e, v, olds[k], news[k])
  }

  ghost predicate AllHalf(e: Env, v: Move, olds: seq<Word>, news: seq<Word>) {
    |news| == |olds| && forall k :: 0 <= k < |olds| ==> Half(e, v, olds[k], news[k])
  }

  /** The roots of a collection. */
  ghost predicate RootsOk(e: Env, regs: seq<Word>, slots: seq<Word>, inner: seq<Word>, weak: seq<Word>) {
    && RefIn(e, e.live, e.nil)
    && (forall w <- regs :: WordOk(e, w) && RefIn(e, e.live, w) && !OldLoc(e.l, w))
    && (forall w <- slots :: WordOk(e, w) && RefIn(e, e.live, w))
    && (forall w <- inner :: InnerOk(e, FirmRoots(e, regs, slots), w))
    && (forall w <- weak :: WordOk(e, w))
    && (forall a :: 0 <= a < |e.orig| && e.l.IsStatic(a) ==> RefIn(e, e.live, e.orig[a]))
  }

  // ------------------------------------------------------------------ assembling a collection

  ghost predicate AllTouchable(e: Env, firm: set<int>, through: set<int>, ws: seq<Word>) {
    forall k :: 0 <= k < |ws| ==> WordOk(e, ws[k]) && FirmRef(e, firm, through, ws[k])
  }

  ghost predicate StaticTouchable(e: Env, firm: set<int>, through: set<int>, m: seq<Word>) {
    && |m| <= |e.orig|
    && forall a :: 0 <= a < |m| && e.l.IsStatic(a) ==> m[a] == e.orig[a] && FirmRef(e, firm, through, e.orig[a])
  }

  ghost predicate InnerReadyWord(e: Env, v: Move, w: Word) {
    WordOk(e, w) && Ready(e, v, w) && PtrDone(e, v, w) && PtrImage(e, v, w) == w
  }

  lemma AllHalfKept(e: Env, v: Move, v': Move, olds: seq<Word>, news: seq<Word>)
    requires AllHalf(e, v, olds, news) && Extends(v, v') && WholeOk(e, v)
    ensures AllHalf(e, v', olds, news)
  {
    hide Half, Extends, WholeOk;
    forall k | 0 <= k < |olds| ensures Half(e, v', olds[k], news[k]) { HalfKept(e, v, v', olds[k], news[k]); }
  }

  lemma AllDoneKept(e: Env, v: Move, v': Move, olds: seq<Word>, news: seq<Word>)
    requires AllDone(e, v, olds, news) && Extends(v, v') && WholeOk(e, v)
    ensures AllDone(e, v', olds, news)
  {
    hide Done, Extends, WholeOk;
    forall k | 0 <= k < |olds| ensures Done(e, v', olds[k], news[k]) { DoneKept(e, v, v', olds[k], news[k]); }
  }

  lemma AllDoneIntro(e: Env, v: Move, olds: seq<Word>, news: seq<Word>)
    requires |news| == |olds| && forall k :: 0 <= k < |olds| ==> Done(e, v, olds[k], news[k])
    ensures AllDone(e, v, olds, news)
  {
  }

  lemma StaticHalfKept(e: Env, v: Move, m: seq<Word>, v': Move, m': seq<Word>)
    requires StaticHalf(e, v, m) && Extends(v, v') && WholeOk(e, v) && |m'| == |m| && e.l.Valid() && |m| == e.l.size
    requires forall a :: 0 <= a < |m| && !e.l.IsOld(a) && !e.l.IsNew(a) ==> m'[a] == m[a]
    ensures StaticHalf(e, v', m')
  {
    hide Half, Extends, WholeOk;
    forall a | 0 <= a < |m'| && e.l.IsStatic(a) ensures Half(e, v', e.orig[a], m'[a]) {
      HalfKept(e, v, v', e.orig[a], m[a]);
    }
  }

  lemma StaticDoneKept(e: Env, v: Move, m: seq<Word>, v': Move, m': seq<Word>)
    requires StaticDone(e, v, m) && Extends(v, v') && WholeOk(e, v) && |m'| == |m| && e.l.Valid() && |m| == e.l.size
    requires forall a :: 0 <= a < |m| && !e.l.IsOld(a) && !e.l.IsNew(a) ==> m'[a] == m[a]
    ensures StaticDone(e, v', m')
  {
    hide Done, Extends, WholeOk;
    forall a | 0 <= a < |m'| && e.l.IsStatic(a) ensures Done(e, v', e.orig[a], m'[a]) {
      DoneKept(e, v, v', e.orig[a], m[a]);
    }
  }

  lemma AllHalfReady(e: Env, v: Move, m: seq<Word>, free: int, olds: seq<Word>, news: seq<Word>)
    requires PassTwo(e, v, m, free) && AllHalf(e, v, olds, news) && forall w <- olds :: WordOk(e, w)
    ensures |news| == |olds|
    ensures forall k :: 0 <= k < |olds| ==> WordOk(e, olds[k]) && Ready(e, v, olds[k]) && PtrDone(e, v, olds[k])
    ensures forall k :: 0 <= k < |olds| ==> news[k] == PtrImage(e, v, olds[k])
  {
    hide PassTwo, Half, WordOk, Ready, PtrDone, PtrImage;
    forall k | 0 <= k < |olds|
      ensures WordOk(e, olds[k]) && Ready(e, v, olds[k]) && PtrDone(e, v, olds[k]) && news[k] == PtrImage(e, v, olds[k])
    {
      assert olds[k] in olds;
      HalfReady(e, v, m, free, olds[k], news[k]);
      HalfParts(e, v, olds[k], news[k]);
    }
  }

  /** Updating e_nil itself after touching it. */
  lemma PassOneNil(e: Env, v: Move, m: seq<Word>, free: int, nil: Word, nil': Word)
    requires PassOne(e, v, m, free, nil) && Half(e, v, e.nil, nil')
    ensures PassOne(e, v, m, free, nil')
  {
    hide EnvOk, Inv, OnlyWhole, CopiesTouched, StaticTouched, NothingTouched, Half;
  }

  /** Touching roots leaves to-space raw and static space unchanged. */
  lemma BeforeStatic(e: Env, firm: set<int>, through: set<int>, v0: Move, m0: seq<Word>, free0: int, v: Move,
      m: seq<Word>, free: int)
    requires OnlyTouch(e, v0, m0, free0, v, m, free) && free0 == e.l.newLo && e.l.Valid() && |m0| == e.l.size
        && free <= e.l.newHi
    requires StaticTouchable(e, firm, through, m0)
    ensures RawFrom(e, v, m, e.l.newLo, free)
    ensures forall a :: 0 <= a < |m| && e.l.IsStatic(a) ==>
              a < |e.orig| && m[a] == e.orig[a] && FirmRef(e, firm, through, e.orig[a])
  {
    hide FirmRef, Source, Extends;
  }

  lemma AfterCells(e: Env, v0: Move, m0: seq<Word>, free0: int, v: Move, m: seq<Word>, free: int)
    requires OnlyCells(e, v0, m0, free0, v, m, free) && HalfFrom(e, v0, m0, e.l.newLo, free0) && StaticHalf(e, v0, m0)
    requires WholeOk(e, v0) && e.l.Valid() && |m0| == e.l.size && e.l.newLo <= free0 && free <= e.l.newHi
    ensures HalfFrom(e, v, m, e.l.newLo, free) && StaticHalf(e, v, m)
  {
    hide Half, Source, Extends, WholeOk;
    HalfFromJoin(e, v0, m0, v, m, e.l.newLo, free0, free);
    StaticHalfKept(e, v0, m0, v, m);
  }

  /** The roots of pass one. */
  ghost function FirmRoots(e: Env, regs: seq<Word>, slots: seq<Word>): seq<Word> { [e.nil] + regs + slots }

  lemma RootsFirm(e: Env, regs: seq<Word>, slots: seq<Word>, inner: seq<Word>, weak: seq<Word>)
    requires EnvOk(e) && RootsOk(e, regs, slots, inner, weak)
    ensures var r := FirmRoots(e, regs, slots);
            && FirmClosed(e, r, FirmCells(e, r), ThroughCells(e, r))
            && FirmCells(e, r) <= e.live && ThroughCells(e, r) <= e.live
  {
    hide ObjectsOk, Closed, WordOk, RefIn, InnerOk, FirmClosed, FirmCells, ThroughCells;
    var r := FirmRoots(e, regs, slots);
    forall w <- r ensures WordOk(e, w) && RefIn(e, e.live, w) {
      assert w == e.nil || w in regs || w in slots;
    }
    LiveFirm(e, r);
    LeastClosed(e, r);
    FirmLeast(e, r, e.live, e.live);
  }

  /** The state right after the flip. */
  lemma Flip(e: Env, v: Move, m: seq<Word>, nil: Word, regs: seq<Word>, slots: seq<Word>, inner: seq<Word>,
      weak: seq<Word>)
    requires EnvOk(e) && m == e.orig && nil == e.nil && v == Move(map[], [], {}, {})
    requires RootsOk(e, regs, slots, inner, weak)
    ensures PassOne(e, v, m, e.l.newLo, nil)
    ensures var r := FirmRoots(e, regs, slots);
            var firm, through := FirmCells(e, r), ThroughCells(e, r);
            && Within(e, v, firm, through) && WordOk(e, e.nil) && FirmRef(e, firm, through, e.nil)
            && AllTouchable(e, firm, through, regs) && AllTouchable(e, firm, through, slots)
            && StaticTouchable(e, firm, through, m)
  {
    hide ObjectsOk, Closed, WordOk, RefIn, InnerOk, FirmRef, FirmInside, FirmCells, ThroughCells;
    RootsFirm(e, regs, slots, inner, weak);
    var r := FirmRoots(e, regs, slots);
    var firm, through := FirmCells(e, r), ThroughCells(e, r);
    WithinFirst(e, v, firm, through);
    RootsTouchable(e, firm, through, regs, slots);
  }

  lemma RootsTouchable(e: Env, firm: set<int>, through: set<int>, regs: seq<Word>, slots: seq<Word>)
    requires forall w <- regs :: WordOk(e, w)
    requires forall w <- slots :: WordOk(e, w)
    requires forall w <- FirmRoots(e, regs, slots) :: FirmRef(e, firm, through, w)
    ensures FirmRef(e, firm, through, e.nil)
    ensures AllTouchable(e, firm, through, regs) && AllTouchable(e, firm, through, slots)
  {
    hide WordOk, FirmRef;
    var r := FirmRoots(e, regs, slots);
    assert r[0] in r;
    forall k | 0 <= k < |regs| ensures FirmRef(e, firm, through, regs[k]) { assert r[1 + k] in r; }
    forall k | 0 <= k < |slots| ensures FirmRef(e, firm, through, slots[k]) { assert r[1 + |regs| + k] in r; }
  }

  lemma RootsHalf(e: Env, v: Move, nil: Word, oregs: seq<Word>, regs: seq<Word>, oslots: seq<Word>, slots: seq<Word>)
    requires Half(e, v, e.nil, nil) && AllHalf(e, v, oregs, regs) && AllHalf(e, v, oslots, slots)
    ensures AllHalf(e, v, FirmRoots(e, oregs, oslots), [nil] + regs + slots)
  {
    hide Half;
    var roots, nows := FirmRoots(e, oregs, oslots), [nil] + regs + slots;
    forall k | 0 <= k < |roots| ensures Half(e, v, roots[k], nows[k]) {
      if 0 < k <= |oregs| {
        assert Half(e, v, oregs[k - 1], regs[k - 1]);
      } else if k > |oregs| {
        var j := k - 1 - |oregs|;
        assert Half(e, v, oslots[j], slots[j]);
      }
    }
  }

  /** At the end of pass one exactly the least closed set has been moved, and the cells of the inner
      roots are as good as followed. */
  lemma EndPassOne(e: Env, v: Move, m: seq<Word>, free: int, nil: Word, oregs: seq<Word>, regs: seq<Word>,
                   oslots: seq<Word>, slots: seq<Word>, inner: seq<Word>, weak: seq<Word>)
    requires PassOne(e, v, m, free, nil) && Half(e, v, e.nil, nil)
    requires HalfFrom(e, v, m, e.l.newLo, free) && StaticHalf(e, v, m)
    requires AllHalf(e, v, oregs, regs) && AllHalf(e, v, oslots, slots)
    requires RootsOk(e, oregs, oslots, inner, weak)
    requires var r := FirmRoots(e, oregs, oslots); Within(e, v, FirmCells(e, r), ThroughCells(e, r))
    ensures var r := FirmRoots(e, oregs, oslots);
            var u := InnerMove(e, r, v);
            && v.fwd.Keys == FirmCells(e, r) && FirmMoved(e, u, r)
            && PassTwo(e, u, m, free) && Half(e, u, e.nil, nil)
            && HalfFrom(e, u, m, e.l.newLo, free) && StaticHalf(e, u, m)
            && AllHalf(e, u, oregs, regs) && AllHalf(e, u, oslots, slots)
            && (forall k :: 0 <= k < |inner| ==> InnerReadyWord(e, u, inner[k]))
    ensures forall w <- oslots :: WordOk(e, w)
    ensures forall w <- weak :: WordOk(e, w)
    ensures forall k :: 0 <= k < |oregs| ==> !OldLoc(e.l, oregs[k])
    ensures !OldLoc(e.l, e.nil)
  {
    hide EnvOk, Inv, OnlyWhole, CopiesTouched, StaticTouched, NothingTouched, Half, WordOk, RefIn, HalfFrom, StaticHalf,
         InnerOk, Ready, PtrDone, PtrImage, Within, FirmCells, ThroughCells, AllHalf, InnerCells, Extends;
    assert PassTwo(e, v, m, free);
    var r := FirmRoots(e, oregs, oslots);
    var u := InnerMove(e, r, v);
    RootsHalf(e, v, nil, oregs, regs, oslots, slots);
    AllHalfParts(e, v, r, [nil] + regs + slots);
    PassOneExact(e, v, m, free, nil, r, [nil] + regs + slots);
    InnerGood(e, v, m, free, r);
    HalfTransfer(e, v, u, m, free, nil, oregs, regs, oslots, slots);
    forall k | 0 <= k < |inner| ensures InnerReadyWord(e, u, inner[k]) {
      assert inner[k] in inner;
      InnerWordOk(e, r, inner[k]);
      InnerReady(e, u, m, free, r, inner[k]);
    }
    NilNoLoc(e);
  }

  lemma AllHalfParts(e: Env, v: Move, olds: seq<Word>, news: seq<Word>)
    requires AllHalf(e, v, olds, news)
    ensures |news| == |olds| && forall k :: 0 <= k < |olds| ==> Half(e, v, olds[k], news[k])
  {
  }

  lemma HalfTransfer(e: Env, v: Move, u: Move, m: seq<Word>, free: int, nil: Word, oregs: seq<Word>, regs: seq<Word>,
                     oslots: seq<Word>, slots: seq<Word>)
    requires PassTwo(e, v, m, free) && PassTwo(e, u, m, free) && Extends(v, u) && Half(e, v, e.nil, nil)
    requires HalfFrom(e, v, m, e.l.newLo, free) && StaticHalf(e, v, m)
    requires AllHalf(e, v, oregs, regs) && AllHalf(e, v, oslots, slots)
    ensures Half(e, u, e.nil, nil) && HalfFrom(e, u, m, e.l.newLo, free) && StaticHalf(e, u, m)
    ensures AllHalf(e, u, oregs, regs) && AllHalf(e, u, oslots, slots)
  {
    hide PassTwo, Half, HalfFrom, StaticHalf, AllHalf, Extends, WholeOk;
    PassTwoShape(e, v, m, free);
    HalfKept(e, v, u, e.nil, nil);
    HalfFromKept(e, v, m, u, m, e.l.newLo, free);
    StaticHalfKept(e, v, m, u, m);
    AllHalfKept(e, v, u, oregs, regs);
    AllHalfKept(e, v, u, oslots, slots);
  }

  lemma InnerWordOk(e: Env, roots: seq<Word>, w: Word)
    requires InnerOk(e, roots, w)
    ensures WordOk(e, w)
  {
  }

  lemma NilNoLoc(e: Env)
    requires EnvOk(e)
    ensures !OldLoc(e.l, e.nil)
  {
  }

  lemma EndPassTwo(e: Env, v1: Move, v: Move, m: seq<Word>, free: int, nil: Word, oregs: seq<Word>, regs: seq<Word>)
    requires Collected(e, v, m, free) && Extends(v1, v) && WholeOk(e, v1) && Roomy(e)
    requires Half(e, v1, e.nil, nil) && !OldLoc(e.l, e.nil)
    requires AllHalf(e, v1, oregs, regs) && forall k :: 0 <= k < |oregs| ==> !OldLoc(e.l, oregs[k])
    ensures Done(e, v, e.nil, nil) && AllDone(e, v, oregs, regs)
    ensures free < e.l.newHi && v.fwd.Keys <= e.live && PassTwo(e, v, m, free)
  {
    hide EnvOk, DoneFrom, StaticDone, Forwarding, GoodOk, Extends, WholeOk;
    HalfKept(e, v1, v, e.nil, nil);
    AllHalfKept(e, v1, v, oregs, regs);
    EnvShape(e);
    MovedWithin(e, v, free, e.live);
  }
}
