/** Which objects pass one of the copying collector transports: those found through pointers, where
    a chain of locatives is looked through to the object it ends at. */
module Firm {
  import opened Words
  import opened CopyHeap

  /** The object of a pointer is in `firm`, the cell of a locative in `through`. */
  ghost predicate FirmRef(e: Env, firm: set<int>, through: set<int>, w: Word) {
    && (OldPtr(e.l, w) ==> forall k :: w.a <= k < w.a + Len(e, w.a) ==> k in firm)
    && (OldLoc(e.l, w) ==> w.a in through)
  }

  ghost predicate FirmInside(e: Env, firm: set<int>, through: set<int>) {
    forall a :: a in firm || a in through ==> 0 <= a < |e.orig| && FirmRef(e, firm, through, e.orig[a])
  }

  /** The cells of `firm` and `through` lead nowhere else, and neither do the roots. */
  ghost predicate FirmClosed(e: Env, roots: seq<Word>, firm: set<int>, through: set<int>) {
    && FirmInside(e, firm, through)
    && (forall w <- roots :: FirmRef(e, firm, through, w))
    && (forall a :: 0 <= a < |e.orig| && e.l.IsStatic(a) ==> FirmRef(e, firm, through, e.orig[a]))
  }

  /** The least such sets: what can be found out before the collection. */
  ghost function FirmCells(e: Env, roots: seq<Word>): set<int> {
    set a | 0 <= a < |e.orig| && InEveryFirm(e, roots, a)
  }

  ghost function ThroughCells(e: Env, roots: seq<Word>): set<int> {
    set a | 0 <= a < |e.orig| && InEveryThrough(e, roots, a)
  }

  ghost predicate InEveryFirm(e: Env, roots: seq<Word>, a: int) {
    forall firm, through | FirmClosed(e, roots, firm, through) :: a in firm
  }

  ghost predicate InEveryThrough(e: Env, roots: seq<Word>, a: int) {
    forall firm, through | FirmClosed(e, roots, firm, through) :: a in through
  }

  lemma FirmLeast(e: Env, roots: seq<Word>, firm: set<int>, through: set<int>)
    requires FirmClosed(e, roots, firm, through)
    ensures FirmCells(e, roots) <= firm && ThroughCells(e, roots) <= through
  {
    hide FirmClosed;
  }

  /** What is in every pair of closed sets leads only to what is in every pair. */
  lemma LeastRef(e: Env, roots: seq<Word>, w: Word)
    requires EnvOk(e) && WordOk(e, w)
    requires forall firm, through | FirmClosed(e, roots, firm, through) :: FirmRef(e, firm, through, w)
    ensures FirmRef(e, FirmCells(e, roots), ThroughCells(e, roots), w)
  {
    hide FirmClosed, Len, ObjectsOk, Closed;
    if OldPtr(e.l, w) {
      forall k | w.a <= k < w.a + Len(e, w.a) ensures k in FirmCells(e, roots) { ObjectUsed(e, w.a, k); }
    }
  }

  /** The least sets are closed. */
  lemma LeastClosed(e: Env, roots: seq<Word>)
    requires EnvOk(e) && (forall w <- roots :: WordOk(e, w))
    requires FirmClosed(e, roots, e.live, e.live)
    ensures FirmClosed(e, roots, FirmCells(e, roots), ThroughCells(e, roots))
  {
    hide ObjectsOk, FirmRef, WordOk, Closed;
    var s, t := FirmCells(e, roots), ThroughCells(e, roots);
    forall a | a in s || a in t ensures FirmRef(e, s, t, e.orig[a]) {
      FirmUsed(e, roots, a);
      LeastRef(e, roots, e.orig[a]);
    }
    forall w <- roots ensures FirmRef(e, s, t, w) { LeastRef(e, roots, w); }
    forall a | 0 <= a < |e.orig| && e.l.IsStatic(a) ensures FirmRef(e, s, t, e.orig[a]) {
      LeastRef(e, roots, e.orig[a]);
    }
  }

  /** The used cells among `live` are as closed as `live` is. */
  lemma FirmUsed(e: Env, roots: seq<Word>, a: int)
    requires EnvOk(e) && (forall w <- roots :: WordOk(e, w)) && FirmClosed(e, roots, e.live, e.live)
    requires a in FirmCells(e, roots) || a in ThroughCells(e, roots)
    ensures e.l.IsUsed(a)
  {
    hide Len, ObjectsOk, FirmCells, ThroughCells, Closed;
    var u := set c | c in e.live && e.l.IsUsed(c);
    forall w | WordOk(e, w) && FirmRef(e, e.live, e.live, w) ensures FirmRef(e, u, u, w) {
      UsedRef(e, u, w);
    }
    assert FirmClosed(e, roots, u, u);
    FirmLeast(e, roots, u, u);
  }

  lemma UsedRef(e: Env, u: set<int>, w: Word)
    requires EnvOk(e) && WordOk(e, w) && FirmRef(e, e.live, e.live, w)
    requires u == set c | c in e.live && e.l.IsUsed(c)
    ensures FirmRef(e, u, u, w)
  {
    hide Len, ObjectsOk, Closed;
    if OldPtr(e.l, w) {
      forall k | w.a <= k < w.a + Len(e, w.a) ensures k in u { ObjectUsed(e, w.a, k); }
    }
  }

  /** A set closed under reference is closed in both roles. */
  lemma LiveFirm(e: Env, roots: seq<Word>)
    requires EnvOk(e) && (forall w <- roots :: RefIn(e, e.live, w))
    requires forall a :: 0 <= a < |e.orig| && e.l.IsStatic(a) ==> RefIn(e, e.live, e.orig[a])
    ensures FirmClosed(e, roots, e.live, e.live)
  {
    hide Len, ObjectsOk, WordOk;
  }

  // ---- Pass one stays within any closed sets ----

  ghost predicate Within(e: Env, v: Move, firm: set<int>, through: set<int>) {
    && firm <= e.live && through <= e.live && FirmInside(e, firm, through)
    && v.fwd.Keys <= firm && v.good <= through
  }

  lemma FirmLive(e: Env, v: Move, firm: set<int>, through: set<int>, w: Word)
    requires Within(e, v, firm, through) && FirmRef(e, firm, through, w)
    ensures RefIn(e, e.live, w)
  {
  }

  lemma WithinObject(e: Env, v: Move, firm: set<int>, through: set<int>, x: int, free: int)
    requires Within(e, v, firm, through) && FirmRef(e, firm, through, Ptr(x)) && e.l.IsOld(x) && Len(e, x) >= 0
    ensures Within(e, AddObject(e, v, x, Len(e, x), free), firm, through)
  {
    hide Len, FirmInside;
  }

  lemma WithinGood(e: Env, v: Move, firm: set<int>, through: set<int>, seen: set<int>)
    requires Within(e, v, firm, through) && seen <= through
    ensures Within(e, v.(good := v.good + seen), firm, through)
  {
    hide FirmInside;
  }

  lemma WithinFirst(e: Env, v: Move, firm: set<int>, through: set<int>)
    requires v.fwd == map[] && v.good == {} && firm <= e.live && through <= e.live && FirmInside(e, firm, through)
    ensures Within(e, v, firm, through)
  {
  }

  lemma WithinCopy(e: Env, v: Move, firm: set<int>, through: set<int>, free: int, i: int)
    requires Within(e, v, firm, through) && Bijection(e, v, free) && e.l.newLo <= i < free
    ensures FirmRef(e, firm, through, Source(e, v, i))
  {
    hide FirmRef;
    assert v.back[i - e.l.newLo] in v.fwd;
  }

  // ---- Walking a chain of locatives ----

  /** The cells seen by a walk that has come to the word `last`. */
  ghost predicate Walking(e: Env, m: seq<Word>, firm: set<int>, through: set<int>, seen: set<int>, last: Word) {
    && (forall a <- seen :: 0 <= a < |m| && e.l.IsUsed(a) && a in through &&
                            (m[a] == last || (OldLoc(e.l, m[a]) && m[a].a in seen)))
    && (OldLoc(e.l, last) ==> e.l.IsUsed(last.a) && last.a in through)
    && (OldPtr(e.l, last) ==> last.a in e.objs && FirmRef(e, firm, through, last))
  }

  lemma ChainWord(e: Env, v: Move, m: seq<Word>, free: int, nil: Word, firm: set<int>, through: set<int>, a: int)
    requires PassOne(e, v, m, free, nil) && Within(e, v, firm, through) && e.l.IsUsed(a) && a in through
    ensures 0 <= a < |m|
    ensures OldLoc(e.l, m[a]) ==> e.l.IsUsed(m[a].a) && m[a].a in through
    ensures OldPtr(e.l, m[a]) ==> m[a].a in e.objs && FirmRef(e, firm, through, m[a])
  {
    hide PassOne, Len, FirmRef;
    assert a in e.live;
    ChainLink(e, v, m, free, nil, a);
    PassOneShape(e, v, m, free, nil);
    assert FirmRef(e, firm, through, e.orig[a]);
    ChainNew(e, v, m, free, nil, a);
    FirmOf(e, firm, through, e.orig[a]);
  }

  lemma FirmOf(e: Env, firm: set<int>, through: set<int>, w: Word)
    requires FirmRef(e, firm, through, w)
    ensures OldLoc(e.l, w) ==> w.a in through
  {
  }

  /** A cell that has been moved holds a locative out of old space. */
  lemma ChainNew(e: Env, v: Move, m: seq<Word>, free: int, nil: Word, a: int)
    requires PassOne(e, v, m, free, nil) && e.l.IsUsed(a)
    ensures 0 <= a < |m| && (a in v.fwd ==> !OldLoc(e.l, m[a]) && !OldPtr(e.l, m[a]))
  {
    hide Len, ObjectsOk, GoodOk, OnlyWhole, WholeOk, Closed, WordOk, CopiesTouched, StaticTouched, NothingTouched;
  }

  lemma WalkStart(e: Env, v: Move, m: seq<Word>, free: int, nil: Word, firm: set<int>, through: set<int>, a: int)
    requires PassOne(e, v, m, free, nil) && Within(e, v, firm, through) && e.l.IsUsed(a) && a in through
    ensures 0 <= a < |m| && Walking(e, m, firm, through, {a}, m[a])
  {
    hide PassOne, Len, FirmRef, Within;
    ChainWord(e, v, m, free, nil, firm, through, a);
  }

  lemma WalkOn(e: Env, v: Move, m: seq<Word>, free: int, nil: Word, firm: set<int>, through: set<int>,
               seen: set<int>, last: Word)
    requires PassOne(e, v, m, free, nil) && Within(e, v, firm, through)
    requires Walking(e, m, firm, through, seen, last) && OldLoc(e.l, last)
    ensures 0 <= last.a < |m| && Walking(e, m, firm, through, seen + {last.a}, m[last.a])
    ensures forall a <- seen :: 0 <= a < |m| && OldLoc(e.l, m[a]) && m[a].a in seen + {last.a}
  {
    hide PassOne, Len, FirmRef, Within;
    ChainWord(e, v, m, free, nil, firm, through, last.a);
  }

  lemma WalkEnds(e: Env, v: Move, m: seq<Word>, free: int, nil: Word, firm: set<int>, through: set<int>,
                 seen: set<int>, last: Word)
    requires PassOne(e, v, m, free, nil) && Within(e, v, firm, through) && Walking(e, m, firm, through, seen, last)
    ensures Walked(e, v, seen, last) && seen <= through
    ensures OldPtr(e.l, last) ==> last.a in e.objs && FirmRef(e, firm, through, last)
  {
    hide PassOne, Len, FirmRef;
    WalkedFrom(e, v, m, free, nil, seen, last);
  }

  // ---- What pass one has moved in the end ----

  /** An object whose first cell has been moved has been moved as a whole. */
  lemma StartWhole(e: Env, v: Move, x: int)
    requires EnvOk(e) && WholeOk(e, v) && OnlyWhole(e, v) && x in e.objs && x in v.fwd
    ensures x in v.whole
  {
    hide Len, Closed, WordOk, Typed;
    var o :| o in v.whole && o <= x < o + Len(e, o);
    assert ObjectOk(e, x);
    OneObject(e, o, x, x);
  }

  lemma HalfFirm(e: Env, v: Move, w0: Word, w: Word)
    requires WholeOk(e, v) && Half(e, v, w0, w)
    ensures FirmRef(e, v.fwd.Keys, v.good, w0)
  {
  }

  lemma GoodFirm(e: Env, v: Move, w0: Word)
    requires WholeOk(e, v) && PtrDone(e, v, w0) && LocGood(e, v, w0)
    ensures FirmRef(e, v.fwd.Keys, v.good, w0)
  {
  }

  /** What pass one has moved and followed is closed. */
  lemma MovedFirm(e: Env, v: Move, m: seq<Word>, free: int, roots: seq<Word>, nows: seq<Word>)
    requires EnvOk(e) && Inv(e, v, m, free) && HalfFrom(e, v, m, e.l.newLo, free) && StaticHalf(e, v, m)
    requires |nows| == |roots| && forall k :: 0 <= k < |roots| ==> Half(e, v, roots[k], nows[k])
    ensures FirmClosed(e, roots, v.fwd.Keys, v.good)
  {
    hide ObjectsOk, Closed, WordOk, Half, Len, FirmRef, WholeOk, PtrDone, LocGood;
    var s, t := v.fwd.Keys, v.good;
    forall k | 0 <= k < |roots| ensures FirmRef(e, s, t, roots[k]) { HalfFirm(e, v, roots[k], nows[k]); }
    forall a | a in s || a in t ensures 0 <= a < |e.orig| && FirmRef(e, s, t, e.orig[a]) {
      if a in s {
        assert Source(e, v, v.fwd[a]) == e.orig[a];
        HalfFirm(e, v, e.orig[a], m[v.fwd[a]]);
      } else {
        GoodFirm(e, v, e.orig[a]);
      }
    }
    forall a | 0 <= a < |e.orig| && e.l.IsStatic(a) ensures FirmRef(e, s, t, e.orig[a]) {
      HalfFirm(e, v, e.orig[a], m[a]);
    }
  }

  /** Pass one moves exactly the least closed set, and so exactly the objects in it. */
  ghost predicate FirmMoved(e: Env, v: Move, roots: seq<Word>) {
    forall x <- e.objs :: x in v.whole <==> x in FirmCells(e, roots)
  }

  lemma PassOneExact(e: Env, v: Move, m: seq<Word>, free: int, nil: Word, roots: seq<Word>, nows: seq<Word>)
    requires PassOne(e, v, m, free, nil) && HalfFrom(e, v, m, e.l.newLo, free) && StaticHalf(e, v, m)
    requires |nows| == |roots| && forall k :: 0 <= k < |roots| ==> Half(e, v, roots[k], nows[k])
    requires Within(e, v, FirmCells(e, roots), ThroughCells(e, roots))
    ensures v.fwd.Keys == FirmCells(e, roots) && FirmMoved(e, v, roots)
  {
    hide FirmCells, ThroughCells, FirmClosed, FirmInside, PassOne, EnvOk, Inv, OnlyWhole, HalfFrom, StaticHalf, Half;
    PassOneParts(e, v, m, free, nil);
    MovedFirm(e, v, m, free, roots, nows);
    FirmLeast(e, roots, v.fwd.Keys, v.good);
    MovedWhole(e, v, m, free);
  }

  lemma MovedWhole(e: Env, v: Move, m: seq<Word>, free: int)
    requires EnvOk(e) && Inv(e, v, m, free) && OnlyWhole(e, v)
    ensures forall x <- e.objs :: x in v.whole <==> x in v.fwd
  {
    hide EnvOk, OnlyWhole, Len, GoodOk, Bijection, Forwarding;
    forall x <- e.objs ensures x in v.whole <==> x in v.fwd {
      if x in v.fwd { StartWhole(e, v, x); }
    }
  }
}
