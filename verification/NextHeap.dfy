/** One copying collection after another: the heap a collection leaves behind is one that the next
    can start from, and nothing but what could be reached is in it. */
module NextHeap {
  import opened Words
  import opened CopyHeap
  import opened CopyPassTwo
  import opened Isomorphism

  // ---- Exactly what is reachable ----

  /** `s` contains what the roots, and the static space that is not collected, lead to. */
  ghost predicate RefClosed(e: Env, roots: seq<Word>, s: set<int>) {
    && Closed(e, s) && (forall w <- roots :: RefIn(e, s, w))
    && (forall a :: 0 <= a < |e.orig| && e.l.IsStatic(a) ==> RefIn(e, s, e.orig[a]))
  }

  /** The cells that can be reached. */
  ghost predicate Reachable(e: Env, roots: seq<Word>, s: set<int>) {
    RefClosed(e, roots, s) && forall t | RefClosed(e, roots, t) :: s <= t
  }

  /** The cells moved by the end of a collection are exactly those that can be reached. */
  lemma MovedExactly(e: Env, v: Move, m: seq<Word>, free: int, roots: seq<Word>, nows: seq<Word>)
    requires Collected(e, v, m, free) && AllDone(e, v, roots, nows) && v.fwd.Keys <= e.live
    requires Reachable(e, roots, e.live)
    ensures v.fwd.Keys == e.live
  {
    hide Done, RefIn, Closed, PassTwo, DoneFrom;
    var s := v.fwd.Keys;
    MovedClosed(e, v, m, free);
    PassTwoShape(e, v, m, free);
    forall w <- roots ensures RefIn(e, s, w) {
      var k :| 0 <= k < |roots| && roots[k] == w;
      DoneRefIn(e, v, w, nows[k]);
    }
    forall a | 0 <= a < |e.orig| && e.l.IsStatic(a) ensures RefIn(e, s, e.orig[a]) {
      DoneRefIn(e, v, e.orig[a], m[a]);
    }
    assert RefClosed(e, roots, s);
  }

  /** A collection that stays within to-space needs just the room it is asked to have: what can be
      reached fits with a word to spare. */
  lemma RoomNeeded(e: Env, v: Move, m: seq<Word>, free: int, roots: seq<Word>, nows: seq<Word>)
    requires Collected(e, v, m, free) && AllDone(e, v, roots, nows) && v.fwd.Keys <= e.live
    requires Reachable(e, roots, e.live) && free < e.l.newHi
    ensures Roomy(e) && free == e.l.newLo + |e.live|
  {
    MovedExactly(e, v, m, free, roots, nows);
    hide DoneFrom, StaticDone, AllDone, Reachable, EnvOk, Forwarding, WholeOk, GoodOk;
    MovedWithin(e, v, free, e.live);
  }

  /** The used cells lead nowhere else, so there always is a set of the reachable ones. */
  lemma UsedClosed(e: Env, roots: seq<Word>, used: set<int>)
    requires EnvOk(e) && (forall w <- roots :: WordOk(e, w)) && used == set a | 0 <= a < |e.orig| && e.l.IsUsed(a)
    ensures RefClosed(e, roots, used)
  {
    hide ObjectsOk, WordOk, Closed, RefIn;
    forall w | WordOk(e, w) ensures RefIn(e, used, w) { UsedRefIn(e, used, w); }
    assert Closed(e, used) by { CellsIn(e, used); }
  }

  lemma CellsIn(e: Env, used: set<int>)
    requires forall a <- used :: 0 <= a < |e.orig| && RefIn(e, used, e.orig[a])
    ensures Closed(e, used)
  {
  }

  lemma UsedRefIn(e: Env, used: set<int>, w: Word)
    requires EnvOk(e) && WordOk(e, w) && used == set a | 0 <= a < |e.orig| && e.l.IsUsed(a)
    ensures RefIn(e, used, w)
  {
    hide ObjectsOk, Closed, Len;
    if OldPtr(e.l, w) {
      forall k | w.a <= k < w.a + Len(e, w.a) ensures k in used { ObjectUsed(e, w.a, k); }
    }
  }

  ghost predicate InAll(e: Env, roots: seq<Word>, a: int) {
    forall t | RefClosed(e, roots, t) :: a in t
  }

  lemma ReachableExists(e: Env, roots: seq<Word>) returns (s: set<int>)
    requires EnvOk(e) && (forall w <- roots :: WordOk(e, w))
    ensures Reachable(e, roots, s)
  {
    hide ObjectsOk, Closed, RefIn, WordOk;
    var used := set a | 0 <= a < |e.orig| && e.l.IsUsed(a);
    UsedClosed(e, roots, used);
    s := set a | a in used && InAll(e, roots, a);
    forall w | WordOk(e, w) && (forall t | RefClosed(e, roots, t) :: RefIn(e, t, w)) ensures RefIn(e, s, w) {
      LeastRefIn(e, roots, s, used, w);
    }
    forall a <- s ensures RefIn(e, s, e.orig[a]) {
      forall t | RefClosed(e, roots, t) ensures RefIn(e, t, e.orig[a]) { ClosedAt(e, t, a); }
    }
    CellsIn(e, s);
  }

  lemma ClosedAt(e: Env, t: set<int>, a: int)
    requires Closed(e, t) && a in t
    ensures 0 <= a < |e.orig| && RefIn(e, t, e.orig[a])
  {
  }

  lemma LeastRefIn(e: Env, roots: seq<Word>, s: set<int>, used: set<int>, w: Word)
    requires EnvOk(e) && WordOk(e, w) && RefIn(e, used, w) && s == set a | a in used && InAll(e, roots, a)
    requires forall t | RefClosed(e, roots, t) :: RefIn(e, t, w)
    ensures RefIn(e, s, w)
  {
    hide RefClosed, Len, ObjectsOk, Closed, WordOk;
  }

  // ---- The next collection ----

  /** The heap with its static objects, whether or not this collection moves them. */
  ghost function Whole(e: Env, stat: set<int>): Env {
    e.(l := e.l.(full := true), objs := e.objs + stat, live := {})
  }

  /** Every reference is to a used cell of the heap. */
  ghost predicate InHeap(e: Env, w: Word) { w.IsRef() ==> e.l.IsUsed(w.a) }

  ghost predicate Sealed(e: Env) {
    InHeap(e, e.nil) && forall a :: 0 <= a < |e.orig| && e.l.IsUsed(a) ==> InHeap(e, e.orig[a])
  }

  /** A heap before a collection; `stat` are the objects that are not moved. */
  ghost predicate Before(e: Env, stat: set<int>) {
    && EnvOk(Whole(e, stat)) && Sealed(Whole(e, stat))
    && (e.l.full ==> stat == {}) && forall o <- stat :: e.l.IsStatic(o)
  }

  /** How the spaces are named afterwards: after a full collection to-space is the static space and
      there is a new, empty new space; otherwise to-space is the new space. */
  ghost predicate Renamed(l: Layout, free: int, l2: Layout) {
    && l2.Valid() && l2.size == l.size && l2.full
    && if l.full then l2.spLo == l.newLo && l2.spHi == free && l2.oldLo == l2.oldFree
       else l2.oldLo == l.newLo && l2.oldFree == free && l2.oldHi == l.newHi && l2.spLo == l.spLo && l2.spHi == l.spHi
  }

  ghost function NewObjects(v: Move, stat: set<int>): set<int> {
    (set o | o in v.whole && o in v.fwd :: v.fwd[o]) + stat
  }

  ghost function After(e: Env, v: Move, m: seq<Word>, nil: Word, stat: set<int>, l2: Layout): Env {
    Env(l2, m, nil, NewObjects(v, stat), {})
  }

  /** Where an object that is kept is now. */
  ghost function NewStart(v: Move, o: int): int { if o in v.fwd then v.fwd[o] else o }

  ghost predicate Kept(v: Move, stat: set<int>, o: int) { o in v.whole || o in stat }

  /** What the lemmas below start from. */
  ghost predicate Ended(e: Env, v: Move, m: seq<Word>, free: int, nil: Word, stat: set<int>, l2: Layout) {
    Collected(e, v, m, free) && Done(e, v, e.nil, nil) && Before(e, stat) && Renamed(e.l, free, l2)
  }

  lemma EndedParts(e: Env, v: Move, m: seq<Word>, free: int, nil: Word, stat: set<int>, l2: Layout)
    requires Ended(e, v, m, free, nil, stat, l2)
    ensures e.l.Valid() && |e.orig| == e.l.size == |m| && e.l.newLo <= free <= e.l.newHi && WholeOk(e, v)
    ensures EnvOk(e) && EnvOk(Whole(e, stat))
  {
    hide EnvOk, Done, DoneFrom, StaticDone, WholeOk, Sealed;
    PassTwoShape(e, v, m, free);
    assert EnvOk(e) by { PassTwoEnv(e, v, m, free); }
  }

  lemma PassTwoEnv(e: Env, v: Move, m: seq<Word>, free: int)
    requires PassTwo(e, v, m, free)
    ensures EnvOk(e) && Bijection(e, v, free) && WholeOk(e, v)
  {
    hide EnvOk, Bijection, Forwarding, WholeOk, GoodOk;
  }

  /** A static object is not moved. */
  lemma StaticKept(e: Env, v: Move, m: seq<Word>, free: int, nil: Word, stat: set<int>, l2: Layout, a: int)
    requires Ended(e, v, m, free, nil, stat, l2) && e.l.IsStatic(a)
    ensures a !in v.fwd && 0 <= a < |m| && 0 <= a < |e.orig| && Done(e, v, e.orig[a], m[a])
  {
    hide EnvOk, Done, DoneFrom, WholeOk, Sealed, Forwarding, GoodOk;
    EndedParts(e, v, m, free, nil, stat, l2);
  }

  /** Every cell of a kept object holds the image of what it held. */
  lemma KeptCell(e: Env, v: Move, m: seq<Word>, free: int, nil: Word, stat: set<int>, l2: Layout, o: int, k: int)
    requires Ended(e, v, m, free, nil, stat, l2) && Kept(v, stat, o) && 0 <= k < Len(e, o)
    ensures var o2 := NewStart(v, o);
            && 0 <= o + k < |e.orig| && 0 <= o2 + k < |m| && Done(e, v, e.orig[o + k], m[o2 + k])
            && WordOk(e, e.orig[o + k]) && Whole(e, stat).l.IsUsed(o + k)
            && (o in v.whole ==> e.l.newLo <= o2 + k < free)
            && (o in stat ==> o2 == o && e.l.IsStatic(o + k))
  {
    hide Len, Done, DoneFrom, StaticDone, Sealed, ObjectOk, Closed, WordOk, Forwarding, GoodOk, Bijection;
    EndedParts(e, v, m, free, nil, stat, l2);
    if o in v.whole {
      assert o in e.objs && v.fwd[o + k] == v.fwd[o] + k;
      assert o !in stat by { if o in stat { StaticKept(e, v, m, free, nil, stat, l2, o); } }
      hide EnvOk, WholeOk, Collected;
      CopyAt(e, v, m, free, o + k);
    } else {
      StaticObject(e, stat, o);
      hide EnvOk, WholeOk, Collected;
      StaticKept(e, v, m, free, nil, stat, l2, o);
      StaticKept(e, v, m, free, nil, stat, l2, o + k);
      UsedWord(e, o + k);
    }
  }

  lemma UsedWord(e: Env, a: int)
    requires EnvOk(e) && e.l.IsStatic(a)
    ensures 0 <= a < |e.orig| && WordOk(e, e.orig[a])
  {
    hide WordOk, ObjectsOk, Closed;
  }

  /** A static object lies in static space as a whole. */
  lemma StaticObject(e: Env, stat: set<int>, o: int)
    requires Before(e, stat) && o in stat
    ensures Len(Whole(e, stat), o) == Len(e, o) && !e.l.full
    ensures e.l.spLo <= o && o + Len(e, o) <= e.l.spHi && Len(e, o) >= 1
  {
    hide Closed, WordOk, Sealed, Typed;
    ObjectIs(Whole(e, stat), o);
  }

  /** A word in its new form is a proper word of the new heap. */
  lemma WordAfter(e: Env, v: Move, m: seq<Word>, free: int, nil: Word, stat: set<int>, l2: Layout, w0: Word, w: Word)
    requires Ended(e, v, m, free, nil, stat, l2) && Done(e, v, w0, w)
    requires WordOk(Whole(e, stat), w0) && InHeap(Whole(e, stat), w0)
    ensures var e2 := After(e, v, m, nil, stat, l2); WordOk(e2, w) && InHeap(e2, w)
  {
    hide EnvOk, DoneFrom, StaticDone, Sealed, Forwarding, GoodOk;
    EndedParts(e, v, m, free, nil, stat, l2);
    PassTwoEnv(e, v, m, free);
    if !OldPtr(e.l, w0) && !OldLoc(e.l, w0) && w0.Ptr? { NotMoved(e, stat, w0.a); }
  }

  lemma NotMoved(e: Env, stat: set<int>, o: int)
    requires EnvOk(e) && !e.l.IsOld(o)
    ensures o !in e.objs
  {
    hide Closed, WordOk, Typed, Len;
    if o in e.objs { ObjectIs(e, o); }
  }

  /** A kept object keeps its length. */
  lemma LenAfter(e: Env, v: Move, m: seq<Word>, free: int, nil: Word, stat: set<int>, l2: Layout, o: int)
    requires Ended(e, v, m, free, nil, stat, l2) && Kept(v, stat, o)
    ensures Len(After(e, v, m, nil, stat, l2), NewStart(v, o)) == Len(e, o) >= 1
    ensures TypeAfter(e, v, m, nil, stat, o)
  {
    hide Done, Collected, Sealed, EnvOk, WholeOk, Renamed, OldPtr;
    EndedParts(e, v, m, free, nil, stat, l2);
    var t := KeptType(e, v, m, free, nil, stat, l2, o);
    KeptCell(e, v, m, free, nil, stat, l2, o, 0);
    KeptCell(e, v, m, free, nil, stat, l2, t, 0);
    KeptCell(e, v, m, free, nil, stat, l2, t, 1);
    KeptCell(e, v, m, free, nil, stat, l2, t, 2);
    var o2, t2 := NewStart(v, o), NewStart(v, t);
    NilAfter(e, v, m, free, nil, e.orig[t + 2], m[t2 + 2]);
    SameFix(e, v, e.orig[t + 1], m[t2 + 1]);
    if e.orig[t + 2] != e.nil {
      KeptCell(e, v, m, free, nil, stat, l2, o, 1);
      SameFix(e, v, e.orig[o + 1], m[o2 + 1]);
    }
    hide Len, Kept;
    LenFrom(e, v, m, nil, stat, l2, o);
  }

  lemma LenFrom(e: Env, v: Move, m: seq<Word>, nil: Word, stat: set<int>, l2: Layout, o: int)
    requires TypeAfter(e, v, m, nil, stat, o)
    ensures var o2, t2 := NewStart(v, o), NewStart(v, e.orig[o].a);
            Len(After(e, v, m, nil, stat, l2), o2) == if m[t2 + 2] == nil then m[t2 + 1].n else m[o2 + 1].n
  {
  }

  /** The object at `o` is typed in the new heap, its type being that of `o` in its new place. */
  ghost predicate TypeAfter(e: Env, v: Move, m: seq<Word>, nil: Word, stat: set<int>, o: int) {
    && 0 <= o < |e.orig| && e.orig[o].Ptr? && Kept(v, stat, e.orig[o].a) && Len(e, e.orig[o].a) >= 3
    && var o2, t2 := NewStart(v, o), NewStart(v, e.orig[o].a);
    && 0 <= o2 < |m| && m[o2] == Ptr(t2) && 0 <= t2 && t2 + 2 < |m| && !m[t2 + 2].Loc?
    && if m[t2 + 2] == nil then m[t2 + 1].Fix? else o2 + 1 < |m| && m[o2 + 1].Fix? && m[o2 + 1].n >= 2
  }

  lemma NilAfter(e: Env, v: Move, m: seq<Word>, free: int, nil: Word, w0: Word, w: Word)
    requires Collected(e, v, m, free) && WordOk(e, w0) && Done(e, v, w0, w) && Done(e, v, e.nil, nil)
    ensures w == nil <==> w0 == e.nil
    ensures !w0.Loc? ==> !w.Loc?
  {
    hide EnvOk, WordOk, DoneFrom, StaticDone, Forwarding, GoodOk, Bijection, WholeOk;
    assert WordOk(e, e.nil) by { NilWord(e, v, m, free); }
    ImageInjective(e, v, m, free, w0, w, e.nil, nil);
  }

  lemma NilWord(e: Env, v: Move, m: seq<Word>, free: int)
    requires PassTwo(e, v, m, free)
    ensures WordOk(e, e.nil)
  {
    hide Inv, ObjectsOk, Closed, WordOk;
  }

  lemma SameFix(e: Env, v: Move, w0: Word, w: Word)
    requires Done(e, v, w0, w)
    ensures w0.Fix? ==> w == w0
  {
  }

  /** The type of a kept object is kept. */
  lemma KeptType(e: Env, v: Move, m: seq<Word>, free: int, nil: Word, stat: set<int>, l2: Layout, o: int)
      returns (t: int)
    requires Ended(e, v, m, free, nil, stat, l2) && Kept(v, stat, o)
    ensures 0 <= o < |e.orig| && e.orig[o] == Ptr(t) && Kept(v, stat, t) && Len(e, t) >= 3 && Len(e, o) >= 1
    ensures 0 <= t && t + 2 < |e.orig| && !e.orig[t + 2].Loc?
    ensures if e.orig[t + 2] == e.nil then e.orig[t + 1].Fix?
            else o + 1 < |e.orig| && e.orig[o + 1].Fix? && e.orig[o + 1].n >= 2
    ensures var o2 := NewStart(v, o); 0 <= o2 < |m| && m[o2] == Ptr(NewStart(v, t))
    ensures Len(e, o) == if e.orig[t + 2] == e.nil then e.orig[t + 1].n else e.orig[o + 1].n
  {
    hide Collected, Sealed, Renamed, EnvOk, WholeOk, Done;
    var f := Whole(e, stat);
    EndedParts(e, v, m, free, nil, stat, l2);
    KeptObject(e, v, m, free, nil, stat, l2, o);
    ObjectIs(f, o);
    t := e.orig[o].a;
    LenWhole(e, stat, o);
    LenWhole(e, stat, t);
    KeptCell(e, v, m, free, nil, stat, l2, o, 0);
    KeptTarget(e, v, m, free, nil, stat, l2, t, m[NewStart(v, o)]);
  }

  lemma LenWhole(e: Env, stat: set<int>, o: int)
    ensures Len(Whole(e, stat), o) == Len(e, o)
  {
  }

  lemma KeptObject(e: Env, v: Move, m: seq<Word>, free: int, nil: Word, stat: set<int>, l2: Layout, o: int)
    requires Ended(e, v, m, free, nil, stat, l2) && Kept(v, stat, o)
    ensures o in Whole(e, stat).objs
  {
    hide Collected, Sealed, Renamed, EnvOk, Done;
    EndedParts(e, v, m, free, nil, stat, l2);
  }

  /** A pointer to an object, in a word that has been dealt with, is to a kept object. */
  lemma KeptTarget(e: Env, v: Move, m: seq<Word>, free: int, nil: Word, stat: set<int>, l2: Layout, t: int, w: Word)
    requires Ended(e, v, m, free, nil, stat, l2) && t in Whole(e, stat).objs && Done(e, v, Ptr(t), w)
    ensures Kept(v, stat, t) && w == Ptr(NewStart(v, t))
  {
    hide Sealed, Renamed, DoneFrom, StaticDone, EnvOk, Len, Forwarding, GoodOk;
    EndedParts(e, v, m, free, nil, stat, l2);
    PassTwoEnv(e, v, m, free);
    if t in e.objs { ObjectUsed(e, t, t) by { StartsUsed(e, t); } } else { assert e.l.IsStatic(t); }
  }

  lemma StartsUsed(e: Env, o: int)
    requires EnvOk(e) && o in e.objs
    ensures o < o + Len(e, o)
  {
    hide EnvOk, Len;
    ObjectIs(e, o);
  }

  /** An object of the new heap is in order. */
  lemma ObjectAfter(e: Env, v: Move, m: seq<Word>, free: int, nil: Word, stat: set<int>, l2: Layout, o: int)
    requires Ended(e, v, m, free, nil, stat, l2) && Kept(v, stat, o)
    ensures ObjectOk(After(e, v, m, nil, stat, l2), NewStart(v, o))
  {
    hide Collected, Sealed, EnvOk, WholeOk, Done, WordOk;
    EndedParts(e, v, m, free, nil, stat, l2);
    LenAfter(e, v, m, free, nil, stat, l2, o);
    var t := e.orig[o].a;
    LenAfter(e, v, m, free, nil, stat, l2, t);
    KeptCell(e, v, m, free, nil, stat, l2, o, 0);
    KeptCell(e, v, m, free, nil, stat, l2, o, Len(e, o) - 1);
    InNewObjects(e, v, m, free, nil, stat, l2, t);
    hide Len;
    if o in stat { StaticObject(e, stat, o); }
  }

  lemma InNewObjects(e: Env, v: Move, m: seq<Word>, free: int, nil: Word, stat: set<int>, l2: Layout, o: int)
    requires Ended(e, v, m, free, nil, stat, l2) && Kept(v, stat, o)
    ensures NewStart(v, o) in NewObjects(v, stat)
  {
    hide Collected, Sealed, EnvOk, Done, Renamed, Len;
    EndedParts(e, v, m, free, nil, stat, l2);
    if o in v.whole {
      assert o in v.fwd;
    } else {
      StaticKept(e, v, m, free, nil, stat, l2, o);
    }
  }

  /** Which object of the old heap an object of the new one was. */
  lemma WasObject(e: Env, v: Move, m: seq<Word>, free: int, nil: Word, stat: set<int>, l2: Layout, o2: int)
      returns (o: int)
    requires Ended(e, v, m, free, nil, stat, l2) && o2 in NewObjects(v, stat)
    ensures Kept(v, stat, o) && NewStart(v, o) == o2
  {
    hide Collected, Sealed, EnvOk, Done, Renamed, Len;
    if o2 in stat {
      o := o2;
      StaticKept(e, v, m, free, nil, stat, l2, o);
    } else {
      o :| o in v.whole && o in v.fwd && v.fwd[o] == o2;
    }
  }

  /** Objects do not come to overlap. */
  lemma DisjointAfter(e: Env, v: Move, m: seq<Word>, free: int, nil: Word, stat: set<int>, l2: Layout, o: int, p: int)
    requires Ended(e, v, m, free, nil, stat, l2) && Kept(v, stat, o) && Kept(v, stat, p)
    requires NewStart(v, o) < NewStart(v, p)
    ensures NewStart(v, o) + Len(e, o) <= NewStart(v, p)
  {
    hide Sealed, EnvOk, Done, Renamed, Len, DoneFrom, StaticDone, Forwarding, GoodOk;
    EndedParts(e, v, m, free, nil, stat, l2);
    PassTwoEnv(e, v, m, free);
    var k := NewStart(v, p) - NewStart(v, o);
    StartKept(e, v, m, free, nil, stat, l2, p);
    if k < Len(e, o) {
      KeptCell(e, v, m, free, nil, stat, l2, o, k);
      KeptCell(e, v, m, free, nil, stat, l2, o, 0);
      assert p == o + k by { SameCell(e, v, m, free, nil, stat, l2, o, p, k); }
      KeptObject(e, v, m, free, nil, stat, l2, o);
      KeptObject(e, v, m, free, nil, stat, l2, p);
      LenWhole(e, stat, o);
      LenWhole(e, stat, p);
      WholeDisjoint(e, stat, o, p);
    }
  }

  lemma StartKept(e: Env, v: Move, m: seq<Word>, free: int, nil: Word, stat: set<int>, l2: Layout, p: int)
    requires Ended(e, v, m, free, nil, stat, l2) && Kept(v, stat, p)
    ensures Len(e, p) >= 1
  {
    hide Collected, Sealed, EnvOk, Done, Renamed, Len;
    var t := KeptType(e, v, m, free, nil, stat, l2, p);
  }

  lemma WholeDisjoint(e: Env, stat: set<int>, o: int, p: int)
    requires EnvOk(Whole(e, stat)) && o in Whole(e, stat).objs && p in Whole(e, stat).objs && o < p
    ensures o + Len(Whole(e, stat), o) <= p
  {
    hide Len, ObjectOk, Closed, WordOk;
  }

  lemma SameCell(e: Env, v: Move, m: seq<Word>, free: int, nil: Word, stat: set<int>, l2: Layout, o: int,
      p: int, k: int)
    requires Ended(e, v, m, free, nil, stat, l2) && Kept(v, stat, o) && Kept(v, stat, p)
    requires 0 <= k < Len(e, o) && NewStart(v, p) == NewStart(v, o) + k && Len(e, p) >= 1
    ensures p == o + k
  {
    hide Sealed, EnvOk, Done, Renamed, Len, DoneFrom, StaticDone, Forwarding, GoodOk;
    EndedParts(e, v, m, free, nil, stat, l2);
    PassTwoEnv(e, v, m, free);
    KeptCell(e, v, m, free, nil, stat, l2, o, k);
    KeptCell(e, v, m, free, nil, stat, l2, p, 0);
    if o in v.whole && p in v.whole {
      assert v.fwd[o + k] == v.fwd[p];
      assert v.back[v.fwd[p] - e.l.newLo] == p;
    }
  }

  /** The used cells of the new heap hold images of old words. */
  lemma CellAfter(e: Env, v: Move, m: seq<Word>, free: int, nil: Word, stat: set<int>, l2: Layout, a: int)
    requires Ended(e, v, m, free, nil, stat, l2) && l2.IsUsed(a) && 0 <= a < |m|
    ensures var e2 := After(e, v, m, nil, stat, l2); WordOk(e2, m[a]) && InHeap(e2, m[a])
  {
    hide Done, WordOk, InHeap, Len, Forwarding, GoodOk, ObjectsOk, Closed;
    EndedParts(e, v, m, free, nil, stat, l2);
    PassTwoEnv(e, v, m, free);
    var c: int;
    if e.l.newLo <= a < free {
      c := v.back[a - e.l.newLo];
      assert c in v.fwd;
      assert Source(e, v, a) == e.orig[c] by { assert Whole(e, stat).l.IsUsed(c); }
    } else {
      c := a;
      StaticKept(e, v, m, free, nil, stat, l2, a);
    }
    WordAfter(e, v, m, free, nil, stat, l2, e.orig[c], m[a]);
  }

  /** The heap after a collection, with to-space in its new role, is one a collection can start from. */
  lemma NextOk(e: Env, v: Move, m: seq<Word>, free: int, nil: Word, stat: set<int>, l2: Layout)
    requires Ended(e, v, m, free, nil, stat, l2)
    ensures EnvOk(After(e, v, m, nil, stat, l2)) && Sealed(After(e, v, m, nil, stat, l2))
  {
    hide Ended, Done, WordOk, InHeap, Len, ObjectOk, NewObjects;
    var e2 := After(e, v, m, nil, stat, l2);
    forall a | 0 <= a < |m| && l2.IsUsed(a) ensures WordOk(e2, m[a]) && InHeap(e2, m[a]) {
      CellAfter(e, v, m, free, nil, stat, l2, a);
    }
    forall o2 <- e2.objs ensures ObjectOk(e2, o2) {
      var o := WasObject(e, v, m, free, nil, stat, l2, o2);
      ObjectAfter(e, v, m, free, nil, stat, l2, o);
    }
    forall o2 <- e2.objs, p2 <- e2.objs | o2 < p2 ensures o2 + Len(e2, o2) <= p2 {
      var o := WasObject(e, v, m, free, nil, stat, l2, o2);
      var p := WasObject(e, v, m, free, nil, stat, l2, p2);
      LenAfter(e, v, m, free, nil, stat, l2, o);
      DisjointAfter(e, v, m, free, nil, stat, l2, o, p);
    }
    NilFine(e, v, m, free, nil, stat, l2);
  }

  lemma NilFine(e: Env, v: Move, m: seq<Word>, free: int, nil: Word, stat: set<int>, l2: Layout)
    requires Ended(e, v, m, free, nil, stat, l2)
    ensures var e2 := After(e, v, m, nil, stat, l2);
            && WordOk(e2, nil) && !OldLoc(l2, nil) && InHeap(e2, nil) && l2.Valid() && |m| == l2.size && l2.full
  {
    EndedParts(e, v, m, free, nil, stat, l2);
    hide Collected, Len, ObjectsOk, Closed, WordOk;
    assert WordOk(Whole(e, stat), e.nil) && InHeap(Whole(e, stat), e.nil);
    WordAfter(e, v, m, free, nil, stat, l2, e.nil, nil);
  }

  /** The same heap as a collection of new space alone sees it: static space is no longer collected, and only the
      objects of new space are objects of the collection. */
  ghost predicate PartialView(e: Env, f: Env) {
    && f.l == e.l.(full := false) && f.orig == e.orig && f.nil == e.nil
    && forall o :: o in f.objs <==> o in e.objs && e.l.oldLo <= o < e.l.oldHi
  }

  /** It is a proper heap too, and its objects have the lengths they had. */
  lemma PartialOk(e: Env, f: Env)
    requires EnvOk(e) && e.l.full && PartialView(e, f) && Closed(f, f.live)
    ensures EnvOk(f) && forall o <- f.objs :: Len(f, o) == Len(e, o)
  {
    hide Closed, Len, Typed;
    forall o <- f.objs ensures ObjectOk(f, o) { PartialObject(e, f, o); }
    forall o <- f.objs ensures Len(f, o) == Len(e, o) { PartialLen(e, f, o); }
  }

  lemma PartialLen(e: Env, f: Env, o: int)
    requires PartialView(e, f)
    ensures Len(f, o) == Len(e, o)
  {
  }

  lemma PartialObject(e: Env, f: Env, o: int)
    requires EnvOk(e) && e.l.full && PartialView(e, f) && o in f.objs
    ensures ObjectOk(f, o)
  {
    hide EnvOk, Len;
    ObjectIs(e, o);
    PartialLen(e, f, o);
    var t := e.orig[o].a;
    PartialLen(e, f, t);
    if t in e.objs { ObjectIs(e, t); }
    LayoutFine(e);
  }

  lemma LayoutFine(e: Env)
    requires EnvOk(e)
    ensures e.l.Valid() && |e.orig| == e.l.size
  {
    hide ObjectsOk, Closed, WordOk;
  }
}
