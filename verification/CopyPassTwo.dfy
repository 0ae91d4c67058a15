/** Pass two of the copying collector: every locative is redirected to the new home of its cell,
    and a cell that no transported object contains is moved on its own. */
module CopyPassTwo {
  import opened Words
  import opened CopyHeap

  /** A locative that pass two can redirect: its cell has moved, or can be moved on its own. */
  ghost predicate Ready(e: Env, v: Move, w: Word) {
    OldLoc(e.l, w) ==>
      && e.l.IsUsed(w.a) && 0 <= w.a < |e.orig| && w.a in e.live
      && (w.a in v.fwd || (PtrDone(e, v, e.orig[w.a]) && LocGood(e, v, e.orig[w.a])))
  }

  /** A lonely cell moved to the allocation point. */
  ghost function AddCell(v: Move, a: int, free: int): Move {
    v.(fwd := v.fwd[a := free], back := v.back + [a])
  }

  /** The word put in the new home of a lonely cell holding `w`: the `*p | 1` of loc_touch0. */
  function LonelyWord(l: Layout, m: seq<Word>, w: Word): Word
    requires OldPtr(l, w) ==> 0 <= w.a < |m|
  {
    if OldPtr(l, w) then m[w.a].OrOne() else w
  }

  /** What redirecting may change: old cells and cells past the allocation point. */
  ghost predicate OnlyCells(e: Env, v: Move, m: seq<Word>, free: int, v': Move, m': seq<Word>, free': int) {
    && free <= free' && |m'| == |m| && Extends(v, v') && v'.whole == v.whole
    && (forall a :: 0 <= a < |m| && !e.l.IsOld(a) && !(free <= a < free') ==> m'[a] == m[a])
    && HalfFrom(e, v', m', free, free')
  }

  /** The state of pass two. */
  ghost predicate PassTwo(e: Env, v: Move, m: seq<Word>, free: int) {
    EnvOk(e) && Inv(e, v, m, free)
  }

  lemma PassTwoShape(e: Env, v: Move, m: seq<Word>, free: int)
    requires PassTwo(e, v, m, free)
    ensures e.l.Valid() && |e.orig| == e.l.size == |m| && e.l.newLo <= free <= e.l.newHi
    ensures |v.back| == free - e.l.newLo && WholeOk(e, v)
  {
    hide ObjectsOk, Closed, WholeOk, GoodOk, WordOk;
  }

  /** A cell holds a locative into to-space exactly when it has been moved. */
  lemma CellTest(e: Env, v: Move, m: seq<Word>, free: int, a: int)
    requires PassTwo(e, v, m, free) && e.l.IsUsed(a) && 0 <= a < |e.orig|
    ensures 0 <= a < |m|
    ensures m[a].Loc? && e.l.IsNew(m[a].a) <==> a in v.fwd
    ensures a in v.fwd ==> m[a] == Loc(v.fwd[a])
    ensures a !in v.fwd ==> m[a] == e.orig[a]
  {
    hide ObjectsOk, Closed, WholeOk, GoodOk;
  }

  /** The new cell of a lonely cell holds the image of its contents if and only if the object its
      contents point to was transported in pass one. */
  lemma LonelyExact(e: Env, v: Move, m: seq<Word>, free: int, a: int)
    requires PassTwo(e, v, m, free) && e.l.IsUsed(a) && 0 <= a < |e.orig| && a !in v.fwd && |m| == |e.orig|
    requires OldPtr(e.l, e.orig[a])
    ensures 0 <= e.orig[a].a < |m|
    ensures var w := LonelyWord(e.l, m, e.orig[a]);
            w.Ptr? && (e.l.IsNew(w.a) <==> e.orig[a].a in v.fwd)
            && (e.orig[a].a in v.fwd ==> w == PtrImage(e, v, e.orig[a]))
  {
    hide Len, Closed, WholeOk, GoodOk;
    var x := e.orig[a].a;
    assert WordOk(e, e.orig[a]) && x in e.objs;
    TypeSlots(e, x);
    ObjectUsed(e, x, x);
    CellTest(e, v, m, free, x);
    if x !in v.fwd { assert WordOk(e, e.orig[x]); }
  }

  lemma CellRoom(e: Env, v: Move, m: seq<Word>, free: int, a: int)
    requires PassTwo(e, v, m, free) && e.l.IsUsed(a) && a !in v.fwd && a in e.live && Roomy(e)
    ensures Bijection(e, AddCell(v, a, free), free + 1) && free + 1 < e.l.newHi
  {
    hide ObjectsOk, Closed, WholeOk, GoodOk, WordOk;
    assert Bijection(e, AddCell(v, a, free), free + 1);
    MovedWithin(e, AddCell(v, a, free), free + 1, e.live);
  }

  lemma MoveCell(e: Env, v: Move, m: seq<Word>, free: int, a: int)
    requires PassTwo(e, v, m, free) && Roomy(e)
    requires Ready(e, v, Loc(a)) && e.l.IsOld(a) && a !in v.fwd
    ensures 0 <= a < |m| == |e.orig| && 0 <= free < |m| && (OldPtr(e.l, m[a]) ==> 0 <= m[a].a < |m| && m[a].a != a)
    ensures var m' := m[a := Loc(free)][free := LonelyWord(e.l, m, m[a])];
            var v' := AddCell(v, a, free);
            PassTwo(e, v', m', free + 1) && OnlyCells(e, v, m, free, v', m', free + 1)
  {
    hide Len, ObjectsOk, Closed, WholeOk, GoodOk, WordOk, RefIn, OnlyWhole, CopiesTouched, StaticTouched,
        NothingTouched, Touched, RawFrom, DoneFrom;
    CellTest(e, v, m, free, a);
    CellRoom(e, v, m, free, a);
    PassTwoShape(e, v, m, free);
    if OldPtr(e.l, e.orig[a]) { LonelyExact(e, v, m, free, a); WholeMoved(e, v, e.orig[a].a); }
    var w := LonelyWord(e.l, m, m[a]);
    var m' := m[a := Loc(free)][free := w];
    var v' := AddCell(v, a, free);
    assert Extends(v, v');
    assert Forwarding(e, v', m');
    WholeGoodKept(e, v, v');
    assert Source(e, v', free) == e.orig[a];
    assert Half(e, v', e.orig[a], w);
  }

  lemma WholeMoved(e: Env, v: Move, x: int)
    requires WholeOk(e, v) && x in v.whole
    ensures x in v.fwd
  {
  }

  lemma WholeGoodKept(e: Env, v: Move, v': Move)
    requires WholeOk(e, v) && GoodOk(e, v) && Extends(v, v') && v'.whole == v.whole && v'.good == v.good
    ensures WholeOk(e, v') && GoodOk(e, v')
  {
  }

  ghost predicate DoneFrom(e: Env, v: Move, m: seq<Word>, lo: int, hi: int) {
    && 0 <= e.l.newLo <= lo && hi <= e.l.newLo + |v.back| && hi <= |m|
    && forall i :: lo <= i < hi ==> Done(e, v, Source(e, v, i), m[i])
  }

  lemma DoneFromKept(e: Env, v: Move, m: seq<Word>, v': Move, m': seq<Word>, lo: int, hi: int)
    requires DoneFrom(e, v, m, lo, hi) && Extends(v, v') && WholeOk(e, v) && |m'| == |m|
    requires 0 <= lo && forall i :: lo <= i < hi ==> m'[i] == m[i]
    ensures DoneFrom(e, v', m', lo, hi)
  {
    hide Done, WholeOk, Len, Source;
    forall i | lo <= i < hi ensures Done(e, v', Source(e, v', i), m'[i]) {
      SourceKept(e, v, v', i);
      DoneKept(e, v, v', Source(e, v, i), m[i]);
    }
  }

  lemma HalfFromJoin(e: Env, v: Move, m: seq<Word>, v': Move, m': seq<Word>, lo: int, mid: int, hi: int)
    requires HalfFrom(e, v, m, lo, mid) && Extends(v, v') && WholeOk(e, v) && HalfFrom(e, v', m', mid, hi)
        && |m'| == |m|
    requires 0 <= lo <= mid <= hi && forall i :: lo <= i < mid ==> m'[i] == m[i]
    ensures HalfFrom(e, v', m', lo, hi)
  {
    hide Half, WholeOk, Len, Source, Extends;
    HalfFromKept(e, v, m, v', m', lo, mid);
  }

  lemma OnlyCellsSelf(e: Env, v: Move, m: seq<Word>, free: int)
    requires 0 <= e.l.newLo <= free && |v.back| == free - e.l.newLo && free <= |m|
    ensures OnlyCells(e, v, m, free, v, m, free)
  {
  }

  lemma OnlyCellsExtends(e: Env, v: Move, m: seq<Word>, free: int, v': Move, m': seq<Word>, free': int)
    requires OnlyCells(e, v, m, free, v', m', free') && e.l.newLo <= free && free' <= e.l.newHi
    ensures Extends(v, v') && v'.whole == v.whole && free <= free' && |m'| == |m|
    ensures forall a :: 0 <= a < |m| && !e.l.IsOld(a) && !e.l.IsNew(a) ==> m'[a] == m[a]
  {
    hide Half, HalfFrom, Extends;
  }

  lemma OnlyCellsTrans(e: Env, v: Move, m: seq<Word>, free: int, v1: Move, m1: seq<Word>, free1: int,
                       v2: Move, m2: seq<Word>, free2: int)
    requires OnlyCells(e, v, m, free, v1, m1, free1) && OnlyCells(e, v1, m1, free1, v2, m2, free2)
    requires e.l.Valid() && free2 <= e.l.newHi && WholeOk(e, v1)
    ensures OnlyCells(e, v, m, free, v2, m2, free2)
  {
    hide Half, Source, WholeOk;
    assert Extends(v, v2);
    HalfFromJoin(e, v1, m1, v2, m2, free, free1, free2);
  }

  /** After pass one, a scanned word is ready for pass two. */
  lemma HalfReady(e: Env, v: Move, m: seq<Word>, free: int, w0: Word, w: Word)
    requires PassTwo(e, v, m, free) && Half(e, v, w0, w) && WordOk(e, w0)
    ensures Ready(e, v, w0)
  {
    hide ObjectsOk, Closed, WholeOk, Forwarding, Bijection, WordOk;
  }

  lemma ReadyKept(e: Env, v: Move, v': Move, w: Word)
    requires Ready(e, v, w) && Extends(v, v')
    ensures Ready(e, v', w)
  {
  }

  /** One step of loc_scavenge. */
  lemma LocScanStep(e: Env, v: Move, m: seq<Word>, free: int, v1: Move, m1: seq<Word>, free1: int, p: int, r: Word)
    requires e.l.newLo <= p < free
    requires PassTwo(e, v, m, free) && OnlyCells(e, v, m, free, v1, m1, free1) && PassTwo(e, v1, m1, free1)
    requires DoneFrom(e, v, m, e.l.newLo, p) && HalfFrom(e, v, m, p, free)
    requires 0 <= p < |m| && Done(e, v1, Source(e, v, p), r)
    ensures |m1| == |m| && free <= free1 <= e.l.newHi && Extends(v, v1) && v1.whole == v.whole
    ensures var m2 := m1[p := r];
            && PassTwo(e, v1, m2, free1)
            && DoneFrom(e, v1, m2, e.l.newLo, p + 1) && HalfFrom(e, v1, m2, p + 1, free1)
            && forall a :: 0 <= a < |m| && !e.l.IsOld(a) && !e.l.IsNew(a) ==> m2[a] == m[a]
  {
    hide PassTwo, Half, Done, Source, WholeOk, Extends;
    PassTwoShape(e, v, m, free);
    PassTwoShape(e, v1, m1, free1);
    OnlyCellsExtends(e, v, m, free, v1, m1, free1);
    SourceKept(e, v, v1, p);
    SetNew(e, v1, m1, free1, p, r);
    var m2 := m1[p := r];
    DoneFromKept(e, v, m, v1, m2, e.l.newLo, p);
    HalfFromJoin(e, v, m, v1, m2, p + 1, free, free1) by {
      assert HalfFrom(e, v, m, p + 1, free);
      assert HalfFrom(e, v1, m2, free, free1);
    }
  }

  lemma SetNew(e: Env, v: Move, m: seq<Word>, free: int, p: int, r: Word)
    requires PassTwo(e, v, m, free) && 0 <= p < |m| && !e.l.IsOld(p)
    ensures PassTwo(e, v, m[p := r], free)
  {
    hide ObjectsOk, Closed, WholeOk, GoodOk, WordOk, Bijection;
  }

  lemma ReadyUsed(e: Env, v: Move, w: Word)
    requires OldLoc(e.l, w) && Ready(e, v, w)
    ensures e.l.IsUsed(w.a) && 0 <= w.a < |e.orig| && w.a in e.live
  {
  }

  /** A pointer that pass one has forwarded no longer points into old space. */
  lemma PtrImageNew(e: Env, v: Move, m: seq<Word>, free: int, w: Word)
    requires PassTwo(e, v, m, free) && PtrDone(e, v, w)
    ensures OldLoc(e.l, PtrImage(e, v, w)) ==> PtrImage(e, v, w) == w
    ensures OldLoc(e.l, w) ==> PtrImage(e, v, w) == w
  {
  }

  lemma PtrImageKept(e: Env, v: Move, v': Move, w: Word)
    requires Extends(v, v') && WholeOk(e, v) && PtrDone(e, v, w)
    ensures PtrDone(e, v', w) && PtrImage(e, v', w) == PtrImage(e, v, w)
  {
  }

  lemma LocScanStart(e: Env, v: Move, m: seq<Word>)
    requires e.l.Valid() && |m| == e.l.size
    ensures DoneFrom(e, v, m, e.l.newLo, e.l.newLo) && Extends(v, v)
  {
  }

  lemma HalfAt(e: Env, v: Move, m: seq<Word>, lo: int, hi: int, i: int)
    requires HalfFrom(e, v, m, lo, hi) && lo <= i < hi
    ensures 0 <= i < |m| && Half(e, v, Source(e, v, i), m[i])
  {
  }

  lemma HalfParts(e: Env, v: Move, w0: Word, w: Word)
    requires Half(e, v, w0, w)
    ensures PtrDone(e, v, w0) && w == PtrImage(e, v, w0)
  {
  }

  lemma SourceOk(e: Env, v: Move, m: seq<Word>, free: int, i: int)
    requires PassTwo(e, v, m, free) && e.l.newLo <= i < free
    ensures WordOk(e, Source(e, v, i))
  {
    hide Len, ObjectsOk, Closed, GoodOk, WholeOk, WordOk;
    assert v.back[i - e.l.newLo] in v.fwd;
  }

  lemma StaticOk(e: Env, v: Move, m: seq<Word>, free: int, a: int)
    requires PassTwo(e, v, m, free) && e.l.IsStatic(a)
    ensures 0 <= a < |e.orig| && WordOk(e, e.orig[a]) && !e.l.IsOld(a) && !e.l.IsNew(a)
  {
    hide ObjectsOk, Closed, WordOk, Inv;
  }

  /** One step of the second scan of static space. */
  lemma StaticLocStep(e: Env, v: Move, m: seq<Word>, free: int, v1: Move, m1: seq<Word>, free1: int, p: int, r: Word)
    requires e.l.IsStatic(p) && 0 <= p < |m|
    requires PassTwo(e, v, m, free) && OnlyCells(e, v, m, free, v1, m1, free1) && PassTwo(e, v1, m1, free1)
    requires HalfFrom(e, v, m, e.l.newLo, free) && |e.orig| == |m|
    ensures |m1| == |m| && Extends(v, v1) && v1.whole == v.whole && free <= free1
    ensures var m2 := m1[p := r];
            && PassTwo(e, v1, m2, free1) && HalfFrom(e, v1, m2, e.l.newLo, free1)
            && (forall a :: 0 <= a < |m| && e.l.IsStatic(a) && a != p ==> m2[a] == m[a])
            && (forall a :: 0 <= a < |m| && e.l.IsStatic(a) && a != p && Done(e, v, e.orig[a], m[a]) ==>
                  Done(e, v1, e.orig[a], m2[a]))
            && (forall a :: 0 <= a < |m| && e.l.IsStatic(a) && a != p && Half(e, v, e.orig[a], m[a]) ==>
                  Half(e, v1, e.orig[a], m2[a]))
  {
    hide PassTwo, Half, Done, Source, WholeOk, Extends, HalfFrom;
    PassTwoShape(e, v, m, free);
    PassTwoShape(e, v1, m1, free1);
    OnlyCellsExtends(e, v, m, free, v1, m1, free1);
    SetNew(e, v1, m1, free1, p, r);
    var m2 := m1[p := r];
    StaticHalfFrom(e, v, m, free, v1, m1, m2, free1, p, r);
    forall a | 0 <= a < |m| && e.l.IsStatic(a) && a != p
      ensures m2[a] == m[a]
      ensures Done(e, v, e.orig[a], m[a]) ==> Done(e, v1, e.orig[a], m2[a])
      ensures Half(e, v, e.orig[a], m[a]) ==> Half(e, v1, e.orig[a], m2[a])
    {
      if Done(e, v, e.orig[a], m[a]) { DoneKept(e, v, v1, e.orig[a], m[a]); }
      if Half(e, v, e.orig[a], m[a]) { HalfKept(e, v, v1, e.orig[a], m[a]); }
    }
  }

  lemma StaticHalfFrom(e: Env, v: Move, m: seq<Word>, free: int, v1: Move, m1: seq<Word>, m2: seq<Word>, free1: int,
      p: int, r: Word)
    requires e.l.Valid() && e.l.IsStatic(p) && 0 <= p < |m| == e.l.size && free1 <= e.l.newHi && e.l.newLo <= free
        && WholeOk(e, v)
    requires OnlyCells(e, v, m, free, v1, m1, free1) && HalfFrom(e, v, m, e.l.newLo, free)
    requires m2 == m1[p := r]
    ensures HalfFrom(e, v1, m2, e.l.newLo, free1)
  {
    hide Half, Source, WholeOk, Extends;
    HalfFromJoin(e, v, m, v1, m2, e.l.newLo, free, free1) by {
      assert HalfFrom(e, v1, m2, free, free1);
    }
  }

  lemma WeakTarget(e: Env, v: Move, m: seq<Word>, free: int, w: Word)
    requires PassTwo(e, v, m, free) && WordOk(e, w) && w.IsRef() && e.l.IsOld(w.a)
    ensures e.l.IsUsed(w.a) && 0 <= w.a < |e.orig|
  {
    hide Len, Closed, GoodOk, WholeOk, Forwarding, Bijection;
    if OldPtr(e.l, w) {
      TypeSlots(e, w.a);
      ObjectUsed(e, w.a, w.a);
    }
  }
}
