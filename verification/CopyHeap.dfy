/** The heap seen by one copying collection (gc.c): address ranges, objects, the forwarding
    map, and the predicates that say how far each word has been updated. */
module CopyHeap {
  import opened Words
  import opened Counting

  /** Address ranges.  `full` also collects the static space; otherwise it is a root.
      Cells of the old space at or above `oldFree` are unused. */
  datatype Layout = Layout(size: nat, oldLo: int, oldFree: int, oldHi: int,
                           spLo: int, spHi: int, newLo: int, newHi: int, full: bool)
  {
    ghost predicate Valid() {
      && 0 <= oldLo <= oldFree <= oldHi <= size
      && 0 <= spLo <= spHi <= size
      && 0 <= newLo <= newHi <= size
      && (oldHi <= spLo || spHi <= oldLo)
      && (oldHi <= newLo || newHi <= oldLo)
      && (spHi <= newLo || newHi <= spLo)
    }

    /** OLD_PTR */
    predicate IsOld(a: int) {
      oldLo <= a < oldHi || (full && spLo <= a < spHi)
    }

    /** NEW_PTR */
    predicate IsNew(a: int) { newLo <= a < newHi }

    predicate IsUsed(a: int) {
      oldLo <= a < oldFree || (full && spLo <= a < spHi)
    }

    /** A static cell that is scanned as a root because only new space is collected. */
    predicate IsStatic(a: int) { !full && spLo <= a < spHi }

    function UsedCells(): int {
      oldFree - oldLo + if full then spHi - spLo else 0
    }
  }

  /** What a collection starts from.  `objs` are the object starts; `live` is any set of cells
      closed under reference that the collector must stay inside. */
  datatype Env = Env(l: Layout, orig: seq<Word>, nil: Word, objs: set<int>, live: set<int>)

  predicate OldPtr(l: Layout, w: Word) { w.Ptr? && l.IsOld(w.a) }

  predicate OldLoc(l: Layout, w: Word) { w.Loc? && l.IsOld(w.a) }

  /** Types are pointers to readable type objects whose length slots hold no locatives. */
  ghost predicate Typed(e: Env, o: int) {
    && 0 <= o < |e.orig| && e.orig[o].Ptr?
    && var t := e.orig[o].a;
    && 0 <= t && t + 2 < |e.orig|
    && (if t in e.objs then Len(e, t) >= 3 else e.l.IsStatic(t) && e.l.IsStatic(t + 2))
    && !e.orig[t + 2].Loc?
    && if e.orig[t + 2] == e.nil then e.orig[t + 1].Fix?
       else o + 1 < |e.orig| && e.orig[o + 1].Fix? && e.orig[o + 1].n >= 2
  }

  /** The length an object has in the heap before the collection: its type's length slot,
      or its own second word when the type's variable-length slot is not nil. */
  ghost function Len(e: Env, o: int): int {
    if 0 <= o < |e.orig| && e.orig[o].Ptr? && 0 <= e.orig[o].a && e.orig[o].a + 2 < |e.orig| then
      var t := e.orig[o].a;
      if e.orig[t + 2] == e.nil then FixValue(e.orig[t + 1])
      else if o + 1 < |e.orig| then FixValue(e.orig[o + 1]) else 0
    else 0
  }

  /** An object of a type with a fixed length has just that many words; one of a variable-length type has as many
      as its own second word says. */
  lemma LenIs(e: Env, o: int, t: int)
    requires 0 <= o && o + 1 < |e.orig| && 0 <= t && t + 2 < |e.orig| && e.orig[o] == Ptr(t)
    ensures e.orig[t + 2] == e.nil && e.orig[t + 1].Fix? ==> Fix(Len(e, o)) == e.orig[t + 1]
    ensures e.orig[t + 2] != e.nil && e.orig[o + 1].Fix? ==> Fix(Len(e, o)) == e.orig[o + 1]
  {
  }

  function FixValue(w: Word): int { if w.Fix? then w.n else 0 }

  /** An object is typed, non-empty and lies within the used part of one space. */
  ghost predicate ObjectOk(e: Env, o: int) {
    && Typed(e, o)
    && Len(e, o) >= 1
    && (|| (e.l.oldLo <= o && o + Len(e, o) <= e.l.oldFree)
        || (e.l.full && e.l.spLo <= o && o + Len(e, o) <= e.l.spHi))
  }

  ghost predicate ObjectsOk(e: Env) {
    && (forall o <- e.objs :: ObjectOk(e, o))
    && (forall o <- e.objs, p <- e.objs :: o < p ==> o + Len(e, o) <= p)
  }

  /** A word of the heap or of a root before the collection. */
  ghost predicate WordOk(e: Env, w: Word) {
    && (w.IsRef() ==> !e.l.IsNew(w.a))
    && (OldPtr(e.l, w) ==> w.a in e.objs)
    && (OldLoc(e.l, w) ==> e.l.IsUsed(w.a))
  }

  /** The cells a word refers to are all in `s`. */
  ghost predicate RefIn(e: Env, s: set<int>, w: Word)
  {
    && (OldPtr(e.l, w) ==> forall k :: w.a <= k < w.a + Len(e, w.a) ==> k in s)
    && (OldLoc(e.l, w) ==> w.a in s)
  }

  /** `s` is closed under reference. */
  ghost predicate Closed(e: Env, s: set<int>) {
    forall a <- s :: 0 <= a < |e.orig| && RefIn(e, s, e.orig[a])
  }

  ghost predicate EnvOk(e: Env) {
    && e.l.Valid() && |e.orig| == e.l.size
    && ObjectsOk(e)
    && WordOk(e, e.nil) && !OldLoc(e.l, e.nil)
    && (forall a :: 0 <= a < |e.orig| && (e.l.IsUsed(a) || e.l.IsStatic(a)) ==> WordOk(e, e.orig[a]))
    && Closed(e, e.live)
  }

  // ------------------------------------------------------------------ progress of a collection

  /** `fwd` maps moved cells to their new addresses and `back` inverts it; `whole` are the
      objects transported in pass one; `good` are cells whose locative chain has been followed. */
  datatype Move = Move(fwd: map<int, int>, back: seq<int>, whole: set<int>, good: set<int>)

  ghost predicate Bijection(e: Env, v: Move, free: int) {
    && |v.back| == free - e.l.newLo
    && (forall i :: 0 <= i < |v.back| ==> v.back[i] in v.fwd && v.fwd[v.back[i]] == e.l.newLo + i)
    && (forall a <- v.fwd :: e.l.IsUsed(a) && e.l.newLo <= v.fwd[a] < free && v.back[v.fwd[a] - e.l.newLo] == a)
  }

  /** A moved cell holds its forwarding locative; every other old cell is untouched. */
  ghost predicate Forwarding(e: Env, v: Move, m: seq<Word>) {
    && |m| == |e.orig|
    && (forall a :: 0 <= a < |m| && e.l.IsOld(a) ==> m[a] == if a in v.fwd then Loc(v.fwd[a]) else e.orig[a])
  }

  ghost predicate WholeOk(e: Env, v: Move) {
    forall o <- v.whole :: o in e.objs && o in v.fwd &&
                          forall k :: o <= k < o + Len(e, o) ==> k in v.fwd && v.fwd[k] == v.fwd[o] + (k - o)
  }

  /** Pass one moves cells only as parts of whole objects. */
  ghost predicate OnlyWhole(e: Env, v: Move) {
    forall a <- v.fwd :: exists o :: o in v.whole && o <= a < o + Len(e, o)
  }

  ghost predicate PtrDone(e: Env, v: Move, w: Word) { OldPtr(e.l, w) ==> w.a in v.whole }

  ghost predicate LocGood(e: Env, v: Move, w: Word) { OldLoc(e.l, w) ==> w.a in v.good }

  ghost predicate LocDone(e: Env, v: Move, w: Word) { OldLoc(e.l, w) ==> w.a in v.fwd }

  ghost predicate GoodOk(e: Env, v: Move) {
    forall a <- v.good :: 0 <= a < |e.orig| && e.l.IsUsed(a) &&
                          (a in v.fwd || (PtrDone(e, v, e.orig[a]) && LocGood(e, v, e.orig[a])))
  }

  ghost predicate Inv(e: Env, v: Move, m: seq<Word>, free: int) {
    && e.l.newLo <= free <= e.l.newHi
    && Bijection(e, v, free)
    && Forwarding(e, v, m)
    && WholeOk(e, v)
    && GoodOk(e, v)
    && v.fwd.Keys <= e.live && v.good <= e.live
  }

  /** The word after pass one: pointers follow their object, locatives are unchanged. */
  ghost function PtrImage(e: Env, v: Move, w: Word): Word {
    if OldPtr(e.l, w) && w.a in v.fwd then Ptr(v.fwd[w.a]) else w
  }

  /** The word after the collection. */
  ghost function Image(e: Env, v: Move, w: Word): Word {
    if OldLoc(e.l, w) && w.a in v.fwd then Loc(v.fwd[w.a]) else PtrImage(e, v, w)
  }

  /** Word `w0` has been touched by pass one, giving `w`. */
  ghost predicate Half(e: Env, v: Move, w0: Word, w: Word) {
    w == PtrImage(e, v, w0) && PtrDone(e, v, w0) && LocGood(e, v, w0)
  }

  /** Word `w0` has been touched by both passes, giving `w`. */
  ghost predicate Done(e: Env, v: Move, w0: Word, w: Word) {
    w == Image(e, v, w0) && PtrDone(e, v, w0) && LocDone(e, v, w0)
  }

  ghost predicate Extends(v: Move, v': Move) {
    && (forall a <- v.fwd :: a in v'.fwd && v'.fwd[a] == v.fwd[a])
    && v.back <= v'.back
    && v.whole <= v'.whole && v.good <= v'.good
  }

  lemma HalfKept(e: Env, v: Move, v': Move, w0: Word, w: Word)
    requires Half(e, v, w0, w) && Extends(v, v') && WholeOk(e, v)
    ensures Half(e, v', w0, w)
  {
  }

  lemma DoneKept(e: Env, v: Move, v': Move, w0: Word, w: Word)
    requires Done(e, v, w0, w) && Extends(v, v') && WholeOk(e, v)
    ensures Done(e, v', w0, w)
  {
  }

  // ------------------------------------------------------------------ pass one

  /** A cell pass one may or may not have reached yet. */
  ghost predicate Touched(e: Env, v: Move, w0: Word, w: Word) { w == w0 || Half(e, v, w0, w) }

  ghost predicate CopiesTouched(e: Env, v: Move, m: seq<Word>)
    requires |m| == |e.orig| && e.l.Valid() && |e.orig| == e.l.size
    requires e.l.newLo + |v.back| <= e.l.newHi
  {
    forall i :: 0 <= i < |v.back| ==>
      0 <= v.back[i] < |e.orig| && Touched(e, v, e.orig[v.back[i]], m[e.l.newLo + i])
  }

  ghost predicate StaticTouched(e: Env, v: Move, m: seq<Word>)
    requires |m| == |e.orig|
  {
    forall a :: 0 <= a < |m| && e.l.IsStatic(a) ==> Touched(e, v, e.orig[a], m[a])
  }

  /** The state of pass one: `nil` is the current value of e_nil. */
  ghost predicate PassOne(e: Env, v: Move, m: seq<Word>, free: int, nil: Word) {
    && EnvOk(e) && Inv(e, v, m, free) && OnlyWhole(e, v)
    && CopiesTouched(e, v, m) && StaticTouched(e, v, m)
    && (Half(e, v, e.nil, nil) || (nil == e.nil && NothingTouched(e, v, m)))
  }

  /** e_nil is the first root to be touched, so until then every copy is a plain copy. */
  ghost predicate NothingTouched(e: Env, v: Move, m: seq<Word>)
    requires |m| == |e.orig| && e.l.Valid() && |e.orig| == e.l.size
    requires e.l.newLo + |v.back| <= e.l.newHi
  {
    && (forall i :: 0 <= i < |v.back| ==> 0 <= v.back[i] < |e.orig| && m[e.l.newLo + i] == e.orig[v.back[i]])
    && (forall a :: 0 <= a < |m| && e.l.IsStatic(a) ==> m[a] == e.orig[a])
  }

  lemma OnlyTouchSelf(e: Env, v: Move, m: seq<Word>, free: int)
    requires 0 <= e.l.newLo <= free && |v.back| == free - e.l.newLo && free <= |m|
    ensures OnlyTouch(e, v, m, free, v, m, free)
  {
  }

  lemma AddObjectGood(e: Env, v: Move, x: int, len: nat, free: int)
    ensures AddObject(e, v, x, len, free).good == v.good
  {
  }

  lemma PassOneParts(e: Env, v: Move, m: seq<Word>, free: int, nil: Word)
    requires PassOne(e, v, m, free, nil)
    ensures EnvOk(e) && Inv(e, v, m, free) && OnlyWhole(e, v)
  {
  }

  lemma TouchedKept(e: Env, v: Move, v': Move, w0: Word, w: Word)
    requires Touched(e, v, w0, w) && Extends(v, v') && WholeOk(e, v)
    ensures Touched(e, v', w0, w)
  {
    if w != w0 { HalfKept(e, v, v', w0, w); }
  }

  /** The GC_NULL test gives the same answer on a touched word as on the original. */
  lemma NullTest(e: Env, v: Move, m: seq<Word>, free: int, nil: Word, w0: Word, w: Word)
    requires EnvOk(e) && Inv(e, v, m, free)
    requires Half(e, v, e.nil, nil) || (nil == e.nil && w == w0)
    requires Touched(e, v, w0, w) && WordOk(e, w0)
    ensures (w == e.nil || w == nil) == (w0 == e.nil)
  {
    hide ObjectsOk, Closed, GoodOk, Forwarding;
    if OldPtr(e.l, w0) && w0.a in v.fwd && OldPtr(e.l, e.nil) && e.nil.a in v.fwd {
      assert v.back[v.fwd[w0.a] - e.l.newLo] == w0.a && v.back[v.fwd[e.nil.a] - e.l.newLo] == e.nil.a;
    }
  }

  /** Adding the `len` cells of object `x` at the allocation point. */
  ghost function AddObject(e: Env, v: Move, x: int, len: nat, free: int): Move {
    Move(v.fwd + (map k: int {:trigger free + (k - x)} | x <= k < x + len :: free + (k - x)),
        v.back + seq(len, i => x + i), v.whole + {x}, v.good)
  }

  /** Transporting an object: its cells go to the allocation point and leave forwarding locatives. */
  ghost predicate Transported(e: Env, m: seq<Word>, m': seq<Word>, x: int, len: nat, free: int)
    requires |m| == |e.orig|
  {
    && |m'| == |m| && 0 <= x && x + len <= |m| && 0 <= free && free + len <= |m|
    && (forall k :: free <= k < free + len ==> m'[k] == e.orig[x + (k - free)])
    && (forall k :: x <= k < x + len ==> m'[k] == Loc(free + (k - x)))
    && (forall k :: 0 <= k < |m| && !(free <= k < free + len) && !(x <= k < x + len) ==> m'[k] == m[k])
  }

  lemma ObjectUsed(e: Env, x: int, k: int)
    requires EnvOk(e) && x in e.objs && x <= k < x + Len(e, x)
    ensures e.l.IsUsed(k) && e.l.IsOld(k) && 0 <= k < |e.orig|
  {
    hide Len, Typed, Closed, WordOk;
    assert ObjectOk(e, x);
  }

  lemma OneObject(e: Env, o: int, x: int, k: int)
    requires ObjectsOk(e) && o in e.objs && x in e.objs
    requires o <= k < o + Len(e, o) && x <= k < x + Len(e, x)
    ensures o == x
  {
    hide Len, ObjectOk;
  }

  /** Before an object is moved none of its cells has been moved. */
  lemma Untouched(e: Env, v: Move, m: seq<Word>, free: int, x: int)
    requires EnvOk(e) && Inv(e, v, m, free) && OnlyWhole(e, v)
    requires x in e.objs && x !in v.whole
    ensures forall k :: x <= k < x + Len(e, x) ==> k !in v.fwd && e.l.IsUsed(k) && 0 <= k < |m| && m[k] == e.orig[k]
  {
    hide Len, ObjectOk, Closed, WordOk, GoodOk, Bijection;
    forall k | x <= k < x + Len(e, x)
      ensures k !in v.fwd && e.l.IsUsed(k) && 0 <= k < |m| && m[k] == e.orig[k]
    {
      ObjectUsed(e, x, k);
      if k in v.fwd {
        var o :| o in v.whole && o <= k < o + Len(e, o);
        assert o in e.objs;
        OneObject(e, o, x, k);
      }
    }
  }

  lemma AddObjectExtends(e: Env, v: Move, m: seq<Word>, free: int, x: int)
    requires EnvOk(e) && Inv(e, v, m, free) && OnlyWhole(e, v)
    requires x in e.objs && x !in v.whole
    ensures Extends(v, AddObject(e, v, x, Len(e, x), free))
  {
    hide EnvOk, Inv, OnlyWhole, Len;
    Untouched(e, v, m, free, x);
  }

  /** The cells of an object about to be moved: used, not moved, and disjoint from the others. */
  ghost predicate Movable(e: Env, v: Move, x: int, len: nat) {
    && x in e.objs && x !in v.whole && len == Len(e, x) && len >= 1
    && (forall k :: x <= k < x + len ==> k !in v.fwd && e.l.IsUsed(k) && 0 <= k < |e.orig|)
  }

  lemma AddObjectBijection(e: Env, v: Move, free: int, x: int, len: nat)
    requires Bijection(e, v, free) && Movable(e, v, x, len)
    ensures Bijection(e, AddObject(e, v, x, len, free), free + len)
  {
    hide Len;
  }

  lemma AddObjectForwarding(e: Env, v: Move, m: seq<Word>, m': seq<Word>, free: int, x: int, len: nat)
    requires e.l.Valid() && |e.orig| == e.l.size && e.l.newLo <= free && free + len <= e.l.newHi
    requires Forwarding(e, v, m) && Movable(e, v, x, len)
    requires Transported(e, m, m', x, len, free)
    ensures Forwarding(e, AddObject(e, v, x, len, free), m')
  {
    hide Len;
  }

  lemma AddObjectWhole(e: Env, v: Move, free: int, x: int, len: nat)
    requires WholeOk(e, v) && Movable(e, v, x, len)
    ensures WholeOk(e, AddObject(e, v, x, len, free))
  {
    hide Len;
  }

  lemma GoodKept(e: Env, v: Move, v': Move)
    requires GoodOk(e, v) && Extends(v, v') && v'.good == v.good
    ensures GoodOk(e, v')
  {
  }

  lemma AddObjectInv(e: Env, v: Move, m: seq<Word>, m': seq<Word>, free: int, x: int)
    requires EnvOk(e) && Inv(e, v, m, free) && OnlyWhole(e, v)
    requires x in e.objs && x !in v.whole
    requires Transported(e, m, m', x, Len(e, x), free) && free + Len(e, x) <= e.l.newHi
    requires forall k :: x <= k < x + Len(e, x) ==> k in e.live
    ensures var v' := AddObject(e, v, x, Len(e, x), free);
            && Inv(e, v', m', free + Len(e, x)) && OnlyWhole(e, v')
  {
    hide Len, Closed, WordOk, Typed, GoodOk, WholeOk, Bijection, Forwarding;
    var len := Len(e, x);
    var v' := AddObject(e, v, x, len, free);
    Untouched(e, v, m, free, x);
    AddObjectExtends(e, v, m, free, x);
    assert ObjectOk(e, x);
    assert Movable(e, v, x, len);
    AddObjectBijection(e, v, free, x, len);
    AddObjectForwarding(e, v, m, m', free, x, len);
    AddObjectWhole(e, v, free, x, len);
    GoodKept(e, v, v');
    forall a <- v'.fwd ensures exists o :: o in v'.whole && o <= a < o + Len(e, o) {
      if a in v.fwd {
        var o :| o in v.whole && o <= a < o + Len(e, o);
        assert o in v'.whole;
      } else {
        assert x in v'.whole;
      }
    }
  }

  lemma AddObjectStatic(e: Env, v: Move, m: seq<Word>, m': seq<Word>, free: int, x: int, len: nat)
    requires e.l.Valid() && |e.orig| == e.l.size && |m| == |e.orig|
    requires Movable(e, v, x, len) && WholeOk(e, v) && Extends(v, AddObject(e, v, x, len, free))
    requires e.l.newLo <= free && free + len <= e.l.newHi
    requires Transported(e, m, m', x, len, free) && StaticTouched(e, v, m)
    ensures StaticTouched(e, AddObject(e, v, x, len, free), m')
    ensures forall a :: 0 <= a < |m| && e.l.IsStatic(a) ==> m'[a] == m[a]
  {
    hide Len, WholeOk, Touched, AddObject, Extends;
    var v' := AddObject(e, v, x, len, free);
    forall a | 0 <= a < |m'| && e.l.IsStatic(a) ensures m'[a] == m[a] && Touched(e, v', e.orig[a], m'[a]) {
      assert x <= a < x + len ==> a !in v.fwd && e.l.IsUsed(a);
      TouchedKept(e, v, v', e.orig[a], m[a]);
    }
  }

  lemma AddObjectCopies(e: Env, v: Move, m: seq<Word>, m': seq<Word>, free: int, x: int, len: nat)
    requires e.l.Valid() && |e.orig| == e.l.size && |m| == |e.orig|
    requires |v.back| == free - e.l.newLo && Movable(e, v, x, len) && WholeOk(e, v)
    requires Extends(v, AddObject(e, v, x, len, free))
    requires e.l.newLo <= free && free + len <= e.l.newHi
    requires Transported(e, m, m', x, len, free) && CopiesTouched(e, v, m)
    ensures CopiesTouched(e, AddObject(e, v, x, len, free), m')
    ensures forall a :: e.l.newLo <= a < free ==> m'[a] == m[a]
  {
    hide Len, WholeOk, Touched, Extends;
    var v' := AddObject(e, v, x, len, free);
    forall a | e.l.newLo <= a < free ensures m'[a] == m[a] {
      assert x <= a < x + len ==> a !in v.fwd && e.l.IsUsed(a);
    }
    forall i | 0 <= i < |v'.back|
      ensures 0 <= v'.back[i] < |e.orig| && Touched(e, v', e.orig[v'.back[i]], m'[e.l.newLo + i])
    {
      if i < |v.back| {
        TouchedKept(e, v, v', e.orig[v.back[i]], m[e.l.newLo + i]);
      } else {
        assert x + (i - |v.back|) !in v.fwd;
        RawTouched(e, v', m'[e.l.newLo + i]);
      }
    }
  }

  lemma AddObjectNothing(e: Env, v: Move, m: seq<Word>, m': seq<Word>, free: int, x: int, len: nat)
    requires e.l.Valid() && |e.orig| == e.l.size && |m| == |e.orig|
    requires |v.back| == free - e.l.newLo && Movable(e, v, x, len)
    requires e.l.newLo <= free && free + len <= e.l.newHi
    requires Transported(e, m, m', x, len, free) && NothingTouched(e, v, m)
    requires forall a :: 0 <= a < |m| && e.l.IsStatic(a) ==> m'[a] == m[a]
    requires forall a :: e.l.newLo <= a < free ==> m'[a] == m[a]
    ensures NothingTouched(e, AddObject(e, v, x, len, free), m')
  {
    hide Len;
    var v' := AddObject(e, v, x, len, free);
    assert v'.back == v.back + seq(len, i => x + i);
    hide AddObject;
    forall i | 0 <= i < |v'.back|
      ensures 0 <= v'.back[i] < |e.orig| && m'[e.l.newLo + i] == e.orig[v'.back[i]]
    {
      if i >= |v.back| {
        assert v'.back[i] == x + (i - |v.back|);
        assert x + (i - |v.back|) !in v.fwd;
      }
    }
  }

  lemma RawTouched(e: Env, v: Move, w: Word)
    ensures Touched(e, v, w, w)
  {
  }

  lemma AddObjectPassOne(e: Env, v: Move, m: seq<Word>, m': seq<Word>, free: int, nil: Word, x: int)
    requires PassOne(e, v, m, free, nil)
    requires x in e.objs && x !in v.whole
    requires Transported(e, m, m', x, Len(e, x), free) && free + Len(e, x) <= e.l.newHi
    requires forall k :: x <= k < x + Len(e, x) ==> k in e.live
    ensures var v' := AddObject(e, v, x, Len(e, x), free);
            PassOne(e, v', m', free + Len(e, x), nil) && Extends(v, v')
  {
    hide Len, Typed, Closed, WordOk, GoodOk, WholeOk, OnlyWhole, Half,
         NothingTouched, CopiesTouched, StaticTouched, Transported;
    var len := Len(e, x);
    var v' := AddObject(e, v, x, len, free);
    AddObjectInv(e, v, m, m', free, x);
    AddObjectExtends(e, v, m, free, x);
    Untouched(e, v, m, free, x);
    assert ObjectOk(e, x);
    AddObjectStatic(e, v, m, m', free, x, len);
    AddObjectCopies(e, v, m, m', free, x, len);
    if NothingTouched(e, v, m) { AddObjectNothing(e, v, m, m', free, x, len); }
    if Half(e, v, e.nil, nil) { HalfKept(e, v, v', e.nil, nil); }
  }

  /** Reading a slot that holds no locative, through its forwarding locative if it has one. */
  lemma SlotRead(e: Env, v: Move, m: seq<Word>, free: int, nil: Word, a: int)
    requires PassOne(e, v, m, free, nil)
    requires 0 <= a < |m| && (e.l.IsUsed(a) || e.l.IsStatic(a)) && !e.orig[a].Loc?
    ensures m[a].Loc? ==> 0 <= m[a].a < |m|
    ensures Touched(e, v, e.orig[a], if m[a].Loc? then m[m[a].a] else m[a])
    ensures nil == e.nil && !Half(e, v, e.nil, nil) ==> (if m[a].Loc? then m[m[a].a] else m[a]) == e.orig[a]
  {
    hide Len, ObjectsOk, Closed, WordOk, WholeOk, GoodOk, OnlyWhole;
    if a in v.fwd {
      assert v.back[v.fwd[a] - e.l.newLo] == a;
    }
  }

  /** The type of an object is readable, and its slots are used or static cells. */
  lemma TypeSlots(e: Env, x: int)
    requires EnvOk(e) && x in e.objs
    ensures 0 <= x < |e.orig| && e.orig[x].Ptr? && Len(e, x) >= 1
    ensures var t := e.orig[x].a; 0 <= t && t + 2 < |e.orig| &&
                                  !e.orig[t + 2].Loc? &&
                                  forall a :: t <= a < t + 3 ==> e.l.IsUsed(a) || e.l.IsStatic(a)
    ensures var t := e.orig[x].a;
            if e.orig[t + 2] == e.nil then e.orig[t + 1].Fix? && Len(e, x) == e.orig[t + 1].n
            else x + 1 < |e.orig| && e.orig[x + 1].Fix? && Len(e, x) == e.orig[x + 1].n >= 2
  {
    hide EnvOk;
    ObjectIs(e, x);
    TypeCells(e, x);
  }

  lemma ObjectIs(e: Env, x: int)
    requires EnvOk(e) && x in e.objs
    ensures ObjectOk(e, x)
  {
    hide Closed, WordOk, ObjectOk;
  }

  lemma TypeCells(e: Env, x: int)
    requires EnvOk(e) && Typed(e, x)
    ensures var t := e.orig[x].a; forall a :: t <= a < t + 3 ==> e.l.IsUsed(a) || e.l.IsStatic(a)
  {
    hide EnvOk, Len;
    var t := e.orig[x].a;
    if t in e.objs {
      forall a | t <= a < t + 3 ensures e.l.IsUsed(a) { ObjectUsed(e, t, a); }
    }
  }

  /** A slot read through its forwarding locative. */
  predicate SlotOk(m: seq<Word>, a: int) { 0 <= a < |m| && (m[a].Loc? ==> 0 <= m[a].a < |m|) }

  function Slot(m: seq<Word>, a: int): Word
    requires SlotOk(m, a)
  {
    if m[a].Loc? then m[m[a].a] else m[a]
  }

  /** What gc_get_length reads in the middle of pass one. */
  lemma LengthRead(e: Env, v: Move, m: seq<Word>, free: int, nil: Word, x: int)
    requires PassOne(e, v, m, free, nil) && x in e.objs && x !in v.whole
    ensures 0 <= x < |m| && m[x].Ptr? && Len(e, x) >= 1
    ensures var t := m[x].a; 0 <= t && t + 2 < |m| && SlotOk(m, t + 2)
    ensures var t := m[x].a;
            if Slot(m, t + 2) == e.nil || Slot(m, t + 2) == nil
            then SlotOk(m, t + 1) && Slot(m, t + 1).Fix? && Len(e, x) == Slot(m, t + 1).n
            else x + 1 < |m| && m[x + 1].Fix? && Len(e, x) == m[x + 1].n
  {
    hide Len, ObjectOk, Closed, Bijection, WholeOk, GoodOk, OnlyWhole, CopiesTouched, StaticTouched, NothingTouched;
    TypeSlots(e, x);
    Untouched(e, v, m, free, x);
    var t := e.orig[x].a;
    SlotRead(e, v, m, free, nil, t + 2);
    assert WordOk(e, e.orig[t + 2]);
    NullTest(e, v, m, free, nil, e.orig[t + 2], Slot(m, t + 2));
    if e.orig[t + 2] == e.nil {
      SlotRead(e, v, m, free, nil, t + 1);
    }
  }

  /** The type slot of an object holds a locative exactly when the object has been moved. */
  lemma ForwardTest(e: Env, v: Move, m: seq<Word>, free: int, x: int)
    requires EnvOk(e) && Inv(e, v, m, free) && OnlyWhole(e, v) && x in e.objs
    ensures 0 <= x < |m| && e.l.IsOld(x)
    ensures m[x].Loc? <==> x in v.whole
    ensures x in v.whole ==> x in v.fwd && m[x] == Loc(v.fwd[x])
  {
    hide Len, Closed, GoodOk, Bijection, ObjectOk;
    TypeSlots(e, x);
    ObjectUsed(e, x, x);
    if x !in v.whole { Untouched(e, v, m, free, x); }
  }

  /** There is room in to-space for an object that has not been moved. */
  lemma Room(e: Env, v: Move, m: seq<Word>, free: int, x: int)
    requires EnvOk(e) && Inv(e, v, m, free) && OnlyWhole(e, v) && x in e.objs && x !in v.whole
    requires Roomy(e) && RefIn(e, e.live, Ptr(x))
    ensures Len(e, x) >= 1 && free + Len(e, x) < e.l.newHi
  {
    hide Len, Closed, GoodOk, Bijection, WordOk, Typed;
    assert ObjectOk(e, x);
    Untouched(e, v, m, free, x);
    AddObjectBijection(e, v, free, x, Len(e, x));
    var v' := AddObject(e, v, x, Len(e, x), free);
    forall a <- v'.fwd.Keys ensures a in e.live {
      if a !in v.fwd { ObjectUsed(e, x, x); }
    }
    MovedWithin(e, v', free + Len(e, x), e.live);
  }

  /** The effect of the copying loop on memory. */
  ghost predicate CopiedOut(m: seq<Word>, m': seq<Word>, x: int, len: nat, newPlace: int)
    requires 0 <= x && x + len <= |m| && 0 <= newPlace && newPlace + len <= |m| && |m'| == |m|
  {
    && (forall k :: newPlace <= k < newPlace + len ==> m'[k] == m[x + (k - newPlace)])
    && (forall k :: x <= k < x + len ==> m'[k] == Loc(newPlace + (k - x)))
    && (forall k :: 0 <= k < |m| && !(newPlace <= k < newPlace + len) && !(x <= k < x + len) ==> m'[k] == m[k])
  }

  /** Everything TouchObject needs before it copies. */
  lemma BeforeMove(e: Env, v: Move, m: seq<Word>, free: int, nil: Word, x: int)
    requires PassOne(e, v, m, free, nil) && x in e.objs && x !in v.whole
    requires Roomy(e) && RefIn(e, e.live, Ptr(x))
    ensures |m| == |e.orig| && 0 <= free && Len(e, x) >= 1 && free + Len(e, x) < e.l.newHi <= |m|
    ensures 0 <= x && x + Len(e, x) <= |m|
    ensures x + Len(e, x) <= free || free + Len(e, x) <= x
    ensures forall k :: x <= k < x + Len(e, x) ==> e.l.IsOld(k)
  {
    hide Len, Closed, GoodOk, Bijection, WordOk, Typed, OnlyWhole, WholeOk;
    Room(e, v, m, free, x);
    assert ObjectOk(e, x);
  }

  lemma AfterMove(e: Env, v: Move, m: seq<Word>, m': seq<Word>, free: int, nil: Word, x: int)
    requires PassOne(e, v, m, free, nil) && x in e.objs && x !in v.whole
    requires Roomy(e) && |m'| == |m| && RefIn(e, e.live, Ptr(x))
    requires 0 <= free && free + Len(e, x) < e.l.newHi <= |m| && 0 <= x && 1 <= Len(e, x) && x + Len(e, x) <= |m|
    requires CopiedOut(m, m', x, Len(e, x), free)
    ensures var v' := AddObject(e, v, x, Len(e, x), free);
            && PassOne(e, v', m', free + Len(e, x), nil)
            && OnlyTouch(e, v, m, free, v', m', free + Len(e, x))
            && x in v'.whole && x in v'.fwd && v'.fwd[x] == free
  {
    hide Len, PassOne, EnvOk, Inv, OnlyWhole;
    PassOneParts(e, v, m, free, nil);
    Untouched(e, v, m, free, x);
    BeforeMove(e, v, m, free, nil, x);
    ForwardTest(e, v, m, free, x);
    AddObjectPassOne(e, v, m, m', free, nil, x);
    PassOneShape(e, v, m, free, nil);
    hide Extends;
    assert RawFrom(e, AddObject(e, v, x, Len(e, x), free), m', free, free + Len(e, x));
  }

  /** Following one link of a locative chain stays among used, live cells. */
  lemma ChainLink(e: Env, v: Move, m: seq<Word>, free: int, nil: Word, a: int)
    requires PassOne(e, v, m, free, nil) && e.l.IsUsed(a) && a in e.live
    ensures 0 <= a < |m|
    ensures OldLoc(e.l, m[a]) ==> a !in v.fwd && m[a] == e.orig[a] && e.l.IsUsed(m[a].a) && m[a].a in e.live
    ensures OldPtr(e.l, m[a]) ==> m[a].a in e.objs && RefIn(e, e.live, m[a])
    ensures a in v.fwd || m[a] == e.orig[a]
  {
    hide Len, ObjectsOk, GoodOk, OnlyWhole, WholeOk;
  }

  /** The cells visited by a chain walk whose last word is `last`. */
  ghost predicate Walked(e: Env, v: Move, seen: set<int>, last: Word) {
    forall a <- seen :: 0 <= a < |e.orig| && e.l.IsUsed(a) && a in e.live &&
                        (a in v.fwd || e.orig[a] == last || (OldLoc(e.l, e.orig[a]) && e.orig[a].a in seen))
  }

  lemma WalkedFrom(e: Env, v: Move, m: seq<Word>, free: int, nil: Word, seen: set<int>, last: Word)
    requires PassOne(e, v, m, free, nil)
    requires forall a <- seen :: 0 <= a < |m| && e.l.IsUsed(a) && a in e.live &&
                                 (m[a] == last || (OldLoc(e.l, m[a]) && m[a].a in seen))
    ensures Walked(e, v, seen, last)
  {
    hide EnvOk, GoodOk, OnlyWhole, WholeOk, Bijection, CopiesTouched, StaticTouched, NothingTouched;
    EnvShape(e);
  }

  lemma WalkedKept(e: Env, v: Move, v': Move, seen: set<int>, last: Word)
    requires Walked(e, v, seen, last) && Extends(v, v')
    ensures Walked(e, v', seen, last)
  {
  }

  /** A walk that ended at a moved object, at a non-old word or in a circle makes its cells good. */
  lemma WalkIsGood(e: Env, v: Move, m: seq<Word>, free: int, nil: Word, seen: set<int>, last: Word)
    requires PassOne(e, v, m, free, nil) && Walked(e, v, seen, last)
    requires OldPtr(e.l, last) ==> last.a in v.whole
    requires OldLoc(e.l, last) ==> last.a in seen
    ensures var v' := v.(good := v.good + seen);
            PassOne(e, v', m, free, nil) && OnlyTouch(e, v, m, free, v', m, free)
  {
    hide Len, EnvOk, OnlyWhole, CopiesTouched, StaticTouched, NothingTouched, Half, Walked, GoodOk;
    var v' := v.(good := v.good + seen);
    WalkGoodOk(e, v, seen, last);
    EnvShape(e);
    GoodAddTouched(e, v, v', m, free, nil);
    assert OnlyWhole(e, v') by { GoodAddWhole(e, v, v'); }
  }

  lemma WalkGoodOk(e: Env, v: Move, seen: set<int>, last: Word)
    requires GoodOk(e, v) && Walked(e, v, seen, last)
    requires OldPtr(e.l, last) ==> last.a in v.whole
    requires OldLoc(e.l, last) ==> last.a in seen
    ensures GoodOk(e, v.(good := v.good + seen)) && seen <= e.live
  {
    var v' := v.(good := v.good + seen);
    forall a <- v'.good
      ensures 0 <= a < |e.orig| && e.l.IsUsed(a) &&
              (a in v'.fwd || (PtrDone(e, v', e.orig[a]) && LocGood(e, v', e.orig[a])))
    {
      if a !in seen { assert a in v.good; }
    }
    forall a | a in seen ensures a in e.live { assert 0 <= a < |e.orig|; }
  }

  lemma GoodAddWhole(e: Env, v: Move, v': Move)
    requires OnlyWhole(e, v) && v'.fwd == v.fwd && v'.whole == v.whole
    ensures OnlyWhole(e, v')
  {
    forall a <- v'.fwd ensures exists o :: o in v'.whole && o <= a < o + Len(e, o) {
      var o :| o in v.whole && o <= a < o + Len(e, o);
      assert o in v'.whole;
    }
  }

  lemma GoodAddTouched(e: Env, v: Move, v': Move, m: seq<Word>, free: int, nil: Word)
    requires e.l.Valid() && |e.orig| == e.l.size && |m| == |e.orig|
    requires e.l.newLo + |v.back| <= e.l.newHi && WholeOk(e, v) && Extends(v, v') && v'.back == v.back
    requires CopiesTouched(e, v, m) && StaticTouched(e, v, m)
    ensures CopiesTouched(e, v', m) && StaticTouched(e, v', m)
    ensures Half(e, v, e.nil, nil) ==> Half(e, v', e.nil, nil)
    ensures NothingTouched(e, v, m) ==> NothingTouched(e, v', m)
  {
    hide Len, Touched, WholeOk, Extends;
    if Half(e, v, e.nil, nil) { HalfKept(e, v, v', e.nil, nil); }
    forall i | 0 <= i < |v'.back|
      ensures 0 <= v'.back[i] < |e.orig| && Touched(e, v', e.orig[v'.back[i]], m[e.l.newLo + i])
    {
      TouchedKept(e, v, v', e.orig[v.back[i]], m[e.l.newLo + i]);
    }
    forall a | 0 <= a < |m| && e.l.IsStatic(a) ensures Touched(e, v', e.orig[a], m[a]) {
      TouchedKept(e, v, v', e.orig[a], m[a]);
    }
  }

  lemma EnvShape(e: Env)
    requires EnvOk(e)
    ensures e.l.Valid() && |e.orig| == e.l.size
  {
  }

  /** The original word of the cell whose copy is at address i. */
  ghost function Source(e: Env, v: Move, i: int): Word {
    if e.l.newLo <= i < e.l.newLo + |v.back| && 0 <= v.back[i - e.l.newLo] < |e.orig|
    then e.orig[v.back[i - e.l.newLo]] else Fix(0)
  }

  /** Words of to-space that still are plain copies of their old cells. */
  ghost predicate RawFrom(e: Env, v: Move, m: seq<Word>, lo: int, hi: int) {
    && 0 <= e.l.newLo <= lo && hi <= e.l.newLo + |v.back| && hi <= |m|
    && forall i :: lo <= i < hi ==> m[i] == Source(e, v, i)
  }

  ghost predicate HalfFrom(e: Env, v: Move, m: seq<Word>, lo: int, hi: int) {
    && 0 <= e.l.newLo <= lo && hi <= e.l.newLo + |v.back| && hi <= |m|
    && forall i :: lo <= i < hi ==> Half(e, v, Source(e, v, i), m[i])
  }

  lemma SourceKept(e: Env, v: Move, v': Move, i: int)
    requires Extends(v, v') && i < e.l.newLo + |v.back|
    ensures Source(e, v', i) == Source(e, v, i)
  {
  }

  /** What a touch may change: old cells, and cells past the allocation point, which become
      plain copies. */
  ghost predicate OnlyTouch(e: Env, v: Move, m: seq<Word>, free: int, v': Move, m': seq<Word>, free': int) {
    && free <= free' && |m'| == |m| && Extends(v, v')
    && (forall a :: 0 <= a < |m| && !e.l.IsOld(a) && !(free <= a < free') ==> m'[a] == m[a])
    && RawFrom(e, v', m', free, free')
  }

  lemma OnlyTouchExtends(e: Env, v: Move, m: seq<Word>, free: int, v': Move, m': seq<Word>, free': int)
    requires OnlyTouch(e, v, m, free, v', m', free')
    ensures Extends(v, v')
  {
  }

  lemma OnlyTouchTrans(e: Env, v: Move, m: seq<Word>, free: int, v1: Move, m1: seq<Word>, free1: int,
                       v2: Move, m2: seq<Word>, free2: int)
    requires OnlyTouch(e, v, m, free, v1, m1, free1) && OnlyTouch(e, v1, m1, free1, v2, m2, free2)
    requires e.l.Valid() && free2 <= e.l.newHi
    ensures OnlyTouch(e, v, m, free, v2, m2, free2)
  {
    RawFromKept(e, v1, m1, v2, m2, free, free1, free2);
  }

  lemma PassOneShape(e: Env, v: Move, m: seq<Word>, free: int, nil: Word)
    requires PassOne(e, v, m, free, nil)
    ensures e.l.Valid() && |e.orig| == e.l.size == |m| && e.l.newLo <= free <= e.l.newHi
    ensures |v.back| == free - e.l.newLo && WholeOk(e, v)
  {
    hide Len, ObjectsOk, GoodOk, OnlyWhole, WholeOk, CopiesTouched, StaticTouched, NothingTouched, WordOk, RefIn;
  }

  /** The word copied to address i may be touched. */
  lemma CopyWord(e: Env, v: Move, m: seq<Word>, free: int, nil: Word, i: int)
    requires PassOne(e, v, m, free, nil) && e.l.newLo <= i < free
    ensures 0 <= i < |m| && !e.l.IsOld(i)
    ensures WordOk(e, Source(e, v, i)) && RefIn(e, e.live, Source(e, v, i))
  {
    hide Len, ObjectsOk, GoodOk, OnlyWhole, WholeOk, CopiesTouched, StaticTouched, NothingTouched, WordOk, RefIn;
    var a := v.back[i - e.l.newLo];
    assert a in v.fwd;
  }

  lemma StaticWord(e: Env, v: Move, m: seq<Word>, free: int, nil: Word, a: int)
    requires PassOne(e, v, m, free, nil) && e.l.IsStatic(a)
    ensures 0 <= a < |m| && 0 <= a < |e.orig| && WordOk(e, e.orig[a]) && !e.l.IsOld(a)
  {
    hide Len, ObjectsOk, GoodOk, OnlyWhole, WholeOk, CopiesTouched, StaticTouched, NothingTouched, WordOk, RefIn;
  }

  lemma SetCopy(e: Env, v: Move, m: seq<Word>, free: int, nil: Word, i: int, r: Word)
    requires PassOne(e, v, m, free, nil) && Half(e, v, e.nil, nil)
    requires e.l.newLo <= i < free && 0 <= i < |m| && Half(e, v, Source(e, v, i), r)
    ensures PassOne(e, v, m[i := r], free, nil)
  {
    hide Len, GoodOk, OnlyWhole, WholeOk, ObjectsOk, Closed, WordOk, NothingTouched, Half;
    assert v.back[i - e.l.newLo] in v.fwd;
    assert Forwarding(e, v, m[i := r]);
    assert CopiesTouched(e, v, m[i := r]);
    assert StaticTouched(e, v, m[i := r]);
  }

  lemma SetStatic(e: Env, v: Move, m: seq<Word>, free: int, nil: Word, a: int, r: Word)
    requires PassOne(e, v, m, free, nil) && Half(e, v, e.nil, nil)
    requires e.l.IsStatic(a) && 0 <= a < |m| && 0 <= a < |e.orig| && Half(e, v, e.orig[a], r)
    ensures PassOne(e, v, m[a := r], free, nil)
  {
    hide Len, GoodOk, OnlyWhole, WholeOk, ObjectsOk, Closed, WordOk, NothingTouched, Half;
    assert Forwarding(e, v, m[a := r]);
    assert CopiesTouched(e, v, m[a := r]);
    assert StaticTouched(e, v, m[a := r]);
  }

  lemma HalfFromKept(e: Env, v: Move, m: seq<Word>, v': Move, m': seq<Word>, lo: int, hi: int)
    requires HalfFrom(e, v, m, lo, hi) && Extends(v, v') && WholeOk(e, v) && |m'| == |m|
    requires 0 <= lo && forall i :: lo <= i < hi ==> m'[i] == m[i]
    ensures HalfFrom(e, v', m', lo, hi)
  {
    hide Half, WholeOk, Len, Source;
    forall i | lo <= i < hi ensures Half(e, v', Source(e, v', i), m'[i]) {
      SourceKept(e, v, v', i);
      HalfKept(e, v, v', Source(e, v, i), m[i]);
    }
  }

  lemma RawFromKept(e: Env, v: Move, m: seq<Word>, v': Move, m': seq<Word>, lo: int, mid: int, hi: int)
    requires RawFrom(e, v, m, lo, mid) && Extends(v, v') && RawFrom(e, v', m', mid, hi) && |m'| == |m|
    requires 0 <= lo <= mid <= hi && forall i :: lo <= i < mid ==> m'[i] == m[i]
    ensures RawFrom(e, v', m', lo, hi)
  {
    hide Source, Extends;
    forall i | lo <= i < hi ensures m'[i] == Source(e, v', i) {
      if i < mid { SourceKept(e, v, v', i); }
    }
  }

  ghost predicate StaticHalf(e: Env, v: Move, m: seq<Word>) {
    |m| <= |e.orig| && forall a :: 0 <= a < |m| && e.l.IsStatic(a) ==> Half(e, v, e.orig[a], m[a])
  }

  lemma ExtendsSelf(v: Move)
    ensures Extends(v, v)
  {
  }

  lemma ExtendsTrans(v: Move, v1: Move, v2: Move)
    requires Extends(v, v1) && Extends(v1, v2)
    ensures Extends(v, v2)
  {
  }

  lemma ScanStart(e: Env, v: Move, m: seq<Word>)
    requires e.l.Valid() && |m| == e.l.size
    ensures HalfFrom(e, v, m, e.l.newLo, e.l.newLo) && Extends(v, v)
  {
  }

  lemma RawAt(e: Env, v: Move, m: seq<Word>, lo: int, hi: int, i: int)
    requires RawFrom(e, v, m, lo, hi) && lo <= i < hi
    ensures 0 <= i < |m| && m[i] == Source(e, v, i)
  {
  }

  lemma TouchFrame(e: Env, v: Move, m: seq<Word>, free: int, v': Move, m': seq<Word>, free': int)
    requires OnlyTouch(e, v, m, free, v', m', free') && e.l.newLo <= free && free' <= e.l.newHi
    ensures |m'| == |m|
    ensures forall a :: 0 <= a < |m| && !e.l.IsOld(a) && !e.l.IsNew(a) ==> m'[a] == m[a]
  {
  }

  /** One step of scavenge: word p is touched and stored back. */
  lemma ScanStep(e: Env, v: Move, m: seq<Word>, free: int, v1: Move, m1: seq<Word>, free1: int, nil: Word,
      p: int, r: Word)
    requires e.l.newLo <= p < free && Half(e, v, e.nil, nil)
    requires PassOne(e, v, m, free, nil) && OnlyTouch(e, v, m, free, v1, m1, free1) && PassOne(e, v1, m1, free1, nil)
    requires HalfFrom(e, v, m, e.l.newLo, p) && RawFrom(e, v, m, p, free)
    requires 0 <= p < |m| && Half(e, v1, m[p], r)
    ensures |m1| == |m| && Half(e, v1, e.nil, nil) && free <= free1 <= e.l.newHi && Extends(v, v1)
    ensures var m2 := m1[p := r];
            && PassOne(e, v1, m2, free1, nil)
            && HalfFrom(e, v1, m2, e.l.newLo, p + 1) && RawFrom(e, v1, m2, p + 1, free1)
  {
    hide PassOne, Half, Source, WholeOk, Extends;
    PassOneShape(e, v, m, free, nil);
    PassOneShape(e, v1, m1, free1, nil);
    OnlyTouchExtends(e, v, m, free, v1, m1, free1);
    HalfKept(e, v, v1, e.nil, nil);
    SourceKept(e, v, v1, p);
    SetCopy(e, v1, m1, free1, nil, p, r);
    var m2 := m1[p := r];
    HalfFromKept(e, v, m, v1, m2, e.l.newLo, p);
    assert RawFrom(e, v, m, p + 1, free);
    RawFromKept(e, v, m, v1, m2, p + 1, free, free1);
  }

  /** One step of the scan of static space. */
  lemma StaticStep(e: Env, v: Move, m: seq<Word>, free: int, v1: Move, m1: seq<Word>, free1: int, nil: Word,
      p: int, r: Word)
    requires e.l.IsStatic(p) && Half(e, v, e.nil, nil)
    requires PassOne(e, v, m, free, nil) && OnlyTouch(e, v, m, free, v1, m1, free1) && PassOne(e, v1, m1, free1, nil)
    requires RawFrom(e, v, m, e.l.newLo, free) && |e.orig| == |m|
    requires 0 <= p < |m| && m[p] == e.orig[p] && Half(e, v1, m[p], r)
    ensures |m1| == |m| && Half(e, v1, e.nil, nil) && Extends(v, v1)
    ensures var m2 := m1[p := r];
            && PassOne(e, v1, m2, free1, nil) && RawFrom(e, v1, m2, e.l.newLo, free1)
            && (forall a :: 0 <= a < |m| && e.l.IsStatic(a) && a != p ==> m2[a] == m[a])
            && (forall a :: 0 <= a < |m| && e.l.IsStatic(a) && a != p && Half(e, v, e.orig[a], m[a]) ==>
                  Half(e, v1, e.orig[a], m2[a]))
  {
    hide PassOne, Half, Source, WholeOk, Extends;
    PassOneShape(e, v, m, free, nil);
    PassOneShape(e, v1, m1, free1, nil);
    OnlyTouchExtends(e, v, m, free, v1, m1, free1);
    HalfKept(e, v, v1, e.nil, nil);
    SetStatic(e, v1, m1, free1, nil, p, r);
    var m2 := m1[p := r];
    RawFromKept(e, v, m, v1, m2, e.l.newLo, free, free1);
    forall a | 0 <= a < |m| && e.l.IsStatic(a) && a != p && Half(e, v, e.orig[a], m[a])
      ensures m2[a] == m[a] && Half(e, v1, e.orig[a], m2[a])
    {
      HalfKept(e, v, v1, e.orig[a], m[a]);
    }
  }

  // ------------------------------------------------------------------ space

  /** To-space has a word more than all that may have to be moved. */
  predicate Roomy(e: Env) { |e.live| < e.l.newHi - e.l.newLo }

  /** No more cells are moved than there are in a set that holds them all. */
  lemma MovedWithin(e: Env, v: Move, free: int, s: set<int>)
    requires Bijection(e, v, free) && v.fwd.Keys <= s
    ensures free - e.l.newLo <= |s|
    ensures v.fwd.Keys == s ==> free - e.l.newLo == |s|
  {
    forall i, j | 0 <= i < j < |v.back| ensures v.back[i] != v.back[j] {
      assert v.fwd[v.back[i]] == e.l.newLo + i && v.fwd[v.back[j]] == e.l.newLo + j;
    }
    var r := PrefixSet(v.back, |v.back|);
    forall a <- r ensures a in s { assert a in v.fwd; }
    SubsetSize(r, s);
    if v.fwd.Keys == s {
      forall a <- s ensures a in r { assert v.back[v.fwd[a] - e.l.newLo] == a; }
      assert r == s;
    }
  }

  /** Every moved cell was in use before the flip, so to-space holds at most the used cells. */
  lemma MovedFits(e: Env, v: Move, free: int)
    requires e.l.Valid() && Bijection(e, v, free)
    ensures free - e.l.newLo <= e.l.UsedCells()
  {
    var old1 := Interval(e.l.oldLo, e.l.oldFree);
    var old2 := Interval(e.l.spLo, e.l.spHi);
    var used := old1 + if e.l.full then old2 else {};
    forall a <- v.fwd.Keys ensures a in used { assert e.l.IsUsed(a); }
    MovedWithin(e, v, free, used);
    assert |old1 + old2| <= |old1| + |old2|;
  }
}
