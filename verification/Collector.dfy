/** The copying collector (gc.c): two passes over roots and to-space, with locatives into the
    interior of objects.  All of memory is one array of words; the spaces are ranges of it. */
module Collector {
  import opened Words
  import opened CopyHeap
  import opened Firm
  import opened LocChain
  import opened CopyPassTwo
  import opened Isomorphism

  class Heap {
    const l: Layout
    const mem: array<Word>
    const preNil: Word       // e_nil before the collection
    var free: int            // free_point
    var nil: Word            // e_nil

    ghost var e: Env
    ghost var v: Move
    ghost var firm: set<int>       // what pass one may move
    ghost var through: set<int>    // and the cells it may look through

    ghost predicate InPassOne()
      reads this, mem
    {
      && e.l == l && e.nil == preNil
      && PassOne(e, v, mem[..], free, nil)
      && Within(e, v, firm, through)
      && Roomy(e)
    }

    /** A word that pass one may touch. */
    ghost predicate May(w: Word)
      reads this
    {
      WordOk(e, w) && FirmRef(e, firm, through, w)
    }

    lemma Shape()
      requires InPassOne()
      ensures l.Valid() && mem.Length == l.size
    {
      EnvShape(e);
    }

    lemma CopyFirm(p: int)
      requires InPassOne() && l.newLo <= p < free
      ensures FirmRef(e, firm, through, Source(e, v, p))
    {
      hide EnvOk, Forwarding, WholeOk, GoodOk, OnlyWhole, Within;
      WithinCopy(e, v, firm, through, free, p);
    }

    twostate predicate OnlyTouched()
      reads this, mem
    {
      OnlyTouch(e, old(v), old(mem[..]), old(free), v, mem[..], free)
    }

    /** gc_get_length: the length of an object whose type may already have been moved. */
    method GetLength(x: int) returns (len: int)
      requires InPassOne() && x in e.objs && x !in v.whole
      ensures len == Len(e, x) && len >= 1
    {
      hide PassOne, Len;
      LengthRead(e, v, mem[..], free, nil, x);
      var typ := mem[x];
      var vlen := mem[typ.a + 2];
      if vlen.Loc? { vlen := mem[vlen.a]; }
      if vlen == preNil || vlen == nil {
        var n := mem[typ.a + 1];
        if n.Loc? { n := mem[n.a]; }
        len := n.n;
      } else {
        len := mem[x + 1].n;
      }
    }

    /** gc_touch0 on a pointer: transport the object unless it has been moved already. */
    method TouchObject(x: int) returns (r: Word)
      requires InPassOne() && x in e.objs && FirmRef(e, firm, through, Ptr(x))
      modifies this`free, this`v, mem
      ensures InPassOne() && OnlyTouched() && v.good == old(v.good)
      ensures x in v.whole && x in v.fwd && r == Ptr(v.fwd[x])
    {
      hide PassOne, Len, EnvOk, Inv, OnlyWhole, OnlyTouch, FirmRef, Within, RefIn, ObjectsOk, GoodOk, WholeOk,
           Closed, Forwarding, Bijection, CopiesTouched, StaticTouched, NothingTouched, Extends, RawFrom, FirmInside;
      PassOneParts(e, v, mem[..], free, nil);
      ForwardTest(e, v, mem[..], free, x);
      var typeSlot := mem[x];
      if typeSlot.Loc? {
        PassOneShape(e, v, mem[..], free, nil);
        OnlyTouchSelf(e, v, mem[..], free);
        r := typeSlot.OrOne();
      } else {
        r := Transport(x);
      }
    }

    /** Move an object that has not been moved. */
    method Transport(x: int) returns (r: Word)
      requires InPassOne() && x in e.objs && x !in v.whole && FirmRef(e, firm, through, Ptr(x))
      modifies this`free, this`v, mem
      ensures InPassOne() && OnlyTouched() && v.good == old(v.good)
      ensures x in v.whole && x in v.fwd && r == Ptr(v.fwd[x])
    {
      hide PassOne, Len, AddObject, OnlyTouch, FirmRef, CopiedOut, Within, RefIn;
      var len := GetLength(x);
      FirmLive(e, v, firm, through, Ptr(x));
      BeforeMove(e, v, mem[..], free, nil, x);
      var newPlace := free;
      free := free + len;
      if free >= l.newHi {
        assert false;
      }
      ghost var m := mem[..];
      CopyOut(x, len, newPlace);
      AfterMove(e, v, m, mem[..], newPlace, nil, x);
      WithinObject(e, v, firm, through, x, newPlace);
      AddObjectGood(e, v, x, len, newPlace);
      v := AddObject(e, v, x, len, newPlace);
      r := Ptr(newPlace);
    }

    /** The copying loop: each old cell gets a locative to its copy. */
    method CopyOut(x: int, len: nat, newPlace: int)
      requires 0 <= x && x + len <= mem.Length && 0 <= newPlace && newPlace + len <= mem.Length
      requires x + len <= newPlace || newPlace + len <= x
      modifies mem
      ensures CopiedOut(old(mem[..]), mem[..], x, len, newPlace)
      ensures forall k :: 0 <= k < mem.Length && !(newPlace <= k < newPlace + len) && !(x <= k < x + len) ==>
                mem[k] == old(mem[k])
    {
      var i := 0;
      while i < len
        invariant 0 <= i <= len
        invariant forall k :: newPlace <= k < newPlace + i ==> mem[k] == old(mem[x + (k - newPlace)])
        invariant forall k :: x <= k < x + i ==> mem[k] == Loc(newPlace + (k - x))
        invariant forall k :: 0 <= k < mem.Length && !(newPlace <= k < newPlace + i) && !(x <= k < x + i) ==>
                    mem[k] == old(mem[k])
      {
        mem[newPlace + i] := mem[x + i];
        mem[x + i] := Loc(newPlace + i);
        i := i + 1;
      }
    }

    /** gc_touch0 on a locative: follow the chain to its end and touch the object found there.
        The locative itself is dealt with in pass two. */
    method TouchLocative(r: Word)
      requires InPassOne() && OldLoc(l, r) && May(r)
      modifies this`free, this`v, mem
      ensures InPassOne() && OnlyTouched() && r.a in v.good
    {
      hide PassOne, Len, EnvOk, OnlyTouch, Walked, FirmRef, Within;
      PassOneShape(e, v, mem[..], free, nil);
      OnlyTouchSelf(e, v, mem[..], free);
      var seen, last, circular := FollowChain(r);
      if !circular && OldPtr(l, last) {
        var _ := TouchObject(last.a);
        WalkedKept(e, old(v), v, seen, last) by {
          OnlyTouchExtends(e, old(v), old(mem[..]), old(free), v, mem[..], free);
        }
      }
      PassOneShape(e, v, mem[..], free, nil);
      WalkIsGood(e, v, mem[..], free, nil, seen, last);
      WithinGood(e, v, firm, through, seen);
      ghost var v1 := v;
      v := v.(good := v.good + seen);
      OnlyTouchTrans(e, old(v), old(mem[..]), old(free), v1, mem[..], free, v, mem[..], free);
    }

    /** The tortoise and hare of gc_touch0.  `last` is the word the hare stopped at. */
    method FollowChain(r: Word) returns (ghost seen: set<int>, last: Word, circular: bool)
      requires InPassOne() && OldLoc(l, r) && May(r)
      ensures r.a in seen && Walked(e, v, seen, last) && seen <= through
      ensures circular <==> OldLoc(l, last)
      ensures circular ==> last.a in seen
      ensures OldPtr(l, last) ==> last.a in e.objs && FirmRef(e, firm, through, last)
    {
      hide PassOne, Len, EnvOk, Walking, Walked, Within, OverBy;
      assert l.Valid() && mem.Length == l.size by { Shape(); }
      ghost var m := mem[..];
      ghost var bound := Meet(l, m, r);
      ghost var k: nat := 0;
      WalkStart(e, v, m, free, nil, firm, through, r.a);
      hide FirmRef;
      assert AtRound(l, m, r, 0, r, m[r.a]);
      hide AtRound;
      var r0, r1 := r, mem[r.a];
      seen := {r.a};
      circular := false;
      while OldLoc(l, r1) && !circular
        invariant k <= bound
        invariant r.a in seen && OldLoc(l, r0) && r0.a in seen
        invariant Walking(e, m, firm, through, seen, r1)
        invariant circular ==> OldLoc(l, r1) && r1.a in seen
        invariant !circular && OldLoc(l, r1) ==> AtRound(l, m, r, k, r0, r1)
        decreases bound - k, !circular, OldLoc(l, r1)
      {
        if r0 == r1 {
          circular := true;
        } else {
          ChainRound(l, m, r, bound, k, r0, r1);
          WalkOn(e, v, m, free, nil, firm, through, seen, r1);
          seen := seen + {r1.a};
          r0, r1 := mem[r0.a], mem[r1.a];
          if r0 == r1 {
            circular := true;
          } else if OldLoc(l, r1) {
            WalkOn(e, v, m, free, nil, firm, through, seen, r1);
            seen := seen + {r1.a};
            r1 := mem[r1.a];
            k := k + 1;
          }
        }
      }
      last := r1;
      WalkEnds(e, v, m, free, nil, firm, through, seen, last);
    }

    /** GC_TOUCH */
    method Touch(w: Word) returns (r: Word)
      requires InPassOne() && May(w)
      modifies this`free, this`v, mem
      ensures InPassOne() && OnlyTouched() && Half(e, v, w, r)
    {
      hide PassOne, Len, EnvOk, OnlyTouch, FirmRef, Within;
      r := w;
      if w.IsRef() && l.IsOld(w.a) {
        if w.Ptr? {
          r := TouchObject(w.a);
        } else {
          TouchLocative(w);
        }
      } else {
        PassOneShape(e, v, mem[..], free, nil);
        OnlyTouchSelf(e, v, mem[..], free);
      }
    }

    /** Touch every word of a block of registers or stack cells. */
    method TouchRoots(roots: array<Word>)
      requires InPassOne() && Half(e, v, e.nil, nil) && roots != mem
      requires forall k :: 0 <= k < roots.Length ==> May(roots[k])
      modifies this`free, this`v, mem, roots
      ensures InPassOne() && OnlyTouched() && Half(e, v, e.nil, nil)
      ensures forall k :: 0 <= k < roots.Length ==> Half(e, v, old(roots[k]), roots[k])
    {
      hide PassOne, Len, EnvOk, WordOk, FirmRef, Within, Half, OnlyTouch;
      PassOneShape(e, v, mem[..], free, nil);
      OnlyTouchSelf(e, v, mem[..], free);
      var i := 0;
      while i < roots.Length
        invariant 0 <= i <= roots.Length && InPassOne() && OnlyTouched() && Half(e, v, e.nil, nil)
        invariant forall k :: 0 <= k < i ==> Half(e, v, old(roots[k]), roots[k])
        invariant forall k :: i <= k < roots.Length ==> roots[k] == old(roots[k])
      {
        ghost var v0, free0, m0 := v, free, mem[..];
        PassOneShape(e, v, m0, free, nil);
        var r := Touch(roots[i]);
        roots[i] := r;
        PassOneShape(e, v, mem[..], free, nil);
        OnlyTouchTrans(e, old(v), old(mem[..]), old(free), v0, m0, free0, v, mem[..], free);
        OnlyTouchExtends(e, v0, m0, free0, v, mem[..], free);
        HalfKept(e, v0, v, e.nil, nil);
        forall k | 0 <= k < i ensures Half(e, v, old(roots[k]), roots[k]) {
          HalfKept(e, v0, v, old(roots[k]), roots[k]);
        }
        i := i + 1;
      }
    }

    /** scavenge: touch every word of to-space, including those that arrive meanwhile. */
    method Scavenge()
      requires InPassOne() && Half(e, v, e.nil, nil) && RawFrom(e, v, mem[..], l.newLo, free)
      modifies this`free, this`v, mem
      ensures InPassOne() && Half(e, v, e.nil, nil) && Extends(old(v), v)
      ensures HalfFrom(e, v, mem[..], l.newLo, free)
      ensures forall a :: 0 <= a < mem.Length && !l.IsOld(a) && !l.IsNew(a) ==> mem[a] == old(mem[a])
    {
      hide PassOne, Len, EnvOk, WordOk, FirmRef, Within, Half, OnlyTouch, RawFrom, HalfFrom, Extends, Source;
      PassOneShape(e, v, mem[..], free, nil);
      ScanStart(e, v, mem[..]);
      var p := l.newLo;
      while p < free
        invariant l.newLo <= p <= free && InPassOne() && Half(e, v, e.nil, nil) && Extends(old(v), v)
        invariant HalfFrom(e, v, mem[..], l.newLo, p) && RawFrom(e, v, mem[..], p, free)
        invariant free <= l.newHi
        invariant forall a :: 0 <= a < mem.Length && !l.IsOld(a) && !l.IsNew(a) ==> mem[a] == old(mem[a])
        decreases l.newHi - p
      {
        ghost var v0, free0, m0 := v, free, mem[..];
        CopyWord(e, v, m0, free, nil, p);
        CopyFirm(p);
        RawAt(e, v, m0, p, free, p);
        var r := Touch(mem[p]);
        ghost var m1 := mem[..];
        mem[p] := r;
        ScanStep(e, v0, m0, free0, v, m1, free, nil, p, r);
        assert mem[..] == m1[p := r];
        TouchFrame(e, v0, m0, free0, v, m1, free);
        ExtendsTrans(old(v), v0, v);
        p := p + 1;
      }
    }

    /** GC_TOUCH on every cell of static space, when only new space is collected. */
    method TouchStatic()
      requires InPassOne() && Half(e, v, e.nil, nil) && RawFrom(e, v, mem[..], l.newLo, free)
      requires forall a :: 0 <= a < mem.Length && l.IsStatic(a) ==> mem[a] == e.orig[a]
                                                                    && FirmRef(e, firm, through, e.orig[a])
      modifies this`free, this`v, mem
      ensures InPassOne() && Half(e, v, e.nil, nil) && Extends(old(v), v)
      ensures RawFrom(e, v, mem[..], l.newLo, free)
      ensures StaticHalf(e, v, mem[..])
    {
      hide PassOne, Len, EnvOk, WordOk, FirmRef, Within, Half, OnlyTouch, RawFrom, Extends, Source;
      PassOneShape(e, v, mem[..], free, nil);
      ExtendsSelf(v);
      if !l.full {
        var p := l.spLo;
        while p < l.spHi
          invariant l.spLo <= p <= l.spHi && InPassOne() && Half(e, v, e.nil, nil) && Extends(old(v), v)
          invariant RawFrom(e, v, mem[..], l.newLo, free)
          invariant forall a :: l.spLo <= a < p ==> Half(e, v, e.orig[a], mem[a])
          invariant forall a :: p <= a < l.spHi ==> mem[a] == e.orig[a]
        {
          ghost var v0, free0, m0 := v, free, mem[..];
          PassOneShape(e, v, m0, free, nil);
          StaticWord(e, v, m0, free, nil, p);
          var r := Touch(mem[p]);
          ghost var m1 := mem[..];
          mem[p] := r;
          StaticStep(e, v0, m0, free0, v, m1, free, nil, p, r);
          assert mem[..] == m1[p := r];
          ExtendsTrans(old(v), v0, v);
          p := p + 1;
        }
      }
    }

    // ---------------------------------------------------------------- pass two

    ghost predicate InPassTwo()
      reads this, mem
    {
      && e.l == l && e.nil == preNil
      && PassTwo(e, v, mem[..], free)
      && Roomy(e)
    }

    twostate predicate OnlyMovedCells()
      reads this, mem
    {
      OnlyCells(e, old(v), old(mem[..]), old(free), v, mem[..], free)
    }

    /** loc_touch0 on a locative into old space: find or make the new home of its cell. */
    method TouchCell(w: Word) returns (r: Word)
      requires InPassTwo() && OldLoc(l, w) && Ready(e, v, w)
      modifies this`free, this`v, mem
      ensures InPassTwo() && OnlyMovedCells()
      ensures w.a in v.fwd && r == Loc(v.fwd[w.a])
    {
      hide PassTwo, OnlyCells, Ready, Len;
      var p := w.a;
      PassTwoShape(e, v, mem[..], free);
      ReadyUsed(e, v, w);
      CellTest(e, v, mem[..], free, p);
      var r1 := mem[p];
      if r1.Loc? && l.IsNew(r1.a) {
        OnlyCellsSelf(e, v, mem[..], free);
        return r1;
      }
      CellRoom(e, v, mem[..], free, p);
      MoveCell(e, v, mem[..], free, p);
      ghost var m := mem[..];
      var newPlace := free;
      free := free + 1;
      if free >= l.newHi {
        assert false;
      }
      mem[p] := Loc(newPlace);
      mem[newPlace] := if OldPtr(l, r1) then mem[r1.a].OrOne() else r1;
      assert mem[..] == m[p := Loc(newPlace)][newPlace := LonelyWord(l, m, m[p])];
      v := AddCell(v, p, newPlace);
      r := Loc(newPlace);
    }

    /** LOC_TOUCH on a word that pass one has touched. */
    method TouchLoc(ghost w0: Word, w: Word) returns (r: Word)
      requires InPassTwo() && Ready(e, v, w0) && PtrDone(e, v, w0) && w == PtrImage(e, v, w0)
      modifies this`free, this`v, mem
      ensures InPassTwo() && OnlyMovedCells() && Done(e, v, w0, r)
    {
      hide PassTwo, OnlyCells, Ready, Len;
      PassTwoShape(e, v, mem[..], free);
      r := w;
      PtrImageNew(e, v, mem[..], free, w0);
      if w.Loc? && l.IsOld(w.a) {
        r := TouchCell(w);
      } else {
        OnlyCellsSelf(e, v, mem[..], free);
      }
    }

    /** LOC_TOUCH on a block of stack cells already touched in pass one. */
    method RedirectRoots(roots: array<Word>, ghost olds: seq<Word>)
      requires InPassTwo() && roots != mem && |olds| == roots.Length
      requires forall k :: 0 <= k < |olds| ==> WordOk(e, olds[k]) && Ready(e, v, olds[k]) && PtrDone(e, v, olds[k])
      requires forall k :: 0 <= k < |olds| ==> roots[k] == PtrImage(e, v, olds[k])
      modifies this`free, this`v, mem, roots
      ensures InPassTwo() && OnlyMovedCells()
      ensures forall k :: 0 <= k < |olds| ==> Done(e, v, olds[k], roots[k])
    {
      hide PassTwo, Len, EnvOk, WordOk, Ready, PtrImage, Done, OnlyCells, PtrDone;
      PassTwoShape(e, v, mem[..], free);
      OnlyCellsSelf(e, v, mem[..], free);
      var i := 0;
      while i < roots.Length
        invariant 0 <= i <= roots.Length && InPassTwo() && OnlyMovedCells()
        invariant forall k :: 0 <= k < i ==> Done(e, v, olds[k], roots[k])
        invariant forall k :: i <= k < roots.Length ==> Ready(e, v, olds[k]) && PtrDone(e, v, olds[k])
                                                        && roots[k] == PtrImage(e, v, olds[k])
      {
        ghost var v0, free0, m0 := v, free, mem[..];
        PassTwoShape(e, v, m0, free);
        var r := TouchLoc(olds[i], roots[i]);
        roots[i] := r;
        PassTwoShape(e, v, mem[..], free);
        OnlyCellsTrans(e, old(v), old(mem[..]), old(free), v0, m0, free0, v, mem[..], free);
        OnlyCellsExtends(e, v0, m0, free0, v, mem[..], free);
        forall k | 0 <= k < i ensures Done(e, v, olds[k], roots[k]) {
          DoneKept(e, v0, v, olds[k], roots[k]);
        }
        forall k | i < k < roots.Length
          ensures Ready(e, v, olds[k]) && PtrDone(e, v, olds[k]) && roots[k] == PtrImage(e, v, olds[k])
        {
          ReadyKept(e, v0, v, olds[k]);
          PtrImageKept(e, v0, v, olds[k]);
        }
        i := i + 1;
      }
    }

    /** loc_scavenge */
    method LocScavenge()
      requires InPassTwo() && HalfFrom(e, v, mem[..], l.newLo, free)
      modifies this`free, this`v, mem
      ensures InPassTwo() && Extends(old(v), v) && v.whole == old(v.whole)
      ensures DoneFrom(e, v, mem[..], l.newLo, free)
      ensures forall a :: 0 <= a < mem.Length && !l.IsOld(a) && !l.IsNew(a) ==> mem[a] == old(mem[a])
    {
      hide PassTwo, Len, EnvOk, WordOk, Ready, PtrImage, Done, Half, OnlyCells, PtrDone, HalfFrom, DoneFrom,
          Extends, Source;
      PassTwoShape(e, v, mem[..], free);
      LocScanStart(e, v, mem[..]);
      var p := l.newLo;
      while p < free
        invariant l.newLo <= p <= free <= l.newHi && InPassTwo() && Extends(old(v), v) && v.whole == old(v.whole)
        invariant DoneFrom(e, v, mem[..], l.newLo, p) && HalfFrom(e, v, mem[..], p, free)
        invariant forall a :: 0 <= a < mem.Length && !l.IsOld(a) && !l.IsNew(a) ==> mem[a] == old(mem[a])
        decreases l.newHi - p
      {
        ghost var v0, free0, m0 := v, free, mem[..];
        HalfAt(e, v, m0, p, free, p);
        SourceOk(e, v, m0, free, p);
        HalfReady(e, v, m0, free, Source(e, v, p), mem[p]);
        HalfParts(e, v, Source(e, v, p), mem[p]);
        var r := TouchLoc(Source(e, v, p), mem[p]);
        ghost var m1 := mem[..];
        mem[p] := r;
        LocScanStep(e, v0, m0, free0, v, m1, free, p, r);
        assert mem[..] == m1[p := r];
        ExtendsTrans(old(v), v0, v);
        p := p + 1;
      }
    }

    /** LOC_TOUCH on every cell of static space, when only new space is collected. */
    method RedirectStatic()
      requires InPassTwo() && HalfFrom(e, v, mem[..], l.newLo, free) && StaticHalf(e, v, mem[..])
      modifies this`free, this`v, mem
      ensures InPassTwo() && HalfFrom(e, v, mem[..], l.newLo, free)
      ensures Extends(old(v), v) && v.whole == old(v.whole) && StaticDone(e, v, mem[..])
    {
      hide PassTwo, Len, EnvOk, WordOk, Ready, PtrImage, Half, Done, OnlyCells, PtrDone, HalfFrom, Extends, Source;
      PassTwoShape(e, v, mem[..], free);
      ExtendsSelf(v);
      if !l.full {
        var p := l.spLo;
        while p < l.spHi
          invariant l.spLo <= p <= l.spHi && InPassTwo() && Extends(old(v), v) && v.whole == old(v.whole)
          invariant HalfFrom(e, v, mem[..], l.newLo, free)
          invariant forall a :: l.spLo <= a < p ==> Done(e, v, e.orig[a], mem[a])
          invariant forall a :: p <= a < l.spHi ==> Half(e, v, e.orig[a], mem[a])
        {
          ghost var v0, free0, m0 := v, free, mem[..];
          StaticOk(e, v, m0, free, p);
          HalfReady(e, v, m0, free, e.orig[p], mem[p]);
          HalfParts(e, v, e.orig[p], mem[p]);
          var r := TouchLoc(e.orig[p], mem[p]);
          ghost var m1 := mem[..];
          mem[p] := r;
          StaticLocStep(e, v0, m0, free0, v, m1, free, p, r);
          assert mem[..] == m1[p := r];
          ExtendsTrans(old(v), v0, v);
          p := p + 1;
        }
      }
    }

    /** post_gc_wp on the table of weak pointers. */
    method ScanWeak(weak: array<Word>)
      requires InPassTwo() && weak != mem
      requires forall k :: 0 <= k < weak.Length ==> WordOk(e, weak[k])
      modifies weak
      ensures forall k :: 0 <= k < weak.Length ==> weak[k] == WeakImage(e, v, old(weak[k]), nil)
    {
      hide PassTwo, Len, EnvOk;
      PassTwoShape(e, v, mem[..], free);
      var i := 0;
      while i < weak.Length
        invariant 0 <= i <= weak.Length
        invariant forall k :: 0 <= k < i ==> weak[k] == WeakImage(e, v, old(weak[k]), nil)
        invariant forall k :: i <= k < weak.Length ==> weak[k] == old(weak[k])
      {
        var r := weak[i];
        if r.IsRef() && l.IsOld(r.a) {
          WeakTarget(e, v, mem[..], free, r);
          CellTest(e, v, mem[..], free, r.a);
          var r1 := mem[r.a];
          if r1.Loc? && l.IsNew(r1.a) {
            weak[i] := if r.Loc? then r1 else r1.OrOne();
          } else {
            weak[i] := nil;
          }
        }
        i := i + 1;
      }
    }

    /** The first half of gc: registers, stacks, static space, scavenging. */
    method RootPass(regs: array<Word>, slots: array<Word>)
      requires InPassOne() && free == l.newLo && |v.back| == 0 && nil == preNil
      requires mem !in {regs, slots} && regs != slots
      requires May(preNil) && AllTouchable(e, firm, through, regs[..]) && AllTouchable(e, firm, through, slots[..])
      requires StaticTouchable(e, firm, through, mem[..])
      modifies this`free, this`v, this`nil, mem, regs, slots
      ensures InPassOne() && Half(e, v, e.nil, nil) && HalfFrom(e, v, mem[..], l.newLo, free)
          && StaticHalf(e, v, mem[..])
      ensures AllHalf(e, v, old(regs[..]), regs[..]) && AllHalf(e, v, old(slots[..]), slots[..])
    {
      hide PassOne, Len, EnvOk, WordOk, FirmRef, Within, Half, OnlyTouch, RawFrom, HalfFrom, Extends, Source,
          StaticHalf, AllHalf, AllTouchable, StaticTouchable;
      ghost var v0, m0, free0 := v, mem[..], free;
      PassOneShape(e, v, m0, free, nil);
      OnlyTouchSelf(e, v, m0, free);
      var n := Touch(nil);
      PassOneNil(e, v, mem[..], free, nil, n);
      nil := n;
      TouchBlock(v0, m0, free0, regs);
      ghost var v1 := v;
      TouchBlock(v0, m0, free0, slots);
      AllHalfKept(e, v1, v, old(regs[..]), regs[..]);
      ghost var v2, m2, free2 := v, mem[..], free;
      PassOneShape(e, v2, m2, free2, nil);
      BeforeStatic(e, firm, through, v0, m0, free0, v, m2, free);
      TouchStatic();
      ghost var v3, m3, free3 := v, mem[..], free;
      PassOneShape(e, v3, m3, free3, nil);
      Scavenge();
      StaticHalfKept(e, v3, m3, v, mem[..]);
      ExtendsTrans(v2, v3, v);
      AllHalfKept(e, v2, v, old(regs[..]), regs[..]);
      AllHalfKept(e, v2, v, old(slots[..]), slots[..]);
    }

    /** One block of roots, with what has been touched since the state (v0, m0, free0). */
    method TouchBlock(ghost v0: Move, ghost m0: seq<Word>, ghost free0: int, roots: array<Word>)
      requires InPassOne() && Half(e, v, e.nil, nil) && roots != mem
      requires AllTouchable(e, firm, through, roots[..])
      requires OnlyTouch(e, v0, m0, free0, v, mem[..], free)
      modifies this`free, this`v, mem, roots
      ensures InPassOne() && Half(e, v, e.nil, nil) && Extends(old(v), v) && WholeOk(e, old(v))
      ensures OnlyTouch(e, v0, m0, free0, v, mem[..], free)
      ensures AllHalf(e, v, old(roots[..]), roots[..])
    {
      hide PassOne, Len, EnvOk, WordOk, FirmRef, Within, Half, OnlyTouch, RawFrom, Extends, Source, WholeOk;
      PassOneShape(e, v, mem[..], free, nil);
      TouchRoots(roots);
      PassOneShape(e, v, mem[..], free, nil);
      OnlyTouchExtends(e, old(v), old(mem[..]), old(free), v, mem[..], free);
      OnlyTouchTrans(e, v0, m0, free0, old(v), old(mem[..]), old(free), v, mem[..], free);
    }

    /** The second half of gc: locatives in the inner registers, stacks, static space and to-space. */
    method LocPass(slots: array<Word>, inner: array<Word>, ghost oslots: seq<Word>)
      requires InPassTwo() && mem !in {slots, inner} && slots != inner
      requires HalfFrom(e, v, mem[..], l.newLo, free) && StaticHalf(e, v, mem[..])
      requires AllHalf(e, v, oslots, slots[..]) && forall w <- oslots :: WordOk(e, w)
      requires forall k :: 0 <= k < inner.Length ==> InnerReadyWord(e, v, inner[k])
      modifies this`free, this`v, mem, slots, inner
      ensures InPassTwo() && Collected(e, v, mem[..], free) && Extends(old(v), v) && v.whole == old(v.whole)
      ensures AllDone(e, v, oslots, slots[..]) && AllDone(e, v, old(inner[..]), inner[..])
    {
      hide PassTwo, Len, EnvOk, WordOk, Half, Done, HalfFrom, DoneFrom, Extends, Source, StaticHalf, OnlyCells, WholeOk,
           AllHalf, StaticDone, AllDone, Ready, PtrDone, PtrImage;
      ghost var v0, m0, free0 := v, mem[..], free;
      PassTwoShape(e, v, m0, free);
      RedirectRoots(inner, inner[..]);
      PassTwoShape(e, v, mem[..], free);
      OnlyCellsExtends(e, v0, m0, free0, v, mem[..], free);
      AllHalfKept(e, v0, v, oslots, slots[..]);
      AllHalfReady(e, v, mem[..], free, oslots, slots[..]);
      ghost var v1, m1, free1 := v, mem[..], free;
      RedirectRoots(slots, oslots);
      OnlyCellsTrans(e, v0, m0, free0, v1, m1, free1, v, mem[..], free) by { PassTwoShape(e, v, mem[..], free); }
      ghost var v2, m2, free2 := v, mem[..], free;
      PassTwoShape(e, v2, m2, free2);
      OnlyCellsExtends(e, v0, m0, free0, v2, m2, free2);
      OnlyCellsExtends(e, v1, m1, free1, v2, m2, free2);
      AfterCells(e, v0, m0, free0, v2, m2, free2);
      RedirectStatic();
      ghost var v3, m3 := v, mem[..];
      PassTwoShape(e, v3, m3, free);
      LocScavenge();
      PassTwoShape(e, v, mem[..], free);
      StaticDoneKept(e, v3, m3, v, mem[..]);
      ExtendsTrans(v2, v3, v);
      ExtendsTrans(v1, v2, v);
      ExtendsTrans(v0, v2, v);
      AllDoneIntro(e, v1, old(inner[..]), inner[..]);
      AllDoneKept(e, v1, v, old(inner[..]), inner[..]);
      AllDoneIntro(e, v2, oslots, slots[..]);
      AllDoneKept(e, v2, v, oslots, slots[..]);
    }

    /** gc: roots, scavenging, locatives, weak pointers.  `regs` are touched in pass one only,
        `slots` (stacks, examine buffer) in both passes, `inner` (e_bp, e_pc) in pass two only.
        `objs` are the object starts and `live` is any set of cells that contains the referents
        of the roots and is closed under reference. */
    method Collect(regs: array<Word>, slots: array<Word>, inner: array<Word>, weak: array<Word>,
                   ghost objs: set<int>, ghost live: set<int>)
      requires EnvOk(Env(l, mem[..], preNil, objs, live)) && nil == preNil
      requires |live| < l.newHi - l.newLo
      requires mem !in {regs, slots, inner, weak} && regs !in {slots, inner, weak}
      requires slots !in {inner, weak} && inner != weak
      requires RootsOk(Env(l, mem[..], preNil, objs, live), regs[..], slots[..], inner[..], weak[..])
      modifies this, mem, regs, slots, inner, weak
      ensures e == Env(l, old(mem[..]), preNil, objs, live)
      ensures Collected(e, v, mem[..], free) && free < l.newHi && v.fwd.Keys <= live
      ensures FirmMoved(e, v, FirmRoots(e, old(regs[..]), old(slots[..])))
      ensures Done(e, v, preNil, nil)
      ensures AllDone(e, v, old(regs[..]), regs[..])
      ensures AllDone(e, v, old(slots[..]), slots[..])
      ensures AllDone(e, v, old(inner[..]), inner[..])
      ensures forall k :: 0 <= k < weak.Length ==> weak[k] == WeakImage(e, v, old(weak[k]), nil)
    {
      hide PassOne, PassTwo, Len, EnvOk, WordOk, RefIn, Half, Done, HalfFrom, DoneFrom, Extends, Source,
          StaticHalf, WholeOk, AllHalf, AllDone, InnerOk, InnerMove, FirmRef, Within, FirmCells, ThroughCells,
          Collected, RootsOk, AllTouchable, StaticTouchable, InnerReadyWord;
      e := Env(l, mem[..], preNil, objs, live);
      v := Move(map[], [], {}, {});
      free := l.newLo;
      ghost var oregs, oslots, oinner := regs[..], slots[..], inner[..];
      ghost var roots := FirmRoots(e, oregs, oslots);
      firm, through := FirmCells(e, roots), ThroughCells(e, roots);
      Flip(e, v, mem[..], nil, oregs, oslots, oinner, weak[..]);
      RootPass(regs, slots);
      EndPassOne(e, v, mem[..], free, nil, oregs, regs[..], oslots, slots[..], oinner, weak[..]);
      v := InnerMove(e, roots, v);
      ghost var v1 := v;
      PassTwoShape(e, v1, mem[..], free);
      LocPass(slots, inner, oslots);
      EndPassTwo(e, v1, v, mem[..], free, nil, oregs, regs[..]);
      ScanWeak(weak);
    }
  }
}
