/** A heap and roots on which the copying collector does not give a lonely cell the image of its
    contents: the cell e_bp leads to belongs to an object nothing else refers to, and holds the only
    pointer to an object, here to that same one. */
module LonelyCell {
  import opened Words
  import opened CopyHeap
  import opened CopyPassTwo
  import opened Firm
  import opened Isomorphism

  /** The type of everything at 0, nil at 3, and SELF at 6 with a pointer to itself in its cell 7. */
  function Was(): seq<Word> {
    [Ptr(0), Fix(3), Ptr(3), Ptr(0), Fix(0), Fix(0), Ptr(0), Ptr(6), Fix(0)] + seq(10, _ => Fix(0))
  }

  /** The same after pass one: nil has moved to 9 and the type to 12. */
  function Now(): seq<Word> {
    [Loc(12), Loc(13), Loc(14), Loc(9), Loc(10), Loc(11), Ptr(0), Ptr(6), Fix(0)]
    + [Ptr(12), Fix(0), Fix(0), Ptr(12), Fix(3), Ptr(9), Fix(0), Fix(0), Fix(0), Fix(0)]
  }

  const L := Layout(19, 0, 9, 9, 9, 9, 9, 19, false)

  const FOUND: set<int> := {0, 1, 2, 3, 4, 5}

  ghost function Heap(): Env { Env(L, Was(), Ptr(3), {0, 3, 6}, FOUND + {6, 7, 8}) }

  function NewHome(a: int): int { if a < 3 then a + 12 else a + 6 }

  ghost function Moved(): Move { Move(map a <- FOUND :: NewHome(a), [3, 4, 5, 0, 1, 2], {0, 3}, {}) }

  lemma WasCells()
    ensures |Was()| == 19 && Was()[0] == Was()[3] == Was()[6] == Ptr(0) && Was()[2] == Ptr(3) && Was()[7] == Ptr(6)
    ensures Was()[1] == Fix(3) && forall a :: 4 <= a < 19 && a != 6 && a != 7 ==> Was()[a] == Fix(0)
  {
  }

  lemma NowCells()
    ensures |Now()| == 19 && Now()[9] == Now()[12] == Ptr(12) && Now()[14] == Ptr(9) && Now()[13] == Fix(3)
    ensures Now()[10] == Now()[11] == Fix(0)
    ensures forall a :: 0 <= a < 9 ==> Now()[a] == if a < 6 then Loc(NewHome(a)) else Was()[a]
  {
  }

  lemma Length(o: int)
    requires o in Heap().objs
    ensures Len(Heap(), o) == 3
  {
    hide Was;
    WasCells();
  }

  lemma ObjectFine(o: int)
    requires o in Heap().objs
    ensures ObjectOk(Heap(), o)
  {
    WasCells();
    hide Was;
    Length(o);
    Length(0);
    hide Len;
  }

  lemma HeapOk()
    ensures EnvOk(Heap())
  {
    WasCells();
    hide Was, Len, ObjectOk;
    var e := Heap();
    forall o <- e.objs ensures ObjectOk(e, o) && Len(e, o) == 3 { ObjectFine(o); Length(o); }
  }

  /** What the roots of pass one lead to. */
  lemma Found()
    ensures FirmCells(Heap(), [Heap().nil]) == FOUND
  {
    WasCells();
    Length(0);
    Length(3);
    hide Was, Len;
    var e, s := Heap(), FOUND;
    FoundClosed();
    hide FirmClosed;
    forall a <- s ensures InEveryFirm(e, [e.nil], a) {
      forall firm, through | FirmClosed(e, [e.nil], firm, through) ensures a in firm { FirmAt(firm, through, a); }
    }
  }

  lemma FoundClosed()
    ensures FirmClosed(Heap(), [Heap().nil], FOUND, {})
  {
    WasCells();
    Length(0);
    Length(3);
    hide Was, Len;
  }

  lemma FirmAt(firm: set<int>, through: set<int>, a: int)
    requires FirmClosed(Heap(), [Heap().nil], firm, through) && 0 <= a < 6
    ensures a in firm
  {
    WasCells();
    Length(0);
    Length(3);
    hide Was, Len;
    var e := Heap();
    assert e.nil in [e.nil];
    assert FirmRef(e, firm, through, e.nil);
    assert 3 in firm;
    assert FirmRef(e, firm, through, e.orig[3]);
  }

  lemma AllMoved()
    ensures Bijection(Heap(), Moved(), 15)
  {
    hide Was;
    var v := Moved();
    forall a <- v.fwd
      ensures 9 <= v.fwd[a] < 15 && v.back[v.fwd[a] - 9] == a
    {
      assert a == 0 || a == 1 || a == 2 || a == 3 || a == 4 || a == 5;
    }
  }

  lemma AllForwarded()
    ensures |Was()| == |Now()| && Forwarding(Heap(), Moved(), Now())
  {
    WasCells();
    NowCells();
    hide Was, Now;
  }

  lemma AllWhole()
    ensures WholeOk(Heap(), Moved())
  {
    Length(0);
    Length(3);
    hide Was, Len;
  }

  lemma AfterPassOne()
    ensures PassTwo(Heap(), Moved(), Now(), 15) && FirmMoved(Heap(), Moved(), [Heap().nil])
  {
    HeapOk();
    Found();
    AllMoved();
    AllForwarded();
    AllWhole();
    hide EnvOk, Was, Now, Len, FirmCells, Bijection, Forwarding, WholeOk;
  }

  /** e_bp does not meet the condition, and what pass two puts in the new cell is a pointer into old
      space where it should be one to the new home of SELF. */
  lemma CellLost()
    ensures var e, bp := Heap(), Loc(7);
            && EnvOk(e) && WordOk(e, bp) && RefIn(e, e.live, bp) && !InnerOk(e, [e.nil], bp)
            && PassTwo(e, Moved(), Now(), 15) && FirmMoved(e, Moved(), [e.nil])
            && 7 !in Moved().fwd && |Was()| == |Now()| == 19 && OldPtr(L, Was()[7])
            && LonelyWord(L, Now(), Was()[7]) == Ptr(0) && L.IsOld(0)
            && !Half(e, Moved(), Was()[7], LonelyWord(L, Now(), Was()[7]))
  {
    HeapOk();
    AfterPassOne();
    Found();
    WasCells();
    NowCells();
    hide EnvOk, Was, Now, Len, FirmCells, FirmMoved, PassTwo;
    var e := Heap();
    forall g | 7 in g ensures !Redirectable(e, [e.nil], g) {
      assert !LonelyFine(e, [e.nil], g, e.orig[7]);
    }
  }
}
