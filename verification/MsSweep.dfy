/** The invariant of the sweep: the free lists hold exactly the unmarked objects seen so far. */
module MsSweep {
  import opened Extents
  import opened FreeLists
  import opened MsGraph

  /** Objects that are not on a free list keep all their words. */
  ghost predicate WordsKept(m0: seq<MsWord>, m: seq<MsWord>, starts: set<int>, free: int, dead: set<int>) {
    |m| == |m0| && forall o, a :: o in starts && o !in dead && o <= a < End(starts, free, o) && 0 <= a < |m| ==>
                     m[a] == m0[a]
  }

  ghost predicate SweepInv(m0: seq<MsWord>, m: seq<MsWord>, starts: set<int>, free: int, heads: seq<int>,
                           lists: seq<seq<int>>, dead: set<int>, total: int) {
    && ListsOk(m, starts, free, heads, lists)
    && Entries(starts, free, lists, dead)
    && total == SumLists(starts, free, lists)
    && WordsKept(m0, m, starts, free, dead)
  }

  lemma SweepStart(m: seq<MsWord>, starts: set<int>, free: int, heads: seq<int>, lists: seq<seq<int>>)
    requires |heads| == |lists| == NUM_SIZE_CLASSES
    requires forall c :: 0 <= c < |heads| ==> heads[c] == NULL && lists[c] == []
    ensures SweepInv(m, m, starts, free, heads, lists, {}, 0)
  {
    SumListsEmpty(starts, free, lists);
  }

  /** The link and size words written into a dead object. */
  function Written(m: seq<MsWord>, o: int, len: int, head: int): seq<MsWord>
    requires 0 <= o && o + len <= |m| && len >= 1
  {
    if len >= 2 then m[o := Link(head)][o + 1 := Words(len)] else m[o := Link(head)]
  }

  lemma PushUntouched(m: seq<MsWord>, starts: set<int>, free: int, o: int, head: int, list: seq<int>)
    requires 0 <= o && o + Size(starts, free, o) <= |m| && Size(starts, free, o) >= 1 && o in starts
    requires o !in list && forall p :: p in list ==> p in starts
    ensures EntriesUntouched(m, Written(m, o, Size(starts, free, o), head), starts, free, list)
  {
    hide Size;
    forall p | p in list ensures p != o && (Size(starts, free, o) >= 2 ==> p != o + 1)
        && (Size(starts, free, p) >= 2 ==> p + 1 != o) {
      NotInside(starts, free, o, p);
      NotInside(starts, free, p, o);
    }
  }

  lemma SweepPushLists(m: seq<MsWord>, starts: set<int>, free: int, heads: seq<int>, lists: seq<seq<int>>,
      dead: set<int>, o: int)
    requires ListsOk(m, starts, free, heads, lists) && Entries(starts, free, lists, dead)
    requires o in starts && o !in dead && 0 <= o && Size(starts, free, o) >= 1 && o + Size(starts, free, o) <= |m|
    ensures var c := ClassOf(Size(starts, free, o));
            ListsOk(Written(m, o, Size(starts, free, o), heads[c]), starts, free, heads[c := o],
                lists[c := [o] + lists[c]])
  {
    hide ClassOf, Size, ListOk;
    var len := Size(starts, free, o);
    var c := ClassOf(len);
    var m' := Written(m, o, len, heads[c]);
    var heads', lists' := heads[c := o], lists[c := [o] + lists[c]];
    forall d: nat | d < NUM_SIZE_CLASSES
      ensures ListOk(m', starts, free, d, heads'[d], lists'[d])
    {
      assert o !in lists[d];
      PushUntouched(m, starts, free, o, heads[c], lists[d]);
      if d == c {
        Pushed(m, m', starts, free, c, heads[c], lists[c], o);
      } else {
        ListKept(m, m', starts, free, starts, free, d, heads[d], lists[d]);
      }
    }
  }

  /** One dead object swept. */
  lemma SweepPush(m0: seq<MsWord>, m: seq<MsWord>, starts: set<int>, free: int, heads: seq<int>, lists: seq<seq<int>>,
                  dead: set<int>, total: int, o: int)
    requires SweepInv(m0, m, starts, free, heads, lists, dead, total) && Tiled(starts, free)
    requires o in starts && o !in dead && Size(starts, free, o) >= 1 && o + Size(starts, free, o) <= |m|
    ensures var len := Size(starts, free, o);
            var c := ClassOf(len);
            SweepInv(m0, Written(m, o, len, heads[c]), starts, free, heads[c := o], lists[c := [o] + lists[c]],
                dead + {o}, total + len)
  {
    hide ClassOf, ListsOk;
    HeadsLength(m0, m, starts, free, heads, lists, dead, total);
    var len := Size(starts, free, o);
    var c := ClassOf(len);
    var m' := Written(m, o, len, heads[c]);
    var lists' := lists[c := [o] + lists[c]];
    SweepPushLists(m, starts, free, heads, lists, dead, o);
    SumListsUpdate(starts, free, lists, c, [o] + lists[c]);
    assert ([o] + lists[c])[1..] == lists[c];
    SweepPushEntries(starts, free, lists, dead, o);
    SweepPushWords(m0, m, starts, free, dead, o, heads[c]);
  }

  lemma SweepPushEntries(starts: set<int>, free: int, lists: seq<seq<int>>, dead: set<int>, o: int)
    requires Entries(starts, free, lists, dead) && o in starts
    ensures var c := ClassOf(Size(starts, free, o)); Entries(starts, free, lists[c := [o] + lists[c]], dead + {o})
  {
    hide ClassOf, Size;
    var c := ClassOf(Size(starts, free, o));
    var lists' := lists[c := [o] + lists[c]];
    forall d: nat, p | d < NUM_SIZE_CLASSES && p in lists'[d] ensures p in dead + {o} {
      if p != o { assert p in lists[d]; }
    }
    forall p <- dead + {o} ensures p in lists'[ClassOf(Size(starts, free, p))] {
      if p == o { assert lists'[c][0] == o; } else { assert p in lists[ClassOf(Size(starts, free, p))]; }
    }
  }

  lemma SweepPushWords(m0: seq<MsWord>, m: seq<MsWord>, starts: set<int>, free: int, dead: set<int>, o: int, head: int)
    requires WordsKept(m0, m, starts, free, dead) && Tiled(starts, free)
    requires o in starts && 0 <= o && Size(starts, free, o) >= 1 && o + Size(starts, free, o) <= |m|
    ensures WordsKept(m0, Written(m, o, Size(starts, free, o), head), starts, free, dead + {o})
  {
    var m' := Written(m, o, Size(starts, free, o), head);
    forall p, a | p in starts && p !in dead + {o} && p <= a < End(starts, free, p) && 0 <= a < |m'|
      ensures m'[a] == m0[a]
    {
      if p < o { Apart(starts, free, p, o); } else { Apart(starts, free, o, p); }
    }
  }

  lemma HeadsLength(m0: seq<MsWord>, m: seq<MsWord>, starts: set<int>, free: int, heads: seq<int>, lists: seq<seq<int>>,
                    dead: set<int>, total: int)
    requires SweepInv(m0, m, starts, free, heads, lists, dead, total)
    ensures |heads| == |lists| == NUM_SIZE_CLASSES
  {
  }

  lemma SweepParts(m0: seq<MsWord>, m: seq<MsWord>, starts: set<int>, free: int, heads: seq<int>, lists: seq<seq<int>>,
                   dead: set<int>, total: int)
    requires SweepInv(m0, m, starts, free, heads, lists, dead, total)
    ensures ListsOk(m, starts, free, heads, lists) && Entries(starts, free, lists, dead)
    ensures total == SumLists(starts, free, lists) && WordsKept(m0, m, starts, free, dead)
  {
  }

  lemma SweptRefs(m0: seq<MsWord>, m: seq<MsWord>, starts: set<int>, free: int, dead0: set<int>, roots: seq<MsWord>,
                  marked: set<int>, dead: set<int>)
    requires RefsOk(m0, starts, free, dead0) && MarkInv(m0, starts, free, dead0, roots, marked, [], NONE)
    requires WordsKept(m0, m, starts, free, dead) && dead == starts - marked
    ensures RefsOk(m, starts, free, dead)
  {
    hide WordOk, Reachable, Inside;
    SweptWords(m0, starts, free, dead0, marked, dead);
  }

  lemma ObjectsSame(m0: seq<MsWord>, m: seq<MsWord>, starts: set<int>, free: int, dead: set<int>)
    requires WordsKept(m0, m, starts, free, dead)
    ensures forall o <- starts :: o !in dead ==> SameObject(m0, m, starts, free, o)
  {
  }

  lemma SameObjectTrans(m0: seq<MsWord>, m1: seq<MsWord>, m2: seq<MsWord>, starts: set<int>, free: int, o: int)
    requires SameObject(m0, m1, starts, free, o) && SameObject(m1, m2, starts, free, o)
    ensures SameObject(m0, m2, starts, free, o)
  {
  }
}
