/** Taking an entry off a free list, and what allocation leaves unchanged. */
module MsAlloc {
  import opened Extents
  import opened FreeLists
  import opened MsGraph
  import opened MsSweep

  /** Memory after unlinking entry k of a list. */
  function Unlink(m: seq<MsWord>, list: seq<int>, k: nat): seq<MsWord>
    requires k < |list| && (k > 0 ==> 0 <= list[k - 1] < |m|)
  {
    if k == 0 then m else m[list[k - 1] := Link(NextEntry(list, k))]
  }

  /** What the loop of ms_free_list_alloc reads at entry k. */
  lemma ReadEntry(m: seq<MsWord>, starts: set<int>, free: int, heads: seq<int>, lists: seq<seq<int>>, c: nat, k: nat)
    requires ListsOk(m, starts, free, heads, lists) && c < NUM_SIZE_CLASSES && k < |lists[c]|
    ensures var p := lists[c][k];
            && p in starts && 0 <= p < |m| && m[p] == Link(NextEntry(lists[c], k))
            && 1 <= Size(starts, free, p) && p + Size(starts, free, p) <= |m| && ClassOf(Size(starts, free, p)) == c
            && (c == 0 ==> Size(starts, free, p) == 1)
            && (c != 0 ==> p + 1 < |m| && m[p + 1] == Words(Size(starts, free, p)))
    ensures k > 0 ==> 0 <= lists[c][k - 1] < |m|
    ensures |heads| == |lists| == NUM_SIZE_CLASSES
  {
    hide Size;
    assert ListOk(m, starts, free, c, heads[c], lists[c]);
    assert Entry(m, starts, free, c, lists[c][k], NextEntry(lists[c], k));
    if k > 0 { assert Entry(m, starts, free, c, lists[c][k - 1], NextEntry(lists[c], k - 1)); }
  }

  lemma UnlinkUntouched(m: seq<MsWord>, starts: set<int>, free: int, heads: seq<int>, lists: seq<seq<int>>, c: nat,
      k: nat, d: nat)
    requires ListsOk(m, starts, free, heads, lists) && c < NUM_SIZE_CLASSES && 0 < k < |lists[c]|
        && d < NUM_SIZE_CLASSES && d != c
    requires 0 <= lists[c][k - 1] < |m|
    ensures EntriesUntouched(m, Unlink(m, lists[c], k), starts, free, lists[d])
  {
    hide Size, ClassOf, Entry;
    var q := lists[c][k - 1];
    EntryClass(m, starts, free, heads, lists, c, q);
    forall p | p in lists[d] ensures p != q && (Size(starts, free, p) >= 2 ==> p + 1 != q) {
      EntryClass(m, starts, free, heads, lists, d, p);
      NotInside(starts, free, p, q);
    }
  }

  lemma EntryClass(m: seq<MsWord>, starts: set<int>, free: int, heads: seq<int>, lists: seq<seq<int>>, c: nat, p: int)
    requires ListsOk(m, starts, free, heads, lists) && c < NUM_SIZE_CLASSES && p in lists[c]
    ensures p in starts && ClassOf(Size(starts, free, p)) == c
  {
    hide Size, ClassOf;
    assert ListOk(m, starts, free, c, heads[c], lists[c]);
    var k: nat :| k < |lists[c]| && lists[c][k] == p;
    assert Entry(m, starts, free, c, lists[c][k], NextEntry(lists[c], k));
  }

  lemma UnlinkLists(m: seq<MsWord>, starts: set<int>, free: int, heads: seq<int>, lists: seq<seq<int>>, c: nat, k: nat)
    requires ListsOk(m, starts, free, heads, lists) && c < NUM_SIZE_CLASSES && k < |lists[c]|
    requires k > 0 ==> 0 <= lists[c][k - 1] < |m|
    ensures ListsOk(Unlink(m, lists[c], k), starts, free,
                    if k == 0 then heads[c := NextEntry(lists[c], 0)] else heads, lists[c := Without(lists[c], k)])
  {
    hide Size, ClassOf, ListOk, Entry;
    var m' := Unlink(m, lists[c], k);
    var heads' := if k == 0 then heads[c := NextEntry(lists[c], 0)] else heads;
    var lists' := lists[c := Without(lists[c], k)];
    forall d: nat | d < NUM_SIZE_CLASSES ensures ListOk(m', starts, free, d, heads'[d], lists'[d]) {
      if d == c {
        Unlinked(m, m', starts, free, c, heads[c], lists[c], k);
      } else if k > 0 {
        UnlinkUntouched(m, starts, free, heads, lists, c, k, d);
        forall p | p in lists[d] ensures p in starts { EntryClass(m, starts, free, heads, lists, d, p); }
        ListKept(m, m', starts, free, starts, free, d, heads[d], lists[d]);
      }
    }
  }

  lemma UnlinkEntries(m: seq<MsWord>, starts: set<int>, free: int, heads: seq<int>, lists: seq<seq<int>>,
      dead: set<int>, c: nat, k: nat)
    requires ListsOk(m, starts, free, heads, lists) && Entries(starts, free, lists, dead) && c < NUM_SIZE_CLASSES
        && k < |lists[c]|
    ensures Entries(starts, free, lists[c := Without(lists[c], k)], dead - {lists[c][k]}) && lists[c][k] in dead
        && dead <= starts
  {
    hide Size, ClassOf, Entry;
    var l, p := lists[c], lists[c][k];
    var l' := Without(l, k);
    var lists' := lists[c := l'];
    assert ListOk(m, starts, free, c, heads[c], lists[c]);
    hide ListOk;
    assert p in lists[c];
    forall q | q in l' ensures q in l && q != p {
      var j: nat :| j < |l'| && l'[j] == q;
      assert q == l[if j < k then j else j + 1];
    }
    forall q | q in l && q != p ensures q in l' {
      var j: nat :| j < |l| && l[j] == q;
      assert l'[if j < k then j else j - 1] == q;
    }
    forall d: nat, q | d < NUM_SIZE_CLASSES && q in lists'[d] ensures q in dead - {p} {
      if d != c { EntryClass(m, starts, free, heads, lists, d, q); EntryClass(m, starts, free, heads, lists, c, p); }
    }
  }

  lemma UnlinkSum(starts: set<int>, free: int, lists: seq<seq<int>>, c: nat, k: nat)
    requires c < |lists| && k < |lists[c]|
    ensures SumLists(starts, free, lists[c := Without(lists[c], k)])
            == SumLists(starts, free, lists) - Size(starts, free, lists[c][k])
  {
    hide Size;
    SumListRemove(starts, free, lists[c], k);
    SumListsUpdate(starts, free, lists, c, Without(lists[c], k));
  }

  /** Writing inside an object that is on no list leaves the lists alone. */
  lemma WriteInside(m: seq<MsWord>, m': seq<MsWord>, starts: set<int>, free: int, heads: seq<int>, lists: seq<seq<int>>,
      dead: set<int>, p: int)
    requires ListsOk(m, starts, free, heads, lists) && Entries(starts, free, lists, dead) && Tiled(starts, free)
    requires p in starts && p !in dead && |m'| == |m|
    requires forall a :: 0 <= a < |m| && !(p <= a < End(starts, free, p)) ==> m'[a] == m[a]
    ensures ListsOk(m', starts, free, heads, lists)
  {
    hide ClassOf, ListOk, Entry;
    forall d: nat | d < NUM_SIZE_CLASSES ensures ListOk(m', starts, free, d, heads[d], lists[d]) {
      forall q | q in lists[d] ensures q in starts && q != p {
        assert q in dead;
      }
      assert EntriesUntouched(m, m', starts, free, lists[d]) by {
        forall q | q in lists[d] && 0 <= q < |m|
          ensures m'[q] == m[q] && (Size(starts, free, q) >= 2 && q + 1 < |m| ==> m'[q + 1] == m[q + 1])
        {
          if q < p { Apart(starts, free, q, p); } else { Apart(starts, free, p, q); }
        }
      }
      ListKept(m, m', starts, free, starts, free, d, heads[d], lists[d]);
    }
  }

  /** Unlinking changes no word of an allocated object. */
  lemma UnlinkWords(m: seq<MsWord>, starts: set<int>, free: int, heads: seq<int>, lists: seq<seq<int>>, dead: set<int>,
      c: nat, k: nat)
    requires ListsOk(m, starts, free, heads, lists) && Entries(starts, free, lists, dead) && Tiled(starts, free)
    requires c < NUM_SIZE_CLASSES && k < |lists[c]| && (k > 0 ==> 0 <= lists[c][k - 1] < |m|)
    ensures WordsKept(m, Unlink(m, lists[c], k), starts, free, dead)
  {
    hide ClassOf, ListOk, Entry;
    if k > 0 {
      var q := lists[c][k - 1];
      assert q in lists[c];
      assert q in dead;
      var m' := Unlink(m, lists[c], k);
      forall o, a | o in starts && o !in dead && o <= a < End(starts, free, o) && 0 <= a < |m| ensures m'[a] == m[a] {
        if o < q { Apart(starts, free, o, q); }
      }
    }
  }

  /** Words of allocated objects stay well-formed when they are unchanged and no object dies. */
  lemma RefsKept(m: seq<MsWord>, m': seq<MsWord>, starts: set<int>, free: int, dead: set<int>, dead': set<int>, p: int)
    requires RefsOk(m, starts, free, dead) && WordsKept(m, m', starts, free, dead) && dead' <= dead
    requires forall o :: o in starts && o !in dead' ==> o !in dead || o == p
    requires forall a :: p <= a < End(starts, free, p) && 0 <= a < |m'| ==> WordOk(|m'|, starts, free, dead', m'[a])
    ensures RefsOk(m', starts, free, dead')
  {
    forall o, a | o in starts && o !in dead' && o <= a < End(starts, free, o) && 0 <= a < |m'|
      ensures WordOk(|m'|, starts, free, dead', m'[a])
    {
      if o != p { assert WordOk(|m|, starts, free, dead, m[a]); }
    }
  }

  /** Bump allocation: a new object of `n` words at `free`. */
  lemma BumpLists(m: seq<MsWord>, starts: set<int>, free: int, n: int, heads: seq<int>, lists: seq<seq<int>>,
      dead: set<int>)
    requires ListsOk(m, starts, free, heads, lists) && Entries(starts, free, lists, dead) && Tiled(starts, free)
    requires free >= 0 && n > 0
    ensures var starts', free' := starts + {free}, free + n;
            && ListsOk(m, starts', free', heads, lists) && Entries(starts', free', lists, dead)
            && SumLists(starts', free', lists) == SumLists(starts, free, lists)
  {
    hide ClassOf, ListOk, Entry;
    var starts', free' := starts + {free}, free + n;
    BumpExtents(starts, free, n);
    forall d: nat, p | d < NUM_SIZE_CLASSES && p in lists[d]
      ensures p in starts' && Size(starts', free', p) == Size(starts, free, p)
    {
      assert p in dead;
    }
    forall d: nat | d < NUM_SIZE_CLASSES ensures ListOk(m, starts', free', d, heads[d], lists[d]) {
      ListKept(m, m, starts, free, starts', free', d, heads[d], lists[d]);
    }
    SumListsSame(starts, free, starts', free', lists);
  }

  lemma {:induction false} OwnerAfterBump(starts: set<int>, free: int, a: int)
    requires a < free
    ensures OwnerFrom(starts + {free}, a) == OwnerFrom(starts, a)
    decreases a
  {
    if a >= 0 && a !in starts { OwnerAfterBump(starts, free, a - 1); }
  }

  lemma BumpWord(n: int, starts: set<int>, free: int, k: int, dead: set<int>, w: MsWord)
    requires WordOk(n, starts, free, dead, w) && Tiled(starts, free) && dead <= starts && k > 0
    ensures WordOk(n, starts + {free}, free + k, dead, w)
  {
    if w.Loc? && 0 <= w.a < n { OwnerAfterBump(starts, free, w.a); }
  }

  /** Words that may be held go on being so when a block is handed out, from a free list or at `free`. */
  lemma HeldOn(n: int, starts: set<int>, free: int, dead: set<int>, starts': set<int>, free': int, dead': set<int>,
               w: MsWord)
    requires WordOk(n, starts, free, dead, w) && Tiled(starts, free) && dead <= starts && dead' <= dead
    requires (starts' == starts && free' == free) || (starts' == starts + {free} && free' > free)
    ensures WordOk(n, starts', free', dead', w)
  {
    hide Target;
    if starts' != starts { BumpWord(n, starts, free, free' - free, dead, w); }
  }

  lemma BumpRefs(m: seq<MsWord>, m': seq<MsWord>, starts: set<int>, free: int, n: int, dead: set<int>)
    requires RefsOk(m, starts, free, dead) && Tiled(starts, free) && dead <= starts && free >= 0 && n > 0 && |m'| == |m|
    requires forall a :: 0 <= a < |m| && !(free <= a < free + n) ==> m'[a] == m[a]
    requires forall a :: free <= a < free + n && a < |m| ==> WordOk(|m'|, starts + {free}, free + n, dead, m'[a])
    ensures RefsOk(m', starts + {free}, free + n, dead)
  {
    hide WordOk;
    var starts', free' := starts + {free}, free + n;
    BumpExtents(starts, free, n);
    forall o, a | o in starts' && o !in dead && o <= a < End(starts', free', o) && 0 <= a < |m'|
      ensures WordOk(|m'|, starts', free', dead, m'[a])
    {
      if o != free {
        assert a < free;
        BumpWord(|m|, starts, free, n, dead, m[a]);
      }
    }
  }

  lemma HeadIs(m: seq<MsWord>, starts: set<int>, free: int, heads: seq<int>, lists: seq<seq<int>>, c: nat)
    requires ListsOk(m, starts, free, heads, lists) && c < NUM_SIZE_CLASSES
    ensures |heads| == |lists| == NUM_SIZE_CLASSES
    ensures heads[c] == (if lists[c] == [] then NULL else lists[c][0])
    ensures forall k: nat :: k < |lists[c]| ==> lists[c][k] != NULL
  {
    hide Size, ClassOf;
    assert ListOk(m, starts, free, c, heads[c], lists[c]);
    forall k: nat | k < |lists[c]| ensures lists[c][k] != NULL {
      assert Entry(m, starts, free, c, lists[c][k], NextEntry(lists[c], k));
    }
  }

  lemma NextIs(list: seq<int>, k: nat, starts: set<int>)
    requires k < |list|
    ensures NextEntry(list, k) == if k + 1 < |list| then list[k + 1] else NULL
  {
  }

  /** No entry of the class fits a request when the search reaches the end of the list. */
  lemma NoneFits(starts: set<int>, free: int, lists: seq<seq<int>>, dead: set<int>, n: int, c: nat)
    requires Entries(starts, free, lists, dead) && c == ClassOf(n)
    requires forall j: nat :: j < |lists[c]| ==> Size(starts, free, lists[c][j]) < n
    ensures forall q <- dead :: ClassOf(Size(starts, free, q)) == ClassOf(n) ==> Size(starts, free, q) < n
  {
    hide ClassOf, Size;
    forall q <- dead | ClassOf(Size(starts, free, q)) == c ensures Size(starts, free, q) < n {
      var j: nat :| j < |lists[c]| && lists[c][j] == q;
    }
  }

  /** `p` is the first entry of the list that holds `n` words. */
  ghost predicate FirstFit(starts: set<int>, free: int, list: seq<int>, n: int, p: int) {
    exists k: nat :: k < |list| && list[k] == p && Size(starts, free, p) >= n
                     && forall j: nat :: j < k ==> Size(starts, free, list[j]) < n
  }

  /** A dead block of the class of `n` holds `n` words. */
  ghost predicate HasBlock(starts: set<int>, free: int, dead: set<int>, n: int) {
    exists q :: q in dead && ClassOf(Size(starts, free, q)) == ClassOf(n) && Size(starts, free, q) >= n
  }

  lemma NoBlock(starts: set<int>, free: int, lists: seq<seq<int>>, dead: set<int>, n: int, c: nat)
    requires Entries(starts, free, lists, dead) && c == ClassOf(n)
    requires forall j: nat :: j < |lists[c]| ==> Size(starts, free, lists[c][j]) < n
    ensures !HasBlock(starts, free, dead, n)
  {
    hide ClassOf, Size, Entries;
    NoneFits(starts, free, lists, dead, n, c);
  }

  lemma Fitting(starts: set<int>, free: int, lists: seq<seq<int>>, dead: set<int>, n: int, c: nat, k: nat)
    requires Entries(starts, free, lists, dead) && c == ClassOf(n) && c < NUM_SIZE_CLASSES && k < |lists[c]|
    requires Size(starts, free, lists[c][k]) >= n && ClassOf(Size(starts, free, lists[c][k])) == c
    requires forall j: nat :: j < k ==> Size(starts, free, lists[c][j]) < n
    ensures FirstFit(starts, free, lists[c], n, lists[c][k]) && HasBlock(starts, free, dead, n)
  {
    hide ClassOf, Size;
    assert lists[c][k] in lists[c];
  }

  lemma WordsKeptSelf(m: seq<MsWord>, starts: set<int>, free: int, dead: set<int>)
    ensures WordsKept(m, m, starts, free, dead)
  {
  }

  lemma NullPrev(m: seq<MsWord>, starts: set<int>, free: int, heads: seq<int>, lists: seq<seq<int>>, c: nat, k: nat)
    requires ListsOk(m, starts, free, heads, lists) && c < NUM_SIZE_CLASSES && k < |lists[c]|
    ensures k > 0 ==> lists[c][k - 1] != NULL
  {
    HeadIs(m, starts, free, heads, lists, c);
  }

  lemma WordsKeptTrans(m0: seq<MsWord>, m1: seq<MsWord>, m2: seq<MsWord>, starts: set<int>, free: int,
      dead: set<int>, p: int)
    requires WordsKept(m0, m1, starts, free, dead) && |m2| == |m1| && p in dead && dead <= starts && Tiled(starts, free)
    requires forall a :: 0 <= a < |m1| && !(p <= a < End(starts, free, p)) ==> m2[a] == m1[a]
    ensures WordsKept(m0, m2, starts, free, dead)
  {
    forall o, a | o in starts && o !in dead && o <= a < End(starts, free, o) && 0 <= a < |m2| ensures m2[a] == m0[a] {
      if o < p { Apart(starts, free, o, p); } else { Apart(starts, free, p, o); }
    }
  }

  lemma DeadStarts(starts: set<int>, free: int, lists: seq<seq<int>>, dead: set<int>)
    requires Entries(starts, free, lists, dead)
    ensures dead <= starts
  {
  }

  /** Initialising a block taken from a free list. */
  lemma FillBlock(m0: seq<MsWord>, m1: seq<MsWord>, m2: seq<MsWord>, starts: set<int>, free: int, heads: seq<int>,
      lists: seq<seq<int>>,
                  dead0: set<int>, dead: set<int>, p: int, fill: seq<MsWord>)
    requires ListsOk(m1, starts, free, heads, lists) && Entries(starts, free, lists, dead) && Tiled(starts, free)
    requires RefsOk(m0, starts, free, dead0) && WordsKept(m0, m1, starts, free, dead0)
    requires p in dead0 && dead0 <= starts && dead == dead0 - {p} && 0 <= p
        && p + |fill| <= End(starts, free, p) <= |m1| == |m2|
    requires m2[p..p + |fill|] == fill
    requires forall a :: 0 <= a < |m1| && !(p <= a < p + |fill|) ==> m2[a] == m1[a]
    requires forall a :: p + |fill| <= a < End(starts, free, p) ==> m1[a] == Raw(0)
    requires forall w <- fill :: WordOk(|m0|, starts, free, dead0, w)
    ensures ListsOk(m2, starts, free, heads, lists) && RefsOk(m2, starts, free, dead)
        && WordsKept(m0, m2, starts, free, dead0)
  {
    hide ListsOk, Entries, RefsOk, WordsKept;
    WriteInside(m1, m2, starts, free, heads, lists, dead, p);
    WordsKeptTrans(m0, m1, m2, starts, free, dead0, p);
    forall a | p <= a < End(starts, free, p) && 0 <= a < |m2| ensures WordOk(|m2|, starts, free, dead, m2[a]) {
      if a < p + |fill| { assert m2[a] == m2[p..p + |fill|][a - p]; assert m2[a] in fill; }
    }
    assert |m0| == |m2| by { SameLength(m0, m1, starts, free, dead0); }
    RefsFill(m0, m2, starts, free, dead0, dead, p);
  }

  lemma SameLength(m0: seq<MsWord>, m1: seq<MsWord>, starts: set<int>, free: int, dead: set<int>)
    requires WordsKept(m0, m1, starts, free, dead)
    ensures |m0| == |m1|
  {
  }

  lemma RefsFill(m: seq<MsWord>, m': seq<MsWord>, starts: set<int>, free: int, dead: set<int>, dead': set<int>, p: int)
    requires RefsOk(m, starts, free, dead) && WordsKept(m, m', starts, free, dead) && dead' == dead - {p}
    requires forall a :: p <= a < End(starts, free, p) && 0 <= a < |m'| ==> WordOk(|m'|, starts, free, dead', m'[a])
    ensures RefsOk(m', starts, free, dead')
  {
    hide WordOk;
    forall w | WordOk(|m|, starts, free, dead, w) ensures WordOk(|m|, starts, free, dead', w) {
      FewerDead(|m|, starts, free, dead, dead', w);
    }
    RefsKept(m, m', starts, free, dead, dead', p);
  }

  lemma FewerDead(n: int, starts: set<int>, free: int, dead: set<int>, dead': set<int>, w: MsWord)
    requires WordOk(n, starts, free, dead, w) && dead' <= dead
    ensures WordOk(n, starts, free, dead', w)
  {
  }

  /** Memory after bump allocation. */
  lemma BumpMemory(m: seq<MsWord>, m': seq<MsWord>, starts: set<int>, free: int, heads: seq<int>, lists: seq<seq<int>>,
                   dead: set<int>, fill: seq<MsWord>)
    requires |m'| == |m| && 0 <= free && |fill| >= 1 && free + |fill| <= |m| && Tiled(starts, free) && dead <= starts
    requires m'[free..free + |fill|] == fill
    requires forall a :: 0 <= a < |m| && !(free <= a < free + |fill|) ==> m'[a] == m[a]
    requires RefsOk(m, starts, free, dead) && forall w <- fill :: WordOk(|m|, starts, free, dead, w)
    requires ListsOk(m, starts + {free}, free + |fill|, heads, lists)
        && Entries(starts + {free}, free + |fill|, lists, dead)
    ensures RefsOk(m', starts + {free}, free + |fill|, dead) && WordsKept(m, m', starts, free, dead)
    ensures ListsOk(m', starts + {free}, free + |fill|, heads, lists)
  {
    hide ListsOk, Entries, RefsOk, WordOk, WordsKept;
    BumpFill(m, m', starts, free, dead, fill);
    BumpRefs(m, m', starts, free, |fill|, dead);
    BumpKept(m, m', starts, free, |fill|, heads, lists, dead);
  }

  lemma BumpFill(m: seq<MsWord>, m': seq<MsWord>, starts: set<int>, free: int, dead: set<int>, fill: seq<MsWord>)
    requires |m'| == |m| && 0 <= free && |fill| >= 1 && free + |fill| <= |m| && Tiled(starts, free) && dead <= starts
    requires m'[free..free + |fill|] == fill
    requires forall w <- fill :: WordOk(|m|, starts, free, dead, w)
    ensures forall a :: free <= a < free + |fill| && a < |m| ==>
              WordOk(|m'|, starts + {free}, free + |fill|, dead, m'[a])
  {
    hide WordOk;
    forall a | free <= a < free + |fill| ensures WordOk(|m'|, starts + {free}, free + |fill|, dead, m'[a]) {
      assert m'[a] == m'[free..free + |fill|][a - free];
      assert m'[a] in fill;
      BumpWord(|m|, starts, free, |fill|, dead, m'[a]);
    }
  }

  lemma BumpKept(m: seq<MsWord>, m': seq<MsWord>, starts: set<int>, free: int, n: int, heads: seq<int>,
      lists: seq<seq<int>>, dead: set<int>)
    requires |m'| == |m| && 0 <= free && n >= 1 && free + n <= |m| && Tiled(starts, free) && dead <= starts
    requires forall a :: 0 <= a < |m| && !(free <= a < free + n) ==> m'[a] == m[a]
    requires ListsOk(m, starts + {free}, free + n, heads, lists) && Entries(starts + {free}, free + n, lists, dead)
    ensures WordsKept(m, m', starts, free, dead) && ListsOk(m', starts + {free}, free + n, heads, lists)
  {
    hide ListsOk, Entries, WordsKept, End, Tiled;
    BumpExtents(starts, free, n);
    NotDead(starts, free, dead);
    WriteInside(m, m', starts + {free}, free + n, heads, lists, dead, free);
    BelowKept(m, m', starts, free, dead);
  }

  lemma NotDead(starts: set<int>, free: int, dead: set<int>)
    requires free !in starts && dead <= starts
    ensures free !in dead
  {
  }

  lemma BelowKept(m: seq<MsWord>, m': seq<MsWord>, starts: set<int>, free: int, dead: set<int>)
    requires |m'| == |m| && forall a :: 0 <= a < |m| && a < free ==> m'[a] == m[a]
    requires Tiled(starts, free)
    ensures WordsKept(m, m', starts, free, dead)
  {
  }
}
