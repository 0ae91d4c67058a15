/** Size classes and the intrusive free lists of gc-ms.c: a dead object's first word links to the
    next entry of its class, and its second word, if any, records its size. */
module FreeLists {
  import opened Extents

  /** Words of the mark-sweep heap.  `Link` and `Size` are the untagged words of free entries. */
  datatype MsWord = Raw(n: int) | Ptr(a: int) | Loc(a: int) | Link(next: int) | Words(size: int)

  const NUM_SIZE_CLASSES := 19

  const CLASS_MAX: seq<int> :=
    [1, 2, 3, 4, 6, 8, 12, 16, 24, 32, 48, 64, 96, 128, 192, 256, 512, 1024]

  const NULL := -1

  /** The class of a size: the first whose bound is not exceeded, or the unbounded last one. */
  function ClassFrom(n: int, c: nat): (r: nat)
    requires c < NUM_SIZE_CLASSES
    ensures c <= r < NUM_SIZE_CLASSES
    ensures r < NUM_SIZE_CLASSES - 1 ==> n <= CLASS_MAX[r]
    ensures forall k :: c <= k < r ==> n > CLASS_MAX[k]
    decreases NUM_SIZE_CLASSES - c
  {
    if c == NUM_SIZE_CLASSES - 1 || n <= CLASS_MAX[c] then c else ClassFrom(n, c + 1)
  }

  function ClassOf(n: int): (c: nat)
    ensures c < NUM_SIZE_CLASSES
    ensures c < NUM_SIZE_CLASSES - 1 ==> n <= CLASS_MAX[c]
    ensures c > 0 ==> n > CLASS_MAX[c - 1]
  {
    ClassFrom(n, 0)
  }

  /** ms_size_class */
  method SizeClass(n: int) returns (c: nat)
    ensures c == ClassOf(n)
  {
    c := 0;
    while c < NUM_SIZE_CLASSES - 1
      invariant 0 <= c < NUM_SIZE_CLASSES
      invariant ClassFrom(n, 0) == ClassFrom(n, c)
    {
      if n <= CLASS_MAX[c] { return; }
      c := c + 1;
    }
  }

  function NextEntry(list: seq<int>, k: nat): int { if k + 1 < |list| then list[k + 1] else NULL }

  ghost predicate Entry(m: seq<MsWord>, starts: set<int>, free: int, c: nat, p: int, next: int) {
    && p in starts && 0 <= p && p + Size(starts, free, p) <= |m| && Size(starts, free, p) >= 1
    && ClassOf(Size(starts, free, p)) == c
    && m[p] == Link(next)
    && (Size(starts, free, p) >= 2 ==> m[p + 1] == Words(Size(starts, free, p)))
  }

  /** `list` is the contents of the free list of class `c`. */
  ghost predicate ListOk(m: seq<MsWord>, starts: set<int>, free: int, c: nat, head: int, list: seq<int>) {
    && head == (if list == [] then NULL else list[0])
    && (forall k: nat :: k < |list| ==> Entry(m, starts, free, c, list[k], NextEntry(list, k)))
    && (forall j, k :: 0 <= j < k < |list| ==> list[j] != list[k])
  }

  ghost predicate ListsOk(m: seq<MsWord>, starts: set<int>, free: int, heads: seq<int>, lists: seq<seq<int>>) {
    && |heads| == |lists| == NUM_SIZE_CLASSES
    && forall c: nat :: c < NUM_SIZE_CLASSES ==> ListOk(m, starts, free, c, heads[c], lists[c])
  }

  /** `dead` is the set of all entries. */
  ghost predicate Entries(starts: set<int>, free: int, lists: seq<seq<int>>, dead: set<int>) {
    && |lists| == NUM_SIZE_CLASSES && dead <= starts
    && (forall c: nat, p :: c < NUM_SIZE_CLASSES && p in lists[c] ==> p in dead)
    && (forall p <- dead :: p in lists[ClassOf(Size(starts, free, p))])
  }

  ghost function SumList(starts: set<int>, free: int, list: seq<int>): int {
    if list == [] then 0 else Size(starts, free, list[0]) + SumList(starts, free, list[1..])
  }

  ghost function SumLists(starts: set<int>, free: int, lists: seq<seq<int>>): int {
    if lists == [] then 0 else SumList(starts, free, lists[0]) + SumLists(starts, free, lists[1..])
  }

  lemma {:induction false} SumListRemove(starts: set<int>, free: int, list: seq<int>, k: nat)
    requires k < |list|
    ensures SumList(starts, free, Without(list, k)) == SumList(starts, free, list) - Size(starts, free, list[k])
  {
    if k == 0 {
      assert list[..0] + list[1..] == list[1..];
    } else {
      SumListRemove(starts, free, list[1..], k - 1);
      assert (list[..k] + list[k + 1..])[1..] == list[1..][..k - 1] + list[1..][k..];
    }
  }

  lemma {:induction false} SumListsUpdate(starts: set<int>, free: int, lists: seq<seq<int>>, c: nat, list: seq<int>)
    requires c < |lists|
    ensures SumLists(starts, free, lists[c := list]) ==
            SumLists(starts, free, lists) - SumList(starts, free, lists[c]) + SumList(starts, free, list)
  {
    if c == 0 {
      assert lists[0 := list][1..] == lists[1..];
    } else {
      SumListsUpdate(starts, free, lists[1..], c - 1, list);
      assert lists[c := list][1..] == lists[1..][c - 1 := list];
    }
  }

  lemma {:induction false} SumListSame(starts: set<int>, free: int, starts': set<int>, free': int, list: seq<int>)
    requires forall p :: p in list ==> Size(starts', free', p) == Size(starts, free, p)
    ensures SumList(starts', free', list) == SumList(starts, free, list)
  {
    if list != [] {
      forall p | p in list[1..] ensures p in list { }
      SumListSame(starts, free, starts', free', list[1..]);
    }
  }

  lemma {:induction false} SumListsSame(starts: set<int>, free: int, starts': set<int>, free': int,
      lists: seq<seq<int>>)
    requires forall c, p :: 0 <= c < |lists| && p in lists[c] ==> Size(starts', free', p) == Size(starts, free, p)
    ensures SumLists(starts', free', lists) == SumLists(starts, free, lists)
  {
    if lists != [] {
      SumListSame(starts, free, starts', free', lists[0]);
      forall c, p | 0 <= c < |lists[1..]| && p in lists[1..][c]
        ensures Size(starts', free', p) == Size(starts, free, p)
      {
        assert p in lists[c + 1];
      }
      SumListsSame(starts, free, starts', free', lists[1..]);
    }
  }

  lemma {:induction false} SumListsEmpty(starts: set<int>, free: int, lists: seq<seq<int>>)
    requires forall c :: 0 <= c < |lists| ==> lists[c] == []
    ensures SumLists(starts, free, lists) == 0
  {
    if lists != [] {
      assert forall c :: 0 <= c < |lists| - 1 ==> lists[1..][c] == lists[c + 1];
      SumListsEmpty(starts, free, lists[1..]);
    }
  }

  // ------------------------------------------------------------------ changing the lists

  /** Memory changes that leave the link and size words of every entry alone. */
  ghost predicate EntriesUntouched(m: seq<MsWord>, m': seq<MsWord>, starts: set<int>, free: int, list: seq<int>) {
    && |m'| == |m|
    && forall p :: p in list && 0 <= p < |m| ==>
         m'[p] == m[p] && (Size(starts, free, p) >= 2 && p + 1 < |m| ==> m'[p + 1] == m[p + 1])
  }

  lemma ListKept(m: seq<MsWord>, m': seq<MsWord>, starts: set<int>, free: int, starts': set<int>, free': int,
                 c: nat, head: int, list: seq<int>)
    requires ListOk(m, starts, free, c, head, list) && EntriesUntouched(m, m', starts, free, list)
    requires forall p :: p in list ==> p in starts' && Size(starts', free', p) == Size(starts, free, p)
    ensures ListOk(m', starts', free', c, head, list)
  {
    hide ClassOf, Size;
    forall k: nat | k < |list| ensures Entry(m', starts', free', c, list[k], NextEntry(list, k)) {
      assert list[k] in list;
      assert Entry(m, starts, free, c, list[k], NextEntry(list, k));
    }
  }

  /** Two distinct objects do not overlap. */
  lemma Apart(starts: set<int>, free: int, p: int, q: int)
    requires p in starts && q in starts && p < q
    ensures End(starts, free, p) <= q || q >= free
  {
  }

  /** Sweeping a dead object onto the head of its list. */
  lemma Pushed(m: seq<MsWord>, m': seq<MsWord>, starts: set<int>, free: int, c: nat, head: int, list: seq<int>, o: int)
    requires ListOk(m, starts, free, c, head, list) && EntriesUntouched(m, m', starts, free, list)
    requires o !in list && Entry(m', starts, free, c, o, head)
    ensures ListOk(m', starts, free, c, o, [o] + list)
  {
    hide ClassOf, Size;
    var l' := [o] + list;
    forall k: nat | k < |l'| ensures Entry(m', starts, free, c, l'[k], NextEntry(l', k)) {
      if k > 0 {
        assert list[k - 1] in list;
        assert Entry(m, starts, free, c, list[k - 1], NextEntry(list, k - 1));
      }
    }
  }

  function Without(list: seq<int>, k: nat): (r: seq<int>)
    requires k < |list|
    ensures |r| == |list| - 1
    ensures forall j: nat :: j < |r| ==> r[j] == list[if j < k then j else j + 1]
  {
    list[..k] + list[k + 1..]
  }

  /** Unlinking entry k: `*prev = *p`. */
  lemma Unlinked(m: seq<MsWord>, m': seq<MsWord>, starts: set<int>, free: int, c: nat, head: int,
      list: seq<int>, k: nat)
    requires ListOk(m, starts, free, c, head, list) && k < |list|
    requires k == 0 ==> m' == m
    requires k > 0 ==> 0 <= list[k - 1] < |m| && m' == m[list[k - 1] := Link(NextEntry(list, k))]
    ensures ListOk(m', starts, free, c, if k == 0 then NextEntry(list, 0) else head, Without(list, k))
  {
    hide ClassOf, Size, Entry;
    var l' := Without(list, k);
    hide Without;
    forall j: nat | j < |l'| ensures Entry(m', starts, free, c, l'[j], NextEntry(l', j)) {
      UnlinkedEntry(m, m', starts, free, c, head, list, k, if j < k then j else j + 1);
    }
  }

  /** Every entry but the unlinked one stays an entry; the one before it now links past it. */
  lemma UnlinkedEntry(m: seq<MsWord>, m': seq<MsWord>, starts: set<int>, free: int, c: nat, head: int, list: seq<int>,
      k: nat, i: nat)
    requires ListOk(m, starts, free, c, head, list) && k < |list| && i < |list| && i != k
    requires k == 0 ==> m' == m
    requires k > 0 ==> 0 <= list[k - 1] < |m| && m' == m[list[k - 1] := Link(NextEntry(list, k))]
    ensures Entry(m', starts, free, c, list[i], if i + 1 == k then NextEntry(list, k) else NextEntry(list, i))
  {
    hide ClassOf, Size;
    assert Entry(m, starts, free, c, list[i], NextEntry(list, i));
    if k > 0 {
      assert Entry(m, starts, free, c, list[k - 1], NextEntry(list, k - 1));
      NotInside(starts, free, list[i], list[k - 1]);
    }
  }

  /** The start of one object is not the second word of another. */
  lemma NotInside(starts: set<int>, free: int, p: int, q: int)
    requires p in starts && q in starts
    ensures Size(starts, free, p) >= 2 ==> p + 1 != q
  {
  }
}
