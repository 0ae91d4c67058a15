/** The single-threaded mark-sweep collector and allocator (gc-ms.c).  Addresses are word offsets
    from the start of new space. */
module MarkSweep {
  import opened Bitmap
  import opened Extents
  import opened FreeLists
  import opened MsGraph
  import opened MsSweep
  import opened MsAlloc

  class MsHeap {
    const mem: array<MsWord>
    const objstart: array<Bits64>
    const marks: array<Bits64>
    const heads: array<int>
    var free: int             // free_point
    var total: int            // free_list_total_words
    var stack: seq<int>       // the mark stack

    ghost var starts: set<int>        // bits of objstart
    ghost var marked: set<int>        // bits of marks
    ghost var dead: set<int>          // entries of the free lists
    ghost var lists: seq<seq<int>>    // contents of the free lists

    ghost predicate Shape()
      reads this, mem, objstart, marks, heads
    {
      && objstart != marks && heads.Length == NUM_SIZE_CLASSES
      && objstart.Length == marks.Length == (mem.Length + 63) / 64
      && 0 <= free <= mem.Length && Tiled(starts, free)
      && Represents(objstart[..], starts) && Represents(marks[..], marked)
    }

    ghost predicate FreeOk()
      reads this, mem, heads
    {
      && ListsOk(mem[..], starts, free, heads[..], lists)
      && Entries(starts, free, lists, dead)
      && total == SumLists(starts, free, lists)
    }

    /** Between operations: no mark bits, tiled heap, sound free lists, no reference to a dead object. */
    ghost predicate Valid()
      reads this, mem, objstart, marks, heads
    {
      Shape() && FreeOk() && RefsOk(mem[..], starts, free, dead)
    }

    /** ms_init on an empty new space of `n` words. */
    constructor (n: nat)
      ensures Valid() && mem.Length == n && free == 0 && starts == {} && dead == {} && marked == {}
    {
      mem := new MsWord[n](_ => Raw(0));
      objstart := new Bits64[(n + 63) / 64](_ => ZERO);
      marks := new Bits64[(n + 63) / 64](_ => ZERO);
      heads := new int[NUM_SIZE_CLASSES](_ => NULL);
      free, total, stack := 0, 0, [];
      starts, marked, dead := {}, {}, {};
      lists := seq(NUM_SIZE_CLASSES, c => []);
      new;
      SumListsEmpty(starts, free, lists);
    }

    /** ms_objstart_extent */
    method Extent(obj: int) returns (len: int)
      requires Shape() && obj in starts
      ensures len == Size(starts, free, obj) && len >= 1 && obj + len <= free
    {
      var heapWords := free;
      if obj + 1 >= heapWords {
        return 1;
      }
      var next := obj + 1;
      while next < heapWords && !Has(objstart[..], next)
        invariant obj + 1 <= next <= heapWords
        invariant NextFrom(starts, free, obj + 1) == NextFrom(starts, free, next)
      {
        next := next + 1;
      }
      len := next - obj;
    }

    /** find_object_start: the object containing an address of new space. */
    method FindObjectStart(addr: int) returns (o: int)
      requires Shape() && 0 <= addr < mem.Length
      ensures o == NULL <==> OwnerFrom(starts, addr) < 0
      ensures o != NULL ==> o == OwnerFrom(starts, addr) && o in starts
      ensures addr < free ==> Contains(starts, free, o, addr)
    {
      o := GreatestAtOrBelow(objstart, addr, starts);
      if addr < free { Tiling(starts, free, addr); }
    }

    // ---------------------------------------------------------------- mark phase

    /** ms_mark_ref */
    method MarkRef(w: MsWord)
      requires Shape() && WordOk(mem.Length, starts, free, dead, w)
      modifies this`stack, this`marked, marks
      ensures Shape()
      ensures var t := Target(mem.Length, starts, w);
              if t == NONE || t in old(marked) then stack == old(stack) && marked == old(marked)
              else stack == old(stack) + [t] && marked == old(marked) + {t}
    {
      if !w.Ptr? && !w.Loc? { return; }
      var p := w.a;
      if w.Loc? {
        if !(0 <= p < mem.Length) { return; }
        p := FindObjectStart(p);
        if p == NULL { return; }
      } else {
        if !(0 <= p < mem.Length) { return; }
      }
      if !Has(marks[..], p) {
        Set(marks, p, marked);
        marked := marked + {p};
        stack := stack + [p];
      }
    }

    ghost predicate Marking(roots: seq<MsWord>, busy: int)
      reads this, mem, objstart, marks, heads
    {
      && Shape() && RefsOk(mem[..], starts, free, dead) && marked <= starts
      && MarkInv(mem[..], starts, free, dead, roots, marked, stack, busy)
    }

    /** ms_mark_ref on a word whose target is reachable. */
    method MarkReachable(w: MsWord, ghost roots: seq<MsWord>, ghost busy: int)
      requires Marking(roots, busy) && WordOk(mem.Length, starts, free, dead, w)
      requires Target(mem.Length, starts, w) != NONE ==>
                 Reachable(mem[..], starts, free, roots, Target(mem.Length, starts, w))
      modifies this`stack, this`marked, marks
      ensures Marking(roots, busy) && old(marked) <= marked
      ensures Target(mem.Length, starts, w) == NONE || Target(mem.Length, starts, w) in marked
      ensures (marked == old(marked) && stack == old(stack)) || old(marked) < marked
    {
      hide Reachable, MarkInv, Target, RefsOk, Inside;
      MarkRef(w);
      ghost var t := Target(mem.Length, starts, w);
      if t != NONE && t !in old(marked) {
        TargetOk(mem.Length, starts, free, dead, w);
        MarkPush(mem[..], starts, free, dead, roots, old(marked), old(stack), busy, t);
      }
    }

    /** ms_mark_roots: registers, stacks and static space, given as one sequence of words. */
    method MarkRoots(roots: seq<MsWord>)
      requires Shape() && RefsOk(mem[..], starts, free, dead) && marked == {} && stack == []
      requires forall w <- roots :: WordOk(mem.Length, starts, free, dead, w)
      modifies this`stack, this`marked, marks
      ensures Marking(roots, NONE)
      ensures RootsIn(mem.Length, starts, roots, marked)
    {
      hide Reachable, Target, RefsOk, Inside, WordOk;
      var i := 0;
      while i < |roots|
        invariant 0 <= i <= |roots| && Marking(roots, NONE)
        invariant forall k :: 0 <= k < i ==> Target(mem.Length, starts, roots[k]) == NONE
                                             || Target(mem.Length, starts, roots[k]) in marked
      {
        if Target(mem.Length, starts, roots[i]) != NONE { RootReachable(mem[..], starts, free, roots, roots[i]); }
        MarkReachable(roots[i], roots, NONE);
        i := i + 1;
      }
    }

    /** The inner loop of ms_trace: mark every word of the object just popped. */
    method ScanObject(obj: int, ghost roots: seq<MsWord>)
      requires Marking(roots, obj) && obj in marked
      modifies this`stack, this`marked, marks
      ensures Marking(roots, NONE)
      ensures (marked == old(marked) && stack == old(stack)) || old(marked) < marked
    {
      hide Reachable, Target, RefsOk, Inside, WordOk, MarkInv;
      BusyAllocated(mem[..], starts, free, dead, roots, marked, stack, obj);
      var len := Extent(obj);
      if obj + len > mem.Length {
        assert false;   // the length is never clamped
      }
      var i := 0;
      while i < len
        invariant 0 <= i <= len && Marking(roots, obj) && obj in marked
        invariant (marked == old(marked) && stack == old(stack)) || old(marked) < marked
        invariant forall a :: obj <= a < obj + i ==>
          Target(mem.Length, starts, mem[a]) == NONE || Target(mem.Length, starts, mem[a]) in marked
      {
        BusyWord(mem[..], starts, free, dead, roots, marked, stack, obj, obj + i);
        var val := mem[obj + i];
        MarkReachable(val, roots, obj);
        i := i + 1;
      }
      assert Inside(mem[..], starts, free, marked, obj) by { InsideIntro(mem[..], starts, free, marked, obj); }
      MarkScanned(mem[..], starts, free, dead, roots, marked, stack, obj);
    }

    /** ms_trace */
    method Trace(ghost roots: seq<MsWord>)
      requires Marking(roots, NONE) && RootsIn(mem.Length, starts, roots, marked)
      modifies this`stack, this`marked, marks
      ensures Marking(roots, NONE) && stack == []
      ensures forall o :: o in marked <==> Reachable(mem[..], starts, free, roots, o)
    {
      hide Reachable, Target, RefsOk, Inside, WordOk, MarkInv, RootsIn, Represents;
      while stack != []
        invariant Marking(roots, NONE) && RootsIn(mem.Length, starts, roots, marked)
        decreases |starts - marked|, |stack|
      {
        ghost var marked0 := marked;
        MarkPop(mem[..], starts, free, dead, roots, marked, stack);
        var obj := stack[|stack| - 1];
        stack := stack[..|stack| - 1];
        ScanObject(obj, roots);
        RootsInMore(mem.Length, starts, roots, marked0, marked);
        if marked0 < marked { FewerUnmarked(starts, marked0, marked); }
      }
      TraceDone(mem[..], starts, free, dead, roots, marked, stack);
    }

    // ---------------------------------------------------------------- sweep phase

    /** State of the sweep: `m0` and `marked0` are memory and marks when it began, `seen` the objects
        already dealt with. */
    ghost predicate Sweeping(m0: seq<MsWord>, marked0: set<int>, seen: set<int>)
      reads this, mem, objstart, marks, heads
    {
      && Shape() && seen <= starts && marked0 <= starts
      && marked == marked0 - seen && dead == seen - marked0
      && SweepInv(m0, mem[..], starts, free, heads[..], lists, dead, total)
    }

    /** Put a dead object on its free list. */
    method PushDead(obj: int, len: int, ghost m0: seq<MsWord>)
      requires Shape() && obj in starts && obj !in dead && len == Size(starts, free, obj) && len >= 1
          && obj + len <= free
      requires SweepInv(m0, mem[..], starts, free, heads[..], lists, dead, total)
      modifies this`total, this`dead, this`lists, mem, heads
      ensures Shape() && dead == old(dead) + {obj} && total == old(total) + len
      ensures SweepInv(m0, mem[..], starts, free, heads[..], lists, dead, total)
    {
      hide SweepInv, ClassOf, Represents, Size;
      var sc := SizeClass(len);
      ghost var m, h := mem[..], heads[..];
      HeadsLength(m0, m, starts, free, h, lists, dead, total);
      SweepPush(m0, m, starts, free, h, lists, dead, total, obj);
      mem[obj] := Link(heads[sc]);
      if len >= 2 {
        mem[obj + 1] := Words(len);
      }
      assert mem[..] == Written(m, obj, len, h[sc]);
      heads[sc] := obj;
      assert heads[..] == h[sc := obj];
      total := total + len;
      lists := lists[sc := [obj] + lists[sc]];
      dead := dead + {obj};
    }

    /** The body of ms_sweep for one object. */
    method SweepObject(obj: int, ghost m0: seq<MsWord>, ghost marked0: set<int>, ghost seen: set<int>)
        returns (freed: int)
      requires Sweeping(m0, marked0, seen) && obj in starts && obj !in seen
      modifies this`total, this`marked, this`dead, this`lists, mem, marks, heads
      ensures Sweeping(m0, marked0, seen + {obj})
      ensures freed == total - old(total)
    {
      hide SweepInv, ClassOf, Size, Tiled;
      var len := Extent(obj);
      if Has(marks[..], obj) {
        Clear(marks, obj, marked);
        marked := marked - {obj};
        freed := 0;
      } else {
        PushDead(obj, len, m0);
        freed := len;
      }
    }

    /** Empty every free list. */
    method ClearLists()
      requires Shape() && marked <= starts
      modifies this`total, this`dead, this`lists, heads
      ensures Sweeping(old(mem[..]), old(marked), {}) && total == 0
    {
      hide Represents;
      var i := 0;
      while i < NUM_SIZE_CLASSES
        invariant 0 <= i <= NUM_SIZE_CLASSES
        invariant forall c :: 0 <= c < i ==> heads[c] == NULL
      {
        heads[i] := NULL;
        i := i + 1;
      }
      total := 0;
      lists, dead := seq(NUM_SIZE_CLASSES, c => []), {};
      SweepStart(mem[..], starts, free, heads[..], lists);
      ghost var seen: set<int> := {};
      assert marked - seen == marked && seen - marked == {};
    }

    /** The objects of one word of the object-start bitmap, lowest bit first. */
    method SweepWord(w: int, ghost m0: seq<MsWord>, ghost marked0: set<int>, ghost seen0: set<int>)
      returns (freed: int, ghost seen: set<int>)
      requires Sweeping(m0, marked0, seen0) && 0 <= w < objstart.Length
      requires forall o <- starts :: o in seen0 <==> o < 64 * w
      modifies this`total, this`marked, this`dead, this`lists, mem, marks, heads
      ensures Sweeping(m0, marked0, seen) && freed == total - old(total)
      ensures forall o <- starts :: o in seen <==> o < 64 * (w + 1)
    {
      hide SweepInv, Represents, Tiled;
      seen, freed := seen0, 0;
      var osWord := objstart[w];
      WordStart(seen, w);
      while NonZero(osWord)
        invariant Sweeping(m0, marked0, seen) && freed == total - old(total)
        invariant WordTodo(seen, w, osWord)
        decreases Ones(osWord)
      {
        var bit := Lowest(osWord, 0);
        DropOnes(osWord);
        osWord := DropLowest(osWord);
        var idx := 64 * w + bit;
        BitIsStart(w, bit);
        if idx >= free {
          assert false;
        }
        var n := SweepObject(idx, m0, marked0, seen);
        freed := freed + n;
        seen := seen + {idx};
      }
      WordDone(seen, w, osWord);
    }

    /** ms_sweep */
    method Sweep() returns (reclaimed: int)
      requires Shape() && marked <= starts
      modifies this`total, this`marked, this`dead, this`lists, mem, marks, heads
      ensures Shape() && FreeOk() && marked == {} && dead == starts - old(marked)
      ensures WordsKept(old(mem[..]), mem[..], starts, free, dead)
      ensures reclaimed == total
    {
      hide SweepInv, ListsOk, Entries, WordsKept, Represents;
      ghost var m0, marked0 := mem[..], marked;
      ClearLists();
      reclaimed := 0;
      ghost var seen: set<int> := {};
      var bmWords := (free + 63) / 64;
      var w := 0;
      while w < bmWords
        invariant 0 <= w <= bmWords <= objstart.Length && Sweeping(m0, marked0, seen) && reclaimed == total
        invariant forall o <- starts :: o in seen <==> o < 64 * w
      {
        var n;
        n, seen := SweepWord(w, m0, marked0, seen);
        reclaimed := reclaimed + n;
        w := w + 1;
      }
      AllSeen(seen);
      SweepParts(m0, mem[..], starts, free, heads[..], lists, dead, total);
    }

    /** Within bitmap word w, the objects not yet swept are those whose bit is still set in the copy. */
    ghost predicate WordTodo(seen: set<int>, w: int, osWord: Bits64)
      reads this, objstart
    {
      && 0 <= w < objstart.Length
      && (forall k :: 0 <= k < 64 && osWord[k] ==> objstart[w][k])
      && (forall o <- starts :: o in seen <==> o < 64 * w || (o < 64 * w + 64 && !osWord[o - 64 * w]))
    }

    lemma WordStart(seen: set<int>, w: int)
      requires Shape() && 0 <= w < objstart.Length && forall o <- starts :: o in seen <==> o < 64 * w
      ensures WordTodo(seen, w, objstart[w])
    {
      forall o <- starts | 64 * w <= o < 64 * w + 64 ensures objstart[w][o - 64 * w] { assert Has(objstart[..], o); }
    }

    lemma BitIsStart(w: int, bit: int)
      requires Shape() && 0 <= w < objstart.Length && 0 <= bit < 64 && objstart[w][bit]
      ensures 64 * w + bit in starts && 64 * w + bit < free
    {
      assert Has(objstart[..], 64 * w + bit);
    }

    lemma WordDone(seen: set<int>, w: int, osWord: Bits64)
      requires WordTodo(seen, w, osWord) && !NonZero(osWord)
      ensures forall o <- starts :: o in seen <==> o < 64 * (w + 1)
    {
    }

    lemma AllSeen(seen: set<int>)
      requires Shape() && seen <= starts && forall o <- starts :: o in seen <==> o < 64 * ((free + 63) / 64)
      ensures seen == starts
    {
      forall o <- starts ensures o in seen { assert 0 <= o < free; }
    }

    // ---------------------------------------------------------------- allocation

    /** The search of ms_free_list_alloc: the first entry of the exact class that is big enough, or NULL;
        `prev` is the entry before it. */
    method FindEntry(n: int, sc: nat) returns (p: int, prev: int, ghost k: nat)
      requires Shape() && FreeOk() && n >= 1 && sc == ClassOf(n)
      ensures k <= |lists[sc]| && p == (if k < |lists[sc]| then lists[sc][k] else NULL)
      ensures p != NULL ==> k < |lists[sc]| && Size(starts, free, p) >= n
      ensures p == NULL ==> k == |lists[sc]|
      ensures prev == (if k == 0 then NULL else lists[sc][k - 1])
      ensures forall j: nat :: j < k ==> Size(starts, free, lists[sc][j]) < n
    {
      hide Size, ClassOf, ListsOk, Represents, Entries, SumLists, Tiled;
      p, prev, k := heads[sc], NULL, 0;
      HeadIs(mem[..], starts, free, heads[..], lists, sc);
      while p != NULL
        invariant |lists| == NUM_SIZE_CLASSES && k <= |lists[sc]|
            && p == (if k < |lists[sc]| then lists[sc][k] else NULL)
        invariant p == NULL ==> k == |lists[sc]|
        invariant prev == (if k == 0 then NULL else lists[sc][k - 1])
        invariant forall j: nat :: j < k ==> Size(starts, free, lists[sc][j]) < n
        decreases |lists[sc]| - k
      {
        ReadEntry(mem[..], starts, free, heads[..], lists, sc, k);
        var actual := if sc == 0 then 1 else mem[p + 1].size;
        if actual == 0 || actual > mem.Length || p + actual > mem.Length {
          assert false;   // recorded sizes are never corrupt
        }
        if actual >= n { return; }
        NextIs(lists[sc], k, starts);
        prev := p;
        p := mem[p].next;
        k := k + 1;
      }
    }

    /** The part of ms_free_list_alloc that takes entry `k` of a list off it. */
    method Detach(sc: nat, p: int, prev: int, ghost k: nat) returns (size: int)
      requires Shape() && FreeOk() && sc < NUM_SIZE_CLASSES && k < |lists[sc]| && p == lists[sc][k]
      requires prev == if k == 0 then NULL else lists[sc][k - 1]
      modifies this`total, this`dead, this`lists, mem, heads, objstart
      ensures Shape() && FreeOk() && p in old(dead) && dead == old(dead) - {p}
      ensures size == Size(starts, free, p) && 0 <= p && p + size <= mem.Length && ClassOf(size) == sc
      ensures WordsKept(old(mem[..]), mem[..], starts, free, old(dead))
    {
      hide ClassOf, ListsOk, Entries, Represents, WordsKept, SumLists, Tiled, Size;
      ghost var m0, h0 := mem[..], heads[..];
      ReadEntry(m0, starts, free, h0, lists, sc, k);
      UnlinkLists(m0, starts, free, h0, lists, sc, k);
      UnlinkEntries(m0, starts, free, h0, lists, dead, sc, k);
      UnlinkSum(starts, free, lists, sc, k);
      UnlinkWords(m0, starts, free, h0, lists, dead, sc, k);
      size := if sc == 0 then 1 else mem[p + 1].size;
      if prev == NULL {
        heads[sc] := mem[p].next;
      } else {
        mem[prev] := mem[p];
      }
      NullPrev(m0, starts, free, h0, lists, sc, k);
      assert mem[..] == Unlink(m0, lists[sc], k);
      Set(objstart, p, starts);
      assert starts + {p} == starts;
      total := total - size;
      lists := lists[sc := Without(lists[sc], k)];
      dead := dead - {p};
    }

    /** ms_free_list_alloc: the block is unlinked, and its words beyond the request are zeroed. */
    method FreeListAlloc(n: int) returns (p: int)
      requires Shape() && FreeOk() && n >= 1
      modifies this`total, this`dead, this`lists, mem, heads, objstart
      ensures Shape() && FreeOk()
      ensures p == NULL ==> dead == old(dead) && mem[..] == old(mem[..])
      ensures p == NULL <==> !HasBlock(starts, free, old(dead), n)
      ensures p != NULL ==> ClassOf(n) < |old(lists)| && FirstFit(starts, free, old(lists)[ClassOf(n)], n, p)
      ensures p != NULL ==> p in old(dead) && dead == old(dead) - {p} && Size(starts, free, p) >= n && 0 <= p
                            && End(starts, free, p) <= mem.Length
      ensures p != NULL ==> forall a :: p + n <= a < End(starts, free, p) ==> mem[a] == Raw(0)
      ensures WordsKept(old(mem[..]), mem[..], starts, free, old(dead))
    {
      hide ClassOf, ListsOk, Entries, Represents, WordsKept, SumLists, Tiled, HasBlock, FirstFit;
      var sc := SizeClass(n);
      var prev;
      ghost var k;
      p, prev, k := FindEntry(n, sc);
      ghost var m0, d0 := mem[..], dead;
      if p == NULL {
        NoBlock(starts, free, lists, dead, n, sc);
        WordsKeptSelf(m0, starts, free, dead);
        return;
      }
      ReadEntry(m0, starts, free, heads[..], lists, sc, k);
      Fitting(starts, free, lists, dead, n, sc, k);
      DeadStarts(starts, free, lists, dead);
      var size := Detach(sc, p, prev, k);
      ZeroRest(p, n, size, m0, d0);
    }

    /** Zero the words of the detached block `p` beyond the request. */
    method ZeroRest(p: int, n: int, size: int, ghost m0: seq<MsWord>, ghost dead0: set<int>)
      requires Shape() && FreeOk() && p in dead0 && p !in dead && dead0 <= starts
      requires size == Size(starts, free, p) && 1 <= n <= size && 0 <= p && p + size <= mem.Length && p in starts
      requires WordsKept(m0, mem[..], starts, free, dead0)
      modifies mem
      ensures Shape() && FreeOk() && WordsKept(m0, mem[..], starts, free, dead0)
      ensures forall a :: p + n <= a < End(starts, free, p) ==> mem[a] == Raw(0)
    {
      hide ClassOf, ListsOk, Entries, Represents, WordsKept, SumLists, Tiled, End;
      ghost var m1 := mem[..];
      ZeroGap(p + n, p + size);
      WriteInside(m1, mem[..], starts, free, heads[..], lists, dead, p);
      WordsKeptTrans(m0, m1, mem[..], starts, free, dead0, p);
    }

    /** Zero the words of a block beyond the request. */
    method ZeroGap(lo: int, hi: int)
      requires 0 <= lo <= hi <= mem.Length
      modifies mem
      ensures forall a :: lo <= a < hi ==> mem[a] == Raw(0)
      ensures forall a :: 0 <= a < mem.Length && !(lo <= a < hi) ==> mem[a] == old(mem[a])
    {
      var i := lo;
      while i < hi
        invariant lo <= i <= hi
        invariant forall a :: lo <= a < i ==> mem[a] == Raw(0)
        invariant forall a :: 0 <= a < mem.Length && !(lo <= a < i) ==> mem[a] == old(mem[a])
      {
        mem[i] := Raw(0);
        i := i + 1;
      }
    }

    /** Words an allocation may store: they name allocated objects only. */
    ghost predicate WordsOk(ws: seq<MsWord>)
      reads this
    {
      forall w <- ws :: WordOk(mem.Length, starts, free, dead, w)
    }

    /** An allocation of `n` words needs no collection. */
    ghost predicate CanServe(starts: set<int>, free: int, dead: set<int>, n: int) {
      HasBlock(starts, free, dead, n) || n < mem.Length - free
    }

    /** The part of ALLOCATE_PROT before a collection, with the caller's initialisation of the new
        object: the free list of the class, else the bump pointer.  NULL asks for a collection. */
    method TryNew(fill: seq<MsWord>) returns (p: int)
      requires Valid() && |fill| >= 1 && WordsOk(fill)
      modifies this`free, this`starts, this`total, this`dead, this`lists, mem, heads, objstart
      ensures Valid() && old(starts) <= starts && old(free) <= free
      ensures WordsKept(old(mem[..]), mem[..], old(starts), old(free), old(dead))
      ensures p == NULL ==> starts == old(starts) && dead == old(dead) && free == old(free) && mem[..] == old(mem[..])
      ensures p == NULL <==> !CanServe(old(starts), old(free), old(dead), |fill|)
      ensures p != NULL ==> 0 <= p && p in starts && p !in dead && End(starts, free, p) <= mem.Length
                            && Size(starts, free, p) >= |fill|
      ensures p != NULL ==> mem[p..p + |fill|] == fill
      ensures p != NULL ==> forall a :: p + |fill| <= a < End(starts, free, p) ==> mem[a] == Raw(0)
      ensures HasBlock(old(starts), old(free), old(dead), |fill|) ==>
                && ClassOf(|fill|) < |old(lists)|
                && FirstFit(old(starts), old(free), old(lists)[ClassOf(|fill|)], |fill|, p)
                && p in old(dead) && dead == old(dead) - {p} && starts == old(starts) && free == old(free)
      ensures p != NULL && !HasBlock(old(starts), old(free), old(dead), |fill|) ==>
                && p == old(free) && p !in old(starts) && dead == old(dead)
                && starts == old(starts) + {p} && free == p + |fill|
    {
      hide ClassOf, ListsOk, Entries, Represents, WordsKept, SumLists, Tiled, WordOk, RefsOk, End, HasBlock, FirstFit;
      ghost var m0, dead0 := mem[..], dead;
      DeadStarts(starts, free, lists, dead);
      p := FreeListAlloc(|fill|);
      if p != NULL {
        ghost var m1 := mem[..];
        Store(p, fill);
        FillBlock(m0, m1, mem[..], starts, free, heads[..], lists, dead0, dead, p, fill);
        return;
      }
      if |fill| < mem.Length - free {
        p := free;
        Bump(fill);
        return;
      }
      WordsKeptSelf(m0, starts, free, dead);
    }

    /** The caller's initialising stores. */
    method Store(p: int, fill: seq<MsWord>)
      requires 0 <= p && p + |fill| <= mem.Length
      modifies mem
      ensures mem[p..p + |fill|] == fill
      ensures forall a :: 0 <= a < mem.Length && !(p <= a < p + |fill|) ==> mem[a] == old(mem[a])
    {
      var i := 0;
      while i < |fill|
        invariant 0 <= i <= |fill|
        invariant forall k :: 0 <= k < i ==> mem[p + k] == fill[k]
        invariant forall a :: 0 <= a < mem.Length && !(p <= a < p + i) ==> mem[a] == old(mem[a])
      {
        mem[p + i] := fill[i];
        i := i + 1;
      }
    }

    /** Bump allocation with ms_bump_alloc_notify. */
    method Bump(fill: seq<MsWord>)
      requires Valid() && |fill| >= 1 && |fill| < mem.Length - free && WordsOk(fill)
      modifies this`free, this`starts, mem, objstart
      ensures Valid() && free == old(free) + |fill| && starts == old(starts) + {old(free)}
      ensures old(free) !in old(starts) && End(starts, free, old(free)) == free
      ensures WordsKept(old(mem[..]), mem[..], old(starts), old(free), dead)
      ensures mem[old(free)..free] == fill
    {
      hide ClassOf, ListsOk, Entries, Represents, WordsKept, SumLists, WordOk, RefsOk, Size, Tiled, End;
      ghost var m0, starts0, free0 := mem[..], starts, free;
      DeadStarts(starts, free, lists, dead);
      BumpExtents(starts, free, |fill|);
      BumpLists(m0, starts, free, |fill|, heads[..], lists, dead);
      var p := free;
      free := free + |fill|;
      Set(objstart, p, starts);
      starts := starts + {p};
      Store(p, fill);
      BumpMemory(m0, mem[..], starts0, free0, heads[..], lists, dead, fill);
    }

    /** A mutator store into an allocated object. */
    method Assign(o: int, a: int, w: MsWord)
      requires Valid() && o in starts && o !in dead && o <= a < End(starts, free, o)
          && WordOk(mem.Length, starts, free, dead, w)
      modifies mem
      ensures Valid()
      ensures 0 <= a < mem.Length && mem[..] == old(mem[..])[a := w]
    {
      hide ClassOf, ListsOk, Entries, Represents, SumLists, WordOk;
      ghost var m0 := mem[..];
      mem[a] := w;
      WriteInside(m0, mem[..], starts, free, heads[..], lists, dead, o);
    }

    // ---------------------------------------------------------------- collection

    /** ms_post_gc_wp: drop weak pointers to unmarked objects. */
    method ScanWeak(weak: array<MsWord>, nil: MsWord)
      requires Shape() && weak != mem
      requires forall k :: 0 <= k < weak.Length ==> WordOk(mem.Length, starts, free, dead, weak[k])
      modifies weak
      ensures forall k :: 0 <= k < weak.Length ==>
                var t := Target(mem.Length, starts, old(weak[k]));
                weak[k] == if t == NONE || t in marked then old(weak[k]) else nil
    {
      hide WordOk, Target, Represents, Tiled;
      var i := 0;
      while i < weak.Length
        invariant 0 <= i <= weak.Length
        invariant forall k :: 0 <= k < i ==>
                    var t := Target(mem.Length, starts, old(weak[k]));
                    weak[k] == if t == NONE || t in marked then old(weak[k]) else nil
        invariant forall k :: i <= k < weak.Length ==> weak[k] == old(weak[k])
      {
        var alive := WeakAlive(weak[i]);
        if !alive {
          weak[i] := nil;
        }
        i := i + 1;
      }
    }

    /** Does a weak table entry survive? */
    method WeakAlive(r: MsWord) returns (alive: bool)
      requires Shape() && WordOk(mem.Length, starts, free, dead, r)
      ensures var t := Target(mem.Length, starts, r); alive <==> t == NONE || t in marked
    {
      alive := true;
      if (r.Ptr? || r.Loc?) && 0 <= r.a < mem.Length {
        if r.Loc? {
          var obj := FindObjectStart(r.a);
          alive := obj != NULL && Has(marks[..], obj);
        } else {
          alive := Has(marks[..], r.a);
        }
      }
    }

    /** ms_collect, single-threaded.  `roots` are the registers, stacks and static words.  False means
        the free space does not cover the request, and the caller falls back on the copying collector. */
    method Collect(roots: seq<MsWord>, weak: array<MsWord>, nil: MsWord, amount: int) returns (enough: bool)
      requires Valid() && weak != mem
      requires WordsOk(roots) && forall k :: 0 <= k < weak.Length ==> WordOk(mem.Length, starts, free, dead, weak[k])
      modifies this`total, this`stack, this`marked, this`dead, this`lists, mem, marks, heads, weak
      ensures Valid() && marked == {}
      ensures forall o <- starts :: o in dead <==> !Reachable(old(mem[..]), starts, free, roots, o)
      ensures WordsKept(old(mem[..]), mem[..], starts, free, dead)
      ensures forall k :: 0 <= k < weak.Length ==>
                var t := Target(mem.Length, starts, old(weak[k]));
                weak[k] == if t == NONE || Reachable(old(mem[..]), starts, free, roots, t) then old(weak[k]) else nil
      ensures WordOk(mem.Length, starts, free, dead, nil) ==>
                forall k :: 0 <= k < weak.Length ==> WordOk(mem.Length, starts, free, dead, weak[k])
      ensures enough <==> total + (mem.Length - free) >= amount
    {
      hide ClassOf, ListsOk, Entries, WordsKept, SumLists, RefsOk, WordOk, Size, Reachable, Target, Inside,
          MarkInv, RootsIn;
      ghost var m0, dead0 := mem[..], dead;
      ClearAll(marks);
      marked := {};
      stack := [];
      MarkRoots(roots);
      Trace(roots);
      ScanWeak(weak, nil);
      ghost var marked0 := marked;
      assert Marking(roots, NONE) && mem[..] == m0;
      var reclaimed := Sweep();
      SweptRefs(m0, mem[..], starts, free, dead0, roots, marked0, dead);
      assert starts - dead == marked0;
      if WordOk(mem.Length, starts, free, dead, nil) {
        forall k | 0 <= k < weak.Length ensures WordOk(mem.Length, starts, free, dead, weak[k]) {
          WeakOk(mem.Length, starts, free, dead0, marked0, dead, nil, old(weak[k]), weak[k]);
        }
      }
      enough := total + (mem.Length - free) >= amount;
    }

    /** ALLOCATE_PROT with initialisation: collect when neither the free list nor the bump pointer can
        serve, then try again; NULL hands over to the copying collector. */
    method New(fill: seq<MsWord>, roots: seq<MsWord>, weak: array<MsWord>, nil: MsWord)
        returns (p: int, collected: bool)
      requires Valid() && |fill| >= 1 && weak != mem
      requires WordsOk(roots) && forall k :: 0 <= k < weak.Length ==> WordOk(mem.Length, starts, free, dead, weak[k])
      requires forall w <- fill :: w in roots
      modifies this, mem, marks, heads, objstart, weak
      ensures Valid()
      ensures p != NULL ==> 0 <= p && p in starts && p !in dead && End(starts, free, p) <= mem.Length
      ensures p != NULL ==> Size(starts, free, p) >= |fill| && mem[p..p + |fill|] == fill
      ensures p != NULL ==> p !in old(starts) || !Reachable(old(mem[..]), old(starts), old(free), roots, p)
      ensures p == NULL ==> collected && starts == old(starts) && free == old(free)
                            && (!CanServe(starts, free, dead, |fill|) || total + (mem.Length - free) < |fill|)
      ensures collected <==> !CanServe(old(starts), old(free), old(dead), |fill|)
      ensures p != NULL ==>
                var dead0 := if collected then old(starts - Live(roots)) else old(dead);
                if HasBlock(old(starts), old(free), dead0, |fill|)
                then p in dead0 && dead == dead0 - {p} && starts == old(starts) && free == old(free)
                else p == old(free) && dead == dead0 && starts == old(starts) + {p} && free == p + |fill|
      ensures p != NULL && !collected && HasBlock(old(starts), old(free), old(dead), |fill|) ==>
                && ClassOf(|fill|) < |old(lists)|
                && FirstFit(old(starts), old(free), old(lists)[ClassOf(|fill|)], |fill|, p)
      ensures collected ==> forall o <- old(starts) :: o in dead <==>
                              (p == NULL || o != p) && !Reachable(old(mem[..]), old(starts), old(free), roots, o)
      ensures collected ==> forall k :: 0 <= k < weak.Length ==>
                var t := Target(mem.Length, old(starts), old(weak[k]));
                weak[k] == if t == NONE || Reachable(old(mem[..]), old(starts), old(free), roots, t) then old(weak[k])
                           else nil
      ensures !collected ==> weak[..] == old(weak[..])
      ensures (collected ==> nil in roots) ==>
                forall k :: 0 <= k < weak.Length ==> WordOk(mem.Length, starts, free, dead, weak[k])
      ensures old(starts) <= starts
      ensures forall o <- old(starts) :: Reachable(old(mem[..]), old(starts), old(free), roots, o) ==>
                o !in dead && SameObject(old(mem[..]), mem[..], old(starts), old(free), o)
    {
      hide ClassOf, ListsOk, Entries, SumLists, RefsOk, WordOk, Size, Reachable, Target, Represents, Tiled, End,
          WordsKept, SameObject, CanServe;
      collected := false;
      ghost var m0, starts0, free0 := mem[..], starts, free;
      ReachableAllocated(m0, starts0, free0, dead, roots);
      DeadStarts(starts, free, lists, dead);
      p := TryNew(fill);
      if p != NULL {
        ObjectsSame(m0, mem[..], starts0, free0, old(dead));
        WeakHeld(weak, starts0, free0, old(dead));
        return;
      }
      collected := true;
      var enough := Collect(roots, weak, nil, |fill|);
      ghost var m1, dead1 := mem[..], dead;
      DeadStarts(starts, free, lists, dead);
      assert starts0 - dead1 == old(Live(roots)) && dead1 == starts0 - old(Live(roots));
      if nil in roots { FillOk(mem.Length, starts, free, m0, old(dead), dead, roots, [nil]); }
      ObjectsSame(m0, m1, starts0, free0, dead1);
      if !enough {
        p := NULL;
        return;
      }
      FillOk(mem.Length, starts, free, m0, old(dead), dead, roots, fill);
      p := TryNew(fill);
      ObjectsSame(m1, mem[..], starts0, free0, dead1);
      if nil in roots && p != NULL { WeakHeld(weak, starts0, free0, dead1); }
      forall o <- starts0 | Reachable(m0, starts0, free0, roots, o)
        ensures o !in dead && SameObject(m0, mem[..], starts0, free0, o)
      {
        SameObjectTrans(m0, m1, mem[..], starts0, free0, o);
      }
    }

    /** An allocation does not put weak table entries out of bounds. */
    lemma WeakHeld(weak: array<MsWord>, starts0: set<int>, free0: int, dead0: set<int>)
      requires forall k :: 0 <= k < weak.Length ==> WordOk(mem.Length, starts0, free0, dead0, weak[k])
      requires Tiled(starts0, free0) && dead0 <= starts0 && dead <= dead0
      requires (starts == starts0 && free == free0) || (starts == starts0 + {free0} && free > free0)
      ensures forall k :: 0 <= k < weak.Length ==> WordOk(mem.Length, starts, free, dead, weak[k])
    {
      hide WordOk;
      forall k | 0 <= k < weak.Length ensures WordOk(mem.Length, starts, free, dead, weak[k]) {
        HeldOn(mem.Length, starts0, free0, dead0, starts, free, dead, weak[k]);
      }
    }

    /** The objects the program can reach. */
    ghost function Live(roots: seq<MsWord>): set<int>
      reads this, mem
    {
      set o | o in starts && Reachable(mem[..], starts, free, roots, o)
    }
  }
}
