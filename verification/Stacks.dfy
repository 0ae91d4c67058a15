/** Segmented stacks (stacks.c, stacks-loop.h): a buffer over a list of flushed segments. */
module Stacks {
  import opened Words
  import opened Segments

  datatype Outcome = Ok | Underflow | Overunflush

  class SegmentHeap {
    const maxSeg: int              // max_segment_size
    var segs: seq<Segment>

    constructor (max: int)
      ensures maxSeg == max && segs == []
    {
      maxSeg := max;
      segs := [];
    }
  }

  /** The sizing rule at the end of parse_cmd_line, for accesses as deep as `depth`. */
  function SizeRule(size: int, maxSeg: int, depth: int): (r: int)
    ensures r >= depth + maxSeg && r >= size
    ensures r == size || r == depth + maxSeg
  {
    if size < depth + maxSeg then depth + maxSeg else size
  }

  /** What CHECKCXT_PUSH leaves room for: the buffer holds `count` of `size` references, and is
      flushed down to half when `k` more do not fit. */
  predicate Fits(size: int, count: int, k: int) {
    count + k <= size || size / 2 + k <= size
  }

  /** A context frame always fits exactly when the buffer has five cells or more: the sizing rule
      allows four, when max_segment_size is one. */
  lemma FrameFits(size: int)
    requires size >= 4
    ensures (forall count :: 0 <= count <= size ==> Fits(size, count, 3)) <==> size >= 5
    ensures SizeRule(1, 1, 3) == 4
  {
    if size == 4 { assert !Fits(size, 4, 3); }
  }

  /** `a` without its last `n` references. */
  function Dropped(a: seq<Word>, n: int): seq<Word> {
    if n <= 0 then a else if n <= |a| then a[..|a| - n] else []
  }

  /** `a` without the `trash` references under its last `stuff`. */
  function DroppedUnder(a: seq<Word>, stuff: int, trash: int): seq<Word>
    requires 0 <= stuff && 0 <= trash && stuff + trash <= |a|
  {
    a[..|a| - stuff - trash] + a[|a| - stuff..]
  }

  /** `a` with its last reference and the one `n` below it exchanged. */
  function Swapped(a: seq<Word>, n: int): seq<Word>
    requires 0 <= n < |a|
  {
    var top := |a| - 1;
    a[top := a[top - n]][top - n := a[top]]
  }

  lemma DroppedNone(a: seq<Word>, n: int)
    requires n <= 0
    ensures Dropped(a, n) == a
  {
  }

  lemma Cut(a: seq<Word>, b: seq<Word>, n: int)
    requires 0 <= n <= |b|
    ensures Dropped(a + b, n) == a + b[..|b| - n]
  {
  }

  lemma FlushStep(segs: seq<Segment>, max: int, s: int, b: seq<Word>, src: int, size: int, count: int)
    requires Linked(segs, max) && NIL <= s < |segs| && 1 <= size <= max && 0 <= src <= src + size <= count <= |b|
    ensures var more := segs + [Segment(b[src..src + size], s)];
            Linked(more, max) && Contents(more, |segs|) + b[src + size..count] == Contents(segs, s) + b[src..count]
  {
    ContentsGrow(segs, segs + [Segment(b[src..src + size], s)], s);
    assert b[src..count] == b[src..src + size] + b[src + size..count];
  }

  lemma Regrouped(segs: seq<Segment>, s: int, b: seq<Word>, base: int, count: int)
    requires 0 <= s < |segs| && segs[s].prev < s && 0 <= base
    requires var end := base + |segs[s].data|; end <= count <= |b| && b[base..end] == segs[s].data
    ensures Contents(segs, segs[s].prev) + b[base..count] == Contents(segs, s) + b[base + |segs[s].data|..count]
  {
    var end := base + |segs[s].data|;
    assert b[base..count] == b[base..end] + b[end..count];
    Associate(Contents(segs, segs[s].prev), segs[s].data, b[end..count]);
  }

  lemma Associate(a: seq<Word>, b: seq<Word>, c: seq<Word>)
    ensures a + (b + c) == a + b + c
  {
  }

  lemma DropBoth(list: seq<Word>, b: seq<Word>, n: int, rest: seq<Word>, left: int)
    requires n >= |b| && left >= 0 && rest <= list && |list| - (n - |b|) == |rest| - left
    ensures |rest| >= left ==> Dropped(list + b, n) == Dropped(rest, left)
    ensures n < |list + b| <==> left < |rest|
  {
  }

  lemma Slid(was: seq<Word>, now: seq<Word>, base: int, stuff: int, step: int)
    requires 0 <= base && 0 <= stuff && 0 <= step && |was| == base + step + stuff && |now| == base + stuff
    requires now[..base] == was[..base] && now[base..] == was[base + step..]
    ensures now == DroppedUnder(was, stuff, step)
  {
    assert now == now[..base] + now[base..];
  }

  /** The loop of BLT-STACK once `stuff` values have been moved. */
  lemma MovedOver(b: seq<Word>, now: seq<Word>, base: int, stuff: int, step: int)
    requires 0 <= base && 0 <= stuff && 0 <= step && base + step + stuff <= |b| == |now|
    requires forall k :: base <= k < base + stuff ==> now[k] == b[k + step]
    requires forall k :: 0 <= k < base ==> now[k] == b[k]
    ensures now[..base + stuff] == DroppedUnder(b[..base + step + stuff], stuff, step)
  {
    assert now[..base] == b[..base];
    assert now[base..base + stuff] == b[base + step..base + step + stuff];
    Slid(b[..base + step + stuff], now[..base + stuff], base, stuff, step);
  }

  lemma UnderTail(list: seq<Word>, b: seq<Word>, stuff: int, trash: int)
    requires 0 <= stuff && 0 <= trash && stuff + trash <= |b|
    ensures DroppedUnder(list + b, stuff, trash) == list + DroppedUnder(b, stuff, trash)
  {
  }

  lemma SwapTail(list: seq<Word>, b: seq<Word>, n: int)
    requires 0 <= n < |b|
    ensures Swapped(list + b, n) == list + Swapped(b, n)
  {
  }

  lemma BlastTail(list: seq<Word>, b: seq<Word>, n: int)
    requires 0 <= n < |b|
    ensures var a, top := list + b, |b| - 1;
            a[|a| - 1 - n := a[|a| - 1]][..|a| - 1] == list + b[top - n := b[top]][..top]
  {
  }

  /** `got` are the last references of `a`, last first. */
  predicate TakenFrom(got: seq<Word>, a: seq<Word>) {
    |got| <= |a| && forall i :: 0 <= i < |got| ==> got[i] == a[|a| - 1 - i]
  }

  lemma EncloseTail(list: seq<Word>, b: seq<Word>, got: seq<Word>)
    requires TakenFrom(got, b)
    ensures TakenFrom(got, list + b)
    ensures (list + b)[..|list + b| - |got|] == list + b[..|b| - |got|]
  {
  }

  class Stack {
    const heap: SegmentHeap
    const bp: array<Word>
    const filltarget: int
    const depth: int               // the deepest access the sizing rule provides for
    var sp: int                    // index of the top of the stack in the buffer
    var segment: int
    var pushedCount: int

    ghost predicate Valid()
      reads this, heap
    {
      && Linked(heap.segs, heap.maxSeg) && heap.maxSeg >= 1
      && NIL <= segment < |heap.segs| && -1 <= sp < bp.Length
      && pushedCount == |Contents(heap.segs, segment)|
      && depth >= 1 && bp.Length >= depth + heap.maxSeg && filltarget == bp.Length / 2
    }

    /** The one sequence the stack stands for, top last. */
    ghost function Abs(): seq<Word>
      requires Valid()
      reads this, heap, bp
    {
      Contents(heap.segs, segment) + bp[..sp + 1]
    }

    /** init_stacks: one value, below everything that will be pushed. */
    constructor (h: SegmentHeap, size: int, deepest: int)
      requires h.maxSeg >= 1 && deepest >= 1 && Linked(h.segs, h.maxSeg)
      ensures Valid() && heap == h && depth == deepest && fresh(bp)
      ensures bp.Length == SizeRule(size, h.maxSeg, deepest)
      ensures Abs() == [Fix(1234)] && sp == 0
    {
      var n := SizeRule(size, h.maxSeg, deepest);
      heap, depth, filltarget := h, deepest, n / 2;
      bp := new Word[n];
      sp, segment, pushedCount := 0, NIL, 0;
      new;
      bp[0] := Fix(1234);
    }

    /** The first loop of stack_flush: move all but the top `leave` values into new segments. */
    method FlushSegments(leave: int) returns (src: int)
      requires Valid() && 0 <= leave <= sp + 1
      modifies this`segment, heap`segs
      ensures Linked(heap.segs, heap.maxSeg) && NIL <= segment < |heap.segs|
      ensures old(heap.segs) <= heap.segs && src == sp + 1 - leave
      ensures Contents(heap.segs, segment) + bp[src..sp + 1] == old(Abs())
    {
      hide Linked, Contents;
      var unflushed, end := sp + 1 - leave, sp - leave;
      src := 0;
      while src <= end
        invariant 0 <= src && src + unflushed == end + 1 && unflushed >= 0
        invariant Linked(heap.segs, heap.maxSeg) && NIL <= segment < |heap.segs|
        invariant old(heap.segs) <= heap.segs
        invariant Contents(heap.segs, segment) + bp[src..sp + 1] == old(Abs())
        decreases unflushed
      {
        var size := unflushed;
        if size > heap.maxSeg { size := heap.maxSeg; }
        FlushStep(heap.segs, heap.maxSeg, segment, bp[..], src, size, sp + 1);
        heap.segs := heap.segs + [Segment(bp[src..src + size], segment)];
        segment := |heap.segs| - 1;
        src := src + size;
        unflushed := unflushed - size;
      }
    }

    /** The second loop of stack_flush: move the values left over down to the start of the buffer. */
    method ShiftDown(src: int, leave: int)
      requires 0 <= src && 0 <= leave && src + leave <= bp.Length
      modifies bp
      ensures bp[..leave] == old(bp[src..src + leave])
    {
      hide Linked, Contents, Valid;
      var i := 0;
      ghost var b := bp[..];
      while i < leave
        invariant 0 <= i <= leave
        invariant forall k :: 0 <= k < i ==> bp[k] == b[src + k]
        invariant forall k :: i <= k < bp.Length ==> bp[k] == b[k]
      {
        bp[i] := bp[src + i];
        i := i + 1;
      }
      assert bp[..leave] == b[src..src + leave];
    }

    /** stack_flush */
    method Flush(leave: int)
      requires Valid() && 0 <= leave <= sp + 1
      modifies this, heap`segs, bp
      ensures Valid() && old(heap.segs) <= heap.segs
      ensures Abs() == old(Abs()) && sp == leave - 1
    {
      hide Linked, Contents;
      var amount := sp + 1 - leave;
      var src := FlushSegments(leave);
      ShiftDown(src, leave);
      sp := leave - 1;
      pushedCount := pushedCount + amount;
    }

    /** The first loop of stack_unflush: how many segments to pull, and what the buffer will hold
        then; a count of -1 when the list ends first. */
    method Survey(n: int) returns (newCount: int, toPull: nat)
      requires Valid()
      ensures newCount == Pulled(heap.segs, segment, sp + 1, n)
      ensures newCount >= 0 ==> Has(heap.segs, segment, toPull)
      ensures newCount >= 0 ==> newCount == sp + 1 + Span(heap.segs, segment, toPull)
    {
      var seg := segment;
      newCount, toPull := sp + 1, 0;
      while newCount <= n
        invariant Has(heap.segs, segment, toPull) && NIL <= seg < |heap.segs|
        invariant seg == Skip(heap.segs, segment, toPull)
        invariant newCount == sp + 1 + Span(heap.segs, segment, toPull)
        invariant Pulled(heap.segs, segment, sp + 1, n) == Pulled(heap.segs, seg, newCount, n)
        decreases seg
      {
        if seg == NIL { return -1, 0; }
        OneMore(heap.segs, heap.maxSeg, segment, toPull);
        newCount := newCount + |heap.segs[seg].data|;
        toPull := toPull + 1;
        seg := heap.segs[seg].prev;
      }
    }

    /** Copy the data in the buffer up to its new home. */
    method ShiftUp(newCount: int)
      requires 0 <= sp + 1 <= newCount <= bp.Length
      modifies bp
      ensures bp[newCount - (sp + 1)..newCount] == old(bp[..sp + 1])
    {
      hide Linked, Contents, Pulled, Has, Span, Skip, Valid;
      var dest, i := newCount - 1, sp;
      ghost var b, d := bp[..], dest - i;
      while i >= 0
        invariant -1 <= i <= sp && dest - i == d
        invariant forall k :: 0 <= k <= i ==> bp[k] == b[k]
        invariant forall k :: i < k <= sp ==> b[k] == bp[d + k]
        modifies bp
      {
        bp[dest] := bp[i];
        dest, i := dest - 1, i - 1;
      }
      assert bp[d..newCount] == b[..sp + 1];
    }

    /** stack_unflush: pull in whole segments until more than `n` values are in the buffer. */
    method Unflush(n: int) returns (r: Outcome)
      requires Valid()
      modifies this, bp
      ensures Valid() && Abs() == old(Abs())
      ensures r == Underflow <==> old(sp) + 1 <= n && |old(Abs())| <= n
      ensures r == Overunflush <==> Pulled(heap.segs, old(segment), old(sp) + 1, n) > bp.Length
      ensures r == Ok ==> sp + 1 == Pulled(heap.segs, old(segment), old(sp) + 1, n)
      ensures r == Ok ==> sp + 1 > n && sp >= old(sp)
      ensures r != Ok ==> sp == old(sp)
    {
      hide Linked, Contents, Pulled, Has, Span, Skip;
      PulledBound(heap.segs, heap.maxSeg, segment, sp + 1, n);
      var newCount, toPull := Survey(n);
      if newCount == -1 { return Underflow; }
      if newCount > bp.Length { return Overunflush; }
      ShiftUp(newCount);
      SuckIn(newCount, toPull);
      return Ok;
    }

    /** The second half of stack_unflush. */
    method SuckIn(newCount: int, count: nat)
      requires Valid() && Has(heap.segs, segment, count)
      requires newCount == sp + 1 + Span(heap.segs, segment, count) && newCount <= bp.Length
      modifies this, bp
      ensures Valid() && sp == newCount - 1
      ensures Abs() == Contents(heap.segs, old(segment)) + old(bp[newCount - (sp + 1)..newCount])
    {
      var toPull, s, dest := count, segment, newCount - sp - 2;
      ghost var all := Contents(heap.segs, segment) + bp[dest + 1..newCount];
      while toPull > 0
        invariant 0 <= toPull && NIL <= s < |heap.segs| && Has(heap.segs, s, toPull)
        invariant dest + 1 == Span(heap.segs, s, toPull) && dest < newCount
        invariant Contents(heap.segs, s) + bp[dest + 1..newCount] == all
        modifies bp
      {
        var size := |heap.segs[s].data|;
        PullIn(s, dest, newCount);
        dest := dest - size;
        s := heap.segs[s].prev;
        toPull := toPull - 1;
      }
      assert |all| == |Contents(heap.segs, segment)| + sp + 1;
      segment := s;
      pushedCount := pushedCount - (newCount - (sp + 1));
      sp := newCount - 1;
      assert bp[dest + 1..newCount] == bp[..sp + 1];
    }

    /** The inner copying loop of stack_unflush. */
    method PullIn(s: int, last: int, newCount: int)
      requires 0 <= s < |heap.segs| && heap.segs[s].prev < s
      requires |heap.segs[s].data| - 1 <= last < newCount <= bp.Length
      modifies bp
      ensures Contents(heap.segs, heap.segs[s].prev) + bp[last + 1 - |heap.segs[s].data|..newCount]
              == Contents(heap.segs, s) + old(bp[last + 1..newCount])
    {
      hide Contents;
      var data := heap.segs[s].data;
      var i, dest := |data| - 1, last;
      ghost var base := last + 1 - |data|;
      while i >= 0
        invariant -1 <= i < |data| && dest - i == base
        invariant forall k :: dest < k <= last ==> bp[k] == data[k - base]
        invariant forall k :: last < k < bp.Length ==> bp[k] == old(bp[k])
      {
        bp[dest] := data[i];
        dest, i := dest - 1, i - 1;
      }
      assert bp[base..last + 1] == data;
      assert bp[last + 1..newCount] == old(bp[last + 1..newCount]);
      Regrouped(heap.segs, s, bp[..], base, newCount);
    }

    /** The loop of stack_pop_n: drop the segments that lie entirely within the pop. */
    method DropSegments(n: int) returns (left: int)
      requires Valid() && sp == -1 && n >= 0
      modifies this
      ensures Valid() && sp == -1 && 0 <= left <= n
      ensures if segment == NIL then Contents(heap.segs, segment) == []
              else left < |heap.segs[segment].data|
      ensures var was, now := Contents(heap.segs, old(segment)), Contents(heap.segs, segment);
              now <= was && |was| - n == |now| - left
    {
      left := n;
      while left > 0
        invariant Valid() && sp == -1 && 0 <= left <= n
        invariant var was, now := Contents(heap.segs, old(segment)), Contents(heap.segs, segment);
                  now <= was && |was| - n == |now| - left
        decreases left
      {
        if segment == NIL { break; }
        var thisOne := |heap.segs[segment].data|;
        if thisOne > left { break; }
        segment := heap.segs[segment].prev;
        pushedCount := pushedCount - thisOne;
        left := left - thisOne;
      }
    }

    /** The end of stack_pop_n: the boundary of the pop lies in the first segment. */
    method PopFromSegment(left: int) returns (r: Outcome)
      requires Valid() && sp == -1 && segment != NIL && 0 <= left < |heap.segs[segment].data|
      modifies this, bp
      ensures r == Ok && Valid() && sp >= 0
      ensures var list := Contents(heap.segs, old(segment)); |list| > left && Abs() == Dropped(list, left)
    {
      PulledOne(heap.segs, heap.maxSeg, segment, left);
      hide Linked, Contents, Dropped, Pulled;
      r := Unflush(left);
      Cut(Contents(heap.segs, segment), bp[..sp + 1], left);
      assert bp[..sp + 1][..sp + 1 - left] == bp[..sp + 1 - left];
      sp := sp - left;
    }

    /** stack_pop_n */
    method PopN(n: int) returns (r: Outcome)
      requires Valid()
      modifies this, bp
      ensures r == Ok || r == Underflow
      ensures r == Ok <==> n <= 0 || n < |old(Abs())|
      ensures r == Ok ==> Valid() && Abs() == Dropped(old(Abs()), n)
      ensures r == Ok && n > 0 ==> sp >= 0
      ensures r == Ok && n <= 0 ==> sp == old(sp)
    {
      hide Linked, Contents, Dropped, Pulled;
      var count := sp + 1;
      if n <= 0 {
        DroppedNone(Abs(), n);
        return Ok;
      }
      ghost var list, b := Contents(heap.segs, segment), bp[..sp + 1];
      if n < count {
        Cut(list, b, n);
        sp := sp - n;
        return Ok;
      }
      sp := -1;
      var left := DropSegments(n - count);
      DropBoth(list, b, n, Contents(heap.segs, segment), left);
      if left > 0 && segment == NIL { return Underflow; }
      if left > 0 || segment != NIL {
        r := PopFromSegment(left);
      } else {
        return Underflow;
      }
    }

    /** CHECKVAL_POP and CHECKCXT_POP */
    method CheckPop(n: int) returns (r: Outcome)
      requires Valid() && n <= depth
      modifies this, bp
      ensures Valid() && Abs() == old(Abs())
      ensures r == Ok || r == Underflow
      ensures r == Ok <==> n <= old(sp) || n < |Abs()|
      ensures r == Ok ==> sp >= n && sp >= old(sp)
      ensures r == Ok && n >= 0 ==> sp + 1 == Pulled(heap.segs, old(segment), old(sp) + 1, n)
      ensures r != Ok || n <= old(sp) ==> sp == old(sp)
    {
      if n > sp {
        PulledBound(heap.segs, heap.maxSeg, segment, sp + 1, n);
        r := Unflush(n);
      } else {
        r := Ok;
      }
    }

    /** CHECKVAL_PUSH and CHECKCXT_PUSH */
    method CheckPush(n: int)
      requires Valid() && 1 <= n && bp.Length / 2 + n <= bp.Length + 1
      modifies this, heap`segs, bp
      ensures Valid() && old(heap.segs) <= heap.segs && Abs() == old(Abs())
      ensures sp == if old(sp) + n < bp.Length then old(sp) else bp.Length / 2 - 1
    {
      if sp + n >= bp.Length { Flush(filltarget); }
    }

    /** PUSHVAL */
    method Push(v: Word)
      requires Valid()
      modifies this, heap`segs, bp
      ensures Valid() && old(heap.segs) <= heap.segs
      ensures Abs() == old(Abs()) + [v]
      ensures sp == if old(sp) + 1 < bp.Length then old(sp) + 1 else bp.Length / 2
    {
      CheckPush(1);
      sp := sp + 1;
      bp[sp] := v;
      assert bp[..sp + 1] == bp[..sp] + [v];
    }

    /** PEEKVAL */
    method Peek() returns (v: Word)
      requires Valid() && sp >= 0
      ensures Abs() != [] && v == Abs()[|Abs()| - 1]
    {
      v := bp[sp];
    }

    /** POPVAL: the value below must exist too, so that the top of the stack stays visible. */
    method Pop() returns (r: Outcome, v: Word)
      requires Valid()
      modifies this, bp
      ensures Valid() && r != Overunflush
      ensures r == Ok <==> old(sp) >= 1 || |old(Abs())| >= 2
      ensures r == Ok ==> sp >= 0 && old(Abs()) == Abs() + [v]
      ensures r != Ok ==> sp == old(sp)
    {
      v := Fix(0);
      r := CheckPop(1);
      if r == Ok {
        v := bp[sp];
        assert bp[..sp + 1] == bp[..sp] + [v];
        sp := sp - 1;
      }
    }

    /** POPVALS and POPCXTS */
    method PopMany(n: int) returns (r: Outcome)
      requires Valid()
      modifies this, bp
      ensures r == Ok || r == Underflow
      ensures r == Ok <==> n <= 0 || n < |old(Abs())|
      ensures r == Ok ==> Valid()
      ensures r == Ok ==> Abs() == Dropped(old(Abs()), n)
      ensures r == Ok && n > 0 ==> sp >= 0
      ensures n <= 0 || n <= old(sp) ==> r == Ok && sp == old(sp) - (if n <= 0 then 0 else n)
    {
      if n > 0 {
        if n < sp + 1 {
          Cut(Contents(heap.segs, segment), bp[..sp + 1], n);
          sp := sp - n;
          r := Ok;
        } else {
          r := PopN(n);
        }
      } else {
        r := Ok;
      }
    }

    /** VALUE_STACK_HEIGHT and CONTEXT_STACK_HEIGHT */
    method Height() returns (h: int)
      requires Valid()
      ensures h == |Abs()|
    {
      h := sp + 1 + pushedCount;
    }

    /** LOAD-STK n, up to the push */
    method PeekUp(n: int) returns (r: Outcome, v: Word)
      requires Valid() && 0 <= n <= depth
      modifies this, bp
      ensures Valid() && Abs() == old(Abs())
      ensures r == Ok || r == Underflow
      ensures r == Ok <==> n < |Abs()|
      ensures r == Ok ==> v == Abs()[|Abs()| - 1 - n] && sp >= old(sp)
    {
      v := Fix(0);
      r := CheckPop(n);
      if r == Ok { v := bp[sp - n]; }
    }

    /** STORE-STK n */
    method StoreUp(n: int) returns (r: Outcome)
      requires Valid() && 0 <= n <= depth
      modifies this, bp
      ensures Valid() && (r == Ok || old(sp) >= 0 ==> sp >= 0)
      ensures r == Ok || r == Underflow
      ensures r == Ok <==> n < |old(Abs())|
      ensures r == Ok ==> var a := old(Abs()); Abs() == a[|a| - 1 - n := a[|a| - 1]]
    {
      hide Linked, Contents, Pulled;
      r := CheckPop(n);
      if r == Ok {
        ghost var a := Abs();
        ghost var list, b := Contents(heap.segs, segment), bp[..sp + 1];
        bp[sp - n] := bp[sp];
        assert bp[..sp + 1] == b[sp - n := b[sp]];
        assert Abs() == a[|a| - 1 - n := a[|a| - 1]];
      }
    }

    /** PEEKVAL() used as an lvalue */
    method SetTop(v: Word)
      requires Valid() && sp >= 0
      modifies bp
      ensures Valid() && old(Abs()) != [] && Abs() == old(Abs())[..|old(Abs())| - 1] + [v]
    {
      hide Linked, Contents;
      ghost var b := bp[..sp];
      bp[sp] := v;
      assert bp[..sp + 1] == b + [v];
    }

    /** SWAP n */
    method SwapUp(n: int) returns (r: Outcome)
      requires Valid() && 0 <= n <= depth && sp >= 0
      modifies this, bp
      ensures Valid() && sp >= 0
      ensures r == Ok || r == Underflow
      ensures r == Ok <==> n < |old(Abs())|
      ensures r == Ok ==> Abs() == Swapped(old(Abs()), n)
    {
      hide Linked, Contents, Pulled;
      var x := bp[sp];
      ghost var a := Abs();
      assert x == a[|a| - 1];
      r := CheckPop(n);
      if r == Ok {
        assert x == bp[sp] by { assert Abs()[|a| - 1] == bp[sp]; }
        ghost var b := bp[..sp + 1];
        bp[sp] := bp[sp - n];
        bp[sp - n] := x;
        assert bp[..sp + 1] == Swapped(b, n);
        SwapTail(Contents(heap.segs, segment), b, n);
      }
    }

    /** BLAST n: store the top `n` down and drop it.  The buffer ends up empty exactly when the value
        was its own place and the only one there. */
    method Blast(n: int) returns (r: Outcome)
      requires Valid() && 0 <= n <= depth
      modifies this, bp
      ensures Valid() && (r == Ok || r == Underflow)
      ensures r == Ok <==> n < |old(Abs())|
      ensures r == Ok ==> var a := old(Abs()); Abs() == a[|a| - 1 - n := a[|a| - 1]][..|a| - 1]
      ensures r == Ok ==> sp + 1 == Pulled(heap.segs, old(segment), old(sp) + 1, n) - 1
      ensures r == Ok && old(sp) >= 0 ==> (sp == -1 <==> n == 0 && old(sp) == 0)
      ensures r != Ok ==> sp == old(sp)
    {
      hide Linked, Contents;
      r := CheckPop(n);
      if r == Ok {
        ghost var a, b := Abs(), bp[..sp + 1];
        var other := sp - n;
        bp[other] := bp[sp];
        sp := sp - 1;
        assert bp[..sp + 1] == b[other := b[sp + 1]][..sp + 1];
        BlastTail(Contents(heap.segs, segment), b, n);
      }
    }

    /** The popping loop of MAKE-CLOSED-ENVIRONMENT. */
    method TakeValues(n: int) returns (got: seq<Word>)
      requires Valid() && 0 <= n <= sp + 1
      modifies this`sp
      ensures Valid() && sp == old(sp) - n && |got| == n && TakenFrom(got, bp[..old(sp) + 1])
    {
      hide Linked, Contents, Pulled;
      got := [];
      var k := n;
      while k > 0
        invariant 0 <= k <= n && sp == old(sp) - (n - k) && |got| == n - k
        invariant TakenFrom(got, bp[..old(sp) + 1])
      {
        got := got + [bp[sp]];
        sp := sp - 1;
        k := k - 1;
      }
    }

    /** The value stack in MAKE-CLOSED-ENVIRONMENT n: the top `n` values go into the environment, which
        takes their place. */
    method Enclose(n: int, v: Word) returns (r: Outcome, got: seq<Word>)
      requires Valid() && 0 <= n <= depth
      modifies this, heap`segs, bp
      ensures Valid() && old(heap.segs) <= heap.segs && (r == Ok || r == Underflow)
      ensures r == Ok <==> n <= |old(Abs())|
      ensures r == Ok ==> sp >= 0 && |got| == n && TakenFrom(got, old(Abs()))
      ensures r == Ok ==> Abs() == old(Abs())[..|old(Abs())| - n] + [v]
      ensures r != Ok ==> Abs() == old(Abs())
    {
      hide Linked, Contents, Pulled, TakenFrom;
      got := [];
      if n == 0 { CheckPush(1); }
      r := CheckPop(n - 1);
      if r != Ok { return; }
      ghost var b := bp[..sp + 1];
      got := TakeValues(n);
      EncloseTail(Contents(heap.segs, segment), b, got);
      assert bp[..sp + 1] == b[..|b| - n];
      PushNoCheck(v);
    }

    /** PUSHVAL_NOCHECK */
    method PushNoCheck(v: Word)
      requires Valid() && sp + 1 < bp.Length
      modifies this`sp, bp
      ensures Valid() && sp == old(sp) + 1 && Abs() == old(Abs()) + [v]
    {
      hide Linked, Contents;
      ghost var b := bp[..sp + 1];
      sp := sp + 1;
      bp[sp] := v;
      assert bp[..sp + 1] == b + [v];
    }

    method MoveDown(stuff: int, step: int)
      requires 0 <= stuff && 1 <= step && stuff + step <= sp + 1 <= bp.Length
      modifies bp
      ensures bp[..sp + 1 - step] == DroppedUnder(old(bp[..sp + 1]), stuff, step)
    {
      hide Linked, Contents, Pulled, DroppedUnder, Valid;
      var src := sp - stuff;
      var dest := src - step;
      ghost var base, b := dest + 1, bp[..];
      while src < sp
        invariant base - 1 <= dest && src == dest + step && src <= sp
        invariant forall k :: base <= k <= dest ==> bp[k] == b[k + step]
        invariant forall k :: 0 <= k < base ==> bp[k] == b[k]
        invariant forall k :: dest < k < bp.Length ==> bp[k] == b[k]
        decreases sp - src
      {
        dest, src := dest + 1, src + 1;
        bp[dest] := bp[src];
      }
      MovedOver(b, bp[..], base, stuff, step);
    }

    /** BLT-STACK: drop the `trash` + 1 values under the top `stuff`.  With no stuff to keep the
        buffer ends up empty exactly when what is dropped is all that is in it, whole segments pulled
        in for the purpose included, whatever lies in the segments below. */
    method Blt(stuff: int, trash: int) returns (r: Outcome)
      requires Valid() && 0 <= stuff && 0 <= trash && stuff + trash <= depth
      modifies this, bp
      ensures Valid() && r != Overunflush
      ensures r == Ok <==> stuff + trash < |old(Abs())|
      ensures r == Ok ==> Abs() == DroppedUnder(old(Abs()), stuff, trash + 1)
      ensures r == Ok ==> sp + 1 == Pulled(heap.segs, old(segment), old(sp) + 1, stuff + trash) - (trash + 1)
      ensures r == Ok ==> (sp == -1 <==> stuff == 0
                                         && AtBoundary(heap.segs, old(segment), old(sp) + 1, trash + 1))
      ensures r != Ok ==> sp == old(sp)
    {
      hide DroppedUnder, Linked, Contents, Pulled, AtBoundary;
      ghost var s, count := segment, sp + 1;
      PulledBound(heap.segs, heap.maxSeg, s, count, stuff + trash);
      PulledExact(heap.segs, heap.maxSeg, s, count, trash);
      r := CheckPop(stuff + trash);
      if r == Ok {
        UnderTail(Contents(heap.segs, segment), bp[..sp + 1], stuff, trash + 1);
        MoveDown(stuff, trash + 1);
        sp := sp - (trash + 1);
      }
    }

    /** PUSH_CONTEXT.  False when the frame is written past the end of the buffer. */
    method PushFrame(pc: Word, meth: Word, env: Word) returns (ok: bool)
      requires Valid() && depth == 3
      modifies this, heap`segs, bp
      ensures Valid() && old(heap.segs) <= heap.segs
      ensures ok <==> Fits(bp.Length, old(sp) + 1, 3)
      ensures ok ==> Abs() == old(Abs()) + [pc, meth, env]
      ensures ok ==> sp == (if old(sp) + 3 < bp.Length then old(sp) else bp.Length / 2 - 1) + 3
    {
      hide Linked, Contents;
      CheckPush(3);
      ok := sp + 3 < bp.Length;
      if ok {
        bp[sp + 1], bp[sp + 2], bp[sp + 3] := pc, meth, env;
        assert bp[..sp + 4] == bp[..sp + 1] + [pc, meth, env];
        sp := sp + 3;
      }
    }

    /** POP_CONTEXT */
    method PopFrame() returns (r: Outcome, pc: Word, meth: Word, env: Word)
      requires Valid() && depth == 3
      modifies this, bp
      ensures Valid() && r != Overunflush
      ensures r == Ok <==> |old(Abs())| > 3
      ensures r == Ok ==> old(Abs()) == Abs() + [pc, meth, env]
    {
      pc, meth, env := Fix(0), Fix(0), Fix(0);
      r := CheckPop(3);
      if r == Ok {
        env, meth, pc := bp[sp], bp[sp - 1], bp[sp - 2];
        assert bp[..sp + 1] == bp[..sp - 2] + [pc, meth, env];
        sp := sp - 3;
      }
    }
  }

  /** With the least sizes the command line accepts, the first frame fills the context buffer and the
      second is written past its end. */
  method SecondFrame(h: SegmentHeap, pc: Word, meth: Word, env: Word) returns (cxts: Stack, first: bool, second: bool)
    requires h.segs == [] && h.maxSeg == 1
    modifies h
    ensures cxts.Valid() && cxts.bp.Length == SizeRule(1, h.maxSeg, 3) == 4 && first && !second
  {
    hide Contents;
    cxts := new Stack(h, 1, 3);
    first := cxts.PushFrame(pc, meth, env);
    second := cxts.PushFrame(pc, meth, env);
  }
}
