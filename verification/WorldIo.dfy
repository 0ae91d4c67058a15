/** Binary worlds (worldio.c): the heap is written relative to its start, and read back at any
    aligned base.  References are raw 64-bit words with the tag in the low two bits. */
module WorldIo {
  import opened Options
  import opened Arith

  const TWO64 := 0x1_0000_0000_0000_0000
  const INT_MAX := 0x7FFF_FFFF
  const REFBUFSIZ := 256

  /** The static space, and the new space up to free_point; starts are byte addresses. */
  datatype Heap = Heap(spStart: int, spatic: seq<int>, newStart: int, newSpace: seq<int>, newSize: int)
  {
    /** The spaces are aligned, in memory, and apart. */
    predicate Valid() {
      && 0 <= spStart && spStart % 8 == 0 && spStart + 8 * |spatic| <= TWO64
      && 0 <= newStart && newStart % 8 == 0 && |newSpace| <= newSize && newStart + 8 * newSize <= TWO64
      && (spStart + 8 * |spatic| <= newStart || newStart + 8 * newSize <= spStart)
    }
  }

  /** r & PTR_MASK */
  predicate IsPtr(r: int) { r % 4 >= 2 }

  predicate IsWord(r: int) { 0 <= r < TWO64 }

  function Address(r: int): int { r - r % 4 }

  /** contigify: relative to the start of what is dumped; None is the exit for a wild pointer. */
  function Contigify(h: Heap, justNew: bool, r: int): Option<int> {
    if !IsPtr(r) then Some(r)
    else
      var p := Address(r);
      var inNew := h.newStart <= p < h.newStart + 8 * h.newSize;
      if justNew then
        if inNew then Some((p - h.newStart) / 8 * 8 + r % 4) else None
      else if h.spStart <= p < h.spStart + 8 * |h.spatic| then Some((p - h.spStart) / 8 * 8 + r % 4)
      else if inNew then Some(((p - h.newStart) / 8 + |h.spatic|) * 8 + r % 4)
      else None
  }

  /** The exit is taken exactly for a pointer outside the dumped spaces: new space counts up to its end, static
      space only if it is dumped. */
  lemma GivesUp(h: Heap, justNew: bool, r: int)
    requires h.Valid() && IsWord(r)
    ensures Contigify(h, justNew, r) == None <==>
              r % 4 >= 2 && !(h.newStart <= r < h.newStart + 8 * h.newSize)
              && (justNew || !(h.spStart <= r < h.spStart + 8 * |h.spatic|))
  {
    Tagless(r, h.newStart, h.newSize);
    Tagless(r, h.spStart, |h.spatic|);
    hide Address;
  }

  /** An address and the reference with a tag in it lie in the same aligned ranges. */
  lemma Tagless(r: int, start: int, n: int)
    requires start % 8 == 0
    ensures start <= Address(r) < start + 8 * n <==> start <= r < start + 8 * n
  {
    var a, b := start / 8, r / 4;
    assert start == 8 * a && Address(r) == 4 * b && 4 * b <= r < 4 * b + 4;
  }

  /** The cells dumped, in order. */
  function Cells(h: Heap, justNew: bool): seq<int> {
    if justNew then h.newSpace else h.spatic + h.newSpace
  }

  predicate AllContig(h: Heap, justNew: bool, s: seq<int>) {
    forall i :: 0 <= i < |s| ==> Contigify(h, justNew, s[i]).Some?
  }

  function Relative(h: Heap, justNew: bool, s: seq<int>): (r: seq<int>)
    requires AllContig(h, justNew, s)
    ensures |r| == |s|
  {
    seq(|s|, i requires 0 <= i < |s| => Contigify(h, justNew, s[i]).value)
  }

  /** What a dump of the heap, the boot reference and the weak table contains. */
  function Image(h: Heap, justNew: bool, boot: int, wp: seq<int>): seq<int>
    requires Contigify(h, justNew, boot).Some? && AllContig(h, justNew, Cells(h, justNew)) && AllContig(h, justNew, wp)
  {
    [0, 0, Contigify(h, justNew, boot).value, |Cells(h, justNew)|] + Relative(h, justNew, Cells(h, justNew))
    + [|wp|] + Relative(h, justNew, wp)
  }

  /** The world file, written through a buffer of 256 references. */
  class Writer {
    const refbuf: array<int>
    var stream: seq<int>
    var imod: int

    ghost predicate Valid()
      reads this
    {
      refbuf.Length == REFBUFSIZ && 0 <= imod < REFBUFSIZ
    }

    /** Everything written so far. */
    ghost function Out(): seq<int>
      requires Valid()
      reads this, refbuf
    {
      stream + refbuf[..imod]
    }

    constructor ()
      ensures Valid() && stream == [] && imod == 0 && Out() == [] && fresh(refbuf)
    {
      refbuf := new int[REFBUFSIZ];
      stream, imod := [], 0;
    }

    /** Straight to the file, with the buffer empty. */
    method Write(r: int)
      requires Valid() && imod == 0
      modifies this`stream
      ensures Valid() && imod == 0 && stream == old(stream) + [r] && Out() == stream
    {
      stream := stream + [r];
      assert refbuf[..0] == [];
    }

    method Put(r: int)
      requires Valid()
      modifies this, refbuf
      ensures Valid() && Out() == old(Out()) + [r]
    {
      refbuf[imod] := r;
      imod := imod + 1;
      assert refbuf[..imod] == old(refbuf[..imod]) + [r];
      if imod == REFBUFSIZ { Flush(); }
    }

    method Flush()
      requires refbuf.Length == REFBUFSIZ && 0 <= imod <= REFBUFSIZ
      modifies this
      ensures Valid() && imod == 0 && Out() == old(stream) + old(refbuf[..imod]) && stream == Out()
    {
      if imod != 0 { stream := stream + refbuf[..imod]; }
      imod := 0;
      assert refbuf[..0] == [];
    }

    /** One of the loops over a space. */
    method PutAll(h: Heap, justNew: bool, s: seq<int>) returns (ok: bool)
      requires Valid()
      modifies this, refbuf
      ensures ok <==> AllContig(h, justNew, s)
      ensures ok ==> Valid() && Out() == old(Out()) + Relative(h, justNew, s)
    {
      var i := 0;
      while i < |s|
        invariant 0 <= i <= |s| && Valid() && AllContig(h, justNew, s[..i])
        invariant Out() == old(Out()) + Relative(h, justNew, s[..i])
      {
        match Contigify(h, justNew, s[i]) {
          case None => return false;
          case Some(r) =>
            Put(r);
            assert Relative(h, justNew, s[..i + 1]) == Relative(h, justNew, s[..i]) + [r];
        }
        i := i + 1;
      }
      assert s[..i] == s;
      ok := true;
    }
  }

  /** The heap part of dump_binary_world. */
  method DumpHeap(h: Heap, justNew: bool, out: Writer) returns (ok: bool)
    requires out.Valid() && out.imod == 0
    modifies out, out.refbuf
    ensures ok <==> AllContig(h, justNew, Cells(h, justNew))
    ensures ok ==> out.Valid() && out.imod == 0
                   && out.stream == old(out.stream) + Relative(h, justNew, Cells(h, justNew))
  {
    hide Contigify;
    assert out.Out() == out.stream by { assert out.refbuf[..0] == []; }
    CellsFail(h, justNew);
    if !justNew {
      ok := out.PutAll(h, justNew, h.spatic);
      if !ok { return; }
    }
    ok := out.PutAll(h, justNew, h.newSpace);
    if !ok { return; }
    out.Flush();
    RelativeCells(h, justNew);
  }

  /** dump_binary_world: it gives up exactly when something dumped points outside the spaces. */
  method DumpBinaryWorld(h: Heap, justNew: bool, boot: int, wp: seq<int>) returns (ok: bool, stream: seq<int>)
    ensures ok <==> Contigify(h, justNew, boot).Some? && AllContig(h, justNew, Cells(h, justNew))
                    && AllContig(h, justNew, wp)
    ensures ok ==> stream == Image(h, justNew, boot, wp)
  {
    hide Contigify;
    stream := [];
    var b := Contigify(h, justNew, boot);
    if b.None? { return false, []; }
    var out := new Writer();
    out.Write(0);
    out.Write(0);
    out.Write(b.value);
    out.Write(|Cells(h, justNew)|);
    assert out.stream == [0, 0, b.value, |Cells(h, justNew)|];
    ok := DumpHeap(h, justNew, out);
    if !ok { return; }
    out.Write(|wp|);
    ok := WriteWeak(h, justNew, wp, out);
    if ok { stream := out.stream; }
  }

  /** The loop over the weak pointer table, which writes straight to the file. */
  method WriteWeak(h: Heap, justNew: bool, wp: seq<int>, out: Writer) returns (ok: bool)
    requires out.Valid() && out.imod == 0
    modifies out`stream
    ensures ok <==> AllContig(h, justNew, wp)
    ensures ok ==> out.stream == old(out.stream) + Relative(h, justNew, wp)
  {
    var i := 0;
    while i < |wp|
      invariant 0 <= i <= |wp| && out.Valid() && out.imod == 0 && AllContig(h, justNew, wp[..i])
      invariant out.stream == old(out.stream) + Relative(h, justNew, wp[..i])
    {
      match Contigify(h, justNew, wp[i]) {
        case None => return false;
        case Some(r) =>
          out.Write(r);
          assert Relative(h, justNew, wp[..i + 1]) == Relative(h, justNew, wp[..i]) + [r];
      }
      i := i + 1;
    }
    assert wp[..i] == wp;
    ok := true;
  }

  lemma RelativeCells(h: Heap, justNew: bool)
    requires AllContig(h, justNew, Cells(h, justNew))
    ensures justNew ==> Cells(h, justNew) == h.newSpace
    ensures !justNew ==> AllContig(h, justNew, h.spatic) && AllContig(h, justNew, h.newSpace)
                         && Relative(h, justNew, Cells(h, justNew))
                            == Relative(h, justNew, h.spatic) + Relative(h, justNew, h.newSpace)
  {
    CellsFail(h, justNew);
  }

  lemma CellsFail(h: Heap, justNew: bool)
    ensures AllContig(h, justNew, Cells(h, justNew)) <==>
              (justNew || AllContig(h, justNew, h.spatic)) && AllContig(h, justNew, h.newSpace)
  {
    var c := Cells(h, justNew);
    if AllContig(h, justNew, c) && !justNew {
      assert forall i :: 0 <= i < |h.spatic| ==> h.spatic[i] == c[i];
      assert forall i :: 0 <= i < |h.newSpace| ==> h.newSpace[i] == c[|h.spatic| + i];
    }
  }

  // ---- Loading ----

  /** A reference read back: pointers are moved up to the base. */
  function Reoffset(base: int, r: int): int {
    if IsPtr(r) then (r + base) % TWO64 else r
  }

  /** reoffset, on the words of `a` from `start` on */
  method ReoffsetAll(base: int, a: array<int>, start: int, count: int)
    requires 0 <= start && 0 <= count && start + count <= a.Length
    modifies a
    ensures forall i :: start <= i < start + count ==> a[i] == old(Reoffset(base, a[i]))
    ensures forall i :: 0 <= i < a.Length && !(start <= i < start + count) ==> a[i] == old(a[i])
  {
    var index, next := 0, start;
    while index < count
      invariant 0 <= index <= count && next == start + index
      invariant forall i :: start <= i < next ==> a[i] == old(Reoffset(base, a[i]))
      invariant forall i :: 0 <= i < a.Length && !(start <= i < next) ==> a[i] == old(a[i])
    {
      if IsPtr(a[next]) { a[next] := (a[next] + base) % TWO64; }
      next := next + 1;
      index := index + 1;
    }
  }

  /** What a world loads as: the heap at `base`, the boot reference and the weak table. */
  datatype Loaded = Loaded(boot: int, cells: seq<int>, wp: seq<int>)

  function ReoffsetSeq(base: int, s: seq<int>): (r: seq<int>)
    ensures |r| == |s|
  {
    seq(|s|, i requires 0 <= i < |s| => Reoffset(base, s[i]))
  }

  /** A stream that names a world size and a weak pointer count in range, and holds that many words. */
  predicate Readable(stream: seq<int>) {
    && |stream| >= 4 && 0 <= stream[3] <= (TWO64 - 1) / 8
    && |stream| > 4 + stream[3] && 0 <= stream[4 + stream[3]] < INT_MAX
    && |stream| >= 5 + stream[3] + stream[4 + stream[3]]
  }

  /** read_world_stream, on a binary world after its header line. */
  method ReadWorldStream(stream: seq<int>, base: int) returns (ok: bool, w: Loaded)
    requires IsWord(base)
    ensures ok <==> Readable(stream)
    ensures ok ==> var n := stream[3];
                   && w.boot == (stream[2] + base) % TWO64
                   && w.cells == ReoffsetSeq(base, stream[4..4 + n])
                   && w.wp == ReoffsetSeq(base, stream[5 + n..5 + n + stream[4 + n]])
  {
    w := Loaded(0, [], []);
    if |stream| < 4 { return false, w; }
    var boot, size := (stream[2] + base) % TWO64, stream[3];
    if size < 0 || size > (TWO64 - 1) / 8 || |stream| < 4 + size { return false, w; }
    var spatic := ReadRefs(stream, 4, size, base);
    if |stream| <= 4 + size { return false, w; }
    var count := stream[4 + size];
    if count < 0 || count >= INT_MAX || |stream| < 5 + size + count { return false, w; }
    var wp := ReadRefs(stream, 5 + size, count, base);
    return true, Loaded(boot, spatic, wp);
  }

  /** xfread and reoffset */
  method ReadRefs(stream: seq<int>, at: int, count: int, base: int) returns (r: seq<int>)
    requires 0 <= at && 0 <= count && at + count <= |stream|
    ensures r == ReoffsetSeq(base, stream[at..at + count])
  {
    var a := new int[count](i requires 0 <= i < count => stream[at + i]);
    ReoffsetAll(base, a, 0, count);
    r := a[..];
  }

  // ---- Dumping and loading ----

  /** The cell of the dump a reference points to. */
  function Index(h: Heap, justNew: bool, r: int): int {
    var p := Address(r);
    if !justNew && h.spStart <= p < h.spStart + 8 * |h.spatic| then (p - h.spStart) / 8
    else (p - h.newStart) / 8 + (if justNew then 0 else |h.spatic|)
  }

  /** A reference the heap may hold: a pointer is aligned, and to a cell in use. */
  predicate Sound(h: Heap, justNew: bool, r: int) {
    && IsWord(r)
    && (IsPtr(r) ==> && Address(r) % 8 == 0
                     && (h.newStart <= Address(r) < h.newStart + 8 * |h.newSpace|
                         || (!justNew && h.spStart <= Address(r) < h.spStart + 8 * |h.spatic|)))
  }

  /** The cell with this index in the heap that was dumped. */
  function CellAddress(h: Heap, justNew: bool, k: int): int {
    if justNew then h.newStart + 8 * k
    else if k < |h.spatic| then h.spStart + 8 * k else h.newStart + 8 * (k - |h.spatic|)
  }

  /** The reference after a round trip to `base`. */
  function Moved(h: Heap, justNew: bool, base: int, r: int): int {
    if IsPtr(r) then base + 8 * Index(h, justNew, r) + r % 4 else r
  }

  predicate Room(h: Heap, justNew: bool, base: int) {
    0 <= base && base % 8 == 0 && base + 8 * |Cells(h, justNew)| <= TWO64
  }

  /** A reference comes back uniformly moved with its tag, if it is a pointer, and as it was if not;
      a pointer then points to the cell with the same index. */
  lemma RefTrip(h: Heap, justNew: bool, base: int, r: int)
    requires h.Valid() && Sound(h, justNew, r) && Room(h, justNew, base)
    ensures var c := Contigify(h, justNew, r);
            c.Some? && IsWord(c.value) && Reoffset(base, c.value) == Moved(h, justNew, base, r)
    ensures var m := Moved(h, justNew, base, r);
            && IsWord(m) && m % 4 == r % 4
            && (IsPtr(r) ==> && 0 <= Index(h, justNew, r) < |Cells(h, justNew)|
                             && Address(m) == base + 8 * Index(h, justNew, r)
                             && CellAddress(h, justNew, Index(h, justNew, r)) == Address(r))
  {
    if IsPtr(r) {
      var p, t := Address(r), r % 4;
      var inSpatic := !justNew && h.spStart <= p < h.spStart + 8 * |h.spatic|;
      var start := if inSpatic then h.spStart else h.newStart;
      Offset(p, start);
      var q := (p - start) / 8;
      var k := if inSpatic || justNew then q else q + |h.spatic|;
      assert Index(h, justNew, r) == k;
      Tagged(0, k, t);
      Tagged(base, k, t);
      assert Contigify(h, justNew, r) == Some(8 * k + t);
      DivUnique(base + 8 * k + t, TWO64, 0, base + 8 * k + t);
    }
  }

  lemma Offset(p: int, start: int)
    requires p % 8 == 0 && start % 8 == 0
    ensures p == start + 8 * ((p - start) / 8)
  {
  }

  lemma Tagged(base: int, k: int, t: int)
    requires base % 8 == 0 && 0 <= t < 4
    ensures (base + 8 * k + t) % 4 == t
  {
    var b := base / 8;
    DivUnique(base + 8 * k + t, 4, 2 * b + 2 * k, t);
  }

  /** The word in memory a sound pointer points to. */
  function WordAt(h: Heap, p: int): int
    requires h.newStart <= p < h.newStart + 8 * |h.newSpace| || h.spStart <= p < h.spStart + 8 * |h.spatic|
  {
    if h.newStart <= p < h.newStart + 8 * |h.newSpace| then h.newSpace[(p - h.newStart) / 8]
    else h.spatic[(p - h.spStart) / 8]
  }

  /** The cell with a pointer's index is the one it points to. */
  lemma Pointee(h: Heap, justNew: bool, r: int)
    requires h.Valid() && Sound(h, justNew, r) && IsPtr(r)
    ensures 0 <= Index(h, justNew, r) < |Cells(h, justNew)|
    ensures Cells(h, justNew)[Index(h, justNew, r)] == WordAt(h, Address(r))
  {
  }

  /** Different references stay different. */
  lemma MovedInjective(h: Heap, justNew: bool, base: int, r: int, s: int)
    requires h.Valid() && Sound(h, justNew, r) && Sound(h, justNew, s) && Room(h, justNew, base)
    ensures Moved(h, justNew, base, r) == Moved(h, justNew, base, s) <==> r == s
  {
    RefTrip(h, justNew, base, r);
    RefTrip(h, justNew, base, s);
  }

  predicate AllSound(h: Heap, justNew: bool, s: seq<int>) {
    forall i :: 0 <= i < |s| ==> Sound(h, justNew, s[i])
  }

  /** Dump a world and load it anywhere: cell by cell, the same heap, moved. */
  method DumpAndLoad(h: Heap, justNew: bool, boot: int, wp: seq<int>, base: int) returns (ok: bool, w: Loaded)
    requires h.Valid() && Room(h, justNew, base) && IsWord(base)
    requires AllSound(h, justNew, Cells(h, justNew)) && AllSound(h, justNew, wp)
    requires Sound(h, justNew, boot) && |wp| < INT_MAX && |Cells(h, justNew)| <= (TWO64 - 1) / 8
    ensures ok
    ensures |w.cells| == |Cells(h, justNew)| && |w.wp| == |wp|
    ensures forall i :: 0 <= i < |w.cells| ==> w.cells[i] == Moved(h, justNew, base, Cells(h, justNew)[i])
    ensures forall i :: 0 <= i < |wp| ==> w.wp[i] == Moved(h, justNew, base, wp[i])
    ensures w.boot == Moved(h, justNew, base, boot) <==> IsPtr(boot) || base == 0
    ensures forall r :: Sound(h, justNew, r) && IsPtr(r) ==>
              var p := Address(Moved(h, justNew, base, r));
              && base <= p < base + 8 * |w.cells| && p % 8 == 0
              && w.cells[(p - base) / 8] == Moved(h, justNew, base, WordAt(h, Address(r)))
  {
    hide Cells, Contigify, Index, CellAddress, Image, Room;
    ghost var cells := Cells(h, justNew);
    BootTrip(h, justNew, base, boot);
    forall i | 0 <= i < |cells| ensures Contigify(h, justNew, cells[i]).Some? {
      RefTrip(h, justNew, base, cells[i]);
    }
    forall i | 0 <= i < |wp| ensures Contigify(h, justNew, wp[i]).Some? {
      RefTrip(h, justNew, base, wp[i]);
    }
    var stream;
    ok, stream := DumpBinaryWorld(h, justNew, boot, wp);
    ImageParts(h, justNew, boot, wp);
    ok, w := ReadWorldStream(stream, base);
    forall i | 0 <= i < |cells| ensures w.cells[i] == Moved(h, justNew, base, cells[i]) {
      RefTrip(h, justNew, base, cells[i]);
    }
    forall i | 0 <= i < |wp| ensures w.wp[i] == Moved(h, justNew, base, wp[i]) {
      RefTrip(h, justNew, base, wp[i]);
    }
    forall r | Sound(h, justNew, r) && IsPtr(r)
      ensures var p := Address(Moved(h, justNew, base, r));
              && base <= p < base + 8 * |cells| && p % 8 == 0
              && w.cells[(p - base) / 8] == Moved(h, justNew, base, WordAt(h, Address(r)))
    {
      PointsAcross(h, justNew, base, r);
    }
  }

  lemma PointsAcross(h: Heap, justNew: bool, base: int, r: int)
    requires h.Valid() && Sound(h, justNew, r) && IsPtr(r) && Room(h, justNew, base)
    ensures var p, cells := Address(Moved(h, justNew, base, r)), Cells(h, justNew);
            && base <= p < base + 8 * |cells| && p % 8 == 0 && cells[(p - base) / 8] == WordAt(h, Address(r))
  {
    hide Cells, Index, Moved, Contigify, CellAddress, WordAt, Address, Reoffset, Sound;
    RefTrip(h, justNew, base, r);
    Pointee(h, justNew, r);
    hide Room;
    CellOf(base, Index(h, justNew, r));
  }

  lemma CellOf(base: int, k: int)
    requires base % 8 == 0
    ensures (base + 8 * k - base) / 8 == k && (base + 8 * k) % 8 == 0
  {
  }

  /** A boot reference that is the number 1 does not come back as that from a world loaded at address 8. */
  method BootMoved() returns (ok: bool, w: Loaded)
    ensures ok && !IsPtr(4) && Moved(Heap(0, [], 0, [], 0), false, 8, 4) == 4 && w.boot != 4
  {
    var h := Heap(0, [], 0, [], 0);
    ok, w := DumpAndLoad(h, false, 4, [], 8);
  }

  lemma BootTrip(h: Heap, justNew: bool, base: int, boot: int)
    requires h.Valid() && Sound(h, justNew, boot) && Room(h, justNew, base) && IsWord(base)
    ensures var c := Contigify(h, justNew, boot);
            c.Some? && ((c.value + base) % TWO64 == Moved(h, justNew, base, boot) <==> IsPtr(boot) || base == 0)
  {
    RefTrip(h, justNew, base, boot);
    hide Cells, Index, CellAddress, Address, Moved, Contigify;
    if !IsPtr(boot) { NoPointer(h, justNew, base, boot); }
  }

  lemma NoPointer(h: Heap, justNew: bool, base: int, r: int)
    requires !IsPtr(r) && IsWord(r) && IsWord(base)
    ensures Contigify(h, justNew, r) == Some(r) && Moved(h, justNew, base, r) == r
    ensures (r + base) % TWO64 == r <==> base == 0
  {
  }

  lemma ImageParts(h: Heap, justNew: bool, boot: int, wp: seq<int>)
    requires Contigify(h, justNew, boot).Some? && AllContig(h, justNew, Cells(h, justNew)) && AllContig(h, justNew, wp)
    ensures var s, n := Image(h, justNew, boot, wp), |Cells(h, justNew)|;
            && |s| == 5 + n + |wp| && s[2] == Contigify(h, justNew, boot).value && s[3] == n && s[4 + n] == |wp|
            && s[4..4 + n] == Relative(h, justNew, Cells(h, justNew))
            && s[5 + n..5 + n + |wp|] == Relative(h, justNew, wp)
  {
  }
}
