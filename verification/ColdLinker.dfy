/** The phases of oak-cold-linker.c that write the world: symbols, and code with its constants. */
module ColdLinker {
  import opened Options
  import opened Words
  import opened ColdData
  import opened ColdCount
  import opened ColdLayout
  import opened ColdPhases
  import opened ColdPairs
  import opened ColdConstants
  import opened ColdImage
  import opened ColdFaults
  import Arith

  lemma {:induction false} CoveredLayable(e: Env, t: seq<Bytes>, s: Sexp)
    requires Covers(t, s) && forall n <- t :: n in e.syms
    ensures Layable(e, s) <==> IntsFit(e.limit, s)
    decreases s
  {
    if s.Cons? {
      CoveredLayable(e, t, s.car);
      CoveredLayable(e, t, s.cdr);
    }
  }

  /** The data laid out so far stands for what it should. */
  ghost predicate Image(x: Ctx, w: seq<Cell>, st: State) {
    CtxOk(x) && StateOk(x.e, w, st) && forall k <- st.cache :: Layable(x.e, k)
  }

  /** `w'` is `w` with nothing changed below `n`. */
  ghost predicate SameBelow(w: seq<Cell>, w': seq<Cell>, n: int) {
    |w'| == |w| && forall a :: 0 <= a < n && a < |w| ==> w'[a] == w[a]
  }

  lemma ImageAfterConstant(x: Ctx, w: seq<Cell>, st: State, s: Sexp, w': seq<Cell>)
    requires Image(x, w, st) && Layable(x.e, s)
    requires var o := Lay(x.e, st, s); o.st.next <= |w| && w' == Written(w, st.next, o.cells)
    ensures var o := Lay(x.e, st, s);
            && Image(x, w', o.st) && Denotes(x.e, w', o.st.next, o.ref, s)
            && o.st.next <= st.next + CellCost(s, x.e.cpw) && st.next <= o.st.next
            && SameBelow(w, w', st.next)
  {
    hide Lay, Denotes, Layable, CellCost;
    var o := Lay(x.e, st, s);
    LayFits(x.e, st, s);
    StateKept(x.e, w, st, w');
    assert w'[st.next..o.st.next] == o.cells;
    LayDenotes(x.e, w', st, s);
    forall k <- o.st.cache ensures Layable(x.e, k) {
      LimitAll(x.e, st.cache, Size(k));
      EntriesLayable(x.e, st, s, Size(k));
    }
  }

  lemma LimitAll(e: Env, cache: map<Sexp, Word>, n: int)
    requires forall k <- cache :: Layable(e, k)
    ensures CacheLayable(e, cache, n)
  {
  }

  lemma StateKept(e: Env, w: seq<Cell>, st: State, w': seq<Cell>)
    requires e.cpw >= 1 && StateOk(e, w, st) && |w'| == |w|
    requires forall a :: e.base <= a < st.next ==> w'[a] == w[a]
    ensures StateOk(e, w', st)
  {
    forall k <- st.cache ensures Denotes(e, w', st.next, st.cache[k], k) {
      DenotesKept(e, w, st.next, w', st.next, st.cache[k], k);
    }
    if st.empty.Some? { DenotesKept(e, w, st.next, w', st.next, st.empty.value, Str([])); }
  }

  lemma ImageAfterStore(x: Ctx, w: seq<Cell>, st: State, a: int, c: Cell)
    requires Image(x, w, st) && 0 <= a < x.e.base && a < |w|
    ensures Image(x, w[a := c], st)
    ensures AllZero(w, st.next) ==> AllZero(w[a := c], st.next)
  {
    StateKept(x.e, w, st, w[a := c]);
  }

  lemma ImageBounds(x: Ctx, w: seq<Cell>, st: State)
    requires Image(x, w, st)
    ensures CtxOk(x) && 3 <= x.e.base <= st.next <= |w|
  {
  }

  lemma TableKnows(table: map<int, BlkInfo>, maxBlks: int, files: seq<File>, ipr: int, f: int, b: int)
    requires Shaped(files, ipr) && Entered(table, maxBlks, files, ipr, |files|, |files|, 0) && IsBlock(files, f, b)
    ensures var u := Uniq(maxBlks, f, b);
            u in table && table[u] == BlkInfo(Address(files, ipr, f, b), KindOf(files, f, b))
  {
    assert Knows(table, maxBlks, files, ipr, f, b);
  }

  /** With block numbers below maxBlks, the table has exactly the blocks there are. */
  lemma TableHas(table: map<int, BlkInfo>, maxBlks: int, files: seq<File>, ipr: int, f: int, b: int)
    requires Shaped(files, ipr) && Entered(table, maxBlks, files, ipr, |files|, |files|, 0)
    requires (forall i :: 0 <= i < |files| ==> |files[i]| <= maxBlks) && 0 <= f < |files| && 0 <= b < maxBlks
    ensures Uniq(maxBlks, f, b) in table <==> b < |files[f]|
  {
    if b < |files[f]| { TableKnows(table, maxBlks, files, ipr, f, b); }
    if Uniq(maxBlks, f, b) in table {
      assert IsKey(maxBlks, files, Uniq(maxBlks, f, b));
      var g, c :| IsBlock(files, g, c) && Uniq(maxBlks, f, b) == Uniq(maxBlks, g, c);
      UniqInjective(maxBlks, f, b, g, c);
    }
  }

  lemma PatchFormed(files: seq<File>, ipr: int, maxBlks: int, f: int, b: int, i: int)
    requires Shaped(files, ipr) && WellFormed(files, ipr, maxBlks)
    requires IsBlock(files, f, b) && 0 <= i < |files[f][b].patches|
    ensures var p := files[f][b].patches[i];
            && 0 <= p.off && 0 <= p.off / ipr < ColdLayout.Words(files[f][b], ipr)
            && (p.Code? ==> 0 <= p.blk < maxBlks) && (p.Constant? ==> Readable(p.s))
  {
    assert BlockFormed(files[f][b], ipr, maxBlks);
    Arith.DivPos(files[f][b].patches[i].off, ipr);
  }

  function PatchCells(p: Patch, cpw: int): nat
    requires cpw >= 1
  {
    if p.Constant? then CellCost(p.s, cpw) else 0
  }

  lemma CellsStep(ps: seq<Patch>, i: int, cpw: int)
    requires cpw >= 1 && 0 <= i < |ps|
    ensures ConstantCells(ps[..i + 1], cpw) == ConstantCells(ps[..i], cpw) + PatchCells(ps[i], cpw)
    ensures ConstantCells(ps[..i + 1], cpw) <= ConstantCells(ps, cpw)
  {
    assert ps[..i + 1][..i] == ps[..i];
    CellsPrefix(ps, i + 1, cpw);
  }

  lemma {:induction false} CellsPrefix(ps: seq<Patch>, i: int, cpw: int)
    requires cpw >= 1 && 0 <= i <= |ps|
    ensures ConstantCells(ps[..i], cpw) <= ConstantCells(ps, cpw)
    decreases |ps|
  {
    if i < |ps| {
      CellsPrefix(ps[..|ps| - 1], i, cpw);
      assert ps[..|ps| - 1][..i] == ps[..i];
    } else {
      assert ps[..i] == ps;
    }
  }

  lemma OutsideSelf(x: Ctx, w: seq<Cell>, n: int, f: int, b: int)
    requires Shaped(x.files, x.ipr) && IsBlock(x.files, f, b)
    ensures Outside(x, w, w, n, f, b)
  {
  }

  lemma OutsideStore(x: Ctx, w: seq<Cell>, w1: seq<Cell>, n: int, f: int, b: int, a: int, c: Cell)
    requires Shaped(x.files, x.ipr) && IsBlock(x.files, f, b)
    requires Outside(x, w, w1, n, f, b) && InBlock(x, f, b, a) && 0 <= a < |w1|
    ensures Outside(x, w, w1[a := c], n, f, b)
  {
  }

  /** The header of the one code vector that all the top level code is in. */
  predicate Headed(x: Ctx, w: seq<Cell>, firstRegular: int) {
    && |w| >= 3 && w[0] == Num(Ptr(x.codeVector)) && w[1] == Num(Fix(firstRegular)) && w[2] == Num(Ptr(x.e.nil))
  }

  /** The third word of the header is where the block at the start of code space, if it is chained, is linked from. */
  lemma HeaderWords(x: Ctx, w: seq<Cell>, firstRegular: int)
    requires Headed(x, w, firstRegular)
    ensures |w| >= 3 && w[2].Num?
  {
  }

  /** Nothing outside code space has changed below `n`. */
  ghost predicate OnlyCode(x: Ctx, w: seq<Cell>, w': seq<Cell>, n: int)
    requires CtxOk(x)
  {
    |w'| == |w| && forall a :: CodeEnd(x.files, x.ipr) <= a < n && a < |w| ==> w'[a] == w[a]
  }

  lemma CodeOnly(x: Ctx, w0: seq<Cell>, w: seq<Cell>, w': seq<Cell>, n0: int, n: int, firstRegular: int)
    requires CtxOk(x) && n0 <= n && 3 <= n && OnlyCode(x, w0, w, n0) && OnlyBody(x, w, w', n)
    ensures OnlyCode(x, w0, w', n0)
    ensures Headed(x, w, firstRegular) ==> Headed(x, w', firstRegular)
  {
  }

  /** Writing a block leaves the others as they were. */
  lemma OthersAfter(x: Ctx, w: seq<Cell>, n: int, w': seq<Cell>, f: int, b: int)
    requires CtxOk(x) && IsBlock(x.files, f, b) && Others(x, w, n, Upto(f, b), f, b)
    requires Outside(x, w, w', |w|, f, b) && x.e.base <= n <= |w| && 3 <= |w| && w[2].Num?
    ensures Others(x, w', n, Upto(f, b), f, b) && OnlyBody(x, w, w', |w|) && |w'| == |w| && w'[2].Num?
  {
    hide Others;
    BodyOutside(x, w, w', |w|, f, b);
    OthersKept(x, w, n, w', n, Upto(f, b), f, b) by { assert Outside(x, w, w', n, f, b); }
  }

  /** A block that is done joins the others. */
  lemma BlockJoins(x: Ctx, w: seq<Cell>, w1: seq<Cell>, n: int, w2: seq<Cell>, n2: int, f: int, b: int)
    requires CtxOk(x) && IsBlock(x.files, f, b) && Others(x, w1, n, f + 1, f, b) && OnlyBody(x, w, w1, |w|)
    requires Outside(x, w1, w2, n, f, b) && x.e.base <= n <= n2 <= |w| && BlockDone(x, w2, n2, f + 1, f, b)
    ensures Progress(x, w2, n2, f, b + 1) && OnlyBody(x, w, w2, n)
  {
    hide Others, BlockDone, Progress;
    OthersKept(x, w1, n, w2, n2, f + 1, f, b);
    OthersProgress(x, w2, n2, f, b);
    BodyOutside(x, w1, w2, n, f, b);
  }

  /** The three words before the first block are no block's. */
  lemma CodeStart(x: Ctx, w: seq<Cell>, n: int, p: Cell, q: Cell, r: Cell)
    requires CtxOk(x) && Progress(x, w, n, 0, 0) && |w| >= 3
    ensures Progress(x, w[0 := p][1 := q][2 := r], n, 0, 0)
  {
    var w' := w[0 := p][1 := q][2 := r];
    forall f, b | IsBlock(x.files, f, b) ensures BlockBlank(x, w', f, b) {
      BlockWithin(x.files, x.ipr, f, b);
      assert !ColdImage.Before(0, 0, f, b);
    }
  }

  /** The cells counted for the constants before block `b` of file `f`. */
  function CellsTo(files: seq<File>, f: int, b: int, cpw: int): int
    requires cpw >= 1 && 0 <= f < |files| && 0 <= b <= |files[f]|
  {
    ConstantCells(AllPatches(files[..f]), cpw) + ConstantCells(FilePatches(files[f][..b]), cpw)
  }

  lemma NoCells(cpw: int)
    requires cpw >= 1
    ensures ConstantCells([], cpw) == 0
  {
  }

  lemma {:induction false} CellsAppend(ps: seq<Patch>, qs: seq<Patch>, cpw: int)
    requires cpw >= 1
    ensures ConstantCells(ps + qs, cpw) == ConstantCells(ps, cpw) + ConstantCells(qs, cpw)
    decreases |qs|
  {
    if qs == [] {
      assert ps + qs == ps;
    } else {
      CellsAppend(ps, qs[..|qs| - 1], cpw);
      assert (ps + qs)[..|ps + qs| - 1] == ps + qs[..|qs| - 1];
    }
  }

  lemma FileCells(files: seq<File>, f: int, b: int, cpw: int)
    requires cpw >= 1 && 0 <= f < |files| && 0 <= b <= |files[f]|
    ensures b == 0 ==> CellsTo(files, f, b, cpw) == ConstantCells(AllPatches(files[..f]), cpw)
    ensures b < |files[f]| ==>
              && CellsTo(files, f, b + 1, cpw) == CellsTo(files, f, b, cpw) + ConstantCells(files[f][b].patches, cpw)
              && CellsTo(files, f, b + 1, cpw) <= ConstantCells(AllPatches(files), cpw)
    ensures b == |files[f]| ==> CellsTo(files, f, b, cpw) == ConstantCells(AllPatches(files[..f + 1]), cpw)
  {
    var file := files[f];
    assert files[..f + 1][..f] == files[..f];
    CellsAppend(AllPatches(files[..f]), FilePatches(file), cpw);
    if b < |file| {
      assert file[..b + 1][..b] == file[..b];
      CellsAppend(FilePatches(file[..b]), file[b].patches, cpw);
      MorePatches(file, b + 1);
      PrefixCells(FilePatches(file[..b + 1]), FilePatches(file), cpw);
      MoreFiles(files, f + 1);
      PrefixCells(AllPatches(files[..f + 1]), AllPatches(files), cpw);
    } else {
      assert file[..b] == file;
    }
  }

  lemma PrefixCells(ps: seq<Patch>, qs: seq<Patch>, cpw: int)
    requires cpw >= 1 && ps <= qs
    ensures ConstantCells(ps, cpw) <= ConstantCells(qs, cpw)
  {
    assert qs[..|ps|] == ps;
    CellsPrefix(qs, |ps|, cpw);
  }

  class Linker {
    const x: Ctx
    const c: Counts
    const maxBlks: int
    const table: map<int, BlkInfo>
    const d: Data

    /** What is known of the input and of the addresses. */
    ghost predicate Known() {
      && CtxOk(x) && d.e == x.e && WellFormed(x.files, x.ipr, maxBlks)
      && Entered(table, maxBlks, x.files, x.ipr, |x.files|, |x.files|, 0)
      && (forall i :: 0 <= i < |x.files| ==> |x.files[i]| <= maxBlks)
      && (forall n <- c.syms :: n in x.e.syms) && (forall n <- c.vars :: n in x.varAddr)
      && (forall f, b, i :: IsBlock(x.files, f, b) && 0 <= i < |x.files[f][b].patches| ==>
            CoversPatch(c, x.files[f][b].patches[i]))
    }

    ghost predicate Valid()
      reads this, d, d.world, d.buckets
    {
      Known() && d.Valid() && Image(x, d.world[..], d.St())
    }

    constructor (ctx: Ctx, counts: Counts, max: int, blocks: map<int, BlkInfo>, data: Data)
      ensures x == ctx && c == counts && maxBlks == max && table == blocks && d == data
    {
      x, c, maxBlks, table, d := ctx, counts, max, blocks, data;
    }

    /** constant_refgen for a constant that was counted: with room for what was counted, it can only
        fail on an integer that is not a fixnum. */
    method Constant(s: Sexp) returns (ok: bool, ref: Word)
      requires Valid() && Readable(s) && Covers(c.syms, s)
      requires d.next + CellCost(s, x.e.cpw) <= d.world.Length
      modifies d, d.world, d.buckets
      ensures ok <==> IntsFit(x.e.limit, s)
      ensures ok ==> Valid() && Denotes(x.e, d.world[..], d.next, ref, s)
      ensures ok ==> old(d.next) <= d.next <= old(d.next) + CellCost(s, x.e.cpw)
      ensures ok ==> SameBelow(old(d.world[..]), d.world[..], old(d.next))
    {
      hide Bucketed, AllZero, Written, StateOk, Denotes, Lay, CellCost, Layable, IntsFit, Entered, WellFormed, CtxOk;
      CoveredLayable(x.e, c.syms, s);
      LimitAll(x.e, d.cache, Size(s));
      LayFits(x.e, d.St(), s);
      ok, ref := d.ConstantRefgen(s);
      if ok { ImageAfterConstant(x, old(d.world[..]), old(d.St()), s, d.world[..]); }
    }

    /** store_world_word and store_world_opcodes below the data region */
    method StoreCode(cell: Cell, addr: int) returns (ok: bool)
      requires Valid() && 0 <= addr < x.e.base
      modifies d.world
      ensures ok <==> old(d.world[addr].Zero())
      ensures ok ==> Valid() && d.world[..] == old(d.world[..])[addr := cell]
    {
      hide Bucketed, AllZero, StateOk, Entered, WellFormed;
      ImageBounds(x, d.world[..], d.St());
      ImageAfterStore(x, d.world[..], d.St(), addr, cell);
      ok := d.world[addr].Zero();
      if ok { d.world[addr] := cell; }
    }

    /** changereturntonoop on the last word of a block */
    method ChangeReturn(addr: int) returns (ok: bool)
      requires Valid() && 0 <= addr < x.e.base
      modifies d.world
      ensures ok <==> old(d.world[addr]).Opcodes? && NoReturn(old(d.world[addr]).ops).Some?
      ensures ok ==> Valid() && d.world[..] == old(d.world[..])[addr := Opcodes(NoReturn(old(d.world[addr]).ops).value)]
    {
      hide Bucketed, AllZero, StateOk, Entered, WellFormed;
      ImageBounds(x, d.world[..], d.St());
      if !d.world[addr].Opcodes? { return false; }
      var r := ClearReturn(d.world[addr].ops);
      ok := r.Some?;
      if ok {
        ImageAfterStore(x, d.world[..], d.St(), addr, Opcodes(r.value));
        d.world[addr] := Opcodes(r.value);
      }
    }

    /** The header of a regular block. */
    method WriteHeader(f: int, b: int, base: int)
      requires Valid() && IsBlock(x.files, f, b) && BlockBlank(x, d.world[..], f, b) && x.e.base + 1 < d.world.Length
      requires base == Address(x.files, x.ipr, f, b)
      modifies d.world
      ensures Valid() && FirstWord(b) <= OpWords(x, f, b) && WrittenTo(x, d.world[..], f, b, FirstWord(b))
      ensures Outside(x, old(d.world[..]), d.world[..], d.world.Length, f, b)
    {
      hide Bucketed, AllZero, StateOk, Entered, WrittenTo, BlockBlank, Address, WellFormed, CoversPatch;
      HeaderWritten(x, d.world[..], f, b);
      if b > 0 {
        var ok := StoreCode(Num(Ptr(x.codeVector)), base);
        assert ok;
        ok := StoreCode(Num(Fix(2 + |x.files[f][b].ops| / x.ipr)), base + 1);
        assert ok;
      }
    }

    /** The opcodes of a block: a word below its address is dropped. */
    method WriteOpcodes(f: int, b: int, base: int)
      requires Valid() && IsBlock(x.files, f, b) && FirstWord(b) <= OpWords(x, f, b)
      requires WrittenTo(x, d.world[..], f, b, FirstWord(b)) && base == Address(x.files, x.ipr, f, b)
      modifies d.world
      ensures Valid() && WrittenTo(x, d.world[..], f, b, OpWords(x, f, b))
      ensures Outside(x, old(d.world[..]), d.world[..], d.world.Length, f, b)
    {
      hide Bucketed, AllZero, StateOk, Entered, WrittenTo, Address, WellFormed, CoversPatch, OpWord, Image, InBlock;
      var k, addr := 0, DelBase(x, f, b);
      while k < OpWords(x, f, b)
        invariant 0 <= k <= OpWords(x, f, b) && addr == DelBase(x, f, b) + k
        invariant Valid() && WrittenTo(x, d.world[..], f, b, if k < FirstWord(b) then FirstWord(b) else k)
        invariant Outside(x, old(d.world[..]), d.world[..], d.world.Length, f, b)
      {
        if addr >= base {
          WordWritten(x, d.world[..], f, b, k);
          var ok := StoreCode(Opcodes(OpWord(x.files[f][b].ops, x.ipr, k)), addr);
          assert ok;
        }
        addr := addr + 1;
        k := k + 1;
      }
    }

    /** The part of spew_opcodes that writes a block before its patches are applied. */
    method WriteBlock(f: int, b: int) returns (ok: bool)
      requires Valid() && IsBlock(x.files, f, b) && Progress(x, d.world[..], d.next, f, b)
      requires x.e.base + 1 < d.world.Length && d.world[2].Num?
      modifies d.world
      ensures ok <==> Chainable(x.files, x.ipr, f, b)
      ensures ok ==> Valid() && Others(x, d.world[..], d.next, f + 1, f, b)
      ensures ok ==> BlockAt(x, d.world[..], d.next, f + 1, f, b, 0)
      ensures ok ==> OnlyBody(x, old(d.world[..]), d.world[..], d.world.Length)
    {
      hide Bucketed, AllZero, StateOk, Entered, WrittenTo, BlockAt, BlockBlank, Address, CoversPatch, OpWord,
          Image, InBlock, Progress, Others, OnlyBody, Outside, Chainable, NoReturn, WellFormed, CtxOk;
      ghost var w, n := d.world[..], d.next;
      ImageBounds(x, w, d.St());
      ProgressOthers(x, w, n, f, b);
      WriteOwn(f, b);
      ghost var w1 := d.world[..];
      OthersAfter(x, w, n, w1, f, b);
      ok := true;
      if table[Uniq(maxBlks, f, b)].kind == TopLevel {
        ChainEffect(x, w1, n, f);
        ok := ChangeReturn(DelBase(x, f, b) + OpWords(x, f, b) - 1);
        if ok { BodyTrans(x, w, w1, d.world[..], |w|, |w|); }
      } else {
        PlainEffect(x, w1, n, f, b);
      }
    }

    /** The header and the opcodes of a block. */
    method WriteOwn(f: int, b: int)
      requires Valid() && IsBlock(x.files, f, b) && BlockBlank(x, d.world[..], f, b) && x.e.base + 1 < d.world.Length
      modifies d.world
      ensures Valid() && FirstWord(b) <= OpWords(x, f, b) && WrittenTo(x, d.world[..], f, b, OpWords(x, f, b))
      ensures Outside(x, old(d.world[..]), d.world[..], d.world.Length, f, b)
      ensures Uniq(maxBlks, f, b) in table && table[Uniq(maxBlks, f, b)].kind == KindOf(x.files, f, b)
    {
      hide Bucketed, AllZero, StateOk, Entered, WrittenTo, BlockBlank, Address, CoversPatch, OpWord, Image, InBlock;
      TableKnows(table, maxBlks, x.files, x.ipr, f, b);
      var info := table[Uniq(maxBlks, f, b)];
      WriteHeader(f, b, info.addr);
      WriteOpcodes(f, b, info.addr);
    }

    /** The reference a patch asks for. */
    method PatchRef(f: int, p: Patch) returns (r: Result, ref: Word)
      requires Valid() && 0 <= f < |x.files| && CoversPatch(c, p)
      requires (p.Code? ==> 0 <= p.blk < maxBlks) && (p.Constant? ==> Readable(p.s))
      requires d.next + PatchCells(p, x.e.cpw) <= d.world.Length
      modifies d, d.world, d.buckets
      ensures r != Done ==> Unresolved(x.files, x.e.limit, f, p, r)
      ensures r == Done ==> Resolved(x.files, x.e.limit, f, p)
      ensures r == Done ==> && Valid() && Refers(x, d.world[..], d.next, f, p, Num(ref))
                            && old(d.next) <= d.next <= old(d.next) + PatchCells(p, x.e.cpw)
                            && SameBelow(old(d.world[..]), d.world[..], old(d.next))
    {
      hide Bucketed, AllZero, StateOk, Entered, WellFormed, Address, Image, Denotes, IntsFit, Covers, Readable,
          CellCost;
      r, ref := Done, Fix(0);
      match p {
        case Constant(_, s) =>
          var ok;
          ok, ref := Constant(s);
          if !ok { r := NotFixnum; }
        case Variable(_, n) =>
          ref := Loc(x.varAddr[n]);
        case Code(_, blk) =>
          TableHas(table, maxBlks, x.files, x.ipr, f, blk);
          var u := Uniq(maxBlks, f, blk);
          if u in table {
            TableKnows(table, maxBlks, x.files, x.ipr, f, blk);
            ref := Ptr(table[u].addr);
          } else {
            r := NoSuchBlock;
          }
        case Unknown(_) => r := UnknownKind;
      }
    }

    /** Apply one patch, all those before it having been applied. */
    method ApplyPatch(f: int, b: int, i: int) returns (r: Result)
      requires Valid() && IsBlock(x.files, f, b) && 0 <= i < |x.files[f][b].patches|
      requires BlockAt(x, d.world[..], d.next, f + 1, f, b, i) && PatchesGood(x.files, x.ipr, x.e.limit, f, b, i)
      requires d.next + PatchCells(x.files[f][b].patches[i], x.e.cpw) <= d.world.Length
      modifies d, d.world, d.buckets
      ensures r == Done ==> && Valid() && BlockAt(x, d.world[..], d.next, f + 1, f, b, i + 1)
                            && Outside(x, old(d.world[..]), d.world[..], old(d.next), f, b)
                            && old(d.next) <= d.next
                            && d.next <= old(d.next) + PatchCells(x.files[f][b].patches[i], x.e.cpw)
      ensures r == Done ==> PatchGood(x.files, x.ipr, x.e.limit, f, b, i)
      ensures r != Done ==> PatchFails(x.files, x.ipr, x.e.limit, f, b, i, r)
    {
      hide Bucketed, AllZero, StateOk, Entered, WellFormed, Address, BlockAt, Image, Refers, InBlock, Resolved,
          Unresolved, Clash, PatchesGood;
      var p := x.files[f][b].patches[i];
      PatchFormed(x.files, x.ipr, maxBlks, f, b, i);
      ImageBounds(x, d.world[..], d.St());
      ghost var w, n := d.world[..], d.next;
      var ref;
      r, ref := PatchRef(f, p);
      if r != Done { return; }
      ghost var w1 := d.world[..];
      TakenAfterRef(x, w, n, w1, d.next, f, b, i, x.e.limit);
      PatchStored(x, w, n, w1, d.next, f + 1, f, b, i, ref);
      var addr := DelBase(x, f, b) + p.off / x.ipr;
      if addr >= Address(x.files, x.ipr, f, b) {
        var ok := StoreCode(Num(ref), addr);
        if !ok { return PatchOverwrites; }
        OutsideStore(x, w, w1, n, f, b, addr, Num(ref));
      }
    }

    /** Apply the patches of a block. */
    method ApplyPatches(f: int, b: int) returns (r: Result)
      requires Valid() && IsBlock(x.files, f, b) && BlockAt(x, d.world[..], d.next, f + 1, f, b, 0)
      requires d.next + ConstantCells(x.files[f][b].patches, x.e.cpw) <= d.world.Length
      modifies d, d.world, d.buckets
      ensures r == Done ==> && Valid() && BlockDone(x, d.world[..], d.next, f + 1, f, b)
                            && Outside(x, old(d.world[..]), d.world[..], old(d.next), f, b)
                            && old(d.next) <= d.next
                            && d.next <= old(d.next) + ConstantCells(x.files[f][b].patches, x.e.cpw)
      ensures r == Done ==> PatchesGood(x.files, x.ipr, x.e.limit, f, b, |x.files[f][b].patches|)
      ensures r != Done ==> exists i :: 0 <= i < |x.files[f][b].patches|
                                        && PatchFails(x.files, x.ipr, x.e.limit, f, b, i, r)
    {
      hide Bucketed, AllZero, StateOk, Entered, WellFormed, Address, BlockAt, Image, InBlock, PatchFails,
          PatchGood, Outside;
      var ps := x.files[f][b].patches;
      var i := 0;
      OutsideSelf(x, d.world[..], d.next, f, b);
      while i < |ps|
        invariant 0 <= i <= |ps| && Valid() && BlockAt(x, d.world[..], d.next, f + 1, f, b, i)
        invariant Outside(x, old(d.world[..]), d.world[..], old(d.next), f, b)
        invariant old(d.next) <= d.next <= old(d.next) + ConstantCells(ps[..i], x.e.cpw)
        invariant PatchesGood(x.files, x.ipr, x.e.limit, f, b, i)
      {
        CellsStep(ps, i, x.e.cpw);
        ghost var w, n := d.world[..], d.next;
        r := ApplyPatch(f, b, i);
        if r != Done { return; }
        OutsideTrans(x, old(d.world[..]), w, d.world[..], old(d.next), n, f, b);
        i := i + 1;
      }
      assert ps[..i] == ps;
      r := Done;
    }

    /** The three words at the start of code space. */
    method WriteVectorHeader(firstRegular: int)
      requires Valid() && Progress(x, d.world[..], d.next, 0, 0) && firstRegular == FirstRegular(x.files, x.ipr)
      requires x.e.base + 1 < d.world.Length && forall a :: 0 <= a < 3 ==> d.world[a].Zero()
      modifies d.world
      ensures Valid() && Progress(x, d.world[..], d.next, 0, 0) && Headed(x, d.world[..], firstRegular)
      ensures OnlyCode(x, old(d.world[..]), d.world[..], d.next)
    {
      hide Bucketed, AllZero, StateOk, Entered, WellFormed, Address, Progress, Image;
      ImageBounds(x, d.world[..], d.St());
      CodeStart(x, d.world[..], d.next, Num(Ptr(x.codeVector)), Num(Fix(firstRegular)), Num(Ptr(x.e.nil)));
      var ok := StoreCode(Num(Ptr(x.codeVector)), 0);
      ok := StoreCode(Num(Fix(firstRegular)), 1);
      ok := StoreCode(Num(Ptr(x.e.nil)), 2);
    }

    /** One block of spew_opcodes. */
    method SpewBlock(f: int, b: int) returns (r: Result)
      requires Valid() && IsBlock(x.files, f, b) && Progress(x, d.world[..], d.next, f, b)
      requires d.next + ConstantCells(x.files[f][b].patches, x.e.cpw) <= d.world.Length
      requires x.e.base + 1 < d.world.Length && d.world[2].Num?
      modifies d, d.world, d.buckets
      ensures r == Done ==> && Valid() && Progress(x, d.world[..], d.next, f, b + 1)
                            && OnlyBody(x, old(d.world[..]), d.world[..], old(d.next))
                            && old(d.next) <= d.next
                            && d.next <= old(d.next) + ConstantCells(x.files[f][b].patches, x.e.cpw)
      ensures r == Done ==> Sound(x.files, x.ipr, x.e.limit, f, b)
      ensures r != Done ==> Fault(x.files, x.ipr, x.e.limit, f, b, r)
    {
      hide Bucketed, AllZero, StateOk, Entered, WellFormed, Address, BlockAt, Image, InBlock, BlockDone, CtxOk,
          Chainable, CoversPatch, PatchFails, PatchesGood;
      hide Progress, Others, OnlyBody, Outside;
      ghost var w, n := d.world[..], d.next;
      ImageBounds(x, w, d.St());
      var ok := WriteBlock(f, b);
      if !ok { return BadTopLevelEnd; }
      ghost var w1 := d.world[..];
      r := ApplyPatches(f, b);
      if r == Done { BlockJoins(x, w, w1, n, d.world[..], d.next, f, b); }
    }

    /** spew_opcodes */
    method Spew(firstRegular: int) returns (r: Result)
      requires Valid() && Progress(x, d.world[..], d.next, 0, 0) && firstRegular == FirstRegular(x.files, x.ipr)
      requires d.next + ConstantCells(AllPatches(x.files), x.e.cpw) <= d.world.Length
      requires x.e.base + 1 < d.world.Length && forall a :: 0 <= a < 3 ==> d.world[a].Zero()
      modifies d, d.world, d.buckets
      ensures r == Done ==> && Valid() && Progress(x, d.world[..], d.next, |x.files|, 0)
                            && Headed(x, d.world[..], firstRegular)
                            && OnlyCode(x, old(d.world[..]), d.world[..], old(d.next))
                            && d.next >= old(d.next)
      ensures r == Done ==> AllSound(x.files, x.ipr, x.e.limit)
      ensures r != Done ==> FirstFault(x.files, x.ipr, x.e.limit, r)
    {
      hide Bucketed, AllZero, StateOk, Entered, WellFormed, Address, BlockAt, Image, InBlock, BlockDone, Progress,
          Fault, Sound, SoundBefore, AllSound, FirstFault, Outside, OnlyCode, ConstantCells, Headed, CellsTo,
          CoversPatch, AllPatches, FirstRegular;
      WriteVectorHeader(firstRegular);
      ghost var w0, n0 := old(d.world[..]), d.next;
      var f := 0;
      NoCells(x.e.cpw);
      NothingBefore(x.files, x.ipr, x.e.limit);
      while f < |x.files|
        invariant 0 <= f <= |x.files| && Valid() && Progress(x, d.world[..], d.next, f, 0)
        invariant SoundBefore(x.files, x.ipr, x.e.limit, f, 0)
        invariant n0 <= d.next <= n0 + ConstantCells(AllPatches(x.files[..f]), x.e.cpw)
        invariant OnlyCode(x, w0, d.world[..], n0) && Headed(x, d.world[..], firstRegular)
      {
        var b := 0;
        FileCells(x.files, f, b, x.e.cpw);
        while b < |x.files[f]|
          invariant 0 <= b <= |x.files[f]| && Valid() && Progress(x, d.world[..], d.next, f, b)
          invariant SoundBefore(x.files, x.ipr, x.e.limit, f, b)
          invariant n0 <= d.next <= n0 + CellsTo(x.files, f, b, x.e.cpw)
          invariant OnlyCode(x, w0, d.world[..], n0) && Headed(x, d.world[..], firstRegular)
        {
          FileCells(x.files, f, b, x.e.cpw);
          ghost var w, n := d.world[..], d.next;
          HeaderWords(x, w, firstRegular);
          r := SpewBlock(f, b);
          if r != Done {
            FaultIsFirst(x.files, x.ipr, x.e.limit, f, b, r);
            return;
          }
          SoundStep(x.files, x.ipr, x.e.limit, f, b);
          CodeOnly(x, w0, w, d.world[..], n0, n, firstRegular);
          b := b + 1;
        }
        ProgressFile(x, d.world[..], d.next, f);
        SoundFile(x.files, x.ipr, x.e.limit, f);
        FileCells(x.files, f, b, x.e.cpw);
        f := f + 1;
      }
      AllBefore(x.files, x.ipr, x.e.limit);
      r := Done;
    }
  }

  /** The loop of changereturntonoop, from the last opcode down. */
  method ClearReturn(ops: seq<int>) returns (r: Option<seq<int>>)
    ensures r == NoReturn(ops)
  {
    var i := |ops| - 1;
    assert ops[..|ops|] == ops;
    assert ops[i + 1..] == [];
    assert NoReturn(ops).Some? ==> NoReturn(ops).value + ops[i + 1..] == NoReturn(ops).value;
    while i >= 0
      invariant -1 <= i < |ops|
      invariant var s := NoReturn(ops[..i + 1]);
                NoReturn(ops) == if s.Some? then Some(s.value + ops[i + 1..]) else None
    {
      assert ops[..i + 1][..i] == ops[..i];
      if ops[i] != 0 {
        if ops[i] == RETURN_OPCODE {
          assert ops[i := 0] == ops[..i] + [0] + ops[i + 1..];
          return Some(ops[i := 0]);
        }
        return None;
      }
      ghost var s := NoReturn(ops[..i]);
      assert ops[i..] == [0] + ops[i + 1..];
      assert s.Some? ==> s.value + [0] + ops[i + 1..] == s.value + ops[i..];
      i := i - 1;
    }
    return None;
  }

  // ---- The whole run ----

  /** The symbol object: its type is filled in later, and its name is a string. */
  ghost predicate SymbolOk(x: Ctx, w: seq<Cell>, n: int, name: Bytes)
    requires x.e.cpw >= 1
  {
    Named(x.e, w, n, name)
  }

  ghost predicate SymbolBlank(x: Ctx, w: seq<Cell>, name: Bytes) {
    && name in x.e.syms
    && var a := x.e.syms[name];
    0 <= a && a + 1 < |w| && w[a].Zero() && w[a + 1].Zero()
  }

  /** Nothing below `n` has changed but the cells of `name`. */
  ghost predicate OnlySymbol(x: Ctx, w: seq<Cell>, w': seq<Cell>, n: int, name: Bytes) {
    && name in x.e.syms && |w'| == |w|
    && forall a :: 0 <= a < n && a < |w| && a != x.e.syms[name] && a != x.e.syms[name] + 1 ==> w'[a] == w[a]
  }

  /** Two symbols have no cell in common. */
  lemma CellsApart(x: Ctx, w: seq<Cell>, n: int, w': seq<Cell>, lo: int, hi: int, name: Bytes, other: Bytes)
    requires Spaced(x.e.syms, lo, hi) && 0 <= lo && hi <= n <= |w|
    requires OnlySymbol(x, w, w', n, name) && other in x.e.syms && other != name
    ensures var a := x.e.syms[other]; 0 <= a && a + 2 <= |w| == |w'| && w'[a..a + 2] == w[a..a + 2]
  {
    var a, b := x.e.syms[other], x.e.syms[name];
    assert a != b && (a - lo) % 2 == 0 && (b - lo) % 2 == 0;
    assert w'[a] == w[a] && w'[a + 1] == w[a + 1];
  }

  lemma SymbolKept(x: Ctx, w: seq<Cell>, n: int, w': seq<Cell>, n': int, lo: int, hi: int, name: Bytes, other: Bytes)
    requires CtxOk(x) && Spaced(x.e.syms, lo, hi) && 0 <= lo && hi <= x.e.base <= n <= n' <= |w|
    requires OnlySymbol(x, w, w', n, name) && other in x.e.syms && other != name
    ensures SymbolOk(x, w, n, other) ==> SymbolOk(x, w', n', other)
    ensures SymbolBlank(x, w, other) ==> SymbolBlank(x, w', other)
  {
    hide Denotes;
    var a := x.e.syms[other];
    CellsApart(x, w, n, w', lo, hi, name, other);
    assert w'[a] == w'[a..a + 2][0] == w[a] && w'[a + 1] == w'[a..a + 2][1] == w[a + 1];
    assert forall k :: x.e.base <= k < n ==> w'[k] == w[k];
    hide Spaced, OnlySymbol;
    if SymbolOk(x, w, n, other) {
      DenotesKept(x.e, w, n, w', n', w[a + 1].w, Str(other));
    }
  }

  predicate NameOk(n: Bytes) { AreBytes(n) && |n| < 65536 }

  /** The second half of a turn of patch_symbols: the name. */
  method NameSymbol(x: Ctx, d: Data, name: Bytes)
    requires d.e == x.e && d.Valid() && Image(x, d.world[..], d.St()) && NameOk(name) && name in x.e.syms
    requires var a := x.e.syms[name];
             0 <= a && a + 1 < x.e.base && d.world[a] == Num(Ptr(x.e.nil)) && d.world[a + 1].Zero()
    requires d.next + StringSize(name, x.e.cpw) <= d.world.Length
    modifies d`next, d`empty, d.world
    ensures d.Valid() && Image(x, d.world[..], d.St()) && SymbolOk(x, d.world[..], d.next, name)
    ensures old(d.next) <= d.next <= old(d.next) + StringSize(name, x.e.cpw)
    ensures OnlySymbol(x, old(d.world[..]), d.world[..], old(d.next), name)
  {
    hide Bucketed, AllZero, StateOk, Denotes, Written, CtxOk, RealString;
    var addr := x.e.syms[name];
    ImageBounds(x, d.world[..], d.St());
    ghost var w, st := d.world[..], d.St();
    StringWordsCount(name, x.e.cpw);
    var ok, ref := d.StringAlloc(name);
    ImageAfterConstant(x, w, st, Str(name), d.world[..]);
    ghost var w1 := d.world[..];
    ImageAfterStore(x, w1, d.St(), addr + 1, Num(ref));
    ok := d.Store(ref, addr + 1);
    DenotesKept(x.e, w1, d.next, d.world[..], d.next, ref, Str(name));
  }

  /** One turn of patch_symbols. */
  method PatchSymbol(x: Ctx, d: Data, ghost lo: int, ghost hi: int, name: Bytes)
    requires d.e == x.e && d.Valid() && Image(x, d.world[..], d.St()) && NameOk(name)
    requires Spaced(x.e.syms, lo, hi) && 0 <= lo && hi <= x.e.base
    requires SymbolBlank(x, d.world[..], name) && d.next + StringSize(name, x.e.cpw) <= d.world.Length
    modifies d`next, d`empty, d.world
    ensures d.Valid() && Image(x, d.world[..], d.St()) && SymbolOk(x, d.world[..], d.next, name)
    ensures old(d.next) <= d.next <= old(d.next) + StringSize(name, x.e.cpw)
    ensures OnlySymbol(x, old(d.world[..]), d.world[..], old(d.next), name)
  {
    hide Bucketed, AllZero, StateOk, Image, CtxOk, SymbolOk, NameOk, StringSize;
    var addr := x.e.syms[name];
    ImageBounds(x, d.world[..], d.St());
    ImageAfterStore(x, d.world[..], d.St(), addr, Num(Ptr(x.e.nil)));
    var ok := d.Store(Ptr(x.e.nil), addr);
    NameSymbol(x, d, name);
  }

  /** The first `i` symbols have been patched. */
  ghost predicate Patched(x: Ctx, w: seq<Cell>, n: int, syms: seq<Bytes>, i: int)
    requires CtxOk(x)
  {
    && (forall j :: 0 <= j < i && j < |syms| ==> SymbolOk(x, w, n, syms[j]))
    && (forall j :: i <= j < |syms| && 0 <= j ==> SymbolBlank(x, w, syms[j]))
  }

  lemma PatchedStep(x: Ctx, w: seq<Cell>, n: int, w': seq<Cell>, n': int, lo: int, hi: int, syms: seq<Bytes>, i: int)
    requires CtxOk(x) && Patched(x, w, n, syms, i) && 0 <= i < |syms| && Distinct(syms)
    requires Spaced(x.e.syms, lo, hi) && 0 <= lo && hi <= x.e.base <= n <= n' <= |w|
    requires OnlySymbol(x, w, w', n, syms[i]) && SymbolOk(x, w', n', syms[i])
    ensures Patched(x, w', n', syms, i + 1)
    ensures SameBelow(w, w', lo)
  {
    var next := i + 1;
    forall j | 0 <= j < |syms| && j != i
      ensures j < next ==> SymbolOk(x, w', n', syms[j])
      ensures j >= next ==> SymbolBlank(x, w', syms[j])
    {
      assert if j < i then SymbolOk(x, w, n, syms[j]) else SymbolBlank(x, w, syms[j]);
      SymbolKept(x, w, n, w', n', lo, hi, syms[i], syms[j]);
    }
  }

  /** patch_symbols, in the order the symbols were first seen: the counted room is enough. */
  method PatchSymbols(x: Ctx, d: Data, ghost lo: int, ghost hi: int, syms: seq<Bytes>)
    requires d.e == x.e && d.Valid() && Image(x, d.world[..], d.St())
    requires Spaced(x.e.syms, lo, hi) && 0 <= lo && hi <= x.e.base
    requires Distinct(syms) && (forall n <- syms :: NameOk(n)) && Patched(x, d.world[..], d.next, syms, 0)
    requires d.next + NameCells(syms, x.e.cpw) <= d.world.Length
    modifies d`next, d`empty, d.world
    ensures d.Valid() && Image(x, d.world[..], d.St()) && Patched(x, d.world[..], d.next, syms, |syms|)
    ensures old(d.next) <= d.next <= old(d.next) + NameCells(syms, x.e.cpw)
    ensures SameBelow(old(d.world[..]), d.world[..], lo)
  {
    hide Bucketed, AllZero, StateOk, Image, SymbolOk, SymbolBlank, Spaced, Patched, NameCells, CtxOk;
    var i := 0;
    ImageBounds(x, d.world[..], d.St());
    NoNames(x.e.cpw);
    assert syms[..0] == [];
    while i < |syms|
      invariant 0 <= i <= |syms| && d.Valid() && Image(x, d.world[..], d.St())
      invariant CtxOk(x) && Patched(x, d.world[..], d.next, syms, i)
      invariant old(d.next) <= d.next <= old(d.next) + NameCells(syms[..i], x.e.cpw)
      invariant SameBelow(old(d.world[..]), d.world[..], lo)
    {
      NamesStep(syms, i, x.e.cpw);
      ImageBounds(x, d.world[..], d.St());
      ghost var w, n := d.world[..], d.next;
      BlankSymbol(x, w, n, syms, i);
      PatchSymbol(x, d, lo, hi, syms[i]);
      PatchedStep(x, w, n, d.world[..], d.next, lo, hi, syms, i);
      i := i + 1;
    }
    assert syms[..i] == syms;
  }

  lemma BlankSymbol(x: Ctx, w: seq<Cell>, n: int, syms: seq<Bytes>, i: int)
    requires CtxOk(x) && Patched(x, w, n, syms, i) && 0 <= i < |syms|
    ensures SymbolBlank(x, w, syms[i])
  {
  }

  lemma NamesStep(names: seq<Bytes>, i: int, cpw: int)
    requires cpw >= 1 && 0 <= i < |names|
    ensures NameCells(names[..i + 1], cpw) == NameCells(names[..i], cpw) + StringSize(names[i], cpw)
    ensures NameCells(names[..i + 1], cpw) <= NameCells(names, cpw)
  {
    assert names[..i + 1][..i] == names[..i];
    NamesPrefix(names, i + 1, cpw);
  }

  lemma {:induction false} NamesPrefix(names: seq<Bytes>, i: int, cpw: int)
    requires cpw >= 1 && 0 <= i <= |names|
    ensures NameCells(names[..i], cpw) <= NameCells(names, cpw)
    decreases |names|
  {
    if i < |names| {
      NamesPrefix(names[..|names| - 1], i, cpw);
      assert names[..|names| - 1][..i] == names[..i];
      StringWordsCount(names[|names| - 1], cpw);
    } else {
      assert names[..i] == names;
    }
  }

  datatype LinkResult = Linked | BadInput | Failed(why: Result)

  function WorldSize(files: seq<File>, cpw: int, ipr: int): int
    requires cpw >= 1 && Shaped(files, ipr)
  {
    var c := CountAll(files, cpw);
    CodeEnd(files, ipr) + |c.vars| + 2 * |c.syms| + c.dat
  }

  /** The architectures there are, object files as the reader and the compiler make them, and a
      world that the target's references can address. */
  ghost predicate Inputs(files: seq<File>, cpw: int, ipr: int, limit: int) {
    && ((cpw == 7 && limit == 0x2000_0000_0000_0000 && (ipr == 2 || ipr == 4))
        || (cpw == 3 && limit == 0x2000_0000 && ipr == 2))
    && (forall n <- CountAll(files, cpw).syms :: NameOk(n))
    && (Shaped(files, ipr) ==> && WellFormed(files, ipr, MaxBlks(files)) && TopsFilled(files, ipr)
                               && WorldSize(files, cpw, ipr) < limit)
  }

  /** The regions: code, variables, symbols, and data whose first cells are the handbuilt objects. */
  ghost predicate Regions(x: Ctx, c: Counts, size: int)
    requires Shaped(x.files, x.ipr)
  {
    var startVar := CodeEnd(x.files, x.ipr);
    var startSym := startVar + |c.vars|;
    var startDat := startSym + 2 * |c.syms|;
    && InOrder(x.varAddr, c.vars, startVar, |c.vars|)
    && Spaced(x.e.syms, startSym, startDat) && (forall n :: n in x.e.syms <==> n in c.syms)
    && startDat == x.e.nil && x.e.base == startDat + HANDBUILT && size == startDat + c.dat
  }

  /** Everything the object files ask for is in the world. */
  ghost predicate LinkedWorld(x: Ctx, c: Counts, w: seq<Cell>, n: int)
    requires CtxOk(x)
  {
    && Regions(x, c, |w|) && x.e.base <= n <= |w| && Headed(x, w, FirstRegular(x.files, x.ipr))
    && (forall name <- c.syms :: SymbolOk(x, w, n, name))
    && (forall f, b :: IsBlock(x.files, f, b) ==> BlockDone(x, w, n, |x.files|, f, b))
  }

  lemma {:induction false} InFile(f: File, b: int, i: int)
    requires 0 <= b < |f| && 0 <= i < |f[b].patches|
    ensures f[b].patches[i] in FilePatches(f)
    decreases |f|
  {
    if b < |f| - 1 { InFile(f[..|f| - 1], b, i); }
  }

  lemma {:induction false} InAll(files: seq<File>, f: int, b: int, i: int)
    requires IsBlock(files, f, b) && 0 <= i < |files[f][b].patches|
    ensures files[f][b].patches[i] in AllPatches(files)
    decreases |files|
  {
    if f < |files| - 1 { InAll(files[..|files| - 1], f, b, i); } else { InFile(files[f], b, i); }
  }

  /** The addresses the first phases arrive at fit together. */
  lemma Addresses(x: Ctx, c: Counts, size: int, cpw: int, limit: int)
    requires Inputs(x.files, cpw, x.ipr, limit) && Shaped(x.files, x.ipr) && c == CountAll(x.files, cpw)
    requires size == WorldSize(x.files, cpw, x.ipr) && Regions(x, c, size)
    requires var s := x.e.nil;
             x.e == Env(s, s + 1, s + 2, s + 12, s + HANDBUILT, cpw, limit, x.e.syms) && x.codeVector == s + 21
    ensures CtxOk(x) && x.e.base + 1 < size && Distinct(c.syms)
    ensures x.e.base + NameCells(c.syms, cpw) + ConstantCells(AllPatches(x.files), cpw) <= size
    ensures (forall n <- c.syms :: n in x.e.syms) && (forall n <- c.vars :: n in x.varAddr)
    ensures forall f, b, i :: IsBlock(x.files, f, b) && 0 <= i < |x.files[f][b].patches| ==>
              CoversPatch(c, x.files[f][b].patches[i])
  {
    CountsSuffice(x.files, cpw);
    SizesNonNegative(x.files, x.ipr);
    BeforeMonotone(TopSizes(x.files, x.ipr), 0, 0);
    BeforeMonotone(RegTotals(x.files, x.ipr), 0, 0);
    NamesPositive(c.syms, cpw);
    assert PRELOAD[0] in c.vars;
    assert PRELOAD[0] in c.syms;
    forall f, b, i | IsBlock(x.files, f, b) && 0 <= i < |x.files[f][b].patches|
      ensures CoversPatch(c, x.files[f][b].patches[i])
    {
      InAll(x.files, f, b, i);
    }
  }

  lemma NamesPositive(names: seq<Bytes>, cpw: int)
    requires cpw >= 1
    ensures names != [] ==> NameCells(names, cpw) >= 3
  {
    if names != [] { StringWordsCount(names[|names| - 1], cpw); }
  }

  /** A fresh world is blank where symbols and code go, and has no data yet. */
  lemma FreshWorld(x: Ctx, c: Counts, w: seq<Cell>)
    requires CtxOk(x) && Regions(x, c, |w|) && x.e.base + 1 < |w| && (forall a :: 0 <= a < |w| ==> w[a].Zero())
    ensures AllZero(w, x.e.base) && Image(x, w, State(x.e.base, map[], None))
    ensures Patched(x, w, x.e.base, c.syms, 0)
  {
  }

  lemma CodeBlank(x: Ctx, c: Counts, w: seq<Cell>, n: int)
    requires CtxOk(x) && Regions(x, c, |w|) && x.e.base + 1 < |w|
    requires forall a :: 0 <= a < CodeEnd(x.files, x.ipr) ==> w[a].Zero()
    ensures Progress(x, w, n, 0, 0) && forall a :: 0 <= a < 3 ==> w[a].Zero()
  {
    hide Address, BlockSize;
    forall f, b | IsBlock(x.files, f, b) ensures BlockBlank(x, w, f, b) {
      BlockWithin(x.files, x.ipr, f, b);
    }
  }

  lemma SpewLinks(x: Ctx, c: Counts, w: seq<Cell>, n: int, w': seq<Cell>, n': int)
    requires CtxOk(x) && Regions(x, c, |w|) && x.e.base <= n <= n' <= |w|
    requires Patched(x, w, n, c.syms, |c.syms|)
    requires OnlyCode(x, w, w', n) && Headed(x, w', FirstRegular(x.files, x.ipr)) && Progress(x, w', n', |x.files|, 0)
    ensures LinkedWorld(x, c, w', n')
  {
    hide BlockDone;
    forall name <- c.syms ensures SymbolOk(x, w', n', name) {
      assert SymbolOk(x, w, n, name);
      DenotesKept(x.e, w, n, w', n', w[x.e.syms[name] + 1].w, Str(name));
    }
    forall f, b | IsBlock(x.files, f, b) ensures BlockDone(x, w', n', |x.files|, f, b) {
      assert ColdImage.Before(|x.files|, 0, f, b);
    }
  }

  /** What the phases before the writing ones have worked out. */
  ghost predicate Planned(x: Ctx, c: Counts, maxBlks: int, size: int) {
    && CtxOk(x) && WellFormed(x.files, x.ipr, maxBlks) && Regions(x, c, size) && x.e.base + 1 < size
    && (forall i :: 0 <= i < |x.files| ==> |x.files[i]| <= maxBlks)
    && Distinct(c.syms) && (forall n <- c.syms :: NameOk(n))
    && x.e.base + NameCells(c.syms, x.e.cpw) + ConstantCells(AllPatches(x.files), x.e.cpw) <= size
    && (forall n <- c.syms :: n in x.e.syms) && (forall n <- c.vars :: n in x.varAddr)
    && (forall f, b, i :: IsBlock(x.files, f, b) && 0 <= i < |x.files[f][b].patches| ==>
          CoversPatch(c, x.files[f][b].patches[i]))
  }

  /** The phases that write the world. */
  method WriteWorld(x: Ctx, c: Counts, maxBlks: int, size: int) returns (why: Result, world: array<Cell>, next: int)
    requires Planned(x, c, maxBlks, size)
    ensures why == Done ==> LinkedWorld(x, c, world[..], next) && AllSound(x.files, x.ipr, x.e.limit)
    ensures why != Done ==> FirstFault(x.files, x.ipr, x.e.limit, why)
  {
    hide Bucketed, AllZero, Image, Entered, WellFormed, LinkedWorld, Progress, AllSound, FirstFault, CoversPatch,
        Spaced, InOrder, Headed, OnlyCode, Patched, NameCells, ConstantCells, BlockDone, TopsFilled, Shaped;
    world := new Cell[size](i => Num(Fix(0)));
    FreshWorld(x, c, world[..]);
    var d := new Data(x.e, world);
    PatchSymbols(x, d, x.e.nil - 2 * |c.syms|, x.e.nil, c.syms);
    var ok, table, firstRegular := BuildBlkTable(x.files, x.ipr, maxBlks);
    var linker := new Linker(x, c, maxBlks, table, d);
    ghost var w, n := world[..], d.next;
    CodeBlank(x, c, w, n);
    why := linker.Spew(firstRegular);
    next := d.next;
    if why == Done { SpewLinks(x, c, w, n, world[..], next); }
  }

  /** The counting pass takes the object files. */
  predicate Accepted(files: seq<File>, ipr: int, cpw: int)
    requires cpw >= 1
  {
    Shaped(files, ipr) && |CountAll(files, cpw).vars| <= MAX_VARS
  }

  /** The phases of the linker, in order; what the handbuilt objects and the preloaded variables
      hold is not part of this. */
  method Link(files: seq<File>, cpw: int, ipr: int, limit: int)
    returns (r: LinkResult, x: Ctx, ghost c: Counts, world: array<Cell>, next: int)
    requires Inputs(files, cpw, ipr, limit)
    ensures r == BadInput <==> !Accepted(files, ipr, cpw)
    ensures r != BadInput ==> CtxOk(x) && x.files == files && x.ipr == ipr && x.e.limit == limit && x.e.cpw == cpw
    ensures r == Linked ==> c == CountAll(files, cpw) && LinkedWorld(x, c, world[..], next)
    ensures r == Linked <==> Accepted(files, ipr, cpw) && AllSound(files, ipr, limit)
    ensures r.Failed? ==> FirstFault(files, ipr, limit, r.why)
  {
    hide Bucketed, Entered, WellFormed, LinkedWorld, AllSound, FirstFault, CoversPatch, CountAll, Spaced, InOrder,
        NameCells, ConstantCells, TablesOk, Shaped;
    var ok, counts, ops, maxBlks := CountThings(files, cpw, ipr);
    c := counts;
    if !ok {
      r, next, world := BadInput, 0, new Cell[0];
      x := Ctx([], 0, Env(0, 0, 0, 0, 0, 0, 0, map[]), 0, map[]);
      return;
    }
    CountsSuffice(files, cpw);
    MaxBlksBounds(files);
    CodeEndIs(ops, ipr, CodeEnd(files, ipr));
    var startVar := ops / ipr;
    var startSym := startVar + |counts.vars| * CELL_SIZE;
    var startDat := startSym + |counts.syms| * SYMBOL_SIZE;
    var size := startDat + counts.dat;
    var varAddr, symAddr := LayoutNames(counts, startVar, startSym);
    var e := Env(startDat, startDat + 1, startDat + 2, startDat + 12, startDat + HANDBUILT, cpw, limit, symAddr);
    x := Ctx(files, ipr, e, startDat + 21, varAddr);
    Addresses(x, counts, size, cpw, limit);
    var why;
    why, world, next := WriteWorld(x, counts, maxBlks, size);
    if why != Done { FirstFaultUnsound(files, ipr, limit, why); }
    r := if why == Done then Linked else Failed(why);
  }

  lemma CodeEndIs(ops: int, ipr: int, end: int)
    requires ipr > 0 && ops == ipr * end
    ensures ops / ipr == end
  {
    Arith.DivUnique(ops, ipr, end, 0);
  }

  /** The image is the source: in a linked world every constant decodes, from the cell its patch
      names, to what the object file said (with `#f` read back as the empty list). */
  lemma ConstantsDecode(x: Ctx, c: Counts, w: seq<Cell>, n: int, f: int, b: int, j: int, fuel: nat)
    requires CtxOk(x) && LinkedWorld(x, c, w, n) && IsBlock(x.files, f, b) && FirstWord(b) <= j < OpWords(x, f, b)
    requires var ps := x.files[f][b].patches;
             var k := LastPatch(ps, x.ipr, j);
             k >= 0 && ps[k].Constant? && Readable(ps[k].s) && fuel >= Size(ps[k].s)
    ensures var ps := x.files[f][b].patches;
            var a := DelBase(x, f, b) + j;
            && InBlock(x, f, b, a) && 0 <= a < |w| && w[a].Num?
            && Decode(x.e, w, w[a].w, fuel) == Some(Norm(ps[LastPatch(ps, x.ipr, j)].s))
  {
    hide Denotes, Decode, Named;
    var ps := x.files[f][b].patches;
    assert ps[..|ps|] == ps;
    assert BlockDone(x, w, n, |x.files|, f, b);
    assert WordOk(x, w, n, |x.files|, f, b, |ps|, j);
    WordInBlock(x, f, b, j);
    var k := LastPatch(ps, x.ipr, j);
    DenotesDecodes(x.e, w, n, w[DelBase(x, f, b) + j].w, ps[k].s, fuel);
  }
}
