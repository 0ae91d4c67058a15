/** What the first world says of the object files, word by word and in terms of nothing but the two. */
module ColdReads {
  import opened Options
  import opened Words
  import opened ColdData
  import opened ColdCount
  import opened ColdLayout
  import opened ColdPhases
  import opened ColdImage
  import opened ColdFaults
  import opened ColdLinker
  import ColdConstants
  import Fixnum

  // ---- Taking RETURNs off ----

  /** The opcodes end in a RETURN at `i`, but for noops. */
  predicate EndsAt(ops: seq<int>, i: int) {
    0 <= i < |ops| && ops[i] == RETURN_OPCODE && forall k :: i < k < |ops| ==> ops[k] == 0
  }

  /** The final RETURN becomes a noop, and nothing else changes. */
  lemma {:induction false} ReturnGoes(ops: seq<int>, i: int)
    requires EndsAt(ops, i)
    ensures NoReturn(ops) == Some(ops[i := 0])
    decreases |ops|
  {
    var n := |ops| - 1;
    if i < n {
      ReturnGoes(ops[..n], i);
      assert ops[..n][i := 0] + [0] == ops[i := 0];
    } else {
      assert ops[..n] + [0] == ops[i := 0];
    }
  }

  /** Without one there is nothing to take off. */
  lemma {:induction false} NoneToGo(ops: seq<int>)
    requires forall i :: 0 <= i < |ops| ==> !EndsAt(ops, i)
    ensures NoReturn(ops) == None
    decreases |ops|
  {
    if ops != [] {
      var n := |ops| - 1;
      assert !EndsAt(ops, n);
      if ops[n] == 0 {
        forall i | 0 <= i < n ensures !EndsAt(ops[..n], i) {
          if EndsAt(ops[..n], i) { assert EndsAt(ops, i); }
        }
        NoneToGo(ops[..n]);
      }
    }
  }

  lemma WhereItEnds(ops: seq<int>) returns (i: int)
    requires NoReturn(ops).Some?
    ensures EndsAt(ops, i) && NoReturn(ops) == Some(ops[i := 0])
  {
    if all :| 0 <= all < |ops| && EndsAt(ops, all) {
      i := all;
      ReturnGoes(ops, i);
    } else {
      NoneToGo(ops);
      i := 0;
    }
  }

  /** What is left differs from what was there only in RETURNs that are noops now. */
  predicate FewerReturns(ops: seq<int>, now: seq<int>) {
    |now| == |ops| && forall k :: 0 <= k < |ops| ==> now[k] == ops[k] || (now[k] == 0 && ops[k] == RETURN_OPCODE)
  }

  lemma {:induction false} ReturnedReads(ops: seq<int>, k: nat, i: int)
    requires EndsAt(ops, i)
    ensures Returned(ops, 0) == ops && Returned(ops, 1) == ops[i := 0]
    ensures FewerReturns(ops, Returned(ops, k)) && (k > 0 ==> Returned(ops, k)[i] == 0)
  {
    ReturnGoes(ops, i);
    assert Returned(ops, 0) == ops;
    if k > 1 {
      ReturnedReads(ops, k - 1, i);
      var p := Returned(ops, k - 1);
      if NoReturn(p).Some? { var e := WhereItEnds(p); }
    }
  }

  // ---- Which blocks are chained through a word ----

  lemma {:induction false} TargetFrom(files: seq<File>, ipr: int, g: int, h: int)
    requires Shaped(files, ipr) && 0 <= g <= h < |files| && ColdLayout.Words(files[g][0], ipr) >= 2
    ensures Target(files, ipr, h) >= g
    decreases h
  {
    if h > g { TargetFrom(files, ipr, g, h - 1); }
  }

  /** The last word of a top level block loses a RETURN when the block is chained, and no other unless the
      next block keeps no word. */
  lemma {:induction false} RoundsOf(files: seq<File>, ipr: int, f: int, u: int)
    requires Shaped(files, ipr) && 0 <= f < u <= |files| && ColdLayout.Words(files[f][0], ipr) >= 2
    ensures Rounds(files, ipr, f, u) >= if f < |files| - 1 then 1 else 0
    ensures f >= |files| - 2 || ColdLayout.Words(files[f + 1][0], ipr) >= 2 ==>
              Rounds(files, ipr, f, u) == if f < |files| - 1 then 1 else 0
    decreases u
  {
    hide Target;
    if u == f + 1 {
      NoRounds(files, ipr, f, f);
      TargetSelf(files, ipr, f);
    } else {
      RoundsOf(files, ipr, f, u - 1);
      if u < |files| && ColdLayout.Words(files[f + 1][0], ipr) >= 2 { TargetFrom(files, ipr, f + 1, u - 1); }
    }
  }

  // ---- What is in the code ----

  /** Where word `j` of a block's opcodes is: after the header, or, in a top level block, right at its start,
      but for its first word, which is not kept. */
  function WordAt(x: Ctx, f: int, b: int, j: int): int
    requires Shaped(x.files, x.ipr) && IsBlock(x.files, f, b)
  {
    Address(x.files, x.ipr, f, b) + j + if b > 0 then 2 else -1
  }

  /** Word `j` of the opcodes, as the object file has them. */
  function Source(x: Ctx, f: int, b: int, j: int): (s: seq<int>)
    requires Shaped(x.files, x.ipr) && IsBlock(x.files, f, b) && 0 <= j < OpWords(x, f, b)
    ensures |s| == x.ipr && 0 <= j * x.ipr && (j + 1) * x.ipr <= |x.files[f][b].ops|
    ensures forall k :: 0 <= k < x.ipr ==> s[k] == x.files[f][b].ops[j * x.ipr + k]
  {
    WordBounds(|x.files[f][b].ops|, x.ipr, j);
    x.files[f][b].ops[j * x.ipr..(j + 1) * x.ipr]
  }

  /** It is kept, and no patch goes to it. */
  predicate PlainWord(x: Ctx, f: int, b: int, j: int)
    requires Shaped(x.files, x.ipr) && IsBlock(x.files, f, b)
  {
    && (if b == 0 then 1 else 0) <= j < OpWords(x, f, b)
    && forall p <- x.files[f][b].patches :: p.off / x.ipr != j
  }

  /** The opcodes of the object files, in order, are in the world, except that a top level block that is not
      the last no longer returns: its final RETURN is a noop, so that execution runs on into the next.  No
      other opcode differs, unless blocks that keep no word follow and have taken more RETURNs off. */
  lemma CodeReads(x: Ctx, c: Counts, w: seq<Cell>, n: int, f: int, b: int, j: int)
    requires CtxOk(x) && LinkedWorld(x, c, w, n) && AllSound(x.files, x.ipr, x.e.limit)
    requires IsBlock(x.files, f, b) && PlainWord(x, f, b, j)
    ensures var a, src := WordAt(x, f, b, j), Source(x, f, b, j);
            var chained := b == 0 && f < |x.files| - 1 && j == OpWords(x, f, b) - 1;
            && 0 <= a < |w| && w[a].Opcodes?
            && (!chained ==> w[a].ops == src)
            && (chained ==> exists i :: EndsAt(src, i) && FewerReturns(src, w[a].ops) && w[a].ops[i] == 0
                                        && (f == |x.files| - 2 || OpWords(x, f + 1, 0) >= 2 ==>
                                              w[a].ops == src[i := 0]))
  {
    hide Address, NoReturn, Returned, Target, LinkedWorld;
    FinalReads(x, c, w, n, f, b, j);
    var src, words, r := Source(x, f, b, j), OpWords(x, f, b), Rounds(x.files, x.ipr, f, |x.files|);
    assert src == OpWord(x.files[f][b].ops, x.ipr, j);
    if b == 0 && j == words - 1 {
      RoundsOf(x.files, x.ipr, f, |x.files|);
      if f < |x.files| - 1 {
        assert Sound(x.files, x.ipr, x.e.limit, f, b);
        TargetSelf(x.files, x.ipr, f);
        FirstOps(x.files, x.ipr, f, b, j);
        var i := WhereItEnds(src);
        ReturnedReads(src, r, i);
      } else {
        NoneReturned(src);
      }
    }
  }

  lemma NoneReturned(ops: seq<int>)
    ensures Returned(ops, 0) == ops
  {
  }

  /** A word no patch goes to has its opcodes as the chaining leaves them. */
  lemma FinalReads(x: Ctx, c: Counts, w: seq<Cell>, n: int, f: int, b: int, j: int)
    requires CtxOk(x) && LinkedWorld(x, c, w, n) && IsBlock(x.files, f, b) && PlainWord(x, f, b, j)
    ensures var a := WordAt(x, f, b, j);
            0 <= a < |w| && w[a] == Opcodes(FinalOps(x.files, x.ipr, |x.files|, f, b, j))
  {
    hide Address, FinalOps;
    var ps := x.files[f][b].patches;
    assert ps[..|ps|] == ps;
    assert BlockDone(x, w, n, |x.files|, f, b);
    assert WordOk(x, w, n, |x.files|, f, b, |ps|, j);
    LastPatchIs(ps, x.ipr, j);
  }

  /** A patched word refers to what its last patch asks for: a constant that decodes to what the object file
      says, the cell of the variable, or a block of the same file, which begins with its header. */
  lemma PatchReads(x: Ctx, c: Counts, w: seq<Cell>, n: int, f: int, b: int, i: int)
    requires CtxOk(x) && LinkedWorld(x, c, w, n) && IsBlock(x.files, f, b) && 0 <= i < |x.files[f][b].patches|
    requires var ps := x.files[f][b].patches;
             && (if b == 0 then 1 else 0) <= ps[i].off / x.ipr < OpWords(x, f, b)
             && forall k :: i < k < |ps| ==> ps[k].off / x.ipr != ps[i].off / x.ipr
    ensures var p := x.files[f][b].patches[i];
            var a := WordAt(x, f, b, p.off / x.ipr);
            && 0 <= a < |w| && w[a].Num? && !p.Unknown?
            && (p.Constant? && Readable(p.s) ==> Decode(x.e, w, w[a].w, Size(p.s)) == Some(Norm(p.s)))
            && (p.Variable? ==> exists v :: 0 <= v < |c.vars| && c.vars[v] == p.name
                                            && w[a].w == Loc(CodeEnd(x.files, x.ipr) + v))
            && (p.Code? ==> IsBlock(x.files, f, p.blk) && w[a].w == Ptr(Address(x.files, x.ipr, f, p.blk))
                            && (p.blk > 0 ==> Headers(x, w, f, p.blk)))
  {
    hide Address, Denotes, Decode, Named, CodeEnd, LinkedWorld, Headers;
    var p := x.files[f][b].patches[i];
    PatchRefers(x, c, w, n, f, b, i);
    if p.Constant? && Readable(p.s) { ConstantReads(x, c, w, n, f, b, i); }
    if p.Variable? { VariableReads(x, c, w, n, p.name); }
    if p.Code? && p.blk > 0 { BlockReads(x, c, w, n, f, p.blk); }
  }

  lemma PatchRefers(x: Ctx, c: Counts, w: seq<Cell>, n: int, f: int, b: int, i: int)
    requires CtxOk(x) && LinkedWorld(x, c, w, n) && IsBlock(x.files, f, b) && 0 <= i < |x.files[f][b].patches|
    requires var ps := x.files[f][b].patches;
             && (if b == 0 then 1 else 0) <= ps[i].off / x.ipr < OpWords(x, f, b)
             && forall k :: i < k < |ps| ==> ps[k].off / x.ipr != ps[i].off / x.ipr
    ensures var p := x.files[f][b].patches[i];
            var a := WordAt(x, f, b, p.off / x.ipr);
            && 0 <= a < |w| && Refers(x, w, n, f, p, w[a])
            && LastPatch(x.files[f][b].patches, x.ipr, p.off / x.ipr) == i
  {
    hide Address, Refers, FinalOps;
    var ps := x.files[f][b].patches;
    var j := ps[i].off / x.ipr;
    assert ps[..|ps|] == ps;
    LastPatchIs(ps, x.ipr, j);
    var k := LastPatch(ps, x.ipr, j);
    assert k == i;
    assert BlockDone(x, w, n, |x.files|, f, b);
    assert WordOk(x, w, n, |x.files|, f, b, |ps|, j);
  }

  lemma ConstantReads(x: Ctx, c: Counts, w: seq<Cell>, n: int, f: int, b: int, i: int)
    requires CtxOk(x) && LinkedWorld(x, c, w, n) && IsBlock(x.files, f, b) && 0 <= i < |x.files[f][b].patches|
    requires var p := x.files[f][b].patches[i];
             var j := p.off / x.ipr;
             && (if b == 0 then 1 else 0) <= j < OpWords(x, f, b) && p.Constant? && Readable(p.s)
             && LastPatch(x.files[f][b].patches, x.ipr, j) == i
    ensures var p := x.files[f][b].patches[i];
            var a := WordAt(x, f, b, p.off / x.ipr);
            0 <= a < |w| && w[a].Num? && Decode(x.e, w, w[a].w, Size(p.s)) == Some(Norm(p.s))
  {
    hide Decode, LinkedWorld, Address;
    var p := x.files[f][b].patches[i];
    ConstantsDecode(x, c, w, n, f, b, p.off / x.ipr, Size(p.s));
  }

  lemma VariableReads(x: Ctx, c: Counts, w: seq<Cell>, n: int, name: Bytes)
    requires CtxOk(x) && LinkedWorld(x, c, w, n) && name in x.varAddr
    ensures exists v :: 0 <= v < |c.vars| && c.vars[v] == name && x.varAddr[name] == CodeEnd(x.files, x.ipr) + v
  {
    hide CodeEnd, BlockDone, SymbolOk, Spaced;
    var v := x.varAddr[name] - CodeEnd(x.files, x.ipr);
    assert 0 <= v < |c.vars| && c.vars[v] == name;
  }

  lemma BlockReads(x: Ctx, c: Counts, w: seq<Cell>, n: int, f: int, b: int)
    requires CtxOk(x) && LinkedWorld(x, c, w, n) && IsBlock(x.files, f, b) && b > 0
    ensures Headers(x, w, f, b)
  {
    hide Address, WordOk;
    assert BlockDone(x, w, n, |x.files|, f, b);
  }

  /** A regular block begins with the type of code vectors and its own length. */
  predicate Headers(x: Ctx, w: seq<Cell>, f: int, b: int)
    requires Shaped(x.files, x.ipr) && IsBlock(x.files, f, b)
  {
    var a := Address(x.files, x.ipr, f, b);
    0 <= a && a + 1 < |w| && w[a] == Num(Ptr(x.codeVector)) && w[a + 1] == Num(Fix(2 + OpWords(x, f, b)))
  }

  // ---- Integers ----

  /** The two targets' bounds are those of their fixnums. */
  lemma Limits()
    ensures Fixnum.Half(32) == 0x2000_0000 && Fixnum.Half(64) == 0x2000_0000_0000_0000
  {
    assert Fixnum.Pow2(4) == 16;
    Fixnum.PowAdd(4, 4);
    Fixnum.PowAdd(8, 8);
    Fixnum.PowAdd(16, 8);
    Fixnum.PowAdd(24, 5);
    Fixnum.PowAdd(32, 29);
    Fixnum.PowAdd(16, 16);
    assert Fixnum.Pow2(5) == 32;
  }

  /** The linker takes an integer exactly if it is a fixnum of the target, and the word it writes then is the one
      the emulator reads back as that integer. */
  lemma IntegerReads(e: Env, w: nat, i: int)
    requires (w == 32 && e.limit == 0x2000_0000) || (w == 64 && e.limit == 0x2000_0000_0000_0000)
    ensures IntsFit(e.limit, Int(i)) <==> Fixnum.TagizeBits(w, i).Some?
    ensures ColdConstants.TagizeInt(e, i) == if Fixnum.TagizeBits(w, i).Some? then Some(Fix(i)) else None
    ensures Fixnum.TagizeBits(w, i).Some? ==> Fixnum.RefToInt(w, Fixnum.TagizeBits(w, i).value) == i
  {
    Limits();
    Fixnum.TagizeRoundTrip(w, i);
  }
}
