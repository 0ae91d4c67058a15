/** What spew_opcodes of oak-cold-linker.c must leave in code space, block by block. */
module ColdImage {
  import opened Options
  import opened Words
  import opened ColdData
  import opened ColdCount
  import opened ColdLayout
  import opened ColdPhases
  import Arith

  const RETURN_OPCODE := 6144

  /** All that is fixed before anything is written: the object files, the target, and the addresses
      of constants, variables and the %CODE-VECTOR type. */
  datatype Ctx = Ctx(files: seq<File>, ipr: int, e: Env, codeVector: int, varAddr: map<Bytes, int>)

  /** What the compiler puts in a block: patches of its own opcodes, to blocks of its own file. */
  predicate BlockFormed(b: Block, ipr: int, blks: int)
    requires ipr > 0
  {
    forall i :: 0 <= i < |b.patches| ==>
      var p := b.patches[i];
      && 0 <= p.off && p.off / ipr < ColdLayout.Words(b, ipr)
      && (p.Code? ==> 0 <= p.blk < blks)
      && (p.Constant? ==> Readable(p.s))
  }

  ghost predicate WellFormed(files: seq<File>, ipr: int, maxBlks: int)
    requires Shaped(files, ipr)
  {
    forall f, b :: IsBlock(files, f, b) ==> BlockFormed(files[f][b], ipr, maxBlks)
  }

  ghost predicate CtxOk(x: Ctx) {
    && x.e.Valid() && Shaped(x.files, x.ipr) && TopsFilled(x.files, x.ipr)
    && 3 <= CodeEnd(x.files, x.ipr) <= x.e.base < x.e.limit
  }

  /** The words of opcodes in a block's list. */
  function OpWords(x: Ctx, f: int, b: int): int
    requires Shaped(x.files, x.ipr) && IsBlock(x.files, f, b)
  {
    ColdLayout.Words(x.files[f][b], x.ipr)
  }

  lemma WordBounds(n: int, ipr: int, j: int)
    requires ipr > 0 && 0 <= j < n / ipr
    ensures 0 <= j * ipr <= (j + 1) * ipr <= n
  {
    Arith.DivMod(n, ipr);
    var q := n / ipr;
    Arith.MulSub(ipr, q, j + 1);
    Arith.MulSub(ipr, j + 1, j);
    Arith.MulNonNeg(ipr, j);
    Arith.MulNonNeg(ipr, q - (j + 1));
  }

  function OpWord(ops: seq<int>, ipr: int, j: int): seq<int>
    requires ipr > 0 && 0 <= j < |ops| / ipr
  {
    WordBounds(|ops|, ipr, j);
    ops[j * ipr..(j + 1) * ipr]
  }

  /** changereturntonoop: the last opcode that is not a noop must be a RETURN, and becomes one. */
  function NoReturn(ops: seq<int>): Option<seq<int>> {
    if ops == [] then None
    else
      var init, last := ops[..|ops| - 1], ops[|ops| - 1];
      if last == 0 then
        var r := NoReturn(init);
        if r.Some? then Some(r.value + [0]) else None
      else if last == RETURN_OPCODE then Some(init + [0])
      else None
  }

  /** The top level block that has the word just before the end of top level block `h`: the block itself,
      unless it keeps no word, or -1 when none before it keeps one. */
  function Target(files: seq<File>, ipr: int, h: int): (t: int)
    requires Shaped(files, ipr) && 0 <= h < |files|
    ensures -1 <= t <= h && (t >= 0 ==> ColdLayout.Words(files[t][0], ipr) >= 2)
  {
    if ColdLayout.Words(files[h][0], ipr) >= 2 then h
    else if h == 0 then -1
    else Target(files, ipr, h - 1)
  }

  /** How often the chaining of the first `u` files has changed the last word of top level block `g`. */
  function Rounds(files: seq<File>, ipr: int, g: int, u: int): nat
    requires Shaped(files, ipr)
    decreases u
  {
    if u <= 0 then 0
    else Rounds(files, ipr, g, u - 1) + if u < |files| && Target(files, ipr, u - 1) == g then 1 else 0
  }

  function Returned(ops: seq<int>, k: nat): seq<int> {
    if k == 0 then ops
    else var p := Returned(ops, k - 1); if NoReturn(p).Some? then NoReturn(p).value else p
  }

  /** The opcodes at word `j` once the first `u` files have been chained. */
  function FinalOps(files: seq<File>, ipr: int, u: int, f: int, b: int, j: int): seq<int>
    requires Shaped(files, ipr) && IsBlock(files, f, b) && 0 <= j < ColdLayout.Words(files[f][b], ipr)
  {
    var ops := OpWord(files[f][b].ops, ipr, j);
    if b == 0 && j == ColdLayout.Words(files[f][b], ipr) - 1 then Returned(ops, Rounds(files, ipr, f, u)) else ops
  }

  /** A block can be chained to the next if the word just before its end has opcodes that end in a RETURN,
      possibly followed by noops.  A block that keeps no word is chained through the one before it, whose
      RETURN may be gone or whose word may have been patched by then. */
  predicate Chainable(files: seq<File>, ipr: int, f: int, b: int)
    requires Shaped(files, ipr) && IsBlock(files, f, b)
  {
    KindOf(files, f, b) == TopLevel ==>
      var t := Target(files, ipr, f);
      t >= 0 &&
      var last := ColdLayout.Words(files[t][0], ipr) - 1;
      && (t < f ==> LastPatch(files[t][0].patches, ipr, last) < 0)
      && NoReturn(FinalOps(files, ipr, f, t, 0, last)).Some?
  }

  /** The address of word 0 of the opcodes: a top level block does not keep it. */
  function DelBase(x: Ctx, f: int, b: int): int
    requires Shaped(x.files, x.ipr) && IsBlock(x.files, f, b)
  {
    Address(x.files, x.ipr, f, b) + (if b > 0 then 2 else -1)
  }

  function FirstWord(b: int): int { if b > 0 then 0 else 1 }

  /** The last of the patches to word `j`, or -1. */
  function LastPatch(ps: seq<Patch>, ipr: int, j: int): (k: int)
    requires ipr > 0
    ensures -1 <= k < |ps|
  {
    if ps == [] then -1
    else if ps[|ps| - 1].off / ipr == j then |ps| - 1
    else LastPatch(ps[..|ps| - 1], ipr, j)
  }

  /** The cell is what the patch asks for: the constant, the variable's location, the block. */
  ghost predicate Refers(x: Ctx, w: seq<Cell>, n: int, f: int, p: Patch, c: Cell)
    requires CtxOk(x)
  {
    match p
    case Constant(_, s) => c.Num? && Denotes(x.e, w, n, c.w, s)
    case Variable(_, name) => name in x.varAddr && c == Num(Loc(x.varAddr[name]))
    case Code(_, blk) => IsBlock(x.files, f, blk) && c == Num(Ptr(Address(x.files, x.ipr, f, blk)))
    case Unknown(_) => false
  }

  /** Word `j` of a block after its first `i` patches. */
  ghost predicate WordOk(x: Ctx, w: seq<Cell>, n: int, u: int, f: int, b: int, i: int, j: int)
    requires CtxOk(x) && IsBlock(x.files, f, b) && 0 <= i <= |x.files[f][b].patches| && 0 <= j < OpWords(x, f, b)
  {
    var ps, a := x.files[f][b].patches, DelBase(x, f, b) + j;
    var k := LastPatch(ps[..i], x.ipr, j);
    0 <= a < |w| &&
    if k < 0 then w[a] == Opcodes(FinalOps(x.files, x.ipr, u, f, b, j)) else Refers(x, w, n, f, ps[k], w[a])
  }

  /** A block after its first `i` patches. */
  ghost predicate BlockAt(x: Ctx, w: seq<Cell>, n: int, u: int, f: int, b: int, i: int)
    requires CtxOk(x) && IsBlock(x.files, f, b) && 0 <= i <= |x.files[f][b].patches|
  {
    var a := Address(x.files, x.ipr, f, b);
    && 0 <= a && a + 1 < |w|
    && (b > 0 ==> w[a] == Num(Ptr(x.codeVector)) && w[a + 1] == Num(Fix(2 + OpWords(x, f, b))))
    && (forall j :: FirstWord(b) <= j < OpWords(x, f, b) ==> WordOk(x, w, n, u, f, b, i, j))
  }

  ghost predicate BlockDone(x: Ctx, w: seq<Cell>, n: int, u: int, f: int, b: int)
    requires CtxOk(x) && IsBlock(x.files, f, b)
  {
    BlockAt(x, w, n, u, f, b, |x.files[f][b].patches|)
  }

  predicate InBlock(x: Ctx, f: int, b: int, a: int)
    requires Shaped(x.files, x.ipr) && IsBlock(x.files, f, b)
  {
    Address(x.files, x.ipr, f, b) <= a < Address(x.files, x.ipr, f, b) + BlockSize(x.files, x.ipr, f, b)
  }

  ghost predicate BlockBlank(x: Ctx, w: seq<Cell>, f: int, b: int)
    requires Shaped(x.files, x.ipr) && IsBlock(x.files, f, b)
  {
    forall a :: InBlock(x, f, b, a) ==> 0 <= a < |w| && w[a].Zero()
  }

  /** Nothing moved in the block, and the data below `n` is as it was. */
  ghost predicate SameBlock(x: Ctx, w: seq<Cell>, n: int, w': seq<Cell>, n': int, f: int, b: int)
    requires CtxOk(x) && IsBlock(x.files, f, b)
  {
    && n <= n' <= |w'| == |w|
    && (forall a :: InBlock(x, f, b, a) && 0 <= a < |w| ==> w'[a] == w[a])
    && (forall a :: x.e.base <= a < n ==> w'[a] == w[a])
  }

  lemma WordInBlock(x: Ctx, f: int, b: int, j: int)
    requires CtxOk(x) && IsBlock(x.files, f, b) && FirstWord(b) <= j < OpWords(x, f, b)
    ensures InBlock(x, f, b, DelBase(x, f, b) + j)
    ensures b > 0 ==> InBlock(x, f, b, Address(x.files, x.ipr, f, b))
                      && InBlock(x, f, b, Address(x.files, x.ipr, f, b) + 1)
  {
  }

  lemma RefersKept(x: Ctx, w: seq<Cell>, n: int, w': seq<Cell>, n': int, f: int, p: Patch, c: Cell)
    requires CtxOk(x) && Refers(x, w, n, f, p, c) && n <= |w| && n <= n' <= |w'|
    requires forall a :: x.e.base <= a < n ==> w'[a] == w[a]
    ensures Refers(x, w', n', f, p, c)
  {
    if p.Constant? { DenotesKept(x.e, w, n, w', n', c.w, p.s); }
  }

  lemma WordKept(x: Ctx, w: seq<Cell>, n: int, w': seq<Cell>, n': int, u: int, f: int, b: int, i: int, j: int)
    requires CtxOk(x) && IsBlock(x.files, f, b) && 0 <= i <= |x.files[f][b].patches|
    requires FirstWord(b) <= j < OpWords(x, f, b) && WordOk(x, w, n, u, f, b, i, j)
    requires n <= n' <= |w'| == |w| && w'[DelBase(x, f, b) + j] == w[DelBase(x, f, b) + j]
    requires forall a :: x.e.base <= a < n ==> w'[a] == w[a]
    ensures WordOk(x, w', n', u, f, b, i, j)
  {
    var ps, a := x.files[f][b].patches, DelBase(x, f, b) + j;
    var k := LastPatch(ps[..i], x.ipr, j);
    if k >= 0 { RefersKept(x, w, n, w', n', f, ps[k], w[a]); }
  }

  lemma BlockKept(x: Ctx, w: seq<Cell>, n: int, w': seq<Cell>, n': int, u: int, f: int, b: int)
    requires CtxOk(x) && IsBlock(x.files, f, b) && BlockDone(x, w, n, u, f, b) && n <= |w|
    requires SameBlock(x, w, n, w', n', f, b)
    ensures BlockDone(x, w', n', u, f, b)
  {
    hide WordOk, Address;
    var i := |x.files[f][b].patches|;
    if b > 0 { Arith.DivPos(|x.files[f][b].ops|, x.ipr); }
    forall j | FirstWord(b) <= j < OpWords(x, f, b) ensures WordOk(x, w', n', u, f, b, i, j) {
      WordInBlock(x, f, b, j);
      WordAddress(x, w, n, u, f, b, i, j);
      WordKept(x, w, n, w', n', u, f, b, i, j);
    }
  }

  lemma WordAddress(x: Ctx, w: seq<Cell>, n: int, u: int, f: int, b: int, i: int, j: int)
    requires CtxOk(x) && IsBlock(x.files, f, b) && 0 <= i <= |x.files[f][b].patches|
    requires 0 <= j < OpWords(x, f, b) && WordOk(x, w, n, u, f, b, i, j)
    ensures 0 <= DelBase(x, f, b) + j < |w|
  {
  }

  /** One more patch, to word `j0`, whose cell now refers to what it asks for. */
  lemma PatchApplied(x: Ctx, w: seq<Cell>, n: int, w': seq<Cell>, n': int, u: int, f: int, b: int, i: int)
    requires CtxOk(x) && IsBlock(x.files, f, b) && 0 <= i < |x.files[f][b].patches|
    requires BlockAt(x, w, n, u, f, b, i) && n <= n' <= |w'| == |w|
    requires forall a :: InBlock(x, f, b, a) ==> 0 <= a < |w|
    requires var p := x.files[f][b].patches[i];
             var j0 := p.off / x.ipr;
             && 0 <= j0 < OpWords(x, f, b)
             && (forall a :: InBlock(x, f, b, a) && a != DelBase(x, f, b) + j0 ==> w'[a] == w[a])
             && (FirstWord(b) <= j0 ==> 0 <= DelBase(x, f, b) + j0 < |w'|
                                        && Refers(x, w', n', f, p, w'[DelBase(x, f, b) + j0]))
    requires forall a :: x.e.base <= a < n ==> w'[a] == w[a]
    ensures BlockAt(x, w', n', u, f, b, i + 1)
  {
    hide Address, Refers;
    var ps := x.files[f][b].patches;
    var j0 := ps[i].off / x.ipr;
    assert ps[..i + 1][..i] == ps[..i];
    if b > 0 { Arith.DivPos(|x.files[f][b].ops|, x.ipr); }
    var next := i + 1;
    forall j | FirstWord(b) <= j < OpWords(x, f, b) ensures WordOk(x, w', n', u, f, b, next, j) {
      WordInBlock(x, f, b, j);
      assert WordOk(x, w, n, u, f, b, i, j);
      if j != j0 { WordKept(x, w, n, w', n', u, f, b, i, j); }
    }
  }

  /** Only the block has changed below `n`. */
  ghost predicate Outside(x: Ctx, w: seq<Cell>, w': seq<Cell>, n: int, f: int, b: int)
    requires Shaped(x.files, x.ipr) && IsBlock(x.files, f, b)
  {
    |w'| == |w| && forall a :: 0 <= a < n && a < |w| && !InBlock(x, f, b, a) ==> w'[a] == w[a]
  }

  /** The header and the first `k` words of opcodes have been written, and the rest is blank. */
  ghost predicate WrittenTo(x: Ctx, w: seq<Cell>, f: int, b: int, k: int)
    requires CtxOk(x) && IsBlock(x.files, f, b) && FirstWord(b) <= k <= OpWords(x, f, b)
  {
    var a := Address(x.files, x.ipr, f, b);
    && 0 <= a && a + 1 < |w|
    && (b > 0 ==> w[a] == Num(Ptr(x.codeVector)) && w[a + 1] == Num(Fix(2 + OpWords(x, f, b))))
    && (forall j :: FirstWord(b) <= j < OpWords(x, f, b) ==> OpAt(x, w, f, b, k, j))
  }

  predicate OpAt(x: Ctx, w: seq<Cell>, f: int, b: int, k: int, j: int)
    requires Shaped(x.files, x.ipr) && IsBlock(x.files, f, b) && 0 <= j < OpWords(x, f, b)
  {
    var a := DelBase(x, f, b) + j;
    0 <= a < |w| && if j < k then w[a] == Opcodes(OpWord(x.files[f][b].ops, x.ipr, j)) else w[a].Zero()
  }

  lemma HeaderWritten(x: Ctx, w: seq<Cell>, f: int, b: int)
    requires CtxOk(x) && IsBlock(x.files, f, b) && BlockBlank(x, w, f, b) && x.e.base + 1 < |w|
    ensures var a := Address(x.files, x.ipr, f, b);
            && 3 <= a && a + BlockSize(x.files, x.ipr, f, b) <= x.e.base && FirstWord(b) <= OpWords(x, f, b)
            && (b > 0 ==> a + 1 < x.e.base && w[a].Zero() && w[a + 1].Zero() && 2 + OpWords(x, f, b) < x.e.limit
                          && WrittenTo(x, w[a := Num(Ptr(x.codeVector))][a + 1 := Num(Fix(2 + OpWords(x, f, b)))],
                              f, b, 0))
            && (b == 0 ==> WrittenTo(x, w, f, b, 1))
  {
    hide Address;
    BlockWithin(x.files, x.ipr, f, b);
    Arith.DivPos(|x.files[f][b].ops|, x.ipr);
    var z := FirstWord(b);
    forall j | z <= j < OpWords(x, f, b) ensures OpAt(x, w, f, b, z, j) && InBlock(x, f, b, DelBase(x, f, b) + j) {
      WordInBlock(x, f, b, j);
    }
    if b > 0 {
      assert InBlock(x, f, b, Address(x.files, x.ipr, f, b));
      assert InBlock(x, f, b, Address(x.files, x.ipr, f, b) + 1);
    }
  }

  lemma WordWritten(x: Ctx, w: seq<Cell>, f: int, b: int, k: int)
    requires CtxOk(x) && IsBlock(x.files, f, b) && FirstWord(b) <= k < OpWords(x, f, b) && WrittenTo(x, w, f, b, k)
    ensures var a := DelBase(x, f, b) + k;
            && 0 <= a < |w| && a < x.e.base && InBlock(x, f, b, a) && w[a].Zero()
            && WrittenTo(x, w[a := Opcodes(OpWord(x.files[f][b].ops, x.ipr, k))], f, b, k + 1)
  {
    hide Address, OpWord;
    WordInBlock(x, f, b, k);
    BlockWithin(x.files, x.ipr, f, b);
    assert OpAt(x, w, f, b, k, k);
    var a, next := DelBase(x, f, b) + k, k + 1;
    var w' := w[a := Opcodes(OpWord(x.files[f][b].ops, x.ipr, k))];
    forall j | FirstWord(b) <= j < OpWords(x, f, b) ensures OpAt(x, w', f, b, next, j) {
      assert OpAt(x, w, f, b, k, j);
    }
  }

  lemma {:induction false} NoRounds(files: seq<File>, ipr: int, g: int, u: int)
    requires Shaped(files, ipr) && u <= g
    ensures Rounds(files, ipr, g, u) == 0
    decreases u
  {
    if u > 0 { NoRounds(files, ipr, g, u - 1); }
  }

  /** Before it is chained a word has the opcodes it was given, and those of a word that is not the last
      never change. */
  lemma FirstOps(files: seq<File>, ipr: int, f: int, b: int, j: int)
    requires Shaped(files, ipr) && IsBlock(files, f, b) && 0 <= j < ColdLayout.Words(files[f][b], ipr)
    ensures FinalOps(files, ipr, f, f, b, j) == OpWord(files[f][b].ops, ipr, j)
    ensures KindOf(files, f, b) != TopLevel || j != ColdLayout.Words(files[f][b], ipr) - 1 ==>
              FinalOps(files, ipr, f + 1, f, b, j) == OpWord(files[f][b].ops, ipr, j)
  {
    hide OpWord;
    NoRounds(files, ipr, f, f);
  }

  /** Chaining file `f` takes one more RETURN off the word before its end, and touches no other. */
  lemma OpsAfter(files: seq<File>, ipr: int, f: int, g: int, c: int, j: int)
    requires Shaped(files, ipr) && 0 <= f < |files| && IsBlock(files, g, c)
    requires 0 <= j < ColdLayout.Words(files[g][c], ipr)
    ensures var was, now := FinalOps(files, ipr, f, g, c, j), FinalOps(files, ipr, f + 1, g, c, j);
            now == if f < |files| - 1 && Target(files, ipr, f) == g && c == 0
                      && j == ColdLayout.Words(files[g][c], ipr) - 1 && NoReturn(was).Some?
                   then NoReturn(was).value else was
  {
    hide OpWord, NoReturn, Target;
  }

  /** A block whose opcodes have been written and, if it is chained to the next, whose last word has
      lost its RETURN, is as it must be before its patches. */
  lemma BlockStarts(x: Ctx, w: seq<Cell>, n: int, f: int, b: int)
    requires CtxOk(x) && IsBlock(x.files, f, b) && FirstWord(b) <= OpWords(x, f, b)
    requires WrittenTo(x, w, f, b, OpWords(x, f, b))
    ensures KindOf(x.files, f, b) != TopLevel || OpWords(x, f, b) == 1 ==> BlockAt(x, w, n, f + 1, f, b, 0)
    ensures KindOf(x.files, f, b) == TopLevel && OpWords(x, f, b) >= 2 ==>
              var j := OpWords(x, f, b) - 1;
              var a := DelBase(x, f, b) + j;
              var ops := FinalOps(x.files, x.ipr, f, f, b, j);
              && 0 <= a < |w| && a < x.e.base && InBlock(x, f, b, a) && w[a] == Opcodes(ops)
              && (NoReturn(ops).Some? ==> BlockAt(x, w[a := Opcodes(NoReturn(ops).value)], n, f + 1, f, b, 0))
  {
    hide Address, OpWord, NoReturn, FinalOps, Target;
    BlockWithin(x.files, x.ipr, f, b);
    var words, z, u := OpWords(x, f, b), 0, f + 1;
    var ps := x.files[f][b].patches;
    assert ps[..0] == [];
    if KindOf(x.files, f, b) != TopLevel {
      forall j | FirstWord(b) <= j < words ensures WordOk(x, w, n, u, f, b, z, j) {
        assert OpAt(x, w, f, b, words, j);
        FirstOps(x.files, x.ipr, f, b, j);
      }
    } else if words >= 2 {
      var i := words - 1;
      var a := DelBase(x, f, b) + i;
      FirstOps(x.files, x.ipr, f, b, i);
      OpsAfter(x.files, x.ipr, f, f, b, i);
      TargetSelf(x.files, x.ipr, f);
      var ops := FinalOps(x.files, x.ipr, f, f, b, i);
      assert OpAt(x, w, f, b, words, i);
      WordInBlock(x, f, b, i);
      if NoReturn(ops).Some? {
        var w' := w[a := Opcodes(NoReturn(ops).value)];
        forall j | FirstWord(b) <= j < words ensures WordOk(x, w', n, u, f, b, z, j) {
          assert OpAt(x, w, f, b, words, j);
          FirstOps(x.files, x.ipr, f, b, j);
        }
      }
    }
  }

  lemma TargetSelf(files: seq<File>, ipr: int, f: int)
    requires Shaped(files, ipr) && 0 <= f < |files|
    ensures Target(files, ipr, f) == f <==> ColdLayout.Words(files[f][0], ipr) >= 2
  {
  }

  /** Storing what a patch asks for in its cell, or dropping it when it goes to a word the block
      does not keep. */
  lemma PatchStored(x: Ctx, w: seq<Cell>, n: int, w1: seq<Cell>, n1: int, u: int, f: int, b: int, i: int, ref: Word)
    requires CtxOk(x) && IsBlock(x.files, f, b) && 0 <= i < |x.files[f][b].patches|
    requires BlockAt(x, w, n, u, f, b, i) && x.e.base <= n <= n1 <= |w1| == |w|
    requires forall a :: 0 <= a < n ==> w1[a] == w[a]
    requires var p := x.files[f][b].patches[i];
             0 <= p.off / x.ipr < OpWords(x, f, b) && Refers(x, w1, n1, f, p, Num(ref))
    ensures var j := x.files[f][b].patches[i].off / x.ipr;
            var a := DelBase(x, f, b) + j;
            && (a >= Address(x.files, x.ipr, f, b) <==> FirstWord(b) <= j)
            && (FirstWord(b) <= j ==> 0 <= a < x.e.base && InBlock(x, f, b, a)
                                      && BlockAt(x, w1[a := Num(ref)], n1, u, f, b, i + 1))
            && (FirstWord(b) > j ==> BlockAt(x, w1, n1, u, f, b, i + 1))
  {
    hide Address, BlockAt, Refers;
    var p := x.files[f][b].patches[i];
    var j := p.off / x.ipr;
    var a := DelBase(x, f, b) + j;
    BlockWithin(x.files, x.ipr, f, b);
    if FirstWord(b) <= j {
      WordInBlock(x, f, b, j);
      var w2 := w1[a := Num(ref)];
      RefersKept(x, w1, n1, w2, n1, f, p, Num(ref));
      PatchApplied(x, w, n, w2, n1, u, f, b, i);
    } else {
      PatchApplied(x, w, n, w1, n1, u, f, b, i);
    }
  }

  lemma OutsideTrans(x: Ctx, w: seq<Cell>, w1: seq<Cell>, w2: seq<Cell>, n: int, n1: int, f: int, b: int)
    requires Shaped(x.files, x.ipr) && IsBlock(x.files, f, b) && n <= n1
    requires Outside(x, w, w1, n, f, b) && Outside(x, w1, w2, n1, f, b)
    ensures Outside(x, w, w2, n, f, b)
  {
  }

  /** No cell is in two blocks. */
  lemma OneBlock(x: Ctx, f: int, b: int, g: int, c: int, a: int)
    requires CtxOk(x) && IsBlock(x.files, f, b) && IsBlock(x.files, g, c)
    requires InBlock(x, f, b, a) && InBlock(x, g, c, a)
    ensures f == g && b == c
  {
    if Earlier(f, b, g, c) { BlocksInOrder(x.files, x.ipr, f, b, g, c); }
    if Earlier(g, c, f, b) { BlocksInOrder(x.files, x.ipr, g, c, f, b); }
  }

  /** Working on one block leaves the others as they were. */
  lemma OtherKept(x: Ctx, w: seq<Cell>, n: int, w': seq<Cell>, n': int, u: int, f: int, b: int, g: int, c: int)
    requires CtxOk(x) && IsBlock(x.files, f, b) && IsBlock(x.files, g, c) && (f != g || b != c)
    requires Outside(x, w, w', n, f, b) && x.e.base <= n <= n' <= |w|
    ensures BlockDone(x, w, n, u, g, c) ==> BlockDone(x, w', n', u, g, c)
    ensures BlockBlank(x, w, g, c) ==> BlockBlank(x, w', g, c)
  {
    hide Address, BlockSize, BlockAt;
    forall a | InBlock(x, g, c, a) ensures 3 <= a < x.e.base && !InBlock(x, f, b, a) {
      BlockWithin(x.files, x.ipr, g, c);
      if InBlock(x, f, b, a) { OneBlock(x, f, b, g, c, a); }
    }
    forall a | x.e.base <= a < n ensures w'[a] == w[a] {
      BlockWithin(x.files, x.ipr, f, b);
    }
    if BlockDone(x, w, n, u, g, c) { BlockKept(x, w, n, w', n', u, g, c); }
  }

  /** spew_opcodes has come to block `b` of file `f`. */
  predicate Before(f: int, b: int, g: int, c: int) { g < f || (g == f && c < b) }

  /** The files that have been chained by then: a file's first block is what is chained. */
  function Upto(f: int, b: int): int { if b == 0 then f else f + 1 }

  ghost predicate Progress(x: Ctx, w: seq<Cell>, n: int, f: int, b: int)
    requires CtxOk(x)
  {
    && (forall g, c :: IsBlock(x.files, g, c) && Before(f, b, g, c) ==> BlockDone(x, w, n, Upto(f, b), g, c))
    && (forall g, c :: IsBlock(x.files, g, c) && !Before(f, b, g, c) ==> BlockBlank(x, w, g, c))
  }

  /** The same of all blocks but the one that is being worked on. */
  ghost predicate Others(x: Ctx, w: seq<Cell>, n: int, u: int, f: int, b: int)
    requires CtxOk(x)
  {
    forall g, c :: IsBlock(x.files, g, c) && (g != f || c != b) ==>
      if Before(f, b, g, c) then BlockDone(x, w, n, u, g, c) else BlockBlank(x, w, g, c)
  }

  lemma ProgressOthers(x: Ctx, w: seq<Cell>, n: int, f: int, b: int)
    requires CtxOk(x) && IsBlock(x.files, f, b) && Progress(x, w, n, f, b)
    ensures Others(x, w, n, Upto(f, b), f, b) && BlockBlank(x, w, f, b)
  {
    hide BlockDone, BlockBlank;
    assert !Before(f, b, f, b);
  }

  lemma OthersProgress(x: Ctx, w: seq<Cell>, n: int, f: int, b: int)
    requires CtxOk(x) && IsBlock(x.files, f, b) && Others(x, w, n, f + 1, f, b) && BlockDone(x, w, n, f + 1, f, b)
    ensures Upto(f, b + 1) == f + 1 && Progress(x, w, n, f, b + 1)
  {
    hide BlockDone, BlockBlank;
  }

  lemma OthersKept(x: Ctx, w: seq<Cell>, n: int, w': seq<Cell>, n': int, u: int, f: int, b: int)
    requires CtxOk(x) && IsBlock(x.files, f, b) && Others(x, w, n, u, f, b)
    requires Outside(x, w, w', n, f, b) && x.e.base <= n <= n' <= |w|
    ensures Others(x, w', n', u, f, b)
  {
    hide BlockDone, BlockBlank, Outside;
    forall g, c | IsBlock(x.files, g, c) && (g != f || c != b)
      ensures if Before(f, b, g, c) then BlockDone(x, w', n', u, g, c) else BlockBlank(x, w', g, c)
    {
      OtherKept(x, w, n, w', n', u, f, b, g, c);
    }
  }

  /** Chaining file `f` leaves a block that has not the word before its end as it was. */
  lemma DoneLater(x: Ctx, w: seq<Cell>, n: int, f: int, g: int, c: int)
    requires CtxOk(x) && 0 <= f < |x.files| && IsBlock(x.files, g, c) && BlockDone(x, w, n, f, g, c)
    requires f == |x.files| - 1 || c > 0 || g != Target(x.files, x.ipr, f)
    ensures BlockDone(x, w, n, f + 1, g, c)
  {
    hide Address, FinalOps, Refers, Target;
    var i, u := |x.files[g][c].patches|, f + 1;
    if c > 0 { Arith.DivPos(|x.files[g][c].ops|, x.ipr); }
    forall j | FirstWord(c) <= j < OpWords(x, g, c) ensures WordOk(x, w, n, u, g, c, i, j) {
      assert WordOk(x, w, n, f, g, c, i, j);
      OpsAfter(x.files, x.ipr, f, g, c, j);
    }
  }

  /** A file that is not chained, or is chained by its own last word, leaves the others as they were. */
  lemma OthersLater(x: Ctx, w: seq<Cell>, n: int, f: int)
    requires CtxOk(x) && IsBlock(x.files, f, 0) && Others(x, w, n, f, f, 0)
    requires f == |x.files| - 1 || Target(x.files, x.ipr, f) == f
    ensures Others(x, w, n, f + 1, f, 0)
  {
    hide BlockDone, BlockBlank, Target;
    var u := f + 1;
    forall g, c | IsBlock(x.files, g, c) && (g != f || c != 0)
      ensures if Before(f, 0, g, c) then BlockDone(x, w, n, u, g, c) else BlockBlank(x, w, g, c)
    {
      if Before(f, 0, g, c) { DoneLater(x, w, n, f, g, c); }
    }
  }

  /** The word before the end of top level block `f` is the last of its target, or the header of the code
      vector. */
  lemma {:induction false} TargetWord(x: Ctx, f: int)
    requires CtxOk(x) && 0 <= f < |x.files|
    ensures var t := Target(x.files, x.ipr, f);
            var a := DelBase(x, f, 0) + OpWords(x, f, 0) - 1;
            a == if t < 0 then 2 else DelBase(x, t, 0) + OpWords(x, t, 0) - 1
    decreases f
  {
    TopSteps(x.files, x.ipr, f);
    assert ColdLayout.Words(x.files[f][0], x.ipr) >= 1;
    if f > 0 {
      TopSteps(x.files, x.ipr, f - 1);
      TargetWord(x, f - 1);
    }
  }

  /** What changereturntonoop finds when a block that keeps no word is chained, and what it leaves. */
  lemma ChainBack(x: Ctx, w: seq<Cell>, n: int, f: int)
    requires CtxOk(x) && IsBlock(x.files, f, 0) && f < |x.files| - 1 && Others(x, w, n, f, f, 0)
    requires Target(x.files, x.ipr, f) < f && x.e.base <= n <= |w| && w[2].Num?
    ensures var a := DelBase(x, f, 0) + OpWords(x, f, 0) - 1;
            && 2 <= a < x.e.base && (a > 2 ==> 3 <= a < CodeEnd(x.files, x.ipr))
            && ((w[a].Opcodes? && NoReturn(w[a].ops).Some?) <==> Chainable(x.files, x.ipr, f, 0))
            && (Chainable(x.files, x.ipr, f, 0) ==>
                  a > 2 && Others(x, w[a := Opcodes(NoReturn(w[a].ops).value)], n, f + 1, f, 0))
  {
    hide Address, NoReturn, Target, FinalOps, Others, CodeEnd;
    var t := Target(x.files, x.ipr, f);
    TargetWord(x, f);
    CodeBounds(x);
    if t >= 0 {
      TargetCell(x, w, n, f, t);
      if Chainable(x.files, x.ipr, f, 0) { TargetChanged(x, w, n, f, t); }
    }
  }

  lemma CodeBounds(x: Ctx)
    requires CtxOk(x)
    ensures 3 <= CodeEnd(x.files, x.ipr) <= x.e.base
  {
  }

  lemma TargetFilled(files: seq<File>, ipr: int, f: int)
    requires Shaped(files, ipr) && 0 <= f < |files| && Target(files, ipr, f) >= 0
    ensures ColdLayout.Words(files[Target(files, ipr, f)][0], ipr) >= 2
  {
  }

  lemma TargetCell(x: Ctx, w: seq<Cell>, n: int, f: int, t: int)
    requires CtxOk(x) && IsBlock(x.files, f, 0) && Others(x, w, n, f, f, 0) && x.e.base <= n <= |w|
    requires t == Target(x.files, x.ipr, f) && 0 <= t < f
    ensures var last := OpWords(x, t, 0) - 1;
            var a := DelBase(x, t, 0) + last;
            && last >= 1 && 3 <= a < CodeEnd(x.files, x.ipr) && InBlock(x, t, 0, a) && a < |w|
            && BlockDone(x, w, n, f, t, 0)
            && (if LastPatch(x.files[t][0].patches, x.ipr, last) < 0
                then w[a] == Opcodes(FinalOps(x.files, x.ipr, f, t, 0, last)) else w[a].Num?)
  {
    hide Address, FinalOps, Target;
    TargetFilled(x.files, x.ipr, f);
    var last, ps := OpWords(x, t, 0) - 1, x.files[t][0].patches;
    assert Before(f, 0, t, 0);
    assert BlockDone(x, w, n, f, t, 0);
    assert WordOk(x, w, n, f, t, 0, |ps|, last);
    assert ps[..|ps|] == ps;
    BlockWithin(x.files, x.ipr, t, 0);
    WordInBlock(x, t, 0, last);
  }

  lemma TargetChanged(x: Ctx, w: seq<Cell>, n: int, f: int, t: int)
    requires CtxOk(x) && IsBlock(x.files, f, 0) && f < |x.files| - 1 && Others(x, w, n, f, f, 0)
    requires x.e.base <= n <= |w| && t == Target(x.files, x.ipr, f) && 0 <= t < f && Chainable(x.files, x.ipr, f, 0)
    ensures var a := DelBase(x, t, 0) + OpWords(x, t, 0) - 1;
            && 0 <= a < |w| && w[a].Opcodes? && NoReturn(w[a].ops).Some?
            && Others(x, w[a := Opcodes(NoReturn(w[a].ops).value)], n, f + 1, f, 0)
  {
    hide Address, NoReturn, Target, FinalOps, BlockDone, BlockBlank, CodeEnd;
    TargetCell(x, w, n, f, t);
    var a, u := DelBase(x, t, 0) + OpWords(x, t, 0) - 1, f + 1;
    var w' := w[a := Opcodes(NoReturn(w[a].ops).value)];
    TargetOutside(x, w, w', n, t, a);
    forall g, c | IsBlock(x.files, g, c) && (g != f || c != 0)
      ensures if Before(f, 0, g, c) then BlockDone(x, w', n, u, g, c) else BlockBlank(x, w', g, c)
    {
      if g == t && c == 0 {
        TargetDone(x, w, n, f, t);
      } else {
        OtherKept(x, w, n, w', n, f, t, 0, g, c);
        if Before(f, 0, g, c) { DoneLater(x, w', n, f, g, c); }
      }
    }
  }

  lemma TargetOutside(x: Ctx, w: seq<Cell>, w': seq<Cell>, n: int, t: int, a: int)
    requires CtxOk(x) && IsBlock(x.files, t, 0) && InBlock(x, t, 0, a) && 0 <= a < |w| == |w'|
    requires forall i :: 0 <= i < |w| && i != a ==> w'[i] == w[i]
    ensures Outside(x, w, w', n, t, 0)
  {
  }

  /** The target itself, with one RETURN less. */
  lemma TargetDone(x: Ctx, w: seq<Cell>, n: int, f: int, t: int)
    requires CtxOk(x) && IsBlock(x.files, f, 0) && f < |x.files| - 1 && Others(x, w, n, f, f, 0)
    requires x.e.base <= n <= |w| && t == Target(x.files, x.ipr, f) && 0 <= t < f && Chainable(x.files, x.ipr, f, 0)
    ensures var a := DelBase(x, t, 0) + OpWords(x, t, 0) - 1;
            && 0 <= a < |w| && w[a].Opcodes? && NoReturn(w[a].ops).Some?
            && BlockDone(x, w[a := Opcodes(NoReturn(w[a].ops).value)], n, f + 1, t, 0)
  {
    hide Address, NoReturn, Target, FinalOps, CodeEnd;
    TargetCell(x, w, n, f, t);
    CodeBounds(x);
    var last, i, u := OpWords(x, t, 0) - 1, |x.files[t][0].patches|, f + 1;
    var a := DelBase(x, t, 0) + last;
    var w' := w[a := Opcodes(NoReturn(w[a].ops).value)];
    assert x.files[t][0].patches[..i] == x.files[t][0].patches;
    forall j | 1 <= j < OpWords(x, t, 0) ensures WordOk(x, w', n, u, t, 0, i, j) {
      assert WordOk(x, w, n, f, t, 0, i, j);
      OpsAfter(x.files, x.ipr, f, t, 0, j);
      if j != last {
        WordKept(x, w, n, w', n, f, t, 0, i, j);
      }
    }
  }

  /** Nothing has changed below `n` but the blocks. */
  ghost predicate OnlyBody(x: Ctx, w: seq<Cell>, w': seq<Cell>, n: int)
    requires CtxOk(x)
  {
    |w'| == |w| && forall a :: 0 <= a < n && a < |w| && !(3 <= a < CodeEnd(x.files, x.ipr)) ==> w'[a] == w[a]
  }

  lemma BodyOutside(x: Ctx, w: seq<Cell>, w': seq<Cell>, n: int, f: int, b: int)
    requires CtxOk(x) && IsBlock(x.files, f, b) && Outside(x, w, w', n, f, b)
    ensures OnlyBody(x, w, w', n)
  {
    hide Address, BlockSize, CodeEnd;
    BlockWithin(x.files, x.ipr, f, b);
  }

  lemma BodyTrans(x: Ctx, w: seq<Cell>, w1: seq<Cell>, w2: seq<Cell>, n: int, n1: int)
    requires CtxOk(x) && n <= n1 && OnlyBody(x, w, w1, n) && OnlyBody(x, w1, w2, n1)
    ensures OnlyBody(x, w, w2, n)
  {
  }

  /** A block that is not chained needs only its opcodes. */
  lemma PlainEffect(x: Ctx, w: seq<Cell>, n: int, f: int, b: int)
    requires CtxOk(x) && IsBlock(x.files, f, b) && KindOf(x.files, f, b) != TopLevel
    requires Others(x, w, n, Upto(f, b), f, b)
    requires FirstWord(b) <= OpWords(x, f, b) && WrittenTo(x, w, f, b, OpWords(x, f, b))
    ensures Others(x, w, n, f + 1, f, b) && BlockAt(x, w, n, f + 1, f, b, 0) && Chainable(x.files, x.ipr, f, b)
  {
    hide Others, BlockAt, WrittenTo;
    BlockStarts(x, w, n, f, b);
    if b == 0 { OthersLater(x, w, n, f); }
  }

  /** What changereturntonoop finds at the end of a block that is chained, and what it leaves. */
  lemma ChainEffect(x: Ctx, w: seq<Cell>, n: int, f: int)
    requires CtxOk(x) && IsBlock(x.files, f, 0) && f < |x.files| - 1 && Others(x, w, n, f, f, 0)
    requires 1 <= OpWords(x, f, 0) && WrittenTo(x, w, f, 0, OpWords(x, f, 0))
    requires x.e.base <= n <= |w| && w[2].Num?
    ensures var a := DelBase(x, f, 0) + OpWords(x, f, 0) - 1;
            && 0 <= a < x.e.base
            && ((w[a].Opcodes? && NoReturn(w[a].ops).Some?) <==> Chainable(x.files, x.ipr, f, 0))
            && (Chainable(x.files, x.ipr, f, 0) ==>
                  var w' := w[a := Opcodes(NoReturn(w[a].ops).value)];
                  && Others(x, w', n, f + 1, f, 0) && BlockAt(x, w', n, f + 1, f, 0, 0) && OnlyBody(x, w, w', |w|))
  {
    hide Others, WrittenTo, Address, NoReturn, Target, FinalOps, CodeEnd;
    BlockStarts(x, w, n, f, 0);
    TargetSelf(x.files, x.ipr, f);
    var a := DelBase(x, f, 0) + OpWords(x, f, 0) - 1;
    if OpWords(x, f, 0) >= 2 {
      if Chainable(x.files, x.ipr, f, 0) {
        var w' := w[a := Opcodes(NoReturn(w[a].ops).value)];
        TargetOutside(x, w, w', n, f, a);
        TargetOutside(x, w, w', |w|, f, a);
        BodyOutside(x, w, w', |w|, f, 0);
        OthersKept(x, w, n, w', n, f, f, 0);
        OthersLater(x, w', n, f);
      }
    } else {
      ChainBack(x, w, n, f);
    }
  }

  lemma ProgressFile(x: Ctx, w: seq<Cell>, n: int, f: int)
    requires CtxOk(x) && 0 <= f < |x.files| && Progress(x, w, n, f, |x.files[f]|)
    ensures Progress(x, w, n, f + 1, 0)
  {
    hide BlockDone, BlockBlank;
    var next := f + 1;
    assert Upto(f, |x.files[f]|) == Upto(next, 0);
    forall g, c | IsBlock(x.files, g, c) ensures Before(next, 0, g, c) <==> Before(f, |x.files[f]|, g, c) {
    }
  }
}
