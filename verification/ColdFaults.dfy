/** What makes oak-cold-linker.c give up on a block, told from the object files alone. */
module ColdFaults {
  import opened Words
  import opened ColdData
  import opened ColdCount
  import opened ColdLayout
  import opened ColdPhases
  import opened ColdImage

  /** How writing code ends.  There is no case for running out of space, for an unknown symbol or
      variable, or for overwriting anything but through a patch. */
  datatype Result = Done | NotFixnum | PatchOverwrites | NoSuchBlock | UnknownKind | BadTopLevelEnd

  /** Every integer in the constant is a fixnum of the target. */
  predicate IntsFit(limit: int, s: Sexp) {
    match s
    case Int(i) => -limit <= i < limit
    case Cons(a, d) => IntsFit(limit, a) && IntsFit(limit, d)
    case _ => true
  }

  predicate Noops(ops: seq<int>) { forall o <- ops :: o == 0 }

  /** The one thing a patch can ask for whose word looks like an unwritten one: the constant 0. */
  predicate AsksForZero(p: Patch) { p.Constant? && p.s == Int(0) }

  /** Patch `i` goes to a word that is taken: by opcodes other than noops, once the final RETURN has
      been removed, or by an earlier patch of the same word. */
  ghost predicate Clash(files: seq<File>, ipr: int, f: int, b: int, i: int)
    requires Shaped(files, ipr) && IsBlock(files, f, b) && 0 <= i < |files[f][b].patches|
  {
    var ps := files[f][b].patches;
    var j := ps[i].off / ipr;
    && FirstWord(b) <= j < ColdLayout.Words(files[f][b], ipr)
    && (!Noops(FinalOps(files, ipr, f + 1, f, b, j))
        || exists k :: 0 <= k < i && ps[k].off / ipr == j && !AsksForZero(ps[k]))
  }

  /** What a patch asks for is not there. */
  predicate Unresolved(files: seq<File>, limit: int, f: int, p: Patch, r: Result) {
    match p
    case Constant(_, s) => r == NotFixnum && !IntsFit(limit, s)
    case Variable(_, _) => false
    case Code(_, blk) => r == NoSuchBlock && !IsBlock(files, f, blk)
    case Unknown(_) => r == UnknownKind
  }

  predicate Resolved(files: seq<File>, limit: int, f: int, p: Patch) {
    match p
    case Constant(_, s) => IntsFit(limit, s)
    case Variable(_, _) => true
    case Code(_, blk) => IsBlock(files, f, blk)
    case Unknown(_) => false
  }

  ghost predicate PatchGood(files: seq<File>, ipr: int, limit: int, f: int, b: int, i: int)
    requires Shaped(files, ipr) && IsBlock(files, f, b) && 0 <= i < |files[f][b].patches|
  {
    Resolved(files, limit, f, files[f][b].patches[i]) && !Clash(files, ipr, f, b, i)
  }

  /** The first `i` patches can be applied. */
  ghost predicate PatchesGood(files: seq<File>, ipr: int, limit: int, f: int, b: int, i: int)
    requires Shaped(files, ipr) && IsBlock(files, f, b) && i <= |files[f][b].patches|
  {
    forall k :: 0 <= k < i ==> PatchGood(files, ipr, limit, f, b, k)
  }

  /** A block that can be linked. */
  ghost predicate Sound(files: seq<File>, ipr: int, limit: int, f: int, b: int)
    requires Shaped(files, ipr) && IsBlock(files, f, b)
  {
    Chainable(files, ipr, f, b) && PatchesGood(files, ipr, limit, f, b, |files[f][b].patches|)
  }

  /** The first patch of a block that cannot be applied is refused for the reason `r`: what it asks
      for is looked up before its word is looked at. */
  ghost predicate PatchFails(files: seq<File>, ipr: int, limit: int, f: int, b: int, i: int, r: Result)
    requires Shaped(files, ipr) && IsBlock(files, f, b) && 0 <= i < |files[f][b].patches|
  {
    && PatchesGood(files, ipr, limit, f, b, i)
    && (Unresolved(files, limit, f, files[f][b].patches[i], r)
        || (r == PatchOverwrites && Resolved(files, limit, f, files[f][b].patches[i]) && Clash(files, ipr, f, b, i)))
  }

  /** Why a block cannot be linked. */
  ghost predicate Fault(files: seq<File>, ipr: int, limit: int, f: int, b: int, r: Result)
    requires Shaped(files, ipr) && IsBlock(files, f, b)
  {
    if !Chainable(files, ipr, f, b) then r == BadTopLevelEnd
    else exists i :: 0 <= i < |files[f][b].patches| && PatchFails(files, ipr, limit, f, b, i, r)
  }

  lemma FaultUnsound(files: seq<File>, ipr: int, limit: int, f: int, b: int, r: Result)
    requires Shaped(files, ipr) && IsBlock(files, f, b) && Fault(files, ipr, limit, f, b, r)
    ensures !Sound(files, ipr, limit, f, b) && r != Done
  {
    if Chainable(files, ipr, f, b) {
      var i :| 0 <= i < |files[f][b].patches| && PatchFails(files, ipr, limit, f, b, i, r);
      assert !PatchGood(files, ipr, limit, f, b, i);
    }
  }

  /** The blocks before block `b` of file `f`, in the order they are written, can be linked. */
  ghost predicate SoundBefore(files: seq<File>, ipr: int, limit: int, f: int, b: int)
    requires Shaped(files, ipr)
  {
    forall g, c :: IsBlock(files, g, c) && ColdImage.Before(f, b, g, c) ==> Sound(files, ipr, limit, g, c)
  }

  ghost predicate AllSound(files: seq<File>, ipr: int, limit: int)
    requires Shaped(files, ipr)
  {
    forall f, b :: IsBlock(files, f, b) ==> Sound(files, ipr, limit, f, b)
  }

  /** The first block that cannot be linked cannot for the reason `r`. */
  ghost predicate FirstFault(files: seq<File>, ipr: int, limit: int, r: Result)
    requires Shaped(files, ipr)
  {
    exists f, b :: IsBlock(files, f, b) && SoundBefore(files, ipr, limit, f, b) && Fault(files, ipr, limit, f, b, r)
  }

  lemma FirstFaultUnsound(files: seq<File>, ipr: int, limit: int, r: Result)
    requires Shaped(files, ipr) && FirstFault(files, ipr, limit, r)
    ensures !AllSound(files, ipr, limit) && r != Done
  {
    hide Fault, Sound;
    var f, b :| IsBlock(files, f, b) && SoundBefore(files, ipr, limit, f, b) && Fault(files, ipr, limit, f, b, r);
    FaultUnsound(files, ipr, limit, f, b, r);
  }

  /** There is at most one reason linking can fail for. */
  lemma OneFault(files: seq<File>, ipr: int, limit: int, f: int, b: int, r: Result, q: Result)
    requires Shaped(files, ipr) && IsBlock(files, f, b)
    requires Fault(files, ipr, limit, f, b, r) && Fault(files, ipr, limit, f, b, q)
    ensures r == q
  {
    hide Clash, IntsFit;
    if Chainable(files, ipr, f, b) {
      var i :| 0 <= i < |files[f][b].patches| && PatchFails(files, ipr, limit, f, b, i, r);
      var k :| 0 <= k < |files[f][b].patches| && PatchFails(files, ipr, limit, f, b, k, q);
      assert !PatchGood(files, ipr, limit, f, b, i) && !PatchGood(files, ipr, limit, f, b, k);
      assert i == k;
    }
  }

  lemma FirstFaultUnique(files: seq<File>, ipr: int, limit: int, r: Result, q: Result)
    requires Shaped(files, ipr) && FirstFault(files, ipr, limit, r) && FirstFault(files, ipr, limit, q)
    ensures r == q
  {
    hide Fault, Sound;
    var f, b :| IsBlock(files, f, b) && SoundBefore(files, ipr, limit, f, b) && Fault(files, ipr, limit, f, b, r);
    var g, c :| IsBlock(files, g, c) && SoundBefore(files, ipr, limit, g, c) && Fault(files, ipr, limit, g, c, q);
    FaultUnsound(files, ipr, limit, f, b, r);
    FaultUnsound(files, ipr, limit, g, c, q);
    assert !ColdImage.Before(f, b, g, c) && !ColdImage.Before(g, c, f, b);
    OneFault(files, ipr, limit, f, b, r, q);
  }

  // ---- What the world shows of it ----

  lemma {:induction false} LastPatchIs(ps: seq<Patch>, ipr: int, j: int)
    requires ipr > 0
    ensures var k := LastPatch(ps, ipr, j);
            && (k >= 0 ==> ps[k].off / ipr == j) && forall m :: k < m < |ps| ==> ps[m].off / ipr != j
    decreases |ps|
  {
    if ps != [] && ps[|ps| - 1].off / ipr != j {
      var init := ps[..|ps| - 1];
      LastPatchIs(init, ipr, j);
      forall m | LastPatch(ps, ipr, j) < m < |ps| ensures ps[m].off / ipr != j {
        if m < |init| { assert init[m].off / ipr != j; }
      }
    }
  }

  /** A word that refers to something is blank only if that is the number 0. */
  lemma ZeroReference(x: Ctx, w: seq<Cell>, n: int, f: int, p: Patch, c: Cell)
    requires CtxOk(x) && Refers(x, w, n, f, p, c)
    ensures c.Zero() <==> AsksForZero(p)
  {
  }

  /** When the first `i` patches have been applied, the word the next one goes to is taken exactly
      if the object file has a clash there. */
  lemma TakenIsClash(x: Ctx, w: seq<Cell>, n: int, f: int, b: int, i: int, limit: int)
    requires CtxOk(x) && IsBlock(x.files, f, b) && 0 <= i < |x.files[f][b].patches| && BlockAt(x, w, n, f + 1, f, b, i)
    requires PatchesGood(x.files, x.ipr, limit, f, b, i)
    requires FirstWord(b) <= x.files[f][b].patches[i].off / x.ipr < OpWords(x, f, b)
    ensures var a := DelBase(x, f, b) + x.files[f][b].patches[i].off / x.ipr;
            0 <= a < |w| && (w[a].Zero() <==> !Clash(x.files, x.ipr, f, b, i))
  {
    hide Address, Refers, FinalOps, Resolved;
    var ps := x.files[f][b].patches;
    var j := ps[i].off / x.ipr;
    assert WordOk(x, w, n, f + 1, f, b, i, j);
    var k := LastPatch(ps[..i], x.ipr, j);
    LastPatchIs(ps[..i], x.ipr, j);
    if k < 0 {
      forall m | 0 <= m < i ensures ps[m].off / x.ipr != j {
        assert ps[..i][m].off / x.ipr != j;
      }
    } else {
      assert PatchGood(x.files, x.ipr, limit, f, b, k);
      ZeroReference(x, w, n, f, ps[k], w[DelBase(x, f, b) + j]);
      forall m | k < m < i ensures ps[m].off / x.ipr != j {
        assert ps[..i][m].off / x.ipr != j;
      }
    }
  }

  /** Laying out what a patch asks for writes nothing in code space. */
  lemma TakenAfterRef(x: Ctx, w: seq<Cell>, n: int, w1: seq<Cell>, n1: int, f: int, b: int, i: int, limit: int)
    requires CtxOk(x) && IsBlock(x.files, f, b) && 0 <= i < |x.files[f][b].patches| && BlockAt(x, w, n, f + 1, f, b, i)
    requires PatchesGood(x.files, x.ipr, limit, f, b, i) && x.e.base <= n <= n1 <= |w1| == |w|
    requires 0 <= x.files[f][b].patches[i].off / x.ipr < OpWords(x, f, b)
    requires forall a :: 0 <= a < n ==> w1[a] == w[a]
    ensures var j := x.files[f][b].patches[i].off / x.ipr;
            var a := DelBase(x, f, b) + j;
            && (a >= Address(x.files, x.ipr, f, b) <==> FirstWord(b) <= j)
            && (FirstWord(b) <= j ==> 0 <= a < |w1| && (w1[a].Zero() <==> !Clash(x.files, x.ipr, f, b, i)))
            && (FirstWord(b) > j ==> !Clash(x.files, x.ipr, f, b, i))
  {
    hide BlockAt, Address, FinalOps, PatchesGood;
    var j := x.files[f][b].patches[i].off / x.ipr;
    if FirstWord(b) <= j {
      TakenIsClash(x, w, n, f, b, i, limit);
      WordInBlock(x, f, b, j);
      BlockWithin(x.files, x.ipr, f, b);
    }
  }

  // ---- Which blocks have been found to be in order ----

  lemma FaultIsFirst(files: seq<File>, ipr: int, limit: int, f: int, b: int, r: Result)
    requires Shaped(files, ipr) && IsBlock(files, f, b)
    requires SoundBefore(files, ipr, limit, f, b) && Fault(files, ipr, limit, f, b, r)
    ensures FirstFault(files, ipr, limit, r)
  {
  }

  lemma NothingBefore(files: seq<File>, ipr: int, limit: int)
    requires Shaped(files, ipr)
    ensures SoundBefore(files, ipr, limit, 0, 0)
  {
  }

  lemma SoundStep(files: seq<File>, ipr: int, limit: int, f: int, b: int)
    requires Shaped(files, ipr) && IsBlock(files, f, b)
    requires SoundBefore(files, ipr, limit, f, b) && Sound(files, ipr, limit, f, b)
    ensures SoundBefore(files, ipr, limit, f, b + 1)
  {
    hide Sound;
  }

  lemma SoundFile(files: seq<File>, ipr: int, limit: int, f: int)
    requires Shaped(files, ipr) && 0 <= f < |files| && SoundBefore(files, ipr, limit, f, |files[f]|)
    ensures SoundBefore(files, ipr, limit, f + 1, 0)
  {
    hide Sound;
    assert forall g, c :: IsBlock(files, g, c) && ColdImage.Before(f + 1, 0, g, c) ==>
             ColdImage.Before(f, |files[f]|, g, c);
  }

  lemma AllBefore(files: seq<File>, ipr: int, limit: int)
    requires Shaped(files, ipr) && SoundBefore(files, ipr, limit, |files|, 0)
    ensures AllSound(files, ipr, limit)
  {
    hide Sound;
    assert forall g, c :: IsBlock(files, g, c) ==> ColdImage.Before(|files|, 0, g, c);
  }
}
