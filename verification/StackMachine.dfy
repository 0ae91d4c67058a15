/** What the stack instructions of loop.c mean: two unbounded stacks, continuations that are copies
    of them, and escapes that record their heights. */
module StackMachine {
  import opened Words
  import opened Stacks

  datatype Frame = Frame(pc: Word, meth: Word, env: Word)
  datatype Photo = Photo(vals: seq<Word>, cxts: seq<Word>)
  datatype Heights = Heights(val: int, cxt: int)

  datatype Machine = Machine(vals: seq<Word>, cxts: seq<Word>, regs: Frame,
                             photos: map<int, Photo>, escapes: map<int, Heights>)

  /** What instructions do to the stacks.  One that computes a value from its arguments is a run of
      these: it pops all its arguments but the last and replaces that (`SetTop`).  `Reach` is a look at
      a value some way down, as a call does.  `Jump` and `SetEscape` stand for what can happen to the
      registers and to the two heights an escape object holds. */
  datatype Op =
    | Push(v: Word) | Pop | PopMany(n: int) | SetTop(v: Word) | Reach(n: int)
    | Load(n: int) | Store(n: int) | Swap(n: int) | Blast(n: int) | Blt(stuff: int, trash: int)
    | MakeEnvironment(n: int, v: Word)
    | PushContext(pc: Word) | PopContext | Jump(regs: Frame) | SetEscape(a: int, h: Heights)
    | FillContinuation | Continue | FillTag(n: int) | Throw

  datatype Result = Next(m: Machine) | Fatal | Trap | Wild

  /** The argument fields the instruction format allows. */
  predicate Encodable(op: Op) {
    match op
    case PopMany(n) => 0 <= n <= 255
    case Load(n) => 0 <= n <= 255
    case Store(n) => 0 <= n <= 255
    case Swap(n) => 0 <= n <= 255
    case Blast(n) => 0 <= n <= 255
    case Reach(n) => 0 <= n <= 255
    case MakeEnvironment(n, _) => 0 <= n <= 255
    case FillTag(n) => 0 <= n <= 255
    case Blt(stuff, trash) => 0 <= stuff <= 15 && 0 <= trash <= 15
    case _ => true
  }

  function Top(s: seq<Word>): Word
    requires s != []
  {
    s[|s| - 1]
  }

  function Rest(s: seq<Word>): seq<Word>
    requires s != []
  {
    s[..|s| - 1]
  }

  /** Leave through the frame on top of `cxts`. */
  function Return(m: Machine, vals: seq<Word>, cxts: seq<Word>): Result {
    if |cxts| <= 3 then Fatal
    else var n := |cxts|;
         Next(m.(vals := vals, cxts := cxts[..n - 3], regs := Frame(cxts[n - 3], cxts[n - 2], cxts[n - 1])))
  }

  /** FILL-CONTINUATION and CONTINUE, with the object on top of at least one more value. */
  function Capture(m: Machine, x: Word): Result
    requires |m.vals| >= 2
  {
    if !x.Ptr? then Wild
    else Next(m.(photos := m.photos[x.a := Photo(m.vals[..|m.vals| - 2], m.cxts)]))
  }

  function Resume(m: Machine, x: Word): Result
    requires m.vals != []
  {
    if !x.Ptr? then Trap
    else if x.a !in m.photos then Wild
    else Return(m, m.photos[x.a].vals + [Top(m.vals)], m.photos[x.a].cxts)
  }

  /** THROW, once the object thrown to has been popped. */
  function ThrowTo(m: Machine, x: Word): Result
    requires m.vals != []
  {
    if !x.Ptr? then Trap
    else if x.a !in m.escapes then Wild
    else
      var h := m.escapes[x.a];
      if h.val < 0 || h.val > |m.vals| || h.cxt < 0 || h.cxt > |m.cxts| then Trap
      else Unwound(m, h, Top(m.vals))
  }

  function Unwound(m: Machine, h: Heights, y: Word): Result
    requires 0 <= h.val <= |m.vals| && 0 <= h.cxt <= |m.cxts|
  {
    if h.val == 0 then Fatal else Return(m, m.vals[..h.val] + [y], m.cxts[..h.cxt])
  }

  function Do(m: Machine, op: Op): Result
    requires Encodable(op)
  {
    var n := |m.vals|;
    match op
    case Push(v) => Next(m.(vals := m.vals + [v]))
    case Pop => if n < 2 then Fatal else Next(m.(vals := Rest(m.vals)))
    case PopMany(k) => if 0 < k && n <= k then Fatal else Next(m.(vals := Dropped(m.vals, k)))
    case SetTop(v) => if n == 0 then Wild else Next(m.(vals := Rest(m.vals) + [v]))
    case Reach(k) => if n <= k then Fatal else Next(m)
    case Load(k) => if n <= k then Fatal else Next(m.(vals := m.vals + [m.vals[n - 1 - k]]))
    case Store(k) => if n <= k then Fatal else Next(m.(vals := m.vals[n - 1 - k := Top(m.vals)]))
    case Swap(k) => if n <= k then Fatal else Next(m.(vals := Swapped(m.vals, k)))
    case Blast(k) => if n <= k then Fatal else Next(m.(vals := Rest(m.vals[n - 1 - k := Top(m.vals)])))
    case MakeEnvironment(k, v) => if n < k then Fatal else Next(m.(vals := m.vals[..n - k] + [v]))
    case Blt(stuff, trash) =>
      if n <= stuff + trash then Fatal else Next(m.(vals := DroppedUnder(m.vals, stuff, trash + 1)))
    case PushContext(pc) => Next(m.(cxts := m.cxts + [pc, m.regs.meth, m.regs.env]))
    case PopContext => Return(m, m.vals, m.cxts)
    case Jump(regs) => Next(m.(regs := regs))
    case SetEscape(a, h) => Next(m.(escapes := m.escapes[a := h]))
    case FillContinuation => if n < 2 then Fatal else Capture(m, Top(m.vals))
    case Continue => if n < 2 then Fatal else Resume(m.(vals := Rest(m.vals)), Top(m.vals))
    case FillTag(k) =>
      if n == 0 then Wild
      else if !Top(m.vals).Ptr? then Trap
      else Next(m.(escapes := m.escapes[Top(m.vals).a := Heights(n - k, |m.cxts|)]))
    case Throw => if n < 2 then Fatal else ThrowTo(m.(vals := Rest(m.vals)), Top(m.vals))
  }

  predicate AllEncodable(ops: seq<Op>) { forall op <- ops :: Encodable(op) }

  function Run(m: Machine, ops: seq<Op>): Result
    requires AllEncodable(ops)
    decreases |ops|
  {
    if ops == [] then Next(m)
    else match Do(m, ops[0])
         case Next(next) => Run(next, ops[1..])
         case r => r
  }

  // ---- What bytecode.tex says of the instructions ----

  /** BLAST n is STORE-STK n and POP 1, as promised, exactly when there is a value to be left on top;
      on the last value of the stack POP 1 dies where BLAST 0 goes on. */
  lemma BlastIsStorePop(m: Machine, n: int)
    requires 0 <= n <= 255 && n < |m.vals|
    ensures Do(m, Blast(n)) == Run(m, [Store(n), PopMany(1)]) <==> |m.vals| >= 2
  {
    RunTwo(m, Store(n), PopMany(1));
    DoOverwrites(m, n);
    DoPopOne(Do(m, Store(n)).m);
    hide Run, Do;
  }

  lemma DoOverwrites(m: Machine, n: int)
    requires 0 <= n <= 255 && n < |m.vals|
    ensures var a := m.vals[|m.vals| - 1 - n := Top(m.vals)];
            Do(m, Store(n)) == Next(m.(vals := a)) && Do(m, Blast(n)) == Next(m.(vals := Rest(a)))
  {
  }

  lemma DoPopOne(m: Machine)
    requires m.vals != []
    ensures Do(m, PopMany(1)) == if |m.vals| >= 2 then Next(m.(vals := Rest(m.vals))) else Fatal
  {
  }

  lemma RunTwo(m: Machine, a: Op, b: Op)
    requires Encodable(a) && Encodable(b)
    ensures Run(m, [a, b]) == if Do(m, a).Next? then Do(Do(m, a).m, b) else Do(m, a)
  {
    hide Do;
    assert [a, b][1..] == [b] && [b][1..] == [];
    if Do(m, a).Next? {
      var m1 := Do(m, a).m;
      assert Run(m, [a, b]) == Run(m1, [b]);
      if Do(m1, b).Next? { assert Run(Do(m1, b).m, []) == Next(Do(m1, b).m); }
    }
  }

  /** SWAP 0 does nothing, and any SWAP undoes itself. */
  lemma SwapTwice(m: Machine, n: int)
    requires 0 <= n <= 255 && n < |m.vals|
    ensures Do(m, Swap(0)) == Next(m)
    ensures Run(m, [Swap(n), Swap(n)]) == Next(m)
  {
    assert Swapped(m.vals, 0) == m.vals;
    assert Swapped(Swapped(m.vals, n), n) == m.vals;
    RunTwo(m, Swap(n), Swap(n));
  }

  // ---- Continuations ----

  /** Along the run, no FILL-CONTINUATION refills object `k`. */
  predicate NeverRefilled(m: Machine, ops: seq<Op>, k: int)
    requires AllEncodable(ops)
    decreases |ops|
  {
    ops == [] ||
    (&& !(ops[0].FillContinuation? && m.vals != [] && Top(m.vals) == Ptr(k))
     && (Do(m, ops[0]).Next? ==> NeverRefilled(Do(m, ops[0]).m, ops[1..], k)))
  }

  lemma {:induction false} PhotoPersists(m: Machine, ops: seq<Op>, k: int)
    requires AllEncodable(ops) && k in m.photos
    requires NeverRefilled(m, ops, k) && Run(m, ops).Next?
    ensures k in Run(m, ops).m.photos && Run(m, ops).m.photos[k] == m.photos[k]
    decreases |ops|
  {
    if ops != [] { PhotoPersists(Do(m, ops[0]).m, ops[1..], k); }
  }

  /** A continuation can be entered at any later time, from whatever the stacks hold by then and
      after any other entries into it: it restores the stacks at its capture, plus the value
      passed and minus the frame it returns through. */
  lemma ContinuationRestores(m: Machine, k: int, ops: seq<Op>, below: seq<Word>, y: Word)
    requires AllEncodable(ops) && |m.vals| >= 2 && Top(m.vals) == Ptr(k) && |m.cxts| > 3
    requires var m1 := Do(m, FillContinuation); m1.Next? && NeverRefilled(m1.m, ops, k) && Run(m1.m, ops).Next?
    ensures var m2 := Run(Do(m, FillContinuation).m, ops).m;
            var c := |m.cxts|;
            Do(m2.(vals := below + [y, Ptr(k)]), Continue)
            == Next(m2.(vals := m.vals[..|m.vals| - 2] + [y], cxts := m.cxts[..c - 3],
                        regs := Frame(m.cxts[c - 3], m.cxts[c - 2], m.cxts[c - 1])))
  {
    PhotoPersists(Do(m, FillContinuation).m, ops, k);
  }

  // ---- Escapes ----

  /** The lowest height the value stack reaches, or is written at, while `op` executes. */
  function ValLow(m: Machine, op: Op): int {
    match op
    case Pop => |m.vals| - 1
    case PopMany(n) => |m.vals| - n
    case SetTop(_) => |m.vals| - 1
    case Store(n) => |m.vals| - 1 - n
    case Swap(n) => |m.vals| - 1 - n
    case Blast(n) => |m.vals| - 1 - n
    case MakeEnvironment(n, _) => |m.vals| - n
    case Blt(stuff, trash) => |m.vals| - stuff - trash - 1
    case Continue => 0
    case Throw => if m.vals != [] && Top(m.vals).Ptr? && Top(m.vals).a in m.escapes
                  then m.escapes[Top(m.vals).a].val else 0
    case _ => |m.vals|
  }

  function CxtLow(m: Machine, op: Op): int {
    match op
    case PopContext => |m.cxts| - 3
    case Continue => 0
    case Throw => if m.vals != [] && Top(m.vals).Ptr? && Top(m.vals).a in m.escapes
                  then m.escapes[Top(m.vals).a].cxt - 3 else 0
    case _ => |m.cxts|
  }

  /** Along the run neither stack drops below the heights `h`. */
  predicate StaysAbove(m: Machine, ops: seq<Op>, h: Heights)
    requires AllEncodable(ops)
    decreases |ops|
  {
    ops == [] ||
    (&& ValLow(m, ops[0]) >= h.val && CxtLow(m, ops[0]) >= h.cxt
     && (Do(m, ops[0]).Next? ==> StaysAbove(Do(m, ops[0]).m, ops[1..], h)))
  }

  /** Along the run, the heights in escape object `k` are not written again. */
  predicate NeverRetagged(m: Machine, ops: seq<Op>, k: int)
    requires AllEncodable(ops)
    decreases |ops|
  {
    ops == [] ||
    (&& !(ops[0].FillTag? && m.vals != [] && Top(m.vals) == Ptr(k))
     && !(ops[0].SetEscape? && ops[0].a == k)
     && (Do(m, ops[0]).Next? ==> NeverRetagged(Do(m, ops[0]).m, ops[1..], k)))
  }

  /** `t` still has the lowest `h` entries of `s`. */
  predicate Prefix(s: seq<Word>, t: seq<Word>, h: int) { 0 <= h <= |s| && h <= |t| && t[..h] == s[..h] }

  lemma StepKeepsPrefix(m: Machine, op: Op, h: Heights)
    requires Encodable(op) && Do(m, op).Next? && 0 <= h.val <= |m.vals| && 0 <= h.cxt <= |m.cxts|
    requires ValLow(m, op) >= h.val && CxtLow(m, op) >= h.cxt
    ensures Prefix(m.vals, Do(m, op).m.vals, h.val) && Prefix(m.cxts, Do(m, op).m.cxts, h.cxt)
  {
  }

  lemma {:induction false} PrefixKept(m: Machine, ops: seq<Op>, h: Heights, k: int)
    requires AllEncodable(ops) && 0 <= h.val <= |m.vals| && 0 <= h.cxt <= |m.cxts|
    requires k in m.escapes && m.escapes[k] == h && NeverRetagged(m, ops, k)
    requires StaysAbove(m, ops, h) && Run(m, ops).Next?
    ensures var m2 := Run(m, ops).m;
            && Prefix(m.vals, m2.vals, h.val) && Prefix(m.cxts, m2.cxts, h.cxt)
            && k in m2.escapes && m2.escapes[k] == h
    decreases |ops|
  {
    hide Dropped, DroppedUnder, ValLow, CxtLow;
    if ops != [] {
      StepKeepsPrefix(m, ops[0], h);
      PrefixKept(Do(m, ops[0]).m, ops[1..], h, k);
    }
  }

  /** THROW to a tag restores what lay below the heights it recorded, plus the thrown value and
      minus the frame it returns through, as long as neither stack has dropped below them. */
  lemma ThrowRestores(m: Machine, k: int, n: int, ops: seq<Op>, y: Word)
    requires AllEncodable(ops) && 0 <= n <= 255 && m.vals != [] && Top(m.vals) == Ptr(k)
    requires |m.vals| - n > 0 && |m.cxts| > 3
    requires var m1 := Do(m, FillTag(n)).m;
             && NeverRetagged(m1, ops, k) && Run(m1, ops).Next?
             && StaysAbove(m1, ops, Heights(|m.vals| - n, |m.cxts|))
    ensures var m2 := Run(Do(m, FillTag(n)).m, ops).m;
            var c := |m.cxts|;
            Do(m2.(vals := m2.vals + [y, Ptr(k)]), Throw)
            == Next(m2.(vals := m.vals[..|m.vals| - n] + [y], cxts := m.cxts[..c - 3],
                        regs := Frame(m.cxts[c - 3], m.cxts[c - 2], m.cxts[c - 1])))
  {
    var h := Heights(|m.vals| - n, |m.cxts|);
    var m1 := Do(m, FillTag(n)).m;
    PrefixKept(m1, ops, h, k);
    var m2 := Run(m1, ops).m;
    assert m2.vals + [y, Ptr(k)] == m2.vals + [y] + [Ptr(k)];
    assert (m2.vals + [y])[..h.val] == m2.vals[..h.val];
    assert m2.cxts[..h.cxt] == m.cxts;
  }
}
