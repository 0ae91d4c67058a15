/** What each stack instruction does, on stacks written out value by value: the laws by which the two
    unbounded stacks of `StackMachine` can be told from any others. */
module StackLaws {
  import opened Words
  import opened Stacks
  import opened StackMachine

  /** PUSH and POP: what is pushed last is popped first, and there must be a value to be left on top. */
  lemma PushPop(m: Machine, v: Word)
    ensures Do(m, Push(v)).Next?
    ensures Run(m, [Push(v), Pop]) == if m.vals == [] then Fatal else Next(m)
    ensures Run(m, [Push(v), Load(0)]) == Run(m, [Push(v), Push(v)])
  {
    RunTwo(m, Push(v), Pop);
    RunTwo(m, Push(v), Load(0));
    RunTwo(m, Push(v), Push(v));
    assert Rest(m.vals + [v]) == m.vals;
  }

  /** LOAD-STK n pushes the value that `n` others lie on: the one POP n would uncover. */
  lemma Loaded(m: Machine, below: seq<Word>, v: Word, above: seq<Word>)
    requires |above| <= 255
    ensures Do(m.(vals := below + [v] + above), Load(|above|)) == Next(m.(vals := below + [v] + above + [v]))
    ensures Do(m.(vals := above), Load(|above|)) == Fatal
  {
  }

  lemma LoadUncovers(m: Machine, n: int)
    requires 0 <= n <= 255 && n < |m.vals|
    ensures Do(m, PopMany(n)).Next? && Do(m, Load(n)).Next?
    ensures Do(m, Load(n)).m == m.(vals := m.vals + [Top(Do(m, PopMany(n)).m.vals)])
  {
  }

  /** STORE-STK n overwrites that value with the top. */
  lemma Stored(m: Machine, below: seq<Word>, v: Word, above: seq<Word>, top: Word)
    requires |above| < 255
    ensures Do(m.(vals := below + [v] + above + [top]), Store(|above| + 1))
            == Next(m.(vals := below + [top] + above + [top]))
    ensures Do(m.(vals := below + [top]), Store(0)) == Next(m.(vals := below + [top]))
    ensures Do(m.(vals := above + [top]), Store(|above| + 1)) == Do(m.(vals := []), Store(0)) == Fatal
  {
    var a := below + [v] + above + [top];
    assert a[|below| := top] == below + [top] + above + [top];
    assert (below + [top])[|below| := top] == below + [top];
  }

  /** SWAP n exchanges the two. */
  lemma Exchanged(m: Machine, below: seq<Word>, v: Word, above: seq<Word>, top: Word)
    requires |above| < 255
    ensures Do(m.(vals := below + [v] + above + [top]), Swap(|above| + 1))
            == Next(m.(vals := below + [top] + above + [v]))
    ensures Do(m.(vals := above + [top]), Swap(|above| + 1)) == Do(m.(vals := []), Swap(0)) == Fatal
  {
    var a := below + [v] + above + [top];
    assert a[|below| := top][|a| - 1 := v] == below + [top] + above + [v];
  }

  /** BLAST n moves the top there. */
  lemma Blasted(m: Machine, below: seq<Word>, v: Word, above: seq<Word>, top: Word)
    requires |above| < 255
    ensures Do(m.(vals := below + [v] + above + [top]), Blast(|above| + 1)) == Next(m.(vals := below + [top] + above))
    ensures Do(m.(vals := below + [top]), Blast(0)) == Next(m.(vals := below))
    ensures Do(m.(vals := above + [top]), Blast(|above| + 1)) == Do(m.(vals := []), Blast(0)) == Fatal
  {
    var a := below + [v] + above + [top];
    assert a[|below| := top] == below + [top] + above + [top];
    assert Rest(below + [top] + above + [top]) == below + [top] + above;
    assert Rest((below + [top])[|below| := top]) == below;
  }

  /** POP n drops the top `n` and nothing else, if a value is left. */
  lemma PoppedMany(m: Machine, below: seq<Word>, above: seq<Word>)
    requires |above| <= 255
    ensures Do(m.(vals := below + above), PopMany(|above|))
            == if below == [] && above != [] then Fatal else Next(m.(vals := below))
    ensures forall n :: |above| < n <= 255 ==> Do(m.(vals := above), PopMany(n)) == Fatal
  {
    assert (below + above)[..|below|] == below;
  }

  /** BLT-STACK keeps the top `stuff`, drops those between and nothing else. */
  lemma BltDrops(m: Machine, below: seq<Word>, trash: seq<Word>, stuff: seq<Word>)
    requires 1 <= |trash| <= 16 && |stuff| <= 15
    ensures Do(m.(vals := below + trash + stuff), Blt(|stuff|, |trash| - 1)) == Next(m.(vals := below + stuff))
    ensures forall k :: |trash| <= k <= 15 ==> Do(m.(vals := trash + stuff), Blt(|stuff|, k)) == Fatal
  {
    var a := below + trash + stuff;
    assert a[..|below|] == below && a[|below| + |trash|..] == stuff;
  }

  lemma DoSetTop(m: Machine, u: Word, v: Word)
    ensures Do(m, Push(u)).Next? && Do(Do(m, Push(u)).m, SetTop(v)) == Do(m, Push(v))
  {
    assert Rest(m.vals + [u]) == m.vals;
  }

  /** An instruction that computes a value does what pushing it instead of the value before would have done. */
  lemma Replaced(m: Machine, u: Word, v: Word)
    ensures Run(m, [Push(u), SetTop(v)]) == Do(m, Push(v))
  {
    RunTwo(m, Push(u), SetTop(v));
    DoSetTop(m, u, v);
    hide Do, Run;
  }

  /** One that looks at a value changes nothing, and dies just when loading it would. */
  lemma Looked(m: Machine, n: int)
    requires 0 <= n <= 255
    ensures Do(m, Reach(n)) == if Do(m, Load(n)).Next? then Next(m) else Fatal
  {
  }

  /** MAKE-CLOSED-ENVIRONMENT n takes the top `n` and leaves the environment in their place. */
  lemma Enclosed(m: Machine, below: seq<Word>, slots: seq<Word>, env: Word)
    requires |slots| <= 255
    ensures Do(m.(vals := below + slots), MakeEnvironment(|slots|, env)) == Next(m.(vals := below + [env]))
    ensures forall n :: |slots| < n <= 255 ==> Do(m.(vals := slots), MakeEnvironment(n, env)) == Fatal
  {
    assert (below + slots)[..|below|] == below;
  }

  lemma DoCall(m: Machine, pc: Word, callee: Frame)
    ensures var r := Do(m, PushContext(pc));
            r.Next? && Do(r.m, Jump(callee)).Next?
            && Do(Do(r.m, Jump(callee)).m, PopContext)
               == if m.cxts == [] then Fatal else Next(m.(regs := m.regs.(pc := pc)))
  {
    var cxts := m.cxts + [pc, m.regs.meth, m.regs.env];
    assert cxts[..|m.cxts|] == m.cxts;
  }

  /** A call and its return: the frame that is popped is the one pushed last, the registers of the caller
      come back with the program counter it left, and the outermost frame is never returned through. */
  lemma CallReturn(m: Machine, pc: Word, callee: Frame)
    ensures Run(m, [PushContext(pc), Jump(callee), PopContext])
            == if m.cxts == [] then Fatal else Next(m.(regs := m.regs.(pc := pc)))
  {
    DoCall(m, pc, callee);
    hide Do;
    var ops := [PushContext(pc), Jump(callee), PopContext];
    assert ops[1..] == [Jump(callee), PopContext];
    var m1 := Do(m, PushContext(pc)).m;
    assert Run(m, ops) == Run(m1, ops[1..]);
    RunTwo(m1, Jump(callee), PopContext);
  }

  /** POP-CONTEXT on a context stack written out. */
  lemma Returned(m: Machine, below: seq<Word>, f: Frame)
    ensures Do(m.(cxts := below + [f.pc, f.meth, f.env]), PopContext)
            == if below == [] then Fatal else Next(m.(cxts := below, regs := f))
    ensures Do(m.(cxts := []), PopContext) == Fatal
  {
    assert (below + [f.pc, f.meth, f.env])[..|below|] == below;
  }

  /** FILL-CONTINUATION and FILLTAG write into the object on top and leave the stacks, the registers and every
      other object alone. */
  lemma OnlyTheObject(m: Machine, n: int, k: int)
    requires 0 <= n <= 255
    ensures var r := Do(m, FillContinuation);
            r.Next? ==> r.m == m.(photos := r.m.photos)
                        && (k in m.photos && Top(m.vals) != Ptr(k) ==> k in r.m.photos && r.m.photos[k] == m.photos[k])
    ensures var r := Do(m, FillTag(n));
            r.Next? ==> r.m == m.(escapes := r.m.escapes)
                        && (k in m.escapes && Top(m.vals) != Ptr(k) ==>
                              k in r.m.escapes && r.m.escapes[k] == m.escapes[k])
  {
  }

  /** THROW goes to a tag exactly when neither stack is lower than the tag says; it then leaves the recorded
      heights, the value thrown, and the frame on top as registers. */
  lemma Thrown(m: Machine, a: seq<Word>, y: Word, k: int)
    requires k in m.escapes
    ensures var r, h := Do(m.(vals := a + [y, Ptr(k)]), Throw), m.escapes[k];
            var high := 0 <= h.val <= |a| + 1 && 0 <= h.cxt <= |m.cxts|;
            && (r == Trap <==> !high)
            && (r == Fatal <==> high && (h.val == 0 || h.cxt <= 3))
            && r != Wild
            && (r.Next? ==> && r.m.vals == (a + [y])[..h.val] + [y] && r.m.cxts == m.cxts[..h.cxt - 3]
                            && m.cxts[..h.cxt] == r.m.cxts + [r.m.regs.pc, r.m.regs.meth, r.m.regs.env]
                            && r.m.photos == m.photos && r.m.escapes == m.escapes)
  {
    assert Rest(a + [y, Ptr(k)]) == a + [y];
    var h := m.escapes[k];
    if 3 < h.cxt <= |m.cxts| { assert m.cxts[..h.cxt][..h.cxt - 3] == m.cxts[..h.cxt - 3]; }
  }

  /** CONTINUE through a continuation: what the stacks were at its capture, the value passed, and the frame on
      top as registers. */
  lemma Continued(m: Machine, a: seq<Word>, y: Word, k: int)
    requires k in m.photos
    ensures var r, p := Do(m.(vals := a + [y, Ptr(k)]), Continue), m.photos[k];
            && (r == Fatal <==> |p.cxts| <= 3) && r != Trap && r != Wild
            && (r.Next? ==> && r.m.vals == p.vals + [y]
                            && p.cxts == r.m.cxts + [r.m.regs.pc, r.m.regs.meth, r.m.regs.env]
                            && r.m.photos == m.photos && r.m.escapes == m.escapes)
  {
    assert Rest(a + [y, Ptr(k)]) == a + [y];
  }
}
