/** The stack instructions of loop.c over two segmented stacks.  Every run of them does exactly
    what it would do on two unbounded stacks. */
module StackVm {
  import opened Words
  import opened Segments
  import opened Stacks
  import opened StackMachine

  /** The four slots of a continuation object. */
  datatype Cont = Cont(valSegs: int, valOff: int, cxtSegs: int, cxtOff: int)

  ghost predicate ContsOk(conts: map<int, Cont>, segs: seq<Segment>) {
    forall k <- conts :: && NIL <= conts[k].valSegs < |segs| && NIL <= conts[k].cxtSegs < |segs|
                         && conts[k].valOff == |Contents(segs, conts[k].valSegs)|
                         && conts[k].cxtOff == |Contents(segs, conts[k].cxtSegs)|
  }

  /** What the continuation objects have captured. */
  ghost function Photos(conts: map<int, Cont>, segs: seq<Segment>): map<int, Photo> {
    map k <- conts :: Photo(Contents(segs, conts[k].valSegs), Contents(segs, conts[k].cxtSegs))
  }

  /** Nothing that happens later changes what a continuation has captured. */
  lemma PhotosKept(conts: map<int, Cont>, segs: seq<Segment>, more: seq<Segment>)
    requires ContsOk(conts, segs) && segs <= more
    ensures ContsOk(conts, more) && Photos(conts, more) == Photos(conts, segs)
  {
    forall k <- conts
      ensures Contents(more, conts[k].valSegs) == Contents(segs, conts[k].valSegs)
      ensures Contents(more, conts[k].cxtSegs) == Contents(segs, conts[k].cxtSegs)
    {
      ContentsGrow(segs, more, conts[k].valSegs);
      ContentsGrow(segs, more, conts[k].cxtSegs);
    }
  }

  lemma PhotoTaken(conts: map<int, Cont>, segs: seq<Segment>, a: int, c: Cont)
    requires ContsOk(conts, segs) && ContsOk(map[a := c], segs)
    ensures ContsOk(conts[a := c], segs)
    ensures Photos(conts[a := c], segs)
            == Photos(conts, segs)[a := Photo(Contents(segs, c.valSegs), Contents(segs, c.cxtSegs))]
  {
    assert c == map[a := c][a];
  }

  lemma CaptureEnds(m: Machine, x: Word)
    requires |m.vals| >= 2
    ensures EndOf(Capture(m, x)) == if x.Ptr? then Done else Lost
  {
  }

  lemma CaptureIs(m: Machine)
    ensures Do(m, FillContinuation) == if |m.vals| < 2 then Fatal else Capture(m, Top(m.vals))
  {
  }

  /** Both CONTINUE and THROW first pop the object they go to. */
  lemma PoppedFirst(m: Machine, vals: seq<Word>, x: Word)
    requires vals != [] && m.vals == vals + [x]
    ensures Do(m, Op.Continue) == Resume(m.(vals := vals), x)
    ensures Do(m, Op.Throw) == ThrowTo(m.(vals := vals), x)
  {
    assert Rest(m.vals) == vals;
  }

  lemma PhotosOf(conts: map<int, Cont>, segs: seq<Segment>)
    ensures Photos(conts, segs).Keys == conts.Keys
  {
  }

  /** A return depends on the machine only in what the stacks have no part in. */
  lemma ReturnFrom(m: Machine, now: Machine)
    requires now == m.(vals := now.vals, cxts := now.cxts)
    ensures Return(m, now.vals, now.cxts) == Return(now, now.vals, now.cxts)
  {
  }

  lemma ReturnFails(m: Machine, vals: seq<Word>, cxts: seq<Word>)
    requires |cxts| <= 3
    ensures Return(m, vals, cxts) == Fatal
  {
  }

  /** `Bared` is how the machine can end that the two unbounded stacks know nothing of: the buffer is
      empty, and with it the cell the next instruction takes for the top of the stack. */
  datatype End = Done | Died | Trapped | Lost | Bared

  function EndOf(r: Result): End {
    match r
    case Next(_) => Done
    case Fatal => Died
    case Trap => Trapped
    case Wild => Lost
  }

  function EndOfPop(r: Outcome): End { if r == Ok then Done else Died }

  class Vm {
    const heap: SegmentHeap
    const vals: Stack
    const cxts: Stack
    var regs: Frame
    var conts: map<int, Cont>
    var escapes: map<int, Heights>

    ghost predicate Shape()
      reads this
    {
      && vals.heap == heap && cxts.heap == heap && vals != cxts && vals.bp != cxts.bp
      && vals.depth == 255 && cxts.depth == 3 && cxts.bp.Length >= 5
    }

    ghost predicate Intact()
      reads this, vals, cxts, heap
    {
      Shape() && vals.Valid() && cxts.Valid() && ContsOk(conts, heap.segs)
    }

    /** Between instructions the top of the value stack is in the buffer. */
    ghost predicate Valid()
      reads this, vals, cxts, heap
    {
      Intact() && vals.sp >= 0
    }

    ghost function Abs(): Machine
      requires Intact()
      reads this, vals, cxts, heap, vals.bp, cxts.bp
    {
      Machine(vals.Abs(), cxts.Abs(), regs, Photos(conts, heap.segs), escapes)
    }

    constructor (h: SegmentHeap, valSize: int, cxtSize: int, r: Frame)
      requires h.segs == [] && h.maxSeg >= 1 && SizeRule(cxtSize, h.maxSeg, 3) >= 5
      ensures Valid() && heap == h && fresh(vals) && fresh(cxts) && fresh(vals.bp) && fresh(cxts.bp)
      ensures Abs() == Machine([Fix(1234)], [Fix(1234)], r, map[], map[])
    {
      var v := new Stack(h, valSize, 255);
      var c := new Stack(h, cxtSize, 3);
      heap, vals, cxts, regs, conts, escapes := h, v, c, r, map[], map[];
    }

    /** Work on the value stack that may flush leaves the context stack and the continuations as
        they were, and the other way round. */
    twostate lemma ValsMoved()
      requires old(Intact()) && Shape() && vals.Valid()
      requires old(heap.segs) <= heap.segs && conts == old(conts)
      requires unchanged(cxts) && unchanged(cxts.bp)
      ensures Intact() && cxts.Abs() == old(cxts.Abs())
      ensures Photos(conts, heap.segs) == Photos(conts, old(heap.segs))
    {
      ContentsGrow(old(heap.segs), heap.segs, cxts.segment);
      PhotosKept(conts, old(heap.segs), heap.segs);
    }

    twostate lemma CxtsMoved()
      requires old(Valid()) && Shape() && cxts.Valid()
      requires old(heap.segs) <= heap.segs && conts == old(conts)
      requires unchanged(vals) && unchanged(vals.bp)
      ensures Valid() && vals.Abs() == old(vals.Abs())
      ensures Photos(conts, heap.segs) == Photos(conts, old(heap.segs))
    {
      ContentsGrow(old(heap.segs), heap.segs, vals.segment);
      PhotosKept(conts, old(heap.segs), heap.segs);
    }

    method PushVal(v: Word)
      requires Valid()
      modifies vals, heap`segs, vals.bp
      ensures Valid() && Abs() == old(Abs()).(vals := old(vals.Abs()) + [v])
    {
      hide Photos, Linked, Contents, ContsOk;
      vals.Push(v);
      ValsMoved();
    }

    /** PUSH-CXT and the calling instructions */
    method PushContext(pc: Word)
      requires Valid()
      modifies cxts, heap`segs, cxts.bp
      ensures Valid() && Abs() == old(Abs()).(cxts := old(cxts.Abs()) + [pc, regs.meth, regs.env])
    {
      hide Photos, Linked, Contents, ContsOk;
      FrameFits(cxts.bp.Length);
      assert Fits(cxts.bp.Length, cxts.sp + 1, 3);
      var ok := cxts.PushFrame(pc, regs.meth, regs.env);
      CxtsMoved();
    }

    method PopVal() returns (r: End)
      requires Valid()
      modifies vals, vals.bp
      ensures r == EndOf(Do(old(Abs()), Pop))
      ensures r == Done ==> Valid() && Do(old(Abs()), Pop) == Next(Abs())
    {
      hide Photos, Linked, Contents, ContsOk;
      var end, v := vals.Pop();
      ValsMoved();
      r := EndOfPop(end);
    }

    method PopVals(n: int) returns (r: End)
      requires Valid() && 0 <= n <= 255
      modifies vals, vals.bp
      ensures r == EndOf(Do(old(Abs()), PopMany(n)))
      ensures r == Done ==> Valid() && Do(old(Abs()), PopMany(n)) == Next(Abs())
      ensures 0 < n <= old(vals.sp) ==> r == Done && vals.sp == old(vals.sp) - n
    {
      hide Photos, Linked, Contents, ContsOk, Dropped;
      var end := vals.PopMany(n);
      if end == Ok { ValsMoved(); }
      r := EndOfPop(end);
    }

    method LoadStk(n: int) returns (r: End)
      requires Valid() && 0 <= n <= 255
      modifies vals, heap`segs, vals.bp
      ensures r == EndOf(Do(old(Abs()), Load(n)))
      ensures r == Done ==> Valid() && Do(old(Abs()), Load(n)) == Next(Abs())
    {
      hide Photos, Linked, Contents, ContsOk;
      var end, v := vals.PeekUp(n);
      if end == Ok { vals.Push(v); ValsMoved(); }
      r := EndOfPop(end);
    }

    method StoreStk(n: int) returns (r: End)
      requires Valid() && 0 <= n <= 255
      modifies vals, vals.bp
      ensures r == EndOf(Do(old(Abs()), Store(n)))
      ensures r == Done ==> Valid() && Do(old(Abs()), Store(n)) == Next(Abs())
    {
      hide Photos, Linked, Contents, ContsOk;
      var end := vals.StoreUp(n);
      ValsMoved();
      r := EndOfPop(end);
    }

    method SwapStk(n: int) returns (r: End)
      requires Valid() && 0 <= n <= 255
      modifies vals, vals.bp
      ensures r == EndOf(Do(old(Abs()), Swap(n)))
      ensures r == Done ==> Valid() && Do(old(Abs()), Swap(n)) == Next(Abs())
    {
      hide Photos, Linked, Contents, ContsOk, Swapped;
      var end := vals.SwapUp(n);
      ValsMoved();
      r := EndOfPop(end);
    }

    /** What the instructions that compute a value do to the stack in the end. */
    method ReplaceTop(v: Word)
      requires Valid()
      modifies vals.bp
      ensures Valid() && Do(old(Abs()), Op.SetTop(v)) == Next(Abs())
    {
      hide Photos, Linked, Contents, ContsOk;
      vals.SetTop(v);
      ValsMoved();
    }

    /** A look at the value `n` down. */
    method ReachDown(n: int) returns (r: End)
      requires Valid() && 0 <= n <= 255
      modifies vals, vals.bp
      ensures r == EndOf(Do(old(Abs()), Reach(n)))
      ensures r == Done ==> Valid() && Do(old(Abs()), Reach(n)) == Next(Abs())
    {
      hide Photos, Linked, Contents, ContsOk, Pulled;
      var end := vals.CheckPop(n);
      ValsMoved();
      r := EndOfPop(end);
    }

    /** MAKE-CLOSED-ENVIRONMENT n, the new environment being `v`. */
    method CloseEnvironment(n: int, v: Word) returns (r: End, got: seq<Word>)
      requires Valid() && 0 <= n <= 255
      modifies vals, heap`segs, vals.bp
      ensures r == EndOf(Do(old(Abs()), MakeEnvironment(n, v)))
      ensures r == Done ==> Valid() && Do(old(Abs()), MakeEnvironment(n, v)) == Next(Abs())
      ensures r == Done ==> |got| == n && TakenFrom(got, old(vals.Abs()))
    {
      hide Photos, Linked, Contents, ContsOk, TakenFrom;
      var end;
      end, got := vals.Enclose(n, v);
      if end == Ok { ValsMoved(); }
      r := EndOfPop(end);
    }

    /** The instruction leaves nothing in the buffer: BLT-STACK if it keeps nothing and drops all that is
        there, together with the whole segments it has to pull in to do so; BLAST 0 if only its own
        value is there. */
    ghost predicate Bares(op: Op)
      reads vals, heap
    {
      || (op.Blt? && op.stuff == 0 && AtBoundary(heap.segs, vals.segment, vals.sp + 1, op.trash + 1))
      || (op == Op.Blast(0) && vals.sp == 0)
    }

    method BlastStk(n: int) returns (r: End)
      requires Valid() && 0 <= n <= 255
      modifies vals, vals.bp
      ensures r == if old(Bares(Op.Blast(n))) then Bared else EndOf(Do(old(Abs()), Op.Blast(n)))
      ensures r == Done ==> Valid()
      ensures r == Bared ==> Intact() && vals.sp == -1
      ensures r == Done || r == Bared ==> Do(old(Abs()), Op.Blast(n)) == Next(Abs())
    {
      hide Photos, Linked, Contents, ContsOk, Pulled;
      var end := vals.Blast(n);
      if end == Ok { ValsMoved(); }
      r := EndOfPop(end);
      if end == Ok && vals.sp == -1 { r := Bared; }
    }

    method BltStack(stuff: int, trash: int) returns (r: End)
      requires Valid() && Encodable(Blt(stuff, trash))
      modifies vals, vals.bp
      ensures r == if old(Bares(Blt(stuff, trash))) then Bared else EndOf(Do(old(Abs()), Blt(stuff, trash)))
      ensures r == Done ==> Valid()
      ensures r == Bared ==> Intact() && vals.sp == -1
      ensures r == Done || r == Bared ==> Do(old(Abs()), Blt(stuff, trash)) == Next(Abs())
    {
      hide Photos, Linked, Contents, ContsOk, DroppedUnder, AtBoundary;
      BoundaryDeep(heap.segs, heap.maxSeg, vals.segment, vals.sp + 1, trash + 1);
      var end := vals.Blt(stuff, trash);
      if end == Ok { ValsMoved(); }
      r := EndOfPop(end);
      if end == Ok && vals.sp == -1 { r := Bared; }
    }

    /** POP_CONTEXT, at the end of RETURN, CONTINUE and THROW */
    method LeaveThroughFrame() returns (r: End)
      requires Valid()
      modifies this`regs, cxts, cxts.bp
      ensures r == EndOf(Return(old(Abs()), old(vals.Abs()), old(cxts.Abs())))
      ensures r == Done ==> Valid() && Return(old(Abs()), old(vals.Abs()), old(cxts.Abs())) == Next(Abs())
    {
      hide Photos, Linked, Contents, ContsOk;
      var end, pc, meth, env := cxts.PopFrame();
      CxtsMoved();
      regs := Frame(pc, meth, env);
      r := EndOfPop(end);
    }

    /** Empty both buffers into segments, but for the top two values. */
    method FlushBoth()
      requires Valid() && vals.sp >= 1
      modifies vals, cxts, heap`segs, vals.bp, cxts.bp
      ensures Valid() && Abs() == old(Abs()) && vals.sp == 1
      ensures var v := vals.Abs(); |v| >= 2 && Contents(heap.segs, vals.segment) == v[..|v| - 2]
      ensures Contents(heap.segs, cxts.segment) == cxts.Abs()
    {
      hide Photos, Linked, Contents, ContsOk;
      vals.Flush(2);
      ValsMoved();
      label flushed:
      cxts.Flush(0);
      CxtsMoved@flushed();
      assert cxts.bp[..0] == [];
    }

    /** The second half of FILL-CONTINUATION: note the segment lists in object `a`. */
    method TakePhoto(a: int)
      requires Valid() && |vals.Abs()| >= 2
      requires Contents(heap.segs, vals.segment) == vals.Abs()[..|vals.Abs()| - 2]
      requires Contents(heap.segs, cxts.segment) == cxts.Abs()
      modifies this`conts
      ensures Valid() && Capture(old(Abs()), Ptr(a)) == Next(Abs())
    {
      hide Photos, Linked, Contents;
      var c := Cont(vals.segment, vals.pushedCount, cxts.segment, cxts.pushedCount);
      PhotoTaken(conts, heap.segs, a, c);
      conts := conts[a := c];
    }

    /** FILL-CONTINUATION */
    method Fill() returns (r: End)
      requires Valid()
      modifies this`conts, vals, cxts, heap`segs, vals.bp, cxts.bp
      ensures r == EndOf(Do(old(Abs()), FillContinuation))
      ensures r == Done ==> Valid() && Do(old(Abs()), FillContinuation) == Next(Abs()) && vals.sp == 1
    {
      hide Photos, Linked, Contents, ContsOk, Capture, Pulled, Do;
      CaptureIs(Abs());
      var end := vals.CheckPop(1);
      ValsMoved();
      if end != Ok { return Died; }
      FlushBoth();
      var x := vals.Peek();
      if !x.Ptr? {
        CaptureEnds(Abs(), x);
        return Lost;
      }
      TakePhoto(x.a);
      return Done;
    }

    /** CONTINUE */
    method Continue() returns (r: End)
      requires Valid()
      modifies this`regs, vals, cxts, vals.bp, cxts.bp
      ensures r == EndOf(Do(old(Abs()), Op.Continue))
      ensures r == Done ==> Valid() && Do(old(Abs()), Op.Continue) == Next(Abs())
    {
      hide Photos, Linked, Contents, ContsOk, Resume;
      ghost var m := Abs();
      var end, x := vals.Pop();
      ValsMoved();
      if end != Ok { return Died; }
      PoppedFirst(m, vals.Abs(), x);
      hide Do;
      r := GoBack(x);
    }

    /** CONTINUE, once the continuation has been popped. */
    method GoBack(x: Word) returns (r: End)
      requires Valid()
      modifies this`regs, vals, cxts, vals.bp, cxts.bp
      ensures old(vals.Abs()) != [] && r == EndOf(Resume(old(Abs()), x))
      ensures r == Done ==> Valid() && Resume(old(Abs()), x) == Next(Abs())
    {
      hide Photos, Linked, Contents, ContsOk, Return;
      var y := vals.Peek();
      if !x.Ptr? { return Trapped; }
      PhotosOf(conts, heap.segs);
      if x.a !in conts { return Lost; }
      ghost var m := Abs();
      Reenter(x.a, y);
      ReturnFrom(m, Abs());
      r := LeaveThroughFrame();
    }

    /** CONTINUE, up to POP_CONTEXT: put the captured segment lists back under empty buffers. */
    method Reenter(a: int, y: Word)
      requires Valid() && a in conts
      modifies vals, cxts, vals.bp
      ensures Valid()
      ensures Abs() == old(Abs()).(vals := old(Abs()).photos[a].vals + [y], cxts := old(Abs()).photos[a].cxts)
    {
      hide Linked, Contents;
      var c := conts[a];
      vals.segment, vals.pushedCount, vals.sp := c.valSegs, c.valOff, -1;
      vals.sp := vals.sp + 1;
      vals.bp[vals.sp] := y;
      assert vals.bp[..1] == [y];
      cxts.segment, cxts.pushedCount, cxts.sp := c.cxtSegs, c.cxtOff, -1;
      assert cxts.bp[..0] == [];
    }

    /** FILLTAG */
    method Tag(n: int) returns (r: End)
      requires Valid() && 0 <= n <= 255
      modifies this`escapes
      ensures r == EndOf(Do(old(Abs()), FillTag(n)))
      ensures r == Done ==> Valid() && Do(old(Abs()), FillTag(n)) == Next(Abs())
    {
      hide Photos, Linked, Contents, ContsOk;
      var x := vals.Peek();
      if !x.Ptr? { return Trapped; }
      var v := vals.Height();
      var c := cxts.Height();
      escapes := escapes[x.a := Heights(v - n, c)];
      return Done;
    }

    /** THROW */
    method Throw() returns (r: End)
      requires Valid()
      modifies this`regs, vals, cxts, heap`segs, vals.bp, cxts.bp
      ensures r == EndOf(Do(old(Abs()), Op.Throw))
      ensures r == Done ==> Valid() && Do(old(Abs()), Op.Throw) == Next(Abs())
    {
      hide Photos, Linked, Contents, ContsOk, ThrowTo;
      ghost var m := Abs();
      var end, x := vals.Pop();
      ValsMoved();
      if end != Ok { return Died; }
      PoppedFirst(m, vals.Abs(), x);
      hide Do;
      r := EscapeTo(x);
    }

    /** THROW, once the escape object has been popped. */
    method EscapeTo(x: Word) returns (r: End)
      requires Valid()
      modifies this`regs, vals, cxts, heap`segs, vals.bp, cxts.bp
      ensures old(vals.Abs()) != [] && r == EndOf(ThrowTo(old(Abs()), x))
      ensures r == Done ==> Valid() && ThrowTo(old(Abs()), x) == Next(Abs())
    {
      hide Photos, Linked, Contents, ContsOk, Unwound;
      var y := vals.Peek();
      if !x.Ptr? { return Trapped; }
      if x.a !in escapes { return Lost; }
      var h := escapes[x.a];
      var vh := vals.Height();
      var ch := cxts.Height();
      if h.val < 0 || h.val > vh || h.cxt < 0 || h.cxt > ch { return Trapped; }
      r := Unwind(h, y);
    }

    /** THROW, once the heights have been checked. */
    method Unwind(h: Heights, y: Word) returns (r: End)
      requires Valid() && 0 <= h.val <= |vals.Abs()| && 0 <= h.cxt <= |cxts.Abs()|
      modifies this`regs, vals, cxts, heap`segs, vals.bp, cxts.bp
      ensures r == EndOf(Unwound(old(Abs()), h, y))
      ensures r == Done ==> Valid() && Unwound(old(Abs()), h, y) == Next(Abs())
    {
      hide Photos, Linked, Contents, ContsOk, Return;
      ghost var m := Abs();
      var done := BashHeights(h);
      if !done {
        if h.val > 0 { ReturnFails(m, m.vals[..h.val] + [y], m.cxts[..h.cxt]); }
        return Died;
      }
      PushVal(y);
      ReturnFrom(m, Abs());
      r := LeaveThroughFrame();
    }

    /** BASH_VAL_HEIGHT and BASH_CXT_HEIGHT */
    method BashHeights(h: Heights) returns (done: bool)
      requires Valid() && 0 <= h.val <= |vals.Abs()| && 0 <= h.cxt <= |cxts.Abs()|
      modifies vals, cxts, vals.bp, cxts.bp
      ensures done ==> Valid() && h.val > 0
      ensures done ==> Abs() == old(Abs()).(vals := old(vals.Abs())[..h.val], cxts := old(cxts.Abs())[..h.cxt])
      ensures !done ==> h.val == 0 || h.cxt == 0
    {
      hide Photos, Linked, Contents, ContsOk, AtBoundary, Pulled, Has, Span, Skip, Fits, Do;
      var vh := vals.Height();
      var end := vals.PopMany(vh - h.val);
      if end != Ok { return false; }
      ValsMoved();
      label bashed:
      var ch := cxts.Height();
      end := cxts.PopMany(ch - h.cxt);
      if end != Ok { return false; }
      CxtsMoved@bashed();
      return true;
    }

    /** The instructions that work on the value stack alone. */
    method StepVals(op: Op) returns (r: End)
      requires Valid() && Encodable(op) && OnVals(op)
      modifies vals, heap`segs, vals.bp
      ensures r == if old(Bares(op)) then Bared else EndOf(Do(old(Abs()), op))
      ensures r == Done ==> Valid()
      ensures r == Bared ==> Intact() && vals.sp == -1
      ensures r == Done || r == Bared ==> Do(old(Abs()), op) == Next(Abs())
    {
      hide Photos, Linked, Contents, ContsOk, AtBoundary, Swapped, Dropped, DroppedUnder;
      hide Return, Resume, ThrowTo, Capture;
      match op
      case Push(v) => PushVal(v); r := Done;
      case Pop => r := PopVal();
      case PopMany(n) => r := PopVals(n);
      case SetTop(v) => ReplaceTop(v); r := Done;
      case Reach(n) => r := ReachDown(n);
      case Load(n) => r := LoadStk(n);
      case Store(n) => r := StoreStk(n);
      case Swap(n) => r := SwapStk(n);
      case Blast(n) => r := BlastStk(n);
      case Blt(stuff, trash) => r := BltStack(stuff, trash);
      case MakeEnvironment(n, v) =>
        var got;
        r, got := CloseEnvironment(n, v);
    }

    /** One instruction does what it means on the two unbounded stacks.  In particular none needs
        more than the buffers can hold.  Only BLT-STACK and BLAST can lose sight of the top of the stack,
        and do so exactly when `Bares` says so. */
    method Step(op: Op) returns (r: End)
      requires Valid() && Encodable(op)
      modifies this`regs, this`conts, this`escapes, vals, cxts, heap`segs, vals.bp, cxts.bp
      ensures r == if old(Bares(op)) then Bared else EndOf(Do(old(Abs()), op))
      ensures r == Done ==> Valid()
      ensures r == Bared ==> Intact() && vals.sp == -1
      ensures r == Done || r == Bared ==> Do(old(Abs()), op) == Next(Abs())
    {
      hide Photos, Linked, Contents, ContsOk, Return, Resume, ThrowTo, Capture;
      hide AtBoundary, Swapped, Dropped, DroppedUnder;
      if OnVals(op) {
        r := StepVals(op);
      } else {
        match op
        case PushContext(pc) => PushContext(pc); r := Done;
        case PopContext => r := LeaveThroughFrame();
        case Jump(f) => regs := f; r := Done;
        case SetEscape(a, h) => escapes := escapes[a := h]; r := Done;
        case FillContinuation => r := Fill();
        case Continue => r := this.Continue();
        case FillTag(n) => r := Tag(n);
        case Throw => r := this.Throw();
      }
    }

    /** Any run does what it does on two unbounded stacks, up to the first instruction, if there is
        one, that leaves the buffer empty. */
    method Execute(ops: seq<Op>) returns (r: End)
      requires Valid() && AllEncodable(ops)
      modifies this`regs, this`conts, this`escapes, vals, cxts, heap`segs, vals.bp, cxts.bp
      ensures r != Bared ==> r == EndOf(Run(old(Abs()), ops))
      ensures r == Done ==> Valid() && Run(old(Abs()), ops) == Next(Abs())
      ensures r == Bared ==> && Intact() && vals.sp == -1
                             && exists i :: 0 <= i < |ops| && KeepsNothing(ops[i])
                                            && Run(old(Abs()), ops[..i + 1]) == Next(Abs())
    {
      hide Photos, Linked, Contents, ContsOk, Do, Run, AtBoundary;
      r := Done;
      var i := 0;
      RunsNothing(Abs(), ops);
      while i < |ops|
        invariant 0 <= i <= |ops| && Valid() && r == Done
        invariant Run(old(Abs()), ops) == Run(Abs(), ops[i..])
        invariant Run(old(Abs()), ops[..i]) == Next(Abs())
      {
        RunStep(old(Abs()), Abs(), ops, i);
        r := Step(ops[i]);
        if r != Done { return; }
        i := i + 1;
      }
      RunsNothing(Abs(), ops);
    }
  }

  predicate OnVals(op: Op) {
    op.Push? || op.Pop? || op.PopMany? || op.SetTop? || op.Reach? || op.Load? || op.Store? || op.Swap? || op.Blast?
    || op.Blt? || op.MakeEnvironment?
  }

  predicate KeepsNothing(op: Op) { (op.Blt? && op.stuff == 0) || op == Op.Blast(0) }

  lemma RunsNothing(m: Machine, ops: seq<Op>)
    requires AllEncodable(ops)
    ensures Run(m, ops[..0]) == Run(m, ops[|ops|..]) == Next(m) && ops[0..] == ops
  {
    assert ops[..0] == ops[|ops|..] == [];
  }

  /** One more instruction of a run. */
  lemma RunStep(m0: Machine, m: Machine, ops: seq<Op>, i: int)
    requires AllEncodable(ops) && 0 <= i < |ops| && Run(m0, ops[..i]) == Next(m)
    ensures Run(m, ops[i..]) == if Do(m, ops[i]).Next? then Run(Do(m, ops[i]).m, ops[i + 1..]) else Do(m, ops[i])
    ensures Run(m0, ops[..i + 1]) == Do(m, ops[i])
  {
    assert ops[i..][1..] == ops[i + 1..];
    assert ops[..i + 1] == ops[..i] + [ops[i]];
    RunSnoc(m0, ops[..i], ops[i]);
  }

  lemma {:induction false} RunSnoc(m: Machine, ops: seq<Op>, op: Op)
    requires AllEncodable(ops) && Encodable(op)
    ensures AllEncodable(ops + [op])
    ensures Run(m, ops + [op]) == if Run(m, ops).Next? then Do(Run(m, ops).m, op) else Run(m, ops)
    decreases |ops|
  {
    hide Do;
    if ops == [] {
      assert ops + [op] == [op];
      assert [op][1..] == [];
    } else {
      assert (ops + [op])[1..] == ops[1..] + [op];
      if Do(m, ops[0]).Next? { RunSnoc(Do(m, ops[0]).m, ops[1..], op); }
    }
  }

  /** A continuation has just captured all but the top two of three values. */
  method JustCaptured(h: SegmentHeap, r: Frame) returns (vm: Vm)
    requires h.segs == [] && h.maxSeg == 1
    modifies h
    ensures vm.Valid() && vm.heap == h && vm.vals.sp == 1 && vm.Abs().vals == [Fix(1234), Fix(1), Ptr(8)]
    ensures fresh(vm.vals) && fresh(vm.vals.bp)
  {
    hide Photos, Linked, Contents, ContsOk, AtBoundary, Pulled, Has, Span, Skip, Resume, ThrowTo, Return, Unwound,
         Dropped, Run, Fits;
    vm := new Vm(h, 256, 6, r);
    vm.PushVal(Fix(1));
    vm.PushVal(Ptr(8));
    var end := vm.Fill();
  }

  /** The promise that the top of the stack is always to be seen fails: when BLT-STACK then drops those
      two, the buffer is empty over a stack that is not. */
  method TopLost(h: SegmentHeap, r: Frame) returns (vm: Vm, end: End)
    requires h.segs == [] && h.maxSeg == 1
    modifies h
    ensures vm.Intact() && vm.vals.sp == -1 && vm.Abs().vals == [Fix(1234)] && end == Bared
  {
    hide Photos, Linked, Contents, ContsOk, AtBoundary, Pulled, Has, Span, Skip, Resume, ThrowTo, Return, Unwound,
         Dropped, Run, Fits;
    vm := JustCaptured(h, r);
    BoundaryHere(h.segs, vm.vals.segment, vm.vals.sp + 1);
    end := vm.BltStack(0, 1);
  }

  /** And it fails when POP 1 leaves one value in the buffer and BLAST 0 follows. */
  method TopBlasted(h: SegmentHeap, r: Frame) returns (vm: Vm, end: End)
    requires h.segs == [] && h.maxSeg == 1
    modifies h
    ensures vm.Intact() && vm.vals.sp == -1 && vm.Abs().vals == [Fix(1234)] && end == Bared
  {
    hide Photos, Linked, Contents, ContsOk, AtBoundary, Pulled, Has, Span, Skip, Resume, ThrowTo, Return, Unwound,
         Run, Fits;
    vm := JustCaptured(h, r);
    end := vm.PopVals(1);
    assert vm.Abs().vals == [Fix(1234), Fix(1)];
    end := vm.BlastStk(0);
  }
}
