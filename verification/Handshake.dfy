/** The stop-the-world handshake (gc.c, threads.c) of the build with threads and without mark-sweep,
    for a fixed set of threads.  Each flag access and lock operation is a step of its own. */
module Handshake {

  /** Where a thread is. */
  datatype Pc =
    | Running                 // executing instructions, free to touch the heap
    | Parking | AtLock | HasLock | Unparking                    // wait_for_gc
    | GcStart | GcAtLock | GcFlag                               // gc, up to its wait loop
    | ScanReady(k: nat) | ScanDead(k: nat)                      // the two reads of the wait loop
    | Collecting | GcUnready | GcUnflag | GcUnlock              // the collection, and leaving it
    | ExitDead | ExitReady | ExitAtLock | ExitHolds | Gone      // free_registers

  const FREE := -1

  datatype State = State(pc: seq<Pc>, ready: seq<bool>, dead: seq<bool>, pending: bool, lock: int)
  {
    predicate Shape() { |pc| == |ready| == |dead| && -1 <= lock < |pc| }

    function At(i: nat, p: Pc): State
      requires i < |pc|
    {
      this.(pc := pc[i := p])
    }

    function Ready(i: nat, b: bool): State
      requires i < |ready|
    {
      this.(ready := ready[i := b])
    }
  }

  /** What a running thread may do next: go on, notice gc_pending, need a collection, or end. */
  datatype Choice = GoOn | Poll | Collect | Exit

  datatype Step = Step(i: nat, choice: Choice)

  predicate Can(s: State, t: Step)
    requires s.Shape()
  {
    t.i < |s.pc| &&
    match s.pc[t.i]
    case Running => t.choice == Poll ==> s.pending
    case AtLock => s.lock == FREE
    case GcAtLock => s.lock == FREE
    case ExitAtLock => t.choice == Exit || s.lock == FREE
    case Gone => false
    case _ => true
  }

  function Do(s: State, t: Step): (r: State)
    requires s.Shape() && Can(s, t)
    ensures r.Shape() && |r.pc| == |s.pc|
  {
    var i := t.i;
    match s.pc[i]
    case Running =>
      (match t.choice
       case GoOn => s
       case Poll => s.At(i, Parking)
       case Collect => s.At(i, GcStart)
       case Exit => s.At(i, ExitDead))
    case Parking => s.Ready(i, true).At(i, AtLock)
    case AtLock => s.(lock := i).At(i, HasLock)
    case HasLock => s.Ready(i, false).At(i, Unparking)
    case Unparking => s.(lock := FREE).At(i, Running)
    case GcStart => s.Ready(i, true).At(i, GcAtLock)
    case GcAtLock => s.(lock := i).At(i, GcFlag)
    case GcFlag => s.(pending := true).At(i, ScanReady(0))
    case ScanReady(k) =>
      if k >= |s.pc| then s.At(i, Collecting)
      else if s.ready[k] then s.At(i, ScanReady(k + 1)) else s.At(i, ScanDead(k))
    case ScanDead(k) => if k < |s.pc| && s.dead[k] then s.At(i, ScanReady(k + 1)) else s.At(i, ScanReady(0))
    case Collecting => if t.choice == GoOn then s else s.At(i, GcUnready)
    case GcUnready => s.Ready(i, false).At(i, GcUnflag)
    case GcUnflag => s.(pending := false).At(i, GcUnlock)
    case GcUnlock => s.(lock := FREE).At(i, Running)
    case ExitDead => s.(dead := s.dead[i := true]).At(i, ExitReady)
    case ExitReady => s.Ready(i, true).At(i, ExitAtLock)
    // A thread that unwinds out of the interpreter announces itself twice.
    case ExitAtLock => if t.choice == Exit then s.At(i, ExitDead) else s.(lock := i).At(i, ExitHolds)
    case ExitHolds => s.(lock := FREE).At(i, Gone)
    case Gone => s
  }

  predicate Holding(p: Pc) {
    p.HasLock? || p.Unparking? || p.GcFlag? || p.ScanReady? || p.ScanDead? || p.Collecting?
    || p.GcUnready? || p.GcUnflag? || p.GcUnlock? || p.ExitHolds?
  }

  predicate Exiting(p: Pc) { p.ExitDead? || p.ExitReady? || p.ExitAtLock? || p.ExitHolds? || p.Gone? }

  predicate Flagged(p: Pc) {
    p.ScanReady? || p.ScanDead? || p.Collecting? || p.GcUnready? || p.GcUnflag?
  }

  /** May the thread read or write the heap, or its own roots, here? */
  predicate TouchesHeap(p: Pc) { p.Running? || p.Collecting? || p.ExitHolds? }

  /** Blocked on gc_lock with its flag up, or out for good. */
  predicate Stopped(s: State, j: nat)
    requires s.Shape() && j < |s.pc|
  {
    (s.ready[j] && (s.pc[j].AtLock? || s.pc[j].GcAtLock?)) || (s.dead[j] && Exiting(s.pc[j]) && !s.pc[j].ExitHolds?)
  }

  /** How many threads, from the first, the thread at `p` has found stopped. */
  function Seen(p: Pc, n: nat): nat {
    match p
    case ScanReady(k) => k
    case ScanDead(k) => k
    case Collecting => n
    case GcUnready => n
    case GcUnflag => n
    case GcUnlock => n
    case _ => 0
  }

  /** How the lock and the flags go with where the thread is. */
  predicate FlagsOk(s: State, i: nat)
    requires s.Shape() && i < |s.pc|
  {
    var p := s.pc[i];
    && (s.lock == i <==> Holding(p))
    && (s.dead[i] ==> Exiting(p)) && (Exiting(p) && !p.ExitDead? ==> s.dead[i])
    && (s.ready[i] ==> s.dead[i] || p.AtLock? || p.HasLock? || p.GcAtLock? || p.GcFlag? || p.ScanReady?
                       || p.ScanDead? || p.Collecting? || p.GcUnready?)
    && (p.AtLock? || p.GcAtLock? || p.GcFlag? || p.ScanReady? || p.ScanDead? || p.Collecting? ==> s.ready[i])
    && (Flagged(p) ==> s.pending)
  }

  ghost predicate ThreadOk(s: State, i: nat)
    requires s.Shape() && i < |s.pc|
  {
    && FlagsOk(s, i)
    && (forall j: nat :: j < Seen(s.pc[i], |s.pc|) && j < |s.pc| && j != i ==> Stopped(s, j))
  }

  ghost predicate Inv(s: State) {
    && s.Shape() && (forall i: nat :: i < |s.pc| ==> ThreadOk(s, i))
    && (s.pending ==> s.lock != FREE && Flagged(s.pc[s.lock]))
  }

  predicate Initial(s: State) {
    && s.Shape() && !s.pending && s.lock == FREE
    && forall i: nat :: i < |s.pc| ==> s.pc[i] == Running && !s.ready[i] && !s.dead[i]
  }

  /** A step of one thread leaves the others stopped, as long as it does not give them the lock. */
  lemma OthersOk(s: State, t: Step, i: nat)
    requires Inv(s) && Can(s, t) && i < |s.pc| && i != t.i
    ensures ThreadOk(Do(s, t), i)
  {
    hide FlagsOk, Do, Stopped, Seen, Holding, Exiting, Flagged;
    assert ThreadOk(s, i) && ThreadOk(s, t.i);
    OthersFlags(s, t, i);
    forall j: nat | j < Seen(s.pc[i], |s.pc|) && j < |s.pc| && j != i ensures Stopped(Do(s, t), j) {
      if j == t.i { SelfStopped(s, t, i); } else { StillStopped(s, t, j); }
    }
  }

  lemma OthersFlags(s: State, t: Step, i: nat)
    requires s.Shape() && Can(s, t) && i < |s.pc| && i != t.i && FlagsOk(s, i) && FlagsOk(s, t.i)
    ensures Do(s, t).pc[i] == s.pc[i] && FlagsOk(Do(s, t), i)
  {
    OtherSame(s, t, i);
    GlobalsAfter(s, t);
    FlaggedHolds(s.pc[i]);
    hide Do, Holding, Exiting, Flagged;
  }

  lemma OtherSame(s: State, t: Step, i: nat)
    requires s.Shape() && Can(s, t) && i < |s.pc| && i != t.i
    ensures var s' := Do(s, t); s'.pc[i] == s.pc[i] && s'.ready[i] == s.ready[i] && s'.dead[i] == s.dead[i]
  {
  }

  /** The lock is taken only when free, and given up, like gc_pending lowered, only by its holder. */
  lemma GlobalsAfter(s: State, t: Step)
    requires s.Shape() && Can(s, t) && FlagsOk(s, t.i)
    ensures var s' := Do(s, t);
            && (s'.lock == s.lock || (s.lock == FREE && s'.lock == t.i) || (s.lock == t.i && s'.lock == FREE))
            && (s.pending && !s'.pending ==> s.lock == t.i)
  {
  }

  lemma FlaggedHolds(p: Pc)
    ensures Flagged(p) ==> Holding(p)
  {
  }

  /** A thread that another has found stopped can at most tell the world once more that it ends. */
  lemma SelfStopped(s: State, t: Step, i: nat)
    requires Inv(s) && Can(s, t) && i < |s.pc| && i != t.i && t.i < Seen(s.pc[i], |s.pc|)
    ensures Stopped(Do(s, t), t.i)
  {
    assert ThreadOk(s, i);
    assert Stopped(s, t.i);
    assert ThreadOk(s, t.i);
    hide Inv;
  }

  /** A thread whose flag the collector finds up is stopped. */
  lemma Checked(s: State, i: nat, k: nat)
    requires Inv(s) && i < |s.pc| && k < |s.pc| && k != i && s.lock == i && (s.ready[k] || s.dead[k])
    ensures Stopped(s, k)
  {
    assert ThreadOk(s, k);
  }

  lemma StillStopped(s: State, t: Step, j: nat)
    requires s.Shape() && Can(s, t) && j < |s.pc| && j != t.i && Stopped(s, j)
    ensures Stopped(Do(s, t), j)
  {
  }

  lemma SeenGrows(s: State, t: Step, j: nat)
    requires Inv(s) && Can(s, t) && j < |s.pc| && j != t.i && j < Seen(Do(s, t).pc[t.i], |s.pc|)
    ensures Stopped(s, j)
  {
    assert ThreadOk(s, t.i);
    if j >= Seen(s.pc[t.i], |s.pc|) { Checked(s, t.i, j); }
  }

  lemma SelfOk(s: State, t: Step)
    requires Inv(s) && Can(s, t)
    ensures ThreadOk(Do(s, t), t.i)
  {
    assert ThreadOk(s, t.i);
    hide FlagsOk, Do, Stopped, Seen;
    var s', i := Do(s, t), t.i;
    SelfFlags(s, t);
    forall j: nat | j < Seen(s'.pc[i], |s.pc|) && j < |s.pc| && j != i ensures Stopped(s', j) {
      SeenGrows(s, t, j);
      StillStopped(s, t, j);
    }
  }

  lemma SelfFlags(s: State, t: Step)
    requires s.Shape() && Can(s, t) && FlagsOk(s, t.i)
    ensures FlagsOk(Do(s, t), t.i)
  {
    hide Do, FlagsOk;
    if Parks(s.pc[t.i]) {
      ParkFlags(s, t);
    } else if Exiting(s.pc[t.i]) {
      ExitFlags(s, t);
    } else {
      GcFlags(s, t);
    }
  }

  predicate Parks(p: Pc) { p.Running? || p.Parking? || p.AtLock? || p.HasLock? || p.Unparking? }

  lemma ParkFlags(s: State, t: Step)
    requires s.Shape() && Can(s, t) && FlagsOk(s, t.i) && Parks(s.pc[t.i])
    ensures FlagsOk(Do(s, t), t.i)
  {
  }

  lemma ExitFlags(s: State, t: Step)
    requires s.Shape() && Can(s, t) && FlagsOk(s, t.i) && Exiting(s.pc[t.i])
    ensures FlagsOk(Do(s, t), t.i)
  {
  }

  lemma GcFlags(s: State, t: Step)
    requires s.Shape() && Can(s, t) && FlagsOk(s, t.i) && !Parks(s.pc[t.i]) && !Exiting(s.pc[t.i])
    ensures FlagsOk(Do(s, t), t.i)
  {
  }

  lemma StepKeeps(s: State, t: Step)
    requires Inv(s) && Can(s, t)
    ensures Inv(Do(s, t))
  {
    var s' := Do(s, t);
    forall i: nat | i < |s'.pc| ensures ThreadOk(s', i) {
      if i == t.i { SelfOk(s, t); } else { OthersOk(s, t, i); }
    }
    assert ThreadOk(s, t.i);
  }

  predicate Runs(s: State, ts: seq<Step>)
    requires s.Shape()
    decreases |ts|
  {
    ts == [] || (Can(s, ts[0]) && Runs(Do(s, ts[0]), ts[1..]))
  }

  function Run(s: State, ts: seq<Step>): (r: State)
    requires s.Shape() && Runs(s, ts)
    ensures r.Shape() && |r.pc| == |s.pc|
    decreases |ts|
  {
    if ts == [] then s else Run(Do(s, ts[0]), ts[1..])
  }

  lemma {:induction false} RunKeeps(s: State, ts: seq<Step>)
    requires Inv(s) && Runs(s, ts)
    ensures Inv(Run(s, ts))
    decreases |ts|
  {
    if ts != [] {
      StepKeeps(s, ts[0]);
      RunKeeps(Do(s, ts[0]), ts[1..]);
    }
  }

  /** Over every interleaving: while a thread collects it holds gc_lock, and every other thread is
      blocked on that lock with its flag up, or has announced its exit and cannot free its stacks. */
  lemma Exclusion(s: State, ts: seq<Step>, c: nat)
    requires Initial(s) && Runs(s, ts) && c < |s.pc| && Run(s, ts).pc[c] == Collecting
    ensures var r := Run(s, ts);
            r.lock == c && forall j: nat :: j < |r.pc| && j != c ==> Stopped(r, j) && !TouchesHeap(r.pc[j])
  {
    RunKeeps(s, ts);
    var r := Run(s, ts);
    assert ThreadOk(r, c);
    forall j: nat | j < |r.pc| && j != c ensures Stopped(r, j) && !TouchesHeap(r.pc[j]) {
      assert ThreadOk(r, j);
    }
  }

  /** From a state in which `c` collects, whatever the others do, they stay stopped until `c` itself
      moves on. */
  lemma {:induction false} UntilReleased(s: State, c: nat, ts: seq<Step>)
    requires Inv(s) && c < |s.pc| && s.pc[c] == Collecting && Runs(s, ts)
    requires forall k :: 0 <= k < |ts| ==> ts[k].i == c ==> ts[k].choice == GoOn
    ensures var r := Run(s, ts);
            r.pc[c] == Collecting && forall j: nat :: j < |r.pc| && j != c ==> Stopped(r, j)
    decreases |ts|
  {
    assert ThreadOk(s, c);
    if ts != [] {
      StepKeeps(s, ts[0]);
      assert ts[0].i == c ==> ts[0].choice == GoOn;
      UntilReleased(Do(s, ts[0]), c, ts[1..]);
    }
  }

  /** The wait cannot end early: a collector that has not seen everyone stopped goes round again. */
  lemma LeavesOnlyWhenStopped(s: State, t: Step)
    requires Inv(s) && Can(s, t) && s.pc[t.i] != Collecting && Do(s, t).pc[t.i] == Collecting
    ensures forall j: nat :: j < |s.pc| && j != t.i ==> Stopped(s, j)
  {
    assert ThreadOk(s, t.i);
  }

  // ---- Getting in, and getting out again ----

  /** The run of `n` steps in which only thread `c` moves, straight on. */
  function Alone(c: nat, n: nat): seq<Step> { if n == 0 then [] else [Step(c, GoOn)] + Alone(c, n - 1) }

  lemma AloneStep(s: State, c: nat, n: nat)
    requires s.Shape() && Can(s, Step(c, GoOn)) && Runs(Do(s, Step(c, GoOn)), Alone(c, n))
    ensures Alone(c, n + 1)[0] == Step(c, GoOn) && Alone(c, n + 1)[1..] == Alone(c, n)
    ensures Runs(s, Alone(c, n + 1)) && Run(s, Alone(c, n + 1)) == Run(Do(s, Step(c, GoOn)), Alone(c, n))
  {
  }

  lemma {:induction false} ScanEnds(s: State, c: nat) returns (n: nat)
    requires Inv(s) && c < |s.pc| && s.pc[c].ScanReady? && forall j: nat :: j < |s.pc| && j != c ==> Stopped(s, j)
    ensures Runs(s, Alone(c, n)) && Run(s, Alone(c, n)) == s.At(c, Collecting)
    decreases if s.pc[c].k < |s.pc| then |s.pc| - s.pc[c].k else 0
  {
    var t, k := Step(c, GoOn), s.pc[c].k;
    assert ThreadOk(s, c);
    StepKeeps(s, t);
    var next := Do(s, t);
    n := 0;
    if k < |s.pc| {
      assert k != c ==> Stopped(s, k);
      forall j: nat | j < |s.pc| && j != c ensures Stopped(next, j) { StillStopped(s, t, j); }
      if s.ready[k] {
        n := ScanEnds(next, c);
      } else {
        StepKeeps(next, t);
        var later := Do(next, t);
        forall j: nat | j < |s.pc| && j != c ensures Stopped(later, j) { StillStopped(next, t, j); }
        n := ScanEnds(later, c);
        AloneStep(next, c, n);
        n := n + 1;
      }
    }
    AloneStep(s, c, n);
    n := n + 1;
  }

  /** A collector whose fellows are all stopped gets on to the collection by itself, changing no flag. */
  lemma GetsOn(s: State, c: nat) returns (n: nat)
    requires Inv(s) && c < |s.pc| && (s.pc[c].ScanReady? || s.pc[c].ScanDead?)
    requires forall j: nat :: j < |s.pc| && j != c ==> Stopped(s, j)
    ensures Runs(s, Alone(c, n)) && Run(s, Alone(c, n)) == s.At(c, Collecting)
  {
    if s.pc[c].ScanReady? {
      n := ScanEnds(s, c);
    } else {
      var t := Step(c, GoOn);
      StepKeeps(s, t);
      var next := Do(s, t);
      forall j: nat | j < |s.pc| && j != c ensures Stopped(next, j) { StillStopped(s, t, j); }
      n := ScanEnds(next, c);
      AloneStep(s, c, n);
      n := n + 1;
    }
  }

  /** A thread that needs a collection, when nobody else has the lock and all others are stopped, gets to it. */
  lemma Starts(s: State, c: nat) returns (n: nat)
    requires Inv(s) && c < |s.pc| && s.pc[c] == GcStart && s.lock == FREE
    requires forall j: nat :: j < |s.pc| && j != c ==> Stopped(s, j)
    ensures Runs(s, Alone(c, n))
    ensures Run(s, Alone(c, n)) == s.Ready(c, true).(pending := true, lock := c).At(c, Collecting)
  {
    var t := Step(c, GoOn);
    var s1 := Do(s, t);
    var s2 := Do(s1, t);
    var s3 := Do(s2, t);
    StepKeeps(s, t);
    StepKeeps(s1, t);
    StepKeeps(s2, t);
    forall j: nat | j < |s.pc| && j != c ensures Stopped(s3, j) {
      StillStopped(s, t, j);
      StillStopped(s1, t, j);
      StillStopped(s2, t, j);
    }
    n := GetsOn(s3, c);
    AloneStep(s2, c, n);
    AloneStep(s1, c, n + 1);
    AloneStep(s, c, n + 2);
    n := n + 3;
  }

  lemma AloneTwo(s: State, c: nat)
    requires s.Shape() && Can(s, Step(c, GoOn)) && Can(Do(s, Step(c, GoOn)), Step(c, GoOn))
    ensures Runs(s, Alone(c, 2)) && Run(s, Alone(c, 2)) == Do(Do(s, Step(c, GoOn)), Step(c, GoOn))
  {
    hide Do, Can;
    var s1 := Do(s, Step(c, GoOn));
    var s2 := Do(s1, Step(c, GoOn));
    assert Runs(s2, Alone(c, 0)) && Run(s2, Alone(c, 0)) == s2;
    AloneStep(s1, c, 0);
    AloneStep(s, c, 1);
  }

  lemma AloneMore(s: State, c: nat, n: nat)
    requires s.Shape() && Can(s, Step(c, GoOn)) && Can(Do(s, Step(c, GoOn)), Step(c, GoOn))
    requires Runs(Do(Do(s, Step(c, GoOn)), Step(c, GoOn)), Alone(c, n))
    ensures Runs(s, Alone(c, n + 2))
    ensures Run(s, Alone(c, n + 2)) == Run(Do(Do(s, Step(c, GoOn)), Step(c, GoOn)), Alone(c, n))
  {
    hide Do, Can, Run, Runs;
    AloneStep(Do(s, Step(c, GoOn)), c, n);
    AloneStep(s, c, n + 1);
  }

  /** After the collection the flags and the lock are down again, and only the collector has moved. */
  lemma Leaves(s: State, c: nat)
    requires Inv(s) && c < |s.pc| && s.pc[c] == Collecting
    ensures Can(s, Step(c, Exit)) && Do(s, Step(c, Exit)) == s.At(c, GcUnready) && Runs(s.At(c, GcUnready), Alone(c, 3))
    ensures Run(s.At(c, GcUnready), Alone(c, 3)) == s.Ready(c, false).(pending := false, lock := FREE).At(c, Running)
  {
    var s1 := s.At(c, GcUnready);
    AloneTwo(Do(s1, Step(c, GoOn)), c);
    AloneStep(s1, c, 2);
  }

  /** A thread that has parked goes on when it gets the lock, with nothing changed by its wait. */
  lemma Resumes(s: State, c: nat)
    requires Inv(s) && c < |s.pc| && s.pc[c] == Parking && s.lock == FREE
    ensures Runs(s, Alone(c, 4)) && Run(s, Alone(c, 4)) == s.Ready(c, false).At(c, Running)
  {
    var s2 := Do(Do(s, Step(c, GoOn)), Step(c, GoOn));
    assert s2 == s.Ready(c, true).(lock := c).At(c, HasLock);
    AloneMore(s, c, 2) by { AloneTwo(s2, c); }
    AloneTwo(s2, c);
    hide Alone, Run, Runs;
    assert s.ready[c := true][c := false] == s.ready[c := false];
  }

  /** A thread that ends says so before it waits for the lock. */
  lemma Announces(s: State, c: nat)
    requires Inv(s) && c < |s.pc| && s.pc[c] == ExitDead
    ensures Runs(s, Alone(c, 2))
    ensures Run(s, Alone(c, 2)) == s.(dead := s.dead[c := true]).Ready(c, true).At(c, ExitAtLock)
  {
    var s1, t := s.(dead := s.dead[c := true]).At(c, ExitReady), Step(c, GoOn);
    assert Do(s, t) == s1 && Do(s1, t) == s1.Ready(c, true).At(c, ExitAtLock);
    hide Do, Inv;
    AloneTwo(s, c);
    assert s.pc[c := ExitReady][c := ExitAtLock] == s.pc[c := ExitAtLock];
  }

  /** And it is gone when it has had the lock. */
  lemma Exits(s: State, c: nat)
    requires Inv(s) && c < |s.pc| && s.pc[c] == ExitAtLock && s.lock == FREE
    ensures Runs(s, Alone(c, 2)) && Run(s, Alone(c, 2)) == s.At(c, Gone)
  {
    AloneTwo(s, c);
  }

  /** A running thread parks exactly when it notices that a collection is pending, and can always ask for one
      or end. */
  lemma Chooses(s: State, c: nat)
    requires Inv(s) && c < |s.pc| && s.pc[c] == Running
    ensures Can(s, Step(c, Poll)) <==> s.pending
    ensures s.pending ==> Do(s, Step(c, Poll)) == s.At(c, Parking)
    ensures Can(s, Step(c, Collect)) && Do(s, Step(c, Collect)) == s.At(c, GcStart)
    ensures Can(s, Step(c, Exit)) && Do(s, Step(c, Exit)) == s.At(c, ExitDead)
    ensures Can(s, Step(c, GoOn)) && Do(s, Step(c, GoOn)) == s
  {
  }

  /** There is no deadlock: as long as a thread is not gone, one of them can move on. */
  lemma NeverStuck(s: State, i: nat) returns (t: Step)
    requires Inv(s) && i < |s.pc| && s.pc[i] != Gone
    ensures Can(s, t) && s.pc[t.i] != Gone
  {
    if s.lock == FREE {
      t := Step(i, GoOn);
    } else {
      t := Step(s.lock, GoOn);
      assert ThreadOk(s, s.lock);
    }
  }
}
