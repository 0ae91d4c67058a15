/** Concurrent marking with a snapshot-at-the-beginning barrier (gc-ms.c), as a transition system
    from the initial-mark pause to the end of remark.  Objects are named by their start address;
    a locative is resolved to the object that contains its cell. */
module Satb {

  /** A word: a non-pointer, a pointer to an object, or a locative to one of its cells. */
  datatype Val = Imm(n: int) | Ptr(o: int) | Loc(o: int, cell: nat)

  datatype Phase = Idle | Concurrent | Remark | Finished

  datatype Scan = NoScan | At(obj: int, next: nat)

  datatype Pending = NoStore | Storing(obj: int, field: nat)

  /** `heap` holds the allocated objects; negative names are static objects, which are never marked.
      Per thread: its root words, its barrier buffer, and a store whose barrier has run.
      `snap`, `snapRoots` record heap and roots at the initial mark. */
  datatype State = State(
    phase: Phase,
    heap: map<int, seq<Val>>,
    roots: seq<set<Val>>,
    globals: set<Val>,
    marked: set<int>,
    stack: seq<int>,
    scan: Scan,
    logs: seq<seq<Val>>,
    pending: seq<Pending>,
    bump: int,
    limit: int,
    snap: map<int, seq<Val>>,
    snapRoots: set<Val>)

  predicate IsRef(v: Val) { !v.Imm? }

  predicate IsStatic(o: int) { o < 0 }

  // ------------------------------------------------------------------ reachability

  ghost predicate RootObj(heap: map<int, seq<Val>>, roots: set<Val>, o: int) {
    (o in heap && IsStatic(o)) || exists v :: v in roots && IsRef(v) && v.o == o
  }

  ghost predicate Edge(heap: map<int, seq<Val>>, o: int, p: int) {
    o in heap && exists k :: 0 <= k < |heap[o]| && IsRef(heap[o][k]) && heap[o][k].o == p
  }

  ghost predicate IsPath(heap: map<int, seq<Val>>, path: seq<int>) {
    |path| > 0 && forall i :: 0 <= i < |path| - 1 ==> Edge(heap, path[i], path[i + 1])
  }

  ghost predicate Reachable(heap: map<int, seq<Val>>, roots: set<Val>, o: int) {
    exists path :: IsPath(heap, path) && RootObj(heap, roots, path[0]) && path[|path| - 1] == o
  }

  /** All root words: every thread's, and the global registers. */
  ghost function AllRoots(s: State): set<Val> {
    s.globals + UnionOf(s.roots)
  }

  ghost function UnionOf(rs: seq<set<Val>>): (u: set<Val>)
    ensures forall v :: v in u <==> exists t :: 0 <= t < |rs| && v in rs[t]
  {
    if rs == [] then {} else
      assert forall t :: 0 < t < |rs| ==> rs[1..][t - 1] == rs[t];
      rs[0] + UnionOf(rs[1..])
  }

  /** `c` contains the roots and is closed under edges. */
  ghost predicate ClosedSet(heap: map<int, seq<Val>>, roots: set<Val>, c: iset<int>) {
    && (forall o :: RootObj(heap, roots, o) ==> o in c)
    && (forall o, p :: o in c && Edge(heap, o, p) ==> p in c)
  }

  /** Reachability is the least closed set. */
  lemma {:induction false} PathInClosed(heap: map<int, seq<Val>>, roots: set<Val>, path: seq<int>, c: iset<int>)
    requires ClosedSet(heap, roots, c) && IsPath(heap, path) && RootObj(heap, roots, path[0])
    ensures path[|path| - 1] in c
    decreases |path|
  {
    if |path| > 1 {
      var front := path[..|path| - 1];
      assert forall i :: 0 <= i < |front| - 1 ==> Edge(heap, front[i], front[i + 1]);
      PathInClosed(heap, roots, front, c);
      assert Edge(heap, path[|path| - 2], path[|path| - 1]);
    }
  }

  lemma ReachableClosed(heap: map<int, seq<Val>>, roots: set<Val>)
    ensures ClosedSet(heap, roots, iset o | Reachable(heap, roots, o))
  {
    forall o | RootObj(heap, roots, o) ensures Reachable(heap, roots, o) {
      assert IsPath(heap, [o]) && [o][0] == o;
    }
    forall o, p | Reachable(heap, roots, o) && Edge(heap, o, p) ensures Reachable(heap, roots, p) {
      var path :| IsPath(heap, path) && RootObj(heap, roots, path[0]) && path[|path| - 1] == o;
      var longer := path + [p];
      forall i | 0 <= i < |longer| - 1 ensures Edge(heap, longer[i], longer[i + 1]) {
        if i < |path| - 1 { assert Edge(heap, path[i], path[i + 1]); }
      }
      assert IsPath(heap, longer) && longer[|longer| - 1] == p;
    }
  }

  lemma ReachableLeast(heap: map<int, seq<Val>>, roots: set<Val>, c: iset<int>, o: int)
    requires ClosedSet(heap, roots, c) && Reachable(heap, roots, o)
    ensures o in c
  {
    var path :| IsPath(heap, path) && RootObj(heap, roots, path[0]) && path[|path| - 1] == o;
    PathInClosed(heap, roots, path, c);
  }

  // ------------------------------------------------------------------ steps

  /** ms_mark_ref: mark and push the object of a word unless it is static or marked. */
  function MarkRef(s: State, v: Val): State {
    if IsRef(v) && !IsStatic(v.o) && v.o !in s.marked
    then s.(marked := s.marked + {v.o}, stack := s.stack + [v.o])
    else s
  }

  function MarkAll(s: State, vs: seq<Val>): State
    decreases |vs|
  {
    if vs == [] then s else MarkAll(MarkRef(s, vs[0]), vs[1..])
  }

  datatype Step =
      // the two pauses; the argument lists the words scanned, in some order
    | InitialMark(scanned: seq<Val>)
    | BeginRemark(scanned: seq<Val>)
    | Finish
      // the tracer
    | Pop | ScanField | EndScan
      // mutator thread t
    | Load(t: nat, o: int, k: nat)
    | LoadGlobal(t: nat, v: Val)
    | StoreGlobal(t: nat, v: Val)
    | DropGlobal(v: Val)
    | MakeLoc(t: nat, o: int, k: nat)
    | Drop(t: nat, v: Val)
    | Barrier(t: nat, o: int, k: nat)
    | Commit(t: nat, v: Val)
    | Alloc(t: nat, o: int, fields: seq<Val>)

  /** Thread t can name object o: from a root word, or because it is static. */
  ghost predicate Holds(s: State, t: nat, o: int)
    requires t < |s.roots|
  {
    o in s.heap && (IsStatic(o) || exists v :: v in s.roots[t] && IsRef(v) && v.o == o)
  }

  /** Words of static objects: static space is scanned as a root in both pauses. */
  ghost predicate StaticWord(heap: map<int, seq<Val>>, v: Val) {
    exists o, k :: o in heap && IsStatic(o) && 0 <= k < |heap[o]| && heap[o][k] == v
  }

  ghost predicate Logged(s: State, v: Val) {
    exists t :: 0 <= t < |s.logs| && v in s.logs[t]
  }

  /** A word of an object allocated since the initial mark above the sweep limit. */
  ghost predicate YoungWord(s: State, v: Val) {
    exists o, k :: o in s.heap && o >= s.limit && 0 <= k < |s.heap[o]| && s.heap[o][k] == v
  }

  ghost predicate Quiet(s: State) {
    forall t :: 0 <= t < |s.pending| ==> s.pending[t] == NoStore
  }

  ghost predicate Running(s: State, t: nat)
    requires |s.pending| == |s.roots|
  {
    t < |s.roots| && (s.phase == Idle || s.phase == Concurrent) && s.pending[t] == NoStore
  }

  /** When a step may be taken. */
  ghost predicate Can(s: State, step: Step)
    requires |s.pending| == |s.roots| == |s.logs|
  {
    match step
    case InitialMark(vs) =>
      && s.phase == Idle && Quiet(s)
      && forall v :: v in vs <==> v in AllRoots(s) || StaticWord(s.heap, v)
    case BeginRemark(vs) =>
      && s.phase == Concurrent && Quiet(s) && s.stack == [] && s.scan == NoScan
      && forall v :: v in vs <==> v in AllRoots(s) || StaticWord(s.heap, v) || Logged(s, v) || YoungWord(s, v)
    case Finish => s.phase == Remark && s.stack == [] && s.scan == NoScan
    case Pop => (s.phase == Concurrent || s.phase == Remark) && s.scan == NoScan && s.stack != []
    case ScanField =>
      (s.phase == Concurrent || s.phase == Remark) && s.scan.At? && s.scan.obj in s.heap
          && s.scan.next < |s.heap[s.scan.obj]|
    case EndScan =>
      (s.phase == Concurrent || s.phase == Remark) && s.scan.At? && s.scan.obj in s.heap
          && s.scan.next >= |s.heap[s.scan.obj]|
    case Load(t, o, k) => Running(s, t) && Holds(s, t, o) && k < |s.heap[o]|
    case LoadGlobal(t, v) => Running(s, t) && v in s.globals
    case StoreGlobal(t, v) => Running(s, t) && v in s.roots[t]
    case DropGlobal(v) => (s.phase == Idle || s.phase == Concurrent)
    case MakeLoc(t, o, k) => Running(s, t) && Holds(s, t, o)
    case Drop(t, v) => Running(s, t)
    case Barrier(t, o, k) => Running(s, t) && Holds(s, t, o) && k < |s.heap[o]|
    case Commit(t, v) =>
      && t < |s.roots| && (s.phase == Idle || s.phase == Concurrent) && s.pending[t].Storing?
      && (v in s.roots[t] || v.Imm?)
    case Alloc(t, o, fields) =>
      && Running(s, t) && !IsStatic(o) && o !in s.heap
      && (forall v <- fields :: v in s.roots[t] || v.Imm?)
  }

  /** The effect of a step. */
  ghost function Do(s: State, step: Step): State
    requires |s.pending| == |s.roots| == |s.logs| && Can(s, step)
  {
    match step
    case InitialMark(vs) =>
      // the mark bitmap is cleared, TLABs are retired, sweep_limit is free_point
      MarkAll(s.(phase := Concurrent, marked := {}, stack := [], scan := NoScan, limit := s.bump,
                 logs := seq(|s.logs|, t => []), snap := s.heap, snapRoots := AllRoots(s)), vs)
    case BeginRemark(vs) => MarkAll(s.(phase := Remark), vs)
    case Finish => s.(phase := Finished)
    case Pop => s.(scan := At(s.stack[|s.stack| - 1], 0), stack := s.stack[..|s.stack| - 1])
    case ScanField => MarkRef(s, s.heap[s.scan.obj][s.scan.next]).(scan := At(s.scan.obj, s.scan.next + 1))
    case EndScan => s.(scan := NoScan)
    case Load(t, o, k) => s.(roots := s.roots[t := s.roots[t] + {s.heap[o][k]}])
    case LoadGlobal(t, v) => s.(roots := s.roots[t := s.roots[t] + {v}])
    case StoreGlobal(t, v) => s.(globals := s.globals + {v})
    case DropGlobal(v) => s.(globals := s.globals - {v})
    case MakeLoc(t, o, k) => s.(roots := s.roots[t := s.roots[t] + {Loc(o, k)}])
    case Drop(t, v) => s.(roots := s.roots[t := s.roots[t] - {v}])
    case Barrier(t, o, k) =>
      // satb_log_old, when the barrier is active: log the old word if it is a pointer
      var old0 := s.heap[o][k];
      s.(pending := s.pending[t := Storing(o, k)],
         logs := if s.phase == Concurrent && IsRef(old0) then s.logs[t := s.logs[t] + [old0]] else s.logs)
    case Commit(t, v) =>
      var Storing(o, k) := s.pending[t];
      s.(pending := s.pending[t := NoStore],
         heap := if o in s.heap && k < |s.heap[o]| then s.heap[o := s.heap[o][k := v]] else s.heap)
    case Alloc(t, o, fields) =>
      // free-list memory below sweep_limit is born black; bump memory is above it
      s.(heap := s.heap[o := fields], roots := s.roots[t := s.roots[t] + {Ptr(o)}],
         marked := if s.phase == Concurrent && o < s.limit then s.marked + {o} else s.marked,
         bump := if o >= s.bump then o + 1 + |fields| else s.bump)
  }

  /** States before the initial mark: no dangling words, no store under way. */
  ghost predicate Init(s: State) {
    s.phase == Idle && WellFormed(s) && Quiet(s)
  }

  /** No dangling words; objects lie below the allocation point. */
  ghost predicate WellFormed(s: State) {
    && |s.pending| == |s.roots| == |s.logs|
    && (forall v :: v in AllRoots(s) && IsRef(v) ==> v.o in s.heap)
    && (forall o, k :: o in s.heap && 0 <= k < |s.heap[o]| && IsRef(s.heap[o][k]) ==> s.heap[o][k].o in s.heap)
    && (forall o :: o in s.heap ==> o < s.bump)
    && (forall t :: 0 <= t < |s.pending| && s.pending[t].Storing? ==>
          s.pending[t].obj in s.heap && s.pending[t].field < |s.heap[s.pending[t].obj]|)
  }

  // ------------------------------------------------------------------ the invariant

  /** Objects reachable at the initial mark. */
  ghost predicate InSnapshot(s: State, o: int) { Reachable(s.snap, s.snapRoots, o) }

  /** Objects allocated since the initial mark. */
  predicate IsNew(s: State, o: int) { o in s.heap && o !in s.snap }

  /** Objects a mutator can come by: reachable at the initial mark, or allocated since. */
  ghost predicate Known(s: State, o: int) { InSnapshot(s, o) || IsNew(s, o) }

  predicate Black(s: State, v: Val) { IsRef(v) && !IsStatic(v.o) ==> v.o in s.marked }

  /** Every word the mutators can see names a known object. */
  ghost predicate MutatorsKnown(s: State) {
    && (forall v :: v in AllRoots(s) && IsRef(v) ==> Known(s, v.o))
    && (forall o, k :: o in s.heap && Known(s, o) && 0 <= k < |s.heap[o]| && IsRef(s.heap[o][k]) ==>
          Known(s, s.heap[o][k].o))
    && (forall t, v :: 0 <= t < |s.logs| && v in s.logs[t] && IsRef(v) ==> Known(s, v.o))
    && (forall t :: 0 <= t < |s.pending| && s.pending[t].Storing? ==> Known(s, s.pending[t].obj))
  }

  /** Snapshot objects keep their size and lie below the limit; objects allocated since are marked or
      above it. */
  ghost predicate SnapshotShape(s: State) {
    && (forall o :: o in s.snap ==> o in s.heap && |s.heap[o]| == |s.snap[o]| && o < s.limit)
    && (forall o :: IsNew(s, o) ==> !IsStatic(o) && (o in s.marked || o >= s.limit))
    && (forall v :: v in s.snapRoots && IsRef(v) ==> v.o in s.snap)
    && (forall o, k :: o in s.snap && 0 <= k < |s.snap[o]| && IsRef(s.snap[o][k]) ==> s.snap[o][k].o in s.snap)
  }

  /** A snapshot word is safe once its object is marked or the word is in a barrier buffer. */
  ghost predicate Covered(s: State, v: Val) { Black(s, v) || Logged(s, v) }

  /** A field of a reachable snapshot object still holds its snapshot word, unless that is covered. */
  ghost predicate FieldsKept(s: State) {
    forall o, k :: o in s.snap && InSnapshot(s, o) && 0 <= k < |s.snap[o]| && o in s.heap && k < |s.heap[o]| ==>
      s.heap[o][k] == s.snap[o][k] || Covered(s, s.snap[o][k])
  }

  /** The barrier of a store under way has covered the snapshot word it is about to overwrite. */
  ghost predicate PendingCovered(s: State) {
    forall t :: 0 <= t < |s.pending| && s.pending[t].Storing? && s.pending[t].obj in s.snap
                && InSnapshot(s, s.pending[t].obj) &&
                s.pending[t].field < |s.snap[s.pending[t].obj]| ==>
      Covered(s, s.snap[s.pending[t].obj][s.pending[t].field])
  }

  /** Has the tracer dealt with field k of marked object o? */
  ghost predicate Traced(s: State, o: int, k: nat) {
    o !in s.stack && (s.scan.At? && s.scan.obj == o ==> k < s.scan.next)
  }

  /** The tracing invariant: the snapshot words of traced fields are covered. */
  ghost predicate Tricolor(s: State) {
    forall o, k: nat :: o in s.snap && InSnapshot(s, o) && k < |s.snap[o]| && o in s.marked && Traced(s, o, k) ==>
      Covered(s, s.snap[o][k])
  }

  /** The initial mark has dealt with the roots and with static space. */
  ghost predicate RootsMarked(s: State) {
    && (forall v :: v in s.snapRoots ==> Black(s, v))
    && (forall o, k :: o in s.snap && IsStatic(o) && 0 <= k < |s.snap[o]| ==> Covered(s, s.snap[o][k]))
  }

  /** Only known objects are marked. */
  ghost predicate Precise(s: State) {
    && (forall o :: o in s.marked ==> Known(s, o) && o in s.heap)
    && (forall o :: o in s.stack ==> o in s.marked)
    && (s.scan.At? ==> s.scan.obj in s.marked)
  }

  /** After the buffers are drained at remark every logged word is marked. */
  ghost predicate Drained(s: State) {
    s.phase == Remark || s.phase == Finished ==> forall t, v :: 0 <= t < |s.logs| && v in s.logs[t] ==> Black(s, v)
  }

  ghost predicate Base(s: State) {
    MutatorsKnown(s) && SnapshotShape(s) && FieldsKept(s) && PendingCovered(s) && Tricolor(s) && Precise(s)
  }

  ghost predicate Marking(s: State) {
    Base(s) && RootsMarked(s) && Drained(s)
  }

  ghost predicate Inv(s: State) {
    && WellFormed(s)
    && (s.phase != Idle ==> Marking(s))
    && (s.phase == Finished ==> s.stack == [] && s.scan == NoScan)
  }

  // ------------------------------------------------------------------ marking

  /** Facts about snapshot reachability, whatever the rest of the state. */
  lemma SnapshotFacts(s: State)
    requires SnapshotShape(s)
    ensures forall o :: InSnapshot(s, o) ==> o in s.snap
    ensures forall v :: v in s.snapRoots && IsRef(v) ==> InSnapshot(s, v.o)
    ensures forall o :: o in s.snap && IsStatic(o) ==> InSnapshot(s, o)
    ensures forall o, k :: InSnapshot(s, o) && 0 <= k < |s.snap[o]| && IsRef(s.snap[o][k]) ==>
              InSnapshot(s, s.snap[o][k].o)
  {
    hide IsPath, Reachable;
    var keys := iset o | o in s.snap;
    assert ClosedSet(s.snap, s.snapRoots, keys);
    forall o | InSnapshot(s, o) ensures o in s.snap { ReachableLeast(s.snap, s.snapRoots, keys, o); }
    ReachableClosed(s.snap, s.snapRoots);
    var r := iset o | Reachable(s.snap, s.snapRoots, o);
    forall v | v in s.snapRoots && IsRef(v) ensures InSnapshot(s, v.o) {
      assert RootObj(s.snap, s.snapRoots, v.o);
      assert v.o in r;
    }
    forall o | o in s.snap && IsStatic(o) ensures InSnapshot(s, o) {
      assert RootObj(s.snap, s.snapRoots, o);
      assert o in r;
    }
    forall o, k | InSnapshot(s, o) && 0 <= k < |s.snap[o]| && IsRef(s.snap[o][k])
      ensures InSnapshot(s, s.snap[o][k].o)
    {
      assert o in r && Edge(s.snap, o, s.snap[o][k].o);
      assert s.snap[o][k].o in r;
    }
  }

  /** s' differs from s by some more marking, each newly marked object being pushed. */
  ghost predicate MarkedMore(s: State, s': State) {
    && s' == s.(marked := s'.marked, stack := s'.stack)
    && s.marked <= s'.marked
    && (forall o :: o in s.stack ==> o in s'.stack)
    && (forall o :: o in s'.stack ==> o in s.stack || o in s'.marked)
    && (forall o :: o in s'.marked ==> o in s.marked || o in s'.stack)
  }

  lemma {:induction false} MarkAllEffect(s: State, vs: seq<Val>)
    ensures MarkedMore(s, MarkAll(s, vs))
    ensures forall v :: v in vs ==> Black(MarkAll(s, vs), v)
    ensures forall o :: o in MarkAll(s, vs).marked ==> o in s.marked || exists v :: v in vs && IsRef(v) && v.o == o
                                                                                    && !IsStatic(o)
    decreases |vs|
  {
    if vs != [] {
      var s1 := MarkRef(s, vs[0]);
      MarkAllEffect(s1, vs[1..]);
      var s2 := MarkAll(s1, vs[1..]);
      forall v | v in vs ensures Black(s2, v) {
        if v != vs[0] { assert v in vs[1..]; }
      }
      forall o | o in s2.marked && o !in s.marked ensures exists v :: v in vs && IsRef(v) && v.o == o && !IsStatic(o) {
        if o !in s1.marked {
          var v :| v in vs[1..] && IsRef(v) && v.o == o && !IsStatic(o);
          assert v in vs;
        }
      }
    }
  }

  lemma CoveredMore(s: State, s': State, v: Val)
    requires Covered(s, v) && s.marked <= s'.marked
    requires |s.logs| == |s'.logs| && forall t :: 0 <= t < |s.logs| ==> s.logs[t] <= s'.logs[t]
    ensures Covered(s', v)
  {
    if Logged(s, v) {
      var t :| 0 <= t < |s.logs| && v in s.logs[t];
      assert v in s'.logs[t];
    }
  }

  /** Marking more objects keeps the invariant. */
  lemma MarkMoreKeeps(s: State, s': State)
    requires Base(s) && MarkedMore(s, s')
    requires forall o :: o in s'.marked ==> o in s.marked || (Known(s, o) && o in s.heap && !IsStatic(o))
    ensures Base(s')
    ensures RootsMarked(s) ==> RootsMarked(s')
    ensures Drained(s) ==> Drained(s')
  {
    hide Reachable, Covered;
    assert forall v :: Covered(s, v) ==> Covered(s', v) by {
      forall v | Covered(s, v) ensures Covered(s', v) { CoveredMore(s, s', v); }
    }
    assert s'.snap == s.snap && s'.snapRoots == s.snapRoots && s'.heap == s.heap && s'.logs == s.logs
        && s'.scan == s.scan;
    assert FieldsKept(s');
    assert PendingCovered(s');
    assert Tricolor(s');
    assert MutatorsKnown(s');
    assert SnapshotShape(s');
    assert Precise(s');
    if Drained(s) {
      forall t, v | 0 <= t < |s'.logs| && v in s'.logs[t] && (s'.phase == Remark || s'.phase == Finished)
        ensures Black(s', v)
      {
        assert Black(s, v);
      }
    }
  }

  lemma KnownInHeap(s: State, o: int)
    requires SnapshotShape(s) && Known(s, o)
    ensures o in s.heap
  {
    hide Reachable;
    SnapshotFacts(s);
  }

  lemma StaticKnown(s: State, v: Val)
    requires SnapshotShape(s) && MutatorsKnown(s) && StaticWord(s.heap, v) && IsRef(v)
    ensures Known(s, v.o)
  {
    hide Reachable, AllRoots;
    SnapshotFacts(s);
    var o, k :| o in s.heap && IsStatic(o) && 0 <= k < |s.heap[o]| && s.heap[o][k] == v;
    assert Known(s, o);
  }

  lemma MarkingKeepsWords(s: State, s': State)
    requires WellFormed(s) && MarkedMore(s, s')
    ensures WellFormed(s')
  {
  }

  /** The state in the initial pause, before anything is marked. */
  ghost function Cleared(s: State): State {
    s.(phase := Concurrent, marked := {}, stack := [], scan := NoScan, limit := s.bump,
       logs := seq(|s.logs|, t => []), snap := s.heap, snapRoots := AllRoots(s))
  }

  lemma ClearedBase(s: State)
    requires Init(s)
    ensures Base(Cleared(s)) && WellFormed(Cleared(s)) && Drained(Cleared(s))
  {
    hide Reachable, AllRoots;
    var s0 := Cleared(s);
    assert AllRoots(s0) == AllRoots(s) by { AllRootsSame(s, s0); }
    assert SnapshotShape(s0);
    SnapshotFacts(s0);
    assert MutatorsKnown(s0);
    assert FieldsKept(s0);
    assert PendingCovered(s0);
    assert Tricolor(s0);
    assert Precise(s0);
  }

  lemma AllRootsSame(s: State, s': State)
    requires s.roots == s'.roots && s.globals == s'.globals
    ensures AllRoots(s) == AllRoots(s')
  {
  }

  lemma InitialMarkKeeps(s: State, vs: seq<Val>)
    requires Inv(s) && s.phase == Idle && Can(s, InitialMark(vs))
    ensures Inv(Do(s, InitialMark(vs)))
  {
    hide Reachable, AllRoots, Base, Covered;
    var s0 := Cleared(s);
    ClearedBase(s);
    var s' := MarkAll(s0, vs);
    MarkAllEffect(s0, vs);
    forall o | o in s'.marked && o !in s0.marked ensures Known(s0, o) && o in s0.heap && !IsStatic(o) {
      var v :| v in vs && IsRef(v) && v.o == o && !IsStatic(o);
      InitialKnown(s, v);
      KnownInHeap(s0, o) by { BaseParts(s0); }
    }
    MarkMoreKeeps(s0, s');
    MarkingKeepsWords(s0, s');
    assert RootsMarked(s') by {
      forall o, k | o in s'.snap && IsStatic(o) && 0 <= k < |s'.snap[o]| ensures Covered(s', s'.snap[o][k]) {
        assert StaticWord(s.heap, s'.snap[o][k]);
        BlackCovered(s', s'.snap[o][k]);
      }
    }
  }

  lemma BlackCovered(s: State, v: Val)
    requires Black(s, v)
    ensures Covered(s, v)
  {
  }

  lemma BaseParts(s: State)
    requires Base(s)
    ensures MutatorsKnown(s) && SnapshotShape(s) && FieldsKept(s) && PendingCovered(s) && Tricolor(s) && Precise(s)
  {
  }

  lemma InitialKnown(s: State, v: Val)
    requires Init(s) && IsRef(v) && (v in AllRoots(s) || StaticWord(s.heap, v))
    ensures Known(Cleared(s), v.o)
  {
    hide Reachable, AllRoots;
    ClearedBase(s);
    if StaticWord(s.heap, v) { StaticKnown(Cleared(s), v); } else { SnapshotFacts(Cleared(s)); }
  }

  lemma RemarkKnown(s: State, v: Val)
    requires Inv(s) && s.phase == Concurrent && IsRef(v)
    requires v in AllRoots(s) || StaticWord(s.heap, v) || Logged(s, v) || YoungWord(s, v)
    ensures Known(s, v.o) && v.o in s.heap
  {
    hide Reachable, AllRoots, Tricolor, FieldsKept, PendingCovered, RootsMarked;
    if StaticWord(s.heap, v) {
      StaticKnown(s, v);
    } else if YoungWord(s, v) {
      var o, k :| o in s.heap && o >= s.limit && 0 <= k < |s.heap[o]| && s.heap[o][k] == v;
      assert Known(s, o);
    }
    KnownInHeap(s, v.o);
  }

  lemma PhaseBase(s: State, p: Phase)
    requires Base(s) && RootsMarked(s) && WellFormed(s)
    ensures Base(s.(phase := p)) && RootsMarked(s.(phase := p)) && WellFormed(s.(phase := p))
  {
    hide Reachable, Covered;
    var s' := s.(phase := p);
    assert forall v :: Covered(s, v) ==> Covered(s', v) by {
      forall v | Covered(s, v) ensures Covered(s', v) { CoveredMore(s, s', v); }
    }
    hide IsRef, IsStatic, IsNew;
    assert FieldsKept(s');
    assert PendingCovered(s');
    assert Tricolor(s');
    assert MutatorsKnown(s');
  }

  lemma BeginRemarkKeeps(s: State, vs: seq<Val>)
    requires Inv(s) && Can(s, BeginRemark(vs))
    ensures Inv(Do(s, BeginRemark(vs)))
  {
    hide Reachable, AllRoots, Base, RootsMarked, Covered;
    var s0 := s.(phase := Remark);
    PhaseBase(s, Remark);
    var s' := MarkAll(s0, vs);
    MarkAllEffect(s0, vs);
    forall o | o in s'.marked && o !in s0.marked ensures Known(s0, o) && o in s0.heap && !IsStatic(o) {
      var v :| v in vs && IsRef(v) && v.o == o && !IsStatic(o);
      RemarkKnown(s, v);
    }
    MarkMoreKeeps(s0, s');
    MarkingKeepsWords(s0, s');
    assert Drained(s') by {
      forall t, v | 0 <= t < |s'.logs| && v in s'.logs[t] ensures Black(s', v) {
        assert Logged(s, v);
      }
    }
  }

  lemma DrainedKept(s: State, s': State)
    requires Drained(s) && s'.logs == s.logs && s.marked <= s'.marked && s'.phase == s.phase
    ensures Drained(s')
  {
    forall t, v | 0 <= t < |s'.logs| && v in s'.logs[t] && s.phase != Idle && s.phase != Concurrent
      ensures Black(s', v)
    {
      assert Black(s, v);
    }
  }

  lemma DrainedPhase(s: State)
    requires Drained(s) && s.phase == Remark
    ensures Drained(s.(phase := Finished))
  {
    var s' := s.(phase := Finished);
    forall t, v | 0 <= t < |s'.logs| && v in s'.logs[t] ensures Black(s', v) { assert Black(s, v); }
  }

  // ------------------------------------------------------------------ the tracer

  lemma PopKeeps(s: State)
    requires Inv(s) && Can(s, Pop)
    ensures Inv(Do(s, Pop))
  {
    hide Reachable, AllRoots, Covered;
    var s' := Do(s, Pop);
    var o := s.stack[|s.stack| - 1];
    assert forall v :: Covered(s, v) ==> Covered(s', v) by {
      forall v | Covered(s, v) ensures Covered(s', v) { CoveredMore(s, s', v); }
    }
    AllRootsSame(s, s');
    assert o in s.stack;
    forall p | p in s.stack && p !in s'.stack ensures p == o { InFront(s.stack, p); }
    assert Tricolor(s');
    assert FieldsKept(s') && PendingCovered(s') && RootsMarked(s') && MutatorsKnown(s');
    DrainedKept(s, s');
  }

  lemma InFront(st: seq<int>, p: int)
    requires st != [] && p in st && p !in st[..|st| - 1]
    ensures p == st[|st| - 1]
  {
    assert st == st[..|st| - 1] + [st[|st| - 1]];
  }

  lemma ScanFieldKeeps(s: State)
    requires Inv(s) && Can(s, ScanField)
    ensures Inv(Do(s, ScanField))
  {
    hide Reachable, AllRoots, Covered, Base;
    var o, i := s.scan.obj, s.scan.next;
    var v := s.heap[o][i];
    var s1 := MarkRef(s, v);
    if IsRef(v) { ScannedKnown(s, o, i) by { assert o in s.marked by { BaseParts(s); } } }
    MarkMoreKeeps(s, s1);
    MarkingKeepsWords(s, s1);
    AdvanceScan(s1, o, i);
  }

  lemma ScannedKnown(s: State, o: int, i: int)
    requires WellFormed(s) && Base(s) && o in s.marked && o in s.heap && 0 <= i < |s.heap[o]| && IsRef(s.heap[o][i])
    ensures Known(s, s.heap[o][i].o) && s.heap[o][i].o in s.heap
  {
    hide Reachable, AllRoots, Covered, Tricolor, FieldsKept, PendingCovered;
  }

  lemma AdvanceScan(s: State, o: int, i: nat)
    requires WellFormed(s) && Marking(s) && s.scan == At(o, i) && o in s.heap && i < |s.heap[o]|
        && Black(s, s.heap[o][i])
    ensures WellFormed(s.(scan := At(o, i + 1))) && Marking(s.(scan := At(o, i + 1)))
  {
    hide Reachable, AllRoots, Covered;
    var s' := s.(scan := At(o, i + 1));
    assert forall v :: Covered(s, v) ==> Covered(s', v) by {
      forall v | Covered(s, v) ensures Covered(s', v) { CoveredMore(s, s', v); }
    }
    AllRootsSame(s, s');
    forall p, k: nat | p in s'.snap && InSnapshot(s', p) && k < |s'.snap[p]| && p in s'.marked && Traced(s', p, k)
      ensures Covered(s', s'.snap[p][k])
    {
      if p == o && k == i {
        if s.heap[o][i] == s.snap[o][i] { BlackCovered(s', s.snap[o][i]); }
      } else {
        assert Traced(s, p, k);
      }
    }
    assert FieldsKept(s') && PendingCovered(s') && RootsMarked(s') && MutatorsKnown(s');
    DrainedKept(s, s');
  }

  lemma EndScanKeeps(s: State)
    requires Inv(s) && Can(s, EndScan)
    ensures Inv(Do(s, EndScan))
  {
    hide Reachable, AllRoots, Covered;
    var s' := Do(s, EndScan);
    assert forall v :: Covered(s, v) ==> Covered(s', v) by {
      forall v | Covered(s, v) ensures Covered(s', v) { CoveredMore(s, s', v); }
    }
    AllRootsSame(s, s');
    assert Tricolor(s') by {
      forall p, k: nat | p in s'.snap && InSnapshot(s', p) && k < |s'.snap[p]| && p in s'.marked && Traced(s', p, k)
        ensures Covered(s', s'.snap[p][k])
      {
        assert Traced(s, p, k);
      }
    }
    assert FieldsKept(s') && PendingCovered(s') && RootsMarked(s') && MutatorsKnown(s');
    DrainedKept(s, s');
  }

  lemma FinishKeeps(s: State)
    requires Inv(s) && Can(s, Finish)
    ensures Inv(Do(s, Finish))
  {
    hide Reachable, AllRoots, Base, RootsMarked;
    PhaseBase(s, Finished);
    assert Drained(s.(phase := Finished)) by { DrainedPhase(s); }
  }

  // ------------------------------------------------------------------ the mutators

  /** Changing root words to words that are known, or were roots before. */
  lemma RootsKeep(s: State, s': State)
    requires Inv(s) && s' == s.(roots := s'.roots, globals := s'.globals) && |s'.roots| == |s.roots|
    requires s.phase != Finished
    requires forall v :: v in AllRoots(s') && IsRef(v) ==>
               v in AllRoots(s) || (v.o in s.heap && (s.phase != Idle ==> Known(s, v.o)))
    ensures Inv(s')
  {
    hide Reachable, Covered, AllRoots;
    assert forall v :: Covered(s, v) ==> Covered(s', v) by {
      forall v | Covered(s, v) ensures Covered(s', v) { CoveredMore(s, s', v); }
    }
    assert WellFormed(s');
    if s.phase != Idle {
      assert FieldsKept(s') && PendingCovered(s') && RootsMarked(s');
      DrainedKept(s, s');
      assert MutatorsKnown(s');
      assert Tricolor(s');
    }
  }

  lemma HoldsKnown(s: State, t: nat, o: int)
    requires Inv(s) && t < |s.roots| && Holds(s, t, o)
    ensures o in s.heap && (s.phase != Idle ==> Known(s, o))
  {
    hide Reachable, Covered, Tricolor, FieldsKept, PendingCovered, RootsMarked;
    if s.phase != Idle {
      SnapshotFacts(s);
      if IsStatic(o) {
        assert !IsNew(s, o);
      } else {
        var v :| v in s.roots[t] && IsRef(v) && v.o == o;
        assert v in AllRoots(s);
      }
    }
  }

  lemma FieldKnown(s: State, o: int, k: nat)
    requires Inv(s) && o in s.heap && k < |s.heap[o]| && IsRef(s.heap[o][k]) && (s.phase != Idle ==> Known(s, o))
    ensures s.heap[o][k].o in s.heap && (s.phase != Idle ==> Known(s, s.heap[o][k].o))
  {
    hide Reachable, Covered, Tricolor, FieldsKept, PendingCovered, RootsMarked, AllRoots;
  }

  lemma AddRootKeeps(s: State, t: nat, v: Val)
    requires Inv(s) && s.phase != Finished && t < |s.roots|
    requires IsRef(v) ==> v.o in s.heap && (s.phase != Idle ==> Known(s, v.o))
    ensures Inv(s.(roots := s.roots[t := s.roots[t] + {v}]))
  {
    hide Inv, Known;
    RootsKeep(s, s.(roots := s.roots[t := s.roots[t] + {v}]));
  }

  lemma RootStepKeeps(s: State, step: Step)
    requires Inv(s) && Can(s, step)
    requires step.Load? || step.LoadGlobal? || step.StoreGlobal? || step.DropGlobal? || step.MakeLoc? || step.Drop?
    ensures Inv(Do(s, step))
  {
    hide Inv, Known;
    Sizes(s);
    if step.Load? {
      HoldsKnown(s, step.t, step.o);
      if IsRef(s.heap[step.o][step.k]) { FieldKnown(s, step.o, step.k); }
      AddRootKeeps(s, step.t, s.heap[step.o][step.k]);
    } else if step.MakeLoc? {
      HoldsKnown(s, step.t, step.o);
      AddRootKeeps(s, step.t, Loc(step.o, step.k));
    } else {
      RootsKeep(s, Do(s, step));
    }
  }

  lemma BarrierKeeps(s: State, t: nat, o: int, k: nat)
    requires Inv(s) && Can(s, Barrier(t, o, k))
    ensures Inv(Do(s, Barrier(t, o, k)))
  {
    hide Marking, AllRoots;
    var s' := Do(s, Barrier(t, o, k));
    HoldsKnown(s, t, o);
    AllRootsSame(s, s');
    assert WellFormed(s');
    if s.phase != Idle {
      BarrierKnown(s, t, o, k);
      BarrierCovered(s, t, o, k);
      DrainedIdle(s');
      MarkingIntro(s');
    }
  }

  lemma BarrierKnown(s: State, t: nat, o: int, k: nat)
    requires Inv(s) && Can(s, Barrier(t, o, k)) && s.phase == Concurrent
    ensures var s' := Do(s, Barrier(t, o, k)); MutatorsKnown(s') && SnapshotShape(s') && Precise(s')
  {
    hide Reachable, AllRoots, Covered, FieldsKept, PendingCovered, Tricolor, RootsMarked, Drained;
    var s' := Do(s, Barrier(t, o, k));
    HoldsKnown(s, t, o);
    AllRootsSame(s, s');
    if IsRef(s.heap[o][k]) { FieldKnown(s, o, k); }
    assert MutatorsKnown(s');
  }

  lemma BarrierCovered(s: State, t: nat, o: int, k: nat)
    requires Inv(s) && Can(s, Barrier(t, o, k)) && s.phase == Concurrent
    ensures var s' := Do(s, Barrier(t, o, k));
            FieldsKept(s') && PendingCovered(s') && Tricolor(s') && RootsMarked(s')
  {
    hide Reachable, AllRoots, Covered, MutatorsKnown, SnapshotShape, Precise, Drained;
    var s' := Do(s, Barrier(t, o, k));
    var old0 := s.heap[o][k];
    assert forall u :: 0 <= u < |s.logs| ==> s.logs[u] <= s'.logs[u];
    assert forall v :: Covered(s, v) ==> Covered(s', v) by {
      forall v | Covered(s, v) ensures Covered(s', v) { CoveredMore(s, s', v); }
    }
    NowCovered(s', t, old0) by { assert IsRef(old0) ==> old0 in s'.logs[t]; }
  }

  lemma NowCovered(s: State, t: nat, v: Val)
    requires t < |s.logs| && (IsRef(v) ==> v in s.logs[t])
    ensures Covered(s, v)
  {
  }

  lemma CommitKeeps(s: State, t: nat, v: Val)
    requires Inv(s) && Can(s, Commit(t, v))
    ensures Inv(Do(s, Commit(t, v)))
  {
    hide Marking;
    var s' := Do(s, Commit(t, v));
    AllRootsSame(s, s');
    assert IsRef(v) ==> v in AllRoots(s);
    assert WellFormed(s');
    if s.phase != Idle {
      CommitKnown(s, t, v);
      CommitCovered(s, t, v);
      DrainedIdle(s');
      MarkingIntro(s');
    }
  }

  lemma CommitKnown(s: State, t: nat, v: Val)
    requires Inv(s) && Can(s, Commit(t, v)) && s.phase == Concurrent
    ensures var s' := Do(s, Commit(t, v)); MutatorsKnown(s') && SnapshotShape(s') && Precise(s')
  {
    hide Reachable, Covered, FieldsKept, PendingCovered, Tricolor, RootsMarked, Drained;
    var s' := Do(s, Commit(t, v));
    AllRootsSame(s, s');
    assert IsRef(v) ==> v in AllRoots(s);
    hide AllRoots;
    assert forall p :: IsNew(s, p) <==> IsNew(s', p);
    assert MutatorsKnown(s');
  }

  lemma CommitCovered(s: State, t: nat, v: Val)
    requires Inv(s) && Can(s, Commit(t, v)) && s.phase == Concurrent
    ensures var s' := Do(s, Commit(t, v));
            FieldsKept(s') && PendingCovered(s') && Tricolor(s') && RootsMarked(s')
  {
    hide Reachable, AllRoots, Covered, MutatorsKnown, SnapshotShape, Precise, Drained;
    var s' := Do(s, Commit(t, v));
    assert forall w :: Covered(s, w) ==> Covered(s', w) by {
      forall w | Covered(s, w) ensures Covered(s', w) { CoveredMore(s, s', w); }
    }
    assert FieldsKept(s');
    assert PendingCovered(s');
  }

  lemma AllocKnown(s: State, t: nat, o: int, fields: seq<Val>)
    requires Inv(s) && Can(s, Alloc(t, o, fields)) && s.phase == Concurrent
    ensures var s' := Do(s, Alloc(t, o, fields));
            MutatorsKnown(s') && SnapshotShape(s') && Precise(s')
  {
    hide Reachable, Covered, FieldsKept, Tricolor, PendingCovered, RootsMarked, Drained;
    var s' := Do(s, Alloc(t, o, fields));
    assert forall v :: v in AllRoots(s') ==> v in AllRoots(s) || v == Ptr(o);
    assert forall k :: 0 <= k < |fields| && IsRef(fields[k]) ==> fields[k] in fields && fields[k] in AllRoots(s);
    hide AllRoots;
    assert o !in s.snap;
    assert forall p :: Known(s, p) ==> Known(s', p);
    assert MutatorsKnown(s');
  }

  lemma AllocTraced(s: State, t: nat, o: int, fields: seq<Val>)
    requires Inv(s) && Can(s, Alloc(t, o, fields)) && s.phase == Concurrent
    ensures var s' := Do(s, Alloc(t, o, fields));
            FieldsKept(s') && PendingCovered(s') && Tricolor(s') && RootsMarked(s')
  {
    hide Reachable, Covered, MutatorsKnown, Precise, Drained, AllRoots;
    var s' := Do(s, Alloc(t, o, fields));
    assert forall w :: Covered(s, w) ==> Covered(s', w) by {
      forall w | Covered(s, w) ensures Covered(s', w) { CoveredMore(s, s', w); }
    }
    assert o !in s.snap;
  }

  lemma AllocKeeps(s: State, t: nat, o: int, fields: seq<Val>)
    requires Inv(s) && Can(s, Alloc(t, o, fields))
    ensures Inv(Do(s, Alloc(t, o, fields)))
  {
    hide Marking, AllRoots;
    var s' := Do(s, Alloc(t, o, fields));
    AllocWords(s, t, o, fields);
    if s.phase != Idle {
      AllocKnown(s, t, o, fields);
      AllocTraced(s, t, o, fields);
      DrainedIdle(s');
      MarkingIntro(s');
    }
  }

  lemma AllocWords(s: State, t: nat, o: int, fields: seq<Val>)
    requires Inv(s) && Can(s, Alloc(t, o, fields))
    ensures WellFormed(Do(s, Alloc(t, o, fields)))
  {
    hide Marking;
    var s' := Do(s, Alloc(t, o, fields));
    assert forall v :: v in AllRoots(s') ==> v in AllRoots(s) || v == Ptr(o);
    assert forall k :: 0 <= k < |fields| && IsRef(fields[k]) ==> fields[k] in fields && fields[k] in AllRoots(s);
  }

  lemma DrainedIdle(s: State)
    requires s.phase == Concurrent
    ensures Drained(s)
  {
  }

  lemma MarkingIntro(s: State)
    requires MutatorsKnown(s) && SnapshotShape(s) && FieldsKept(s) && PendingCovered(s) && Tricolor(s) && Precise(s)
    requires RootsMarked(s) && Drained(s)
    ensures Marking(s)
  {
  }

  // ------------------------------------------------------------------ runs

  lemma StepKeeps(s: State, step: Step)
    requires Inv(s) && Can(s, step)
    ensures Inv(Do(s, step))
  {
    hide Inv, Can, Do;
    assert |s.pending| == |s.roots| == |s.logs| by { Sizes(s); }
    match step
    case InitialMark(vs) => PhaseIdle(s, vs); InitialMarkKeeps(s, vs);
    case BeginRemark(vs) => BeginRemarkKeeps(s, vs);
    case Finish => FinishKeeps(s);
    case Pop => PopKeeps(s);
    case ScanField => ScanFieldKeeps(s);
    case EndScan => EndScanKeeps(s);
    case Barrier(t, o, k) => BarrierKeeps(s, t, o, k);
    case Commit(t, v) => CommitKeeps(s, t, v);
    case Alloc(t, o, fields) => AllocKeeps(s, t, o, fields);
    case _ => RootStepKeeps(s, step);
  }

  lemma Sizes(s: State)
    requires Inv(s)
    ensures |s.pending| == |s.roots| == |s.logs|
  {
  }

  lemma PhaseIdle(s: State, vs: seq<Val>)
    requires Inv(s) && |s.pending| == |s.roots| == |s.logs| && Can(s, InitialMark(vs))
    ensures s.phase == Idle
  {
  }

  ghost predicate LegalRun(s: State, steps: seq<Step>)
    decreases |steps|
  {
    |s.pending| == |s.roots| == |s.logs| &&
    (steps == [] || (Can(s, steps[0]) && LegalRun(Do(s, steps[0]), steps[1..])))
  }

  ghost function Run(s: State, steps: seq<Step>): State
    requires LegalRun(s, steps)
    decreases |steps|
  {
    if steps == [] then s else Run(Do(s, steps[0]), steps[1..])
  }

  lemma {:induction false} RunKeeps(s: State, steps: seq<Step>)
    requires Inv(s) && LegalRun(s, steps)
    ensures Inv(Run(s, steps))
    decreases |steps|
  {
    hide Inv, Can, Do;
    if steps != [] {
      StepKeeps(s, steps[0]);
      RunKeeps(Do(s, steps[0]), steps[1..]);
    }
  }

  /** When tracing is over every object reachable at the initial mark is marked. */
  lemma SnapshotMarked(s: State, o: int)
    requires Inv(s) && s.phase == Finished && InSnapshot(s, o) && !IsStatic(o)
    ensures o in s.marked
  {
    hide Reachable, MutatorsKnown, FieldsKept, PendingCovered, IsPath;
    SnapshotFacts(s);
    forall v | Covered(s, v) ensures Black(s, v) {
      if Logged(s, v) {
        var t :| 0 <= t < |s.logs| && v in s.logs[t];
      }
    }
    var c := iset p | InSnapshot(s, p) && (IsStatic(p) || p in s.marked);
    forall p | RootObj(s.snap, s.snapRoots, p) ensures p in c {
      if !(p in s.snap && IsStatic(p)) {
        var v :| v in s.snapRoots && IsRef(v) && v.o == p;
        assert Black(s, v);
      }
    }
    forall p, q | p in c && Edge(s.snap, p, q) ensures q in c {
      var k: nat :| 0 <= k < |s.snap[p]| && IsRef(s.snap[p][k]) && s.snap[p][k].o == q;
      if p in s.marked { assert Traced(s, p, k); }
      assert Covered(s, s.snap[p][k]);
    }
    ReachableLeast(s.snap, s.snapRoots, c, o);
  }

  /** Every object reachable when remark ends is known. */
  lemma ReachableKnown(s: State, o: int)
    requires Inv(s) && s.phase == Finished && Reachable(s.heap, AllRoots(s), o)
    ensures Known(s, o)
  {
    hide Reachable, FieldsKept, PendingCovered, IsPath, Tricolor, RootsMarked, Drained, AllRoots;
    SnapshotFacts(s);
    var c := iset p | p in s.heap && Known(s, p);
    forall p | RootObj(s.heap, AllRoots(s), p) ensures p in c {
      if p in s.heap && IsStatic(p) { assert !IsNew(s, p); }
    }
    ReachableLeast(s.heap, AllRoots(s), c, o);
  }

  /** Safety of concurrent marking, over every interleaving: when remark ends, every heap object the
      program can still reach is marked or lies at or above the sweep limit. */
  lemma Safety(s: State, steps: seq<Step>, o: int)
    requires Init(s) && LegalRun(s, steps)
    requires Run(s, steps).phase == Finished
    requires Reachable(Run(s, steps).heap, AllRoots(Run(s, steps)), o) && !IsStatic(o)
    ensures o in Run(s, steps).marked || o >= Run(s, steps).limit
  {
    hide Reachable, AllRoots, Run, LegalRun;
    var f := Run(s, steps);
    RunKeeps(s, steps);
    ReachableKnown(f, o);
    if InSnapshot(f, o) { SnapshotMarked(f, o); }
  }

  /** Marking is as precise as a snapshot can be: below the sweep limit the marked objects are exactly
      those reachable at the initial mark and those allocated since. */
  lemma Exactness(s: State, steps: seq<Step>, o: int)
    requires Init(s) && LegalRun(s, steps)
    requires Run(s, steps).phase == Finished
    requires o in Run(s, steps).heap && !IsStatic(o) && o < Run(s, steps).limit
    ensures o in Run(s, steps).marked <==>
            InSnapshot(Run(s, steps), o) || o !in Run(s, steps).snap
  {
    hide Reachable, AllRoots, Run, LegalRun;
    var f := Run(s, steps);
    RunKeeps(s, steps);
    if InSnapshot(f, o) { SnapshotMarked(f, o); }
  }

  /** The recorded snapshot is the heap and the roots of the state in which the initial mark was taken. */
  lemma {:induction false} SnapshotIs(s: State, steps: seq<Step>)
    requires LegalRun(s, steps) && s.phase != Idle
    ensures Run(s, steps).snap == s.snap && Run(s, steps).snapRoots == s.snapRoots && Run(s, steps).phase != Idle
    ensures Run(s, steps).limit == s.limit
    decreases |steps|
  {
    if steps != [] {
      var s1 := Do(s, steps[0]);
      match steps[0] {
        case BeginRemark(vs) => MarkAllEffect(s.(phase := Remark), vs);
        case _ =>
      }
      SnapshotIs(s1, steps[1..]);
    }
  }
}
