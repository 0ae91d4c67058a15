/** What the program and the collector do to the heap in the transition system of `Satb`: a store is seen by
    every later load of the same word, whatever happens in between, and the collector changes no word. */
module SatbSteps {
  import opened Satb

  ghost predicate Sized(s: State) { |s.pending| == |s.roots| == |s.logs| }

  predicate Collects(step: Step) {
    step.InitialMark? || step.BeginRemark? || step.Finish? || step.Pop? || step.ScanField? || step.EndScan?
  }

  /** The collector reads the heap and the roots and changes neither. */
  lemma CollectorLeaves(s: State, step: Step)
    requires Sized(s) && Can(s, step) && Collects(step)
    ensures var r := Do(s, step);
            && r.heap == s.heap && r.roots == s.roots && r.globals == s.globals && r.pending == s.pending
            && r.bump == s.bump
  {
    match step
    case InitialMark(vs) =>
      MarkAllEffect(s.(phase := Concurrent, marked := {}, stack := [], scan := NoScan, limit := s.bump,
                       logs := seq(|s.logs|, t => []), snap := s.heap, snapRoots := AllRoots(s)), vs);
    case BeginRemark(vs) => MarkAllEffect(s.(phase := Remark), vs);
    case _ =>
  }

  /** The initial mark records the heap and the roots there are, and sets the limit to the allocation point. */
  lemma SnapshotTaken(s: State, vs: seq<Val>)
    requires Sized(s) && Can(s, InitialMark(vs))
    ensures var r := Do(s, InitialMark(vs));
            && r.phase == Concurrent && r.snap == s.heap && r.snapRoots == AllRoots(s) && r.limit == s.bump
            && forall t :: 0 <= t < |r.logs| ==> r.logs[t] == []
  {
    MarkAllEffect(s.(phase := Concurrent, marked := {}, stack := [], scan := NoScan, limit := s.bump,
                     logs := seq(|s.logs|, t => []), snap := s.heap, snapRoots := AllRoots(s)), vs);
  }

  /** The program does not meddle with the tracer, except that it allocates black below the limit. */
  lemma ProgramLeaves(s: State, step: Step)
    requires Sized(s) && Can(s, step) && !Collects(step)
    ensures var r := Do(s, step);
            && r.phase == s.phase && r.stack == s.stack && r.scan == s.scan && r.limit == s.limit && r.snap == s.snap
            && r.snapRoots == s.snapRoots
            && (forall o :: o in r.marked <==>
                  o in s.marked || (step.Alloc? && o == step.o && s.phase == Concurrent && o < s.limit))
  {
  }

  /** A store writes its word and no other. */
  lemma Stores(s: State, t: nat, v: Val)
    requires Sized(s) && Can(s, Commit(t, v)) && s.pending[t].obj in s.heap
    requires s.pending[t].field < |s.heap[s.pending[t].obj]|
    ensures var r, at := Do(s, Commit(t, v)), s.pending[t];
            && (forall o :: o in r.heap <==> o in s.heap) && (forall o <- s.heap :: |r.heap[o]| == |s.heap[o]|)
            && r.heap[at.obj][at.field] == v
            && (forall o <- s.heap, k: nat :: k < |s.heap[o]| && (o != at.obj || k != at.field) ==>
                  r.heap[o][k] == s.heap[o][k])
            && r.roots == s.roots && r.globals == s.globals && r.logs == s.logs
            && r.pending == s.pending[t := NoStore]
  {
  }

  /** A load gives the thread the word there is, and changes nothing else. */
  lemma Loads(s: State, t: nat, o: int, k: nat)
    requires Sized(s) && Can(s, Load(t, o, k))
    ensures var r := Do(s, Load(t, o, k));
            && r == s.(roots := r.roots) && |r.roots| == |s.roots|
            && (forall u :: 0 <= u < |s.roots| && u != t ==> r.roots[u] == s.roots[u])
            && (forall v :: v in r.roots[t] <==> v in s.roots[t] || v == s.heap[o][k])
  {
  }

  /** A new object holds what it is made with, and its thread holds it; no older object changes. */
  lemma Allocates(s: State, t: nat, o: int, fields: seq<Val>)
    requires Sized(s) && Can(s, Alloc(t, o, fields))
    ensures var r := Do(s, Alloc(t, o, fields));
            && o !in s.heap && o in r.heap && r.heap[o] == fields && Ptr(o) in r.roots[t]
            && (forall p :: p in r.heap <==> p in s.heap || p == o) && (forall p <- s.heap :: r.heap[p] == s.heap[p])
            && (forall u, v :: 0 <= u < |s.roots| ==>
                  (v in r.roots[u] <==> v in s.roots[u] || (u == t && v == Ptr(o))))
            && r.globals == s.globals && r.logs == s.logs && r.pending == s.pending
  {
  }

  /** Before a store, the barrier runs: while marking is under way it logs the old word, and only that. */
  lemma Logs(s: State, t: nat, o: int, k: nat)
    requires Sized(s) && Can(s, Barrier(t, o, k))
    ensures var r := Do(s, Barrier(t, o, k));
            && r == s.(pending := r.pending, logs := r.logs) && r.pending == s.pending[t := Storing(o, k)]
            && (forall u :: 0 <= u < |s.logs| && u != t ==> r.logs[u] == s.logs[u])
            && r.logs[t] == s.logs[t] + if s.phase == Concurrent && !s.heap[o][k].Imm? then [s.heap[o][k]] else []
  {
  }

  /** Words travel between threads through the global registers. */
  lemma PassedOn(s: State, t: nat, u: nat, v: Val)
    requires Sized(s) && Can(s, StoreGlobal(t, v)) && Running(s, u)
    ensures var r := Do(s, StoreGlobal(t, v));
            && r == s.(globals := r.globals) && (forall w :: w in r.globals <==> w in s.globals || w == v)
            && Can(r, LoadGlobal(u, v)) && v in Do(r, LoadGlobal(u, v)).roots[u]
            && !(v in Do(r, DropGlobal(v)).globals)
  {
  }

  // ---- A store is seen by every later load ----

  /** No store to field `k` of object `o` is completed along the run. */
  ghost predicate NotStored(s: State, steps: seq<Step>, o: int, k: nat)
    requires LegalRun(s, steps)
    decreases |steps|
  {
    steps == [] ||
    (&& !(steps[0].Commit? && steps[0].t < |s.pending| && s.pending[steps[0].t] == Storing(o, k))
     && NotStored(Do(s, steps[0]), steps[1..], o, k))
  }

  lemma WordKept(s: State, step: Step, o: int, k: nat)
    requires Sized(s) && Can(s, step) && o in s.heap && k < |s.heap[o]|
    requires !(step.Commit? && step.t < |s.pending| && s.pending[step.t] == Storing(o, k))
    ensures var r := Do(s, step); o in r.heap && |r.heap[o]| == |s.heap[o]| && r.heap[o][k] == s.heap[o][k]
  {
    if Collects(step) { CollectorLeaves(s, step); }
  }

  lemma {:induction false} WordStays(s: State, steps: seq<Step>, o: int, k: nat)
    requires LegalRun(s, steps) && NotStored(s, steps, o, k) && o in s.heap && k < |s.heap[o]|
    ensures var r := Run(s, steps); o in r.heap && k < |r.heap[o]| && r.heap[o][k] == s.heap[o][k]
    decreases |steps|
  {
    hide Do, Can;
    if steps != [] {
      WordKept(s, steps[0], o, k);
      WordStays(Do(s, steps[0]), steps[1..], o, k);
    }
  }

  /** Whatever the threads and the collector do in between, a load gives what was stored last. */
  lemma LastStoreRead(s: State, t: nat, v: Val, steps: seq<Step>, u: nat)
    requires Sized(s) && Can(s, Commit(t, v)) && s.pending[t].obj in s.heap
    requires s.pending[t].field < |s.heap[s.pending[t].obj]|
    requires var s1, at := Do(s, Commit(t, v)), s.pending[t];
             && LegalRun(s1, steps) && NotStored(s1, steps, at.obj, at.field)
             && Sized(Run(s1, steps)) && Can(Run(s1, steps), Load(u, at.obj, at.field))
    ensures var s2 := Run(Do(s, Commit(t, v)), steps);
            v in Do(s2, Load(u, s.pending[t].obj, s.pending[t].field)).roots[u]
  {
    var o, k := s.pending[t].obj, s.pending[t].field;
    Stores(s, t, v);
    WordStays(Do(s, Commit(t, v)), steps, o, k);
    Loads(Run(Do(s, Commit(t, v)), steps), u, o, k);
  }

  // ---- Remark ends ----

  ghost function ToScan(s: State): nat {
    if s.scan.At? && s.scan.obj in s.heap && s.scan.next <= |s.heap[s.scan.obj]|
    then 1 + |s.heap[s.scan.obj]| - s.scan.next else if s.scan.At? then 1 else 0
  }

  /** What the tracer has marked is in the heap. */
  lemma TracerFacts(s: State)
    requires Inv(s) && s.phase == Remark
    ensures s.marked <= s.heap.Keys && (s.scan.At? ==> s.scan.obj in s.heap) && Sized(s)
  {
    assert Precise(s);
    forall o | o in s.marked ensures o in s.heap { assert Known(s, o); }
  }

  /** Whatever has been marked and logged by then, the tracer's own steps bring the pause to its end. */
  lemma {:induction false} RemarkEnds(s: State) returns (steps: seq<Step>)
    requires Inv(s) && s.phase == Remark
    ensures LegalRun(s, steps) && Run(s, steps).phase == Phase.Finished
    decreases |s.heap.Keys - s.marked|, |s.stack|, ToScan(s)
  {
    hide Inv, Can, Do, LegalRun, Run, ToScan;
    var step := NextStep(s);
    TracerFacts(s);
    StepKeeps(s, step);
    var next := Do(s, step);
    if step == Finish {
      steps := [];
      Finished(next);
    } else {
      TracerFacts(next);
      MoreMarked(s, next);
      steps := RemarkEnds(next);
    }
    OneMore(s, step, steps);
    steps := [step] + steps;
  }

  /** What the tracer does next, and what it gains by it. */
  lemma NextStep(s: State) returns (step: Step)
    requires Inv(s) && s.phase == Remark
    ensures Sized(s) && Can(s, step) && Sized(Do(s, step))
    ensures step == Finish ==> Do(s, step).phase == Phase.Finished
    ensures step != Finish ==>
              var next := Do(s, step);
              && next.phase == Remark && next.heap == s.heap && s.marked <= next.marked
              && (s.marked != next.marked || |next.stack| < |s.stack|
                  || (|next.stack| == |s.stack| && ToScan(next) < ToScan(s)))
  {
    TracerFacts(s);
    hide Inv;
    step := if s.scan.At? then (if s.scan.next < |s.heap[s.scan.obj]| then ScanField else EndScan)
            else if s.stack != [] then Pop else Finish;
  }

  lemma Finished(s: State)
    requires Sized(s)
    ensures LegalRun(s, []) && Run(s, []) == s
  {
  }

  lemma OneMore(s: State, step: Step, steps: seq<Step>)
    requires Sized(s) && Can(s, step) && LegalRun(Do(s, step), steps)
    ensures LegalRun(s, [step] + steps) && Run(s, [step] + steps) == Run(Do(s, step), steps)
  {
    hide Can, Do;
    assert ([step] + steps)[1..] == steps;
  }

  lemma MoreMarked(s: State, next: State)
    requires s.heap == next.heap && s.marked <= next.marked <= s.heap.Keys
    ensures s.marked != next.marked ==> |next.heap.Keys - next.marked| < |s.heap.Keys - s.marked|
  {
    var left := next.heap.Keys - next.marked;
    assert s.heap.Keys - s.marked == left + (next.marked - s.marked);
    if s.marked != next.marked {
      assert next.marked == s.marked + (next.marked - s.marked);
      assert next.marked - s.marked != {};
    }
  }
}
