/** Reachability between the objects of the mark-sweep heap; a locative keeps the object that
    contains its cell alive. */
module MsGraph {
  import opened Extents
  import opened FreeLists

  const NONE := -1

  /** The object a word keeps alive, or NONE: ms_mark_ref. `n` is the size of new space. */
  function Target(n: int, starts: set<int>, w: MsWord): int {
    if w.Ptr? && 0 <= w.a < n then w.a
    else if w.Loc? && 0 <= w.a < n && OwnerFrom(starts, w.a) >= 0 then OwnerFrom(starts, w.a)
    else NONE
  }

  /** A pointer into the heap names the start of an allocated object, a locative a cell of one. */
  ghost predicate WordOk(n: int, starts: set<int>, free: int, dead: set<int>, w: MsWord) {
    && ((w.Ptr? || w.Loc?) && 0 <= w.a < n ==> w.a < free && Target(n, starts, w) != NONE)
    && (Target(n, starts, w) != NONE ==> Target(n, starts, w) in starts && Target(n, starts, w) !in dead)
  }

  ghost predicate RefsOk(m: seq<MsWord>, starts: set<int>, free: int, dead: set<int>) {
    forall o, a :: o in starts && o !in dead && o <= a < End(starts, free, o) && 0 <= a < |m| ==>
      WordOk(|m|, starts, free, dead, m[a])
  }

  /** All words of object `o` keep only members of `s` alive. */
  ghost predicate Inside(m: seq<MsWord>, starts: set<int>, free: int, s: set<int>, o: int) {
    forall a :: o <= a < End(starts, free, o) && 0 <= a < |m| ==>
      Target(|m|, starts, m[a]) == NONE || Target(|m|, starts, m[a]) in s
  }

  ghost predicate RootsIn(n: int, starts: set<int>, roots: seq<MsWord>, s: set<int>) {
    forall w <- roots :: Target(n, starts, w) == NONE || Target(n, starts, w) in s
  }

  ghost predicate ClosedSet(m: seq<MsWord>, starts: set<int>, free: int, s: set<int>) {
    forall o <- s :: Inside(m, starts, free, s, o)
  }

  /** Object `p` is mentioned by a word of object `o`. */
  ghost predicate Edge(m: seq<MsWord>, starts: set<int>, free: int, o: int, p: int) {
    p != NONE && exists a :: o <= a < End(starts, free, o) && 0 <= a < |m| && Target(|m|, starts, m[a]) == p
  }

  ghost predicate IsPath(m: seq<MsWord>, starts: set<int>, free: int, path: seq<int>) {
    |path| > 0 && forall i :: 0 <= i < |path| - 1 ==> Edge(m, starts, free, path[i], path[i + 1])
  }

  ghost predicate FromRoot(n: int, starts: set<int>, roots: seq<MsWord>, o: int) {
    o != NONE && exists w :: w in roots && Target(n, starts, w) == o
  }

  /** Some chain of words leads from a root to object `o`. */
  ghost predicate Reachable(m: seq<MsWord>, starts: set<int>, free: int, roots: seq<MsWord>, o: int) {
    exists path :: IsPath(m, starts, free, path) && FromRoot(|m|, starts, roots, path[0]) && path[|path| - 1] == o
  }

  lemma {:induction false} PathInside(m: seq<MsWord>, starts: set<int>, free: int, roots: seq<MsWord>, path: seq<int>,
      s: set<int>)
    requires ClosedSet(m, starts, free, s) && RootsIn(|m|, starts, roots, s)
    requires IsPath(m, starts, free, path) && FromRoot(|m|, starts, roots, path[0])
    ensures path[|path| - 1] in s
    decreases |path|
  {
    if |path| > 1 {
      var front := path[..|path| - 1];
      assert forall i :: 0 <= i < |front| - 1 ==> Edge(m, starts, free, front[i], front[i + 1]);
      PathInside(m, starts, free, roots, front, s);
      assert Edge(m, starts, free, path[|path| - 2], path[|path| - 1]);
      assert path[|path| - 2] in s;
    }
  }

  /** A closed set that contains the roots' targets and only reachable objects is the set of reachable
      objects. */
  lemma ExactlyReachable(m: seq<MsWord>, starts: set<int>, free: int, roots: seq<MsWord>, s: set<int>)
    requires ClosedSet(m, starts, free, s) && RootsIn(|m|, starts, roots, s)
    requires forall o <- s :: Reachable(m, starts, free, roots, o)
    ensures forall o :: o in s <==> Reachable(m, starts, free, roots, o)
  {
    forall o | Reachable(m, starts, free, roots, o) ensures o in s {
      var path :| IsPath(m, starts, free, path) && FromRoot(|m|, starts, roots, path[0]) && path[|path| - 1] == o;
      PathInside(m, starts, free, roots, path, s);
    }
  }

  lemma RootReachable(m: seq<MsWord>, starts: set<int>, free: int, roots: seq<MsWord>, w: MsWord)
    requires w in roots && Target(|m|, starts, w) != NONE
    ensures Reachable(m, starts, free, roots, Target(|m|, starts, w))
  {
    var path := [Target(|m|, starts, w)];
    assert IsPath(m, starts, free, path) && FromRoot(|m|, starts, roots, path[0]);
  }

  lemma NextReachable(m: seq<MsWord>, starts: set<int>, free: int, roots: seq<MsWord>, o: int, a: int)
    requires Reachable(m, starts, free, roots, o) && o <= a < End(starts, free, o) && 0 <= a < |m|
    requires Target(|m|, starts, m[a]) != NONE
    ensures Reachable(m, starts, free, roots, Target(|m|, starts, m[a]))
  {
    hide Target, End;
    var p := Target(|m|, starts, m[a]);
    var path :| IsPath(m, starts, free, path) && FromRoot(|m|, starts, roots, path[0]) && path[|path| - 1] == o;
    var longer := path + [p];
    assert Edge(m, starts, free, o, p);
    forall i | 0 <= i < |longer| - 1 ensures Edge(m, starts, free, longer[i], longer[i + 1]) {
      if i < |path| - 1 { assert Edge(m, starts, free, path[i], path[i + 1]); }
    }
    assert IsPath(m, starts, free, longer) && longer[|longer| - 1] == p;
  }

  // ------------------------------------------------------------------ the mark stack

  /** Marked objects are allocated and reachable, and all of them except those on the stack (and
      `busy`, the one being scanned) have had their words marked. */
  ghost predicate MarkInv(m: seq<MsWord>, starts: set<int>, free: int, dead: set<int>, roots: seq<MsWord>,
                          marked: set<int>, stack: seq<int>, busy: int) {
    && (forall o <- marked :: o != NONE && o in starts && o !in dead && Reachable(m, starts, free, roots, o))
    && (forall o <- stack :: o in marked)
    && (busy != NONE ==> busy in marked)
    && (forall o <- marked :: o in stack || o == busy || Inside(m, starts, free, marked, o))
  }

  lemma InsideMore(m: seq<MsWord>, starts: set<int>, free: int, s: set<int>, s': set<int>, o: int)
    requires Inside(m, starts, free, s, o) && s <= s'
    ensures Inside(m, starts, free, s', o)
  {
  }

  /** Marking and pushing one more reachable object. */
  lemma MarkPush(m: seq<MsWord>, starts: set<int>, free: int, dead: set<int>, roots: seq<MsWord>,
                 marked: set<int>, stack: seq<int>, busy: int, t: int)
    requires MarkInv(m, starts, free, dead, roots, marked, stack, busy)
    requires t != NONE && t in starts && t !in dead && Reachable(m, starts, free, roots, t)
    ensures MarkInv(m, starts, free, dead, roots, marked + {t}, stack + [t], busy)
  {
    hide Reachable, Inside;
    var marked', stack' := marked + {t}, stack + [t];
    forall o <- marked' ensures o in stack' || o == busy || Inside(m, starts, free, marked', o) {
      if o != t && Inside(m, starts, free, marked, o) { InsideMore(m, starts, free, marked, marked', o); }
      assert stack'[|stack|] == t;
    }
  }

  lemma MarkPop(m: seq<MsWord>, starts: set<int>, free: int, dead: set<int>, roots: seq<MsWord>, marked: set<int>,
      stack: seq<int>)
    requires MarkInv(m, starts, free, dead, roots, marked, stack, NONE) && stack != []
    ensures MarkInv(m, starts, free, dead, roots, marked, stack[..|stack| - 1], stack[|stack| - 1])
    ensures stack[|stack| - 1] in marked
  {
    hide Reachable, Inside;
    var front, top := stack[..|stack| - 1], stack[|stack| - 1];
    assert stack == front + [top];
    forall o ensures o in stack <==> o in front || o == top { }
  }

  /** All words of the busy object have been marked. */
  lemma MarkScanned(m: seq<MsWord>, starts: set<int>, free: int, dead: set<int>, roots: seq<MsWord>,
                    marked: set<int>, stack: seq<int>, busy: int)
    requires MarkInv(m, starts, free, dead, roots, marked, stack, busy) && Inside(m, starts, free, marked, busy)
    ensures MarkInv(m, starts, free, dead, roots, marked, stack, NONE)
  {
    hide Reachable, Inside;
  }

  lemma TargetOk(n: int, starts: set<int>, free: int, dead: set<int>, w: MsWord)
    requires WordOk(n, starts, free, dead, w) && Target(n, starts, w) != NONE
    ensures Target(n, starts, w) in starts && Target(n, starts, w) !in dead
  {
  }

  lemma BusyAllocated(m: seq<MsWord>, starts: set<int>, free: int, dead: set<int>, roots: seq<MsWord>,
                      marked: set<int>, stack: seq<int>, busy: int)
    requires MarkInv(m, starts, free, dead, roots, marked, stack, busy) && busy in marked
    ensures busy in starts && busy !in dead && Reachable(m, starts, free, roots, busy)
  {
    hide Reachable, Inside;
  }

  /** A word of the busy object may be marked, and its target is reachable. */
  lemma BusyWord(m: seq<MsWord>, starts: set<int>, free: int, dead: set<int>, roots: seq<MsWord>,
                 marked: set<int>, stack: seq<int>, busy: int, a: int)
    requires MarkInv(m, starts, free, dead, roots, marked, stack, busy) && busy in marked
    requires RefsOk(m, starts, free, dead) && busy <= a < End(starts, free, busy) && 0 <= a < |m|
    ensures WordOk(|m|, starts, free, dead, m[a])
    ensures Target(|m|, starts, m[a]) != NONE ==> Reachable(m, starts, free, roots, Target(|m|, starts, m[a]))
  {
    hide Reachable, Inside, WordOk, Target;
    if Target(|m|, starts, m[a]) != NONE { NextReachable(m, starts, free, roots, busy, a); }
  }

  lemma InsideIntro(m: seq<MsWord>, starts: set<int>, free: int, s: set<int>, o: int)
    requires forall a :: o <= a < End(starts, free, o) && 0 <= a < |m| ==> Target(|m|, starts, m[a]) == NONE
                                                                           || Target(|m|, starts, m[a]) in s
    ensures Inside(m, starts, free, s, o)
  {
  }

  lemma RootsInMore(n: int, starts: set<int>, roots: seq<MsWord>, s: set<int>, s': set<int>)
    requires RootsIn(n, starts, roots, s) && s <= s'
    ensures RootsIn(n, starts, roots, s')
  {
  }

  lemma FewerUnmarked(starts: set<int>, s: set<int>, s': set<int>)
    requires s < s' <= starts
    ensures |starts - s'| < |starts - s|
  {
    assert starts - s == (starts - s') + (s' - s);
    assert s' == s + (s' - s);
    assert s' - s == {} ==> s' == s + {} == s;
  }

  lemma TraceDone(m: seq<MsWord>, starts: set<int>, free: int, dead: set<int>, roots: seq<MsWord>, marked: set<int>,
      stack: seq<int>)
    requires MarkInv(m, starts, free, dead, roots, marked, stack, NONE) && stack == [] && NONE !in starts
    requires RootsIn(|m|, starts, roots, marked)
    ensures forall o :: o in marked <==> Reachable(m, starts, free, roots, o)
  {
    hide Reachable, Inside;
    ExactlyReachable(m, starts, free, roots, marked);
  }

  /** After a sweep no live word refers to a dead object. */
  lemma SweptWords(m: seq<MsWord>, starts: set<int>, free: int, dead0: set<int>, marked: set<int>, dead: set<int>)
    requires RefsOk(m, starts, free, dead0) && ClosedSet(m, starts, free, marked) && dead == starts - marked
    requires forall o <- marked :: o !in dead0
    ensures RefsOk(m, starts, free, dead)
  {
    hide Target;
    forall o, a | o in starts && o !in dead && o <= a < End(starts, free, o) && 0 <= a < |m|
      ensures WordOk(|m|, starts, free, dead, m[a])
    {
      assert Inside(m, starts, free, marked, o);
      assert WordOk(|m|, starts, free, dead0, m[a]);
    }
  }

  /** Words whose targets are roots' targets stay well-formed after a collection. */
  lemma FillOk(n: int, starts: set<int>, free: int, m: seq<MsWord>, dead0: set<int>, dead: set<int>, roots: seq<MsWord>,
      fill: seq<MsWord>)
    requires forall w <- roots :: WordOk(n, starts, free, dead0, w)
    requires forall o <- starts :: o in dead <==> !Reachable(m, starts, free, roots, o)
    requires |m| == n && forall w <- fill :: w in roots
    ensures forall w <- fill :: WordOk(n, starts, free, dead, w)
  {
    hide Target, Reachable;
    forall w <- fill ensures WordOk(n, starts, free, dead, w) {
      assert WordOk(n, starts, free, dead0, w);
      if Target(n, starts, w) != NONE { RootReachable(m, starts, free, roots, w); }
    }
  }

  /** What a word keeps alive, in so many words: a pointer into the heap its object, a locative the one
      object that contains its cell, anything else nothing. */
  lemma TargetMeans(n: int, starts: set<int>, free: int, w: MsWord)
    requires Tiled(starts, free) && free <= n
    ensures w.Ptr? && 0 <= w.a < n ==> Target(n, starts, w) == w.a
    ensures w.Loc? && 0 <= w.a < free ==>
              forall o :: Contains(starts, free, o, w.a) <==> o == Target(n, starts, w)
    ensures !(w.Ptr? || w.Loc?) || w.a < 0 || w.a >= n ==> Target(n, starts, w) == NONE
  {
    if w.Loc? && 0 <= w.a < free { Tiling(starts, free, w.a); }
  }

  /** What a weak table holds after a collection can be held by it before the next. */
  lemma WeakOk(n: int, starts: set<int>, free: int, dead0: set<int>, alive: set<int>, dead: set<int>, nil: MsWord,
               w: MsWord, w': MsWord)
    requires WordOk(n, starts, free, dead0, w) && WordOk(n, starts, free, dead, nil) && dead == starts - alive
    requires w' == if Target(n, starts, w) == NONE || Target(n, starts, w) in alive then w else nil
    ensures WordOk(n, starts, free, dead, w')
  {
    hide Target;
  }

  /** Object `o` has the same words in both memories. */
  ghost predicate SameObject(m: seq<MsWord>, m': seq<MsWord>, starts: set<int>, free: int, o: int) {
    |m'| == |m| && forall a :: o <= a < End(starts, free, o) && 0 <= a < |m| ==> m'[a] == m[a]
  }

  /** Only allocated objects are reachable. */
  lemma ReachableAllocated(m: seq<MsWord>, starts: set<int>, free: int, dead: set<int>, roots: seq<MsWord>)
    requires RefsOk(m, starts, free, dead) && forall w <- roots :: WordOk(|m|, starts, free, dead, w)
    ensures forall o :: Reachable(m, starts, free, roots, o) ==> o in starts && o !in dead
  {
    hide Target;
    var s := starts - dead;
    forall o | Reachable(m, starts, free, roots, o) ensures o in s {
      var path :| IsPath(m, starts, free, path) && FromRoot(|m|, starts, roots, path[0]) && path[|path| - 1] == o;
      PathInside(m, starts, free, roots, path, s);
    }
  }
}
