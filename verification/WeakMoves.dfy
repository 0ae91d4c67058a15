/** The weak table across a copying collection: the collector moves the references in it so that they
    stay apart, which is all that `WeakTable.Table.PostGc` asks of it. */
module WeakMoves {
  import opened Words
  import opened CopyHeap
  import opened CopyPassTwo
  import opened Isomorphism
  import WeakTable

  /** Which references a collection looks after, and where the surviving ones are now. */
  ghost predicate Followed(e: Env, v: Move, r: Word, moving: set<Word>, fwd: map<Word, Word>) {
    && (r in moving <==> r.IsRef() && e.l.IsOld(r.a))
    && (r in moving ==>
          (r in fwd <==> r.a in v.fwd)
          && (r.a in v.fwd ==> r in fwd && fwd[r] == if r.Loc? then Loc(v.fwd[r.a]) else Ptr(v.fwd[r.a])))
  }

  /** The table's update is the collector's. */
  lemma UpdateIsImage(e: Env, v: Move, r: Word, moving: set<Word>, fwd: map<Word, Word>, nil: Word)
    requires Followed(e, v, r, moving, fwd)
    ensures WeakTable.Update(r, moving, fwd, nil) == WeakImage(e, v, r, nil)
  {
  }

  /** Different references that both survive stay different. */
  lemma ImagesApart(e: Env, v: Move, m: seq<Word>, free: int, nil: Word, r: Word, s: Word)
    requires PassTwo(e, v, m, free) && WordOk(e, r) && WordOk(e, s) && r != s && WeakImage(e, v, r, nil) != nil
    ensures WeakImage(e, v, r, nil) != WeakImage(e, v, s, nil)
  {
    hide ObjectsOk, Closed, WholeOk, GoodOk, Forwarding;
    if r.IsRef() && s.IsRef() && r.a in v.fwd && s.a in v.fwd {
      assert v.back[v.fwd[r.a] - e.l.newLo] == r.a && v.back[v.fwd[s.a] - e.l.newLo] == s.a;
    }
  }

  /** So the live references can be re-entered under their new names. */
  lemma TableApart(e: Env, v: Move, m: seq<Word>, free: int, nil: Word, live: map<Word, int>,
                   moving: set<Word>, fwd: map<Word, Word>)
    requires Collected(e, v, m, free) && Done(e, v, e.nil, nil) && (forall r <- live :: WordOk(e, r))
    requires Followed(e, v, e.nil, moving, fwd) && forall r <- live :: Followed(e, v, r, moving, fwd)
    ensures WeakTable.Apart(live, moving, fwd, nil) && WeakTable.Update(e.nil, moving, fwd, nil) == nil
  {
    hide PassTwo, DoneFrom, StaticDone, WordOk, Followed, Image, WeakImage, WeakTable.Update;
    forall r <- live, s <- live | r != s && WeakTable.Update(r, moving, fwd, nil) != nil
      ensures WeakTable.Update(r, moving, fwd, nil) != WeakTable.Update(s, moving, fwd, nil)
    {
      UpdateIsImage(e, v, r, moving, fwd, nil);
      UpdateIsImage(e, v, s, moving, fwd, nil);
      ImagesApart(e, v, m, free, nil, r, s);
    }
    NilStays(e, v, m, free, nil, moving, fwd);
  }

  lemma NilStays(e: Env, v: Move, m: seq<Word>, free: int, nil: Word, moving: set<Word>, fwd: map<Word, Word>)
    requires PassTwo(e, v, m, free) && Done(e, v, e.nil, nil) && Followed(e, v, e.nil, moving, fwd)
    ensures WeakTable.Update(e.nil, moving, fwd, nil) == nil
  {
    hide ObjectsOk, Closed, GoodOk, Forwarding, Bijection;
  }
}
