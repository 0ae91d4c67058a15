/** Method search (dispatch.c): a depth-first walk of the supertypes with an explicit stack, and
    method alists that move what was found to the front by relinking their cells. */
module Dispatch {
  import opened Options
  import opened Words
  import Counting

  // ---- assq_checked ----

  datatype Pair = Pair(car: Word, cdr: Word)

  predicate IsPair(h: map<int, Pair>, w: Word) { w.Ptr? && w.a in h }

  /** The list `k` pairs down. */
  function Spine(h: map<int, Pair>, lis: Word, k: nat): Word {
    if k == 0 then lis
    else var w := Spine(h, lis, k - 1); if IsPair(h, w) then h[w.a].cdr else w
  }

  /** On a list written out, `lis` being its first cell and each cell's cdr the next, that is its cell `k`. */
  lemma {:induction false} SpineIs(h: map<int, Pair>, cells: seq<Word>, k: nat)
    requires k < |cells|
    requires forall i :: 0 <= i < |cells| - 1 ==> IsPair(h, cells[i]) && h[cells[i].a].cdr == cells[i + 1]
    ensures Spine(h, cells[0], k) == cells[k]
  {
    if k > 0 { SpineIs(h, cells, k - 1); }
  }

  /** Element `k` is a pair, and its key is not `elt`. */
  predicate Passed(h: map<int, Pair>, elt: Word, lis: Word, k: nat) {
    && IsPair(h, Spine(h, lis, k)) && IsPair(h, h[Spine(h, lis, k).a].car)
    && h[h[Spine(h, lis, k).a].car.a].car != elt
  }

  datatype Assq = Trap | Found(pair: Word) | NotFound

  /** The search stops at element `k` with `r`, having passed all before it. */
  predicate StopsAt(h: map<int, Pair>, nil: Word, elt: Word, lis: Word, r: Assq, k: nat) {
    && (forall j: nat :: j < k ==> Passed(h, elt, lis, j))
    && var w := Spine(h, lis, k);
    match r
    case Found(p) => w != nil && IsPair(h, w) && h[w.a].car == p && IsPair(h, p) && h[p.a].car == elt
    case NotFound => w == nil
    case Trap => w != nil && !(IsPair(h, w) && IsPair(h, h[w.a].car))
  }

  /** Where the search stops, and with what, is determined by the list. */
  lemma StopsOnce(h: map<int, Pair>, nil: Word, elt: Word, lis: Word, r: Assq, k: nat, r': Assq, k': nat)
    requires !IsPair(h, nil) && StopsAt(h, nil, elt, lis, r, k) && StopsAt(h, nil, elt, lis, r', k')
    ensures r == r' && k == k'
  {
    assert k < k' ==> Passed(h, elt, lis, k);
    assert k' < k ==> Passed(h, elt, lis, k');
  }

  lemma {:induction false} SpineFrom(h: map<int, Pair>, lis: Word, i: nat, n: nat)
    ensures Spine(h, lis, i + n) == Spine(h, Spine(h, lis, i), n)
  {
    if n > 0 { SpineFrom(h, lis, i, n - 1); }
  }

  /** A search that stops does so before it has seen more cells than there are pairs: one that has come
      back to a cell goes on for ever.  So whether it stops can be found out beforehand. */
  lemma StopsSoon(h: map<int, Pair>, nil: Word, elt: Word, lis: Word, r: Assq, k: nat)
    requires !IsPair(h, nil) && StopsAt(h, nil, elt, lis, r, k)
    ensures k <= |h|
  {
    var cells := seq(k, j requires 0 <= j < k => assert Passed(h, elt, lis, j); Spine(h, lis, j).a);
    forall i, j | 0 <= i < j < k ensures cells[i] != cells[j] {
      assert Passed(h, elt, lis, i) && Passed(h, elt, lis, j) && Passed(h, elt, lis, i + (k - j));
      if cells[i] == cells[j] {
        SpineFrom(h, lis, i, k - j);
        SpineFrom(h, lis, j, k - j);
      }
    }
    var seen := Counting.PrefixSet(cells, k);
    forall a <- seen ensures a in h.Keys {
      var j :| 0 <= j < k && cells[j] == a;
      assert Passed(h, elt, lis, j);
    }
    Counting.SubsetSize(seen, h.Keys);
  }

  /** On a list that ends it always stops. */
  lemma {:induction false} StopsAtEnd(h: map<int, Pair>, nil: Word, elt: Word, lis: Word, n: nat, i: nat)
    returns (r: Assq, k: nat)
    requires !IsPair(h, Spine(h, lis, n)) && i <= n && forall j: nat :: j < i ==> Passed(h, elt, lis, j)
    ensures k <= n && StopsAt(h, nil, elt, lis, r, k)
    decreases n - i
  {
    var w := Spine(h, lis, i);
    if w == nil {
      r, k := NotFound, i;
    } else if Passed(h, elt, lis, i) {
      r, k := StopsAtEnd(h, nil, elt, lis, n, i + 1);
    } else {
      k := i;
      r := if IsPair(h, w) && IsPair(h, h[w.a].car) then Found(h[w.a].car) else Trap;
    }
  }

  /** If the search stops, at element `n`: the first pair with the key, or a trap at the first cell that
      is not a pair or does not hold one, whichever comes first.  The list need not end. */
  method AssqChecked(h: map<int, Pair>, nil: Word, elt: Word, lis: Word, ghost n: nat) returns (r: Assq)
    requires !IsPair(h, nil) && exists s :: StopsAt(h, nil, elt, lis, s, n)
    ensures StopsAt(h, nil, elt, lis, r, n)
  {
    ghost var stop :| StopsAt(h, nil, elt, lis, stop, n);
    var l := lis;
    ghost var k: nat := 0;
    while l != nil
      invariant k <= n && l == Spine(h, lis, k) && forall j: nat :: j < k ==> Passed(h, elt, lis, j)
      decreases n - k
    {
      if !IsPair(h, l) {
        StopsOnce(h, nil, elt, lis, Trap, k, stop, n);
        return Trap;
      }
      var entry := h[l.a].car;
      if !IsPair(h, entry) {
        StopsOnce(h, nil, elt, lis, Trap, k, stop, n);
        return Trap;
      }
      if h[entry.a].car == elt {
        StopsOnce(h, nil, elt, lis, Found(entry), k, stop, n);
        return Found(entry);
      }
      assert Passed(h, elt, lis, k);
      l := h[l.a].cdr;
      k := k + 1;
    }
    StopsOnce(h, nil, elt, lis, NotFound, k, stop, n);
    r := NotFound;
  }

  // ---- Method alists ----

  datatype Entry = Entry(op: int, meth: int)

  const NIL := -1

  function Next(cells: seq<int>, i: int): int { if 0 <= i < |cells| then cells[i] else NIL }

  /** The cells of the list that starts at `head`. */
  predicate Linked(cdr: map<int, int>, head: int, cells: seq<int>) {
    && head == Next(cells, 0)
    && (forall i :: 0 <= i < |cells| ==> cells[i] != NIL && cells[i] in cdr && cdr[cells[i]] == Next(cells, i + 1))
  }

  predicate Distinct(cells: seq<int>) { forall i, j :: 0 <= i < j < |cells| ==> cells[i] != cells[j] }

  function ToFront(cells: seq<int>, k: int): seq<int>
    requires 0 <= k < |cells|
  {
    [cells[k]] + cells[..k] + cells[k + 1..]
  }

  /** Cell `i` once cell `k` is at the front. */
  lemma FrontAt(cells: seq<int>, k: int, i: int)
    requires 0 <= k < |cells|
    ensures Next(ToFront(cells, k), i)
            == if i == 0 then cells[k] else if i <= k then Next(cells, i - 1) else Next(cells, i)
  {
  }

  lemma ApartCells(cells: seq<int>, i: int, j: int)
    requires Distinct(cells) && 0 <= i < |cells| && 0 <= j < |cells|
    ensures cells[i] == cells[j] <==> i == j
  {
  }

  /** Three stores relink the list. */
  lemma Relink(cdr: map<int, int>, head: int, cells: seq<int>, k: int)
    requires Linked(cdr, head, cells) && Distinct(cells) && 0 < k < |cells|
    ensures var c := cells[k];
            Linked(cdr[cells[k - 1] := cdr[c]][c := head], c, ToFront(cells, k))
  {
    hide ToFront, Distinct;
    var c, after := cells[k], ToFront(cells, k);
    var cdr' := cdr[cells[k - 1] := cdr[c]][c := head];
    FrontAt(cells, k, 0);
    FrontSize(cells, k);
    forall i | 0 <= i < |after| ensures after[i] != NIL && after[i] in cdr' && cdr'[after[i]] == Next(after, i + 1) {
      FrontAt(cells, k, i);
      FrontAt(cells, k, i + 1);
      var j := if i == 0 then k else if i <= k then i - 1 else i;
      assert after[i] == cells[j];
      ApartCells(cells, j, k);
      ApartCells(cells, j, k - 1);
    }
  }

  lemma FrontSize(cells: seq<int>, k: int)
    requires 0 <= k < |cells|
    ensures |ToFront(cells, k)| == |cells|
    ensures Distinct(cells) ==> Distinct(ToFront(cells, k))
    ensures forall c :: c in ToFront(cells, k) <==> c in cells
  {
    var after := ToFront(cells, k);
    if Distinct(cells) {
      forall i, j | 0 <= i < j < |after| ensures after[i] != after[j] {
        ApartCells(cells, if i == 0 then k else if i <= k then i - 1 else i, if j <= k then j - 1 else j);
      }
    }
    assert cells == cells[..k] + [cells[k]] + cells[k + 1..];
  }

  lemma OtherList(cdr: map<int, int>, head: int, cells: seq<int>, p: int, v: int, q: int, w: int)
    requires Linked(cdr, head, cells) && p !in cells && q !in cells
    ensures Linked(cdr[p := v][q := w], head, cells)
  {
  }

  /** The first cell with a method for `op`. */
  function Match(car: map<int, Entry>, cells: seq<int>, op: int): Option<int> {
    if cells == [] then None
    else if cells[0] in car && car[cells[0]].op == op then Some(cells[0])
    else Match(car, cells[1..], op)
  }

  /** It is the first: the cells before it have methods for other operations, and there is none exactly when
      all have. */
  lemma {:induction false} MatchIs(car: map<int, Entry>, cells: seq<int>, op: int, k: nat)
    requires k <= |cells| && forall i :: 0 <= i < k ==> !(cells[i] in car && car[cells[i]].op == op)
    ensures k < |cells| && cells[k] in car && car[cells[k]].op == op ==> Match(car, cells, op) == Some(cells[k])
    ensures k == |cells| ==> Match(car, cells, op) == None
  {
    if k > 0 {
      forall i | 0 <= i < k - 1 ensures !(cells[1..][i] in car && car[cells[1..][i]].op == op) {
        assert cells[1..][i] == cells[i + 1];
      }
      MatchIs(car, cells[1..], op, k - 1);
    }
  }

  lemma {:induction false} MatchAppend(car: map<int, Entry>, a: seq<int>, b: seq<int>, op: int)
    ensures Match(car, a + b, op) == if Match(car, a, op).Some? then Match(car, a, op) else Match(car, b, op)
  {
    if a == [] {
      assert a + b == b;
    } else {
      assert (a + b)[1..] == a[1..] + b;
      MatchAppend(car, a[1..], b, op);
    }
  }

  /** Moving the first match of one operation to the front changes the first match of none. */
  lemma MatchMoved(car: map<int, Entry>, cells: seq<int>, k: int, op: int, any: int)
    requires 0 <= k < |cells| && Match(car, cells[..k], op) == None && cells[k] in car && car[cells[k]].op == op
    ensures Match(car, ToFront(cells, k), any) == Match(car, cells, any)
  {
    hide Match, ToFront;
    FrontParts(cells, k);
    PartsMoved(car, cells[..k], cells[k], cells[k + 1..], op, any);
  }

  lemma FrontParts(cells: seq<int>, k: int)
    requires 0 <= k < |cells|
    ensures cells == cells[..k] + ([cells[k]] + cells[k + 1..])
    ensures ToFront(cells, k) == [cells[k]] + (cells[..k] + cells[k + 1..])
  {
  }

  lemma PartsMoved(car: map<int, Entry>, a: seq<int>, c: int, b: seq<int>, op: int, any: int)
    requires Match(car, a, op) == None && c in car && car[c].op == op
    ensures Match(car, [c] + (a + b), any) == Match(car, a + ([c] + b), any)
  {
    MatchSingle(car, c, any);
    hide Match;
    MatchAppend(car, a, [c] + b, any);
    MatchAppend(car, [c], b, any);
    MatchAppend(car, [c], a + b, any);
    MatchAppend(car, a, b, any);
  }

  lemma MatchSingle(car: map<int, Entry>, c: int, any: int)
    requires c in car
    ensures Match(car, [c], any) == if car[c].op == any then Some(c) else None
  {
    assert [c][1..] == [];
  }

  // ---- The search ----

  datatype Result = Result(meth: int, typ: int)

  /** The types, their supertypes in order, and the cells of their alists. */
  datatype Types = Types(supers: map<int, seq<int>>, rank: map<int, nat>)
  {
    /** Supertypes are types, and the graph has no cycles. */
    predicate Valid() {
      && supers.Keys == rank.Keys
      && forall t <- supers :: forall i :: 0 <= i < |supers[t]| ==>
           supers[t][i] in supers && rank[supers[t][i]] < rank[t]
    }
  }

  predicate Below(g: Types, ts: seq<int>, n: nat) {
    forall i :: 0 <= i < |ts| ==> ts[i] in g.supers && ts[i] in g.rank && g.rank[ts[i]] < n
  }

  /** Left to right and depth first: the type itself, and then each of its supertypes. */
  function Search(g: Types, car: map<int, Entry>, lists: map<int, seq<int>>, t: int, op: int): Option<Result>
    requires g.Valid() && t in g.supers
    decreases g.rank[t] + 1, 0, 0
  {
    var c := if t in lists then Match(car, lists[t], op) else None;
    if c.Some? && c.value in car then Some(Result(car[c.value].meth, t))
    else SearchList(g, car, lists, g.supers[t], g.rank[t], op)
  }

  function SearchList(g: Types, car: map<int, Entry>, lists: map<int, seq<int>>, ts: seq<int>, n: nat,
      op: int): Option<Result>
    requires g.Valid() && Below(g, ts, n)
    decreases n, 1, |ts|
  {
    if ts == [] then None
    else
      var r := Search(g, car, lists, ts[0], op);
      if r.Some? then r else SearchList(g, car, lists, ts[1..], n, op)
  }

  /** The types in the order in which they are searched: a type comes before its supertypes, and all that is
      above one of these before the next. */
  function Preorder(g: Types, t: int): (ts: seq<int>)
    requires g.Valid() && t in g.supers
    ensures forall u <- ts :: u in g.supers
    decreases g.rank[t] + 1, 0, 0
  {
    [t] + PreorderList(g, g.supers[t], g.rank[t])
  }

  function PreorderList(g: Types, ts: seq<int>, n: nat): (us: seq<int>)
    requires g.Valid() && Below(g, ts, n)
    ensures forall u <- us :: u in g.supers
    decreases n, 1, |ts|
  {
    if ts == [] then [] else Preorder(g, ts[0]) + PreorderList(g, ts[1..], n)
  }

  predicate HasMethod(car: map<int, Entry>, lists: map<int, seq<int>>, t: int, op: int) {
    t in lists && exists c :: c in lists[t] && c in car && car[c].op == op
  }

  /** The first type of a list that has a method for `op`, and the method. */
  ghost predicate FirstWith(car: map<int, Entry>, lists: map<int, seq<int>>, ts: seq<int>, op: int, r: Option<Result>)
  {
    match r
    case None => forall t <- ts :: !HasMethod(car, lists, t, op)
    case Some(Result(meth, typ)) =>
      && typ in lists && (exists i :: FirstAt(car, lists, ts, op, typ, i))
      && exists k :: FirstCell(car, lists[typ], op, k) && car[lists[typ][k]].meth == meth
  }

  ghost predicate FirstAt(car: map<int, Entry>, lists: map<int, seq<int>>, ts: seq<int>, op: int, t: int, i: int) {
    0 <= i < |ts| && ts[i] == t && forall j :: 0 <= j < i ==> !HasMethod(car, lists, ts[j], op)
  }

  predicate FirstCell(car: map<int, Entry>, cells: seq<int>, op: int, k: int) {
    && 0 <= k < |cells| && cells[k] in car && car[cells[k]].op == op
    && forall i :: 0 <= i < k ==> !(cells[i] in car && car[cells[i]].op == op)
  }

  lemma MatchHas(car: map<int, Entry>, lists: map<int, seq<int>>, t: int, op: int)
    requires t in lists
    ensures Match(car, lists[t], op).Some? <==> HasMethod(car, lists, t, op)
    ensures Match(car, lists[t], op).Some? ==>
              exists k :: FirstCell(car, lists[t], op, k) && Match(car, lists[t], op) == Some(lists[t][k])
  {
    var k := FirstOf(car, lists[t], op);
    MatchIs(car, lists[t], op, k);
    if k < |lists[t]| {
      var c := lists[t][k];
      assert c in lists[t] && c in car && car[c].op == op;
      assert HasMethod(car, lists, t, op) && FirstCell(car, lists[t], op, k);
    }
  }

  lemma {:induction false} FirstOf(car: map<int, Entry>, cells: seq<int>, op: int) returns (k: nat)
    ensures k <= |cells| && forall i :: 0 <= i < k ==> !(cells[i] in car && car[cells[i]].op == op)
    ensures k < |cells| ==> cells[k] in car && car[cells[k]].op == op
  {
    k := 0;
    while k < |cells| && !(cells[k] in car && car[cells[k]].op == op)
      invariant k <= |cells| && forall i :: 0 <= i < k ==> !(cells[i] in car && car[cells[i]].op == op)
    {
      k := k + 1;
    }
  }

  lemma FirstJoin(car: map<int, Entry>, lists: map<int, seq<int>>, a: seq<int>, b: seq<int>, op: int,
                  r: Option<Result>, r': Option<Result>)
    requires FirstWith(car, lists, a, op, r) && FirstWith(car, lists, b, op, r')
    ensures FirstWith(car, lists, a + b, op, if r.Some? then r else r')
  {
    hide HasMethod, FirstCell;
    if r.Some? {
      var i :| FirstAt(car, lists, a, op, r.value.typ, i);
      assert FirstAt(car, lists, a + b, op, r.value.typ, i);
    } else if r'.Some? {
      var i :| FirstAt(car, lists, b, op, r'.value.typ, i);
      var at := |a| + i;
      forall j | 0 <= j < at ensures !HasMethod(car, lists, (a + b)[j], op) {
        if j < |a| { assert (a + b)[j] in a; }
      }
      assert FirstAt(car, lists, a + b, op, r'.value.typ, at);
    }
  }

  /** The search finds the first type in that order that has a method, with the first of its methods. */
  lemma {:induction false} SearchIsFirst(g: Types, car: map<int, Entry>, lists: map<int, seq<int>>, t: int, op: int)
    requires g.Valid() && t in g.supers && lists.Keys == g.supers.Keys
    ensures FirstWith(car, lists, Preorder(g, t), op, Search(g, car, lists, t, op))
    decreases g.rank[t] + 1, 0, 0
  {
    hide Match, HasMethod;
    MatchHas(car, lists, t, op);
    SearchListFirst(g, car, lists, g.supers[t], g.rank[t], op);
    var c, rest := Match(car, lists[t], op), SearchList(g, car, lists, g.supers[t], g.rank[t], op);
    var r := if c.Some? && c.value in car then Some(Result(car[c.value].meth, t)) else None;
    if c.Some? {
      var k :| FirstCell(car, lists[t], op, k) && c == Some(lists[t][k]);
      assert FirstAt(car, lists, [t], op, t, 0);
    }
    FirstJoin(car, lists, [t], PreorderList(g, g.supers[t], g.rank[t]), op, r, rest);
  }

  lemma {:induction false} SearchListFirst(g: Types, car: map<int, Entry>, lists: map<int, seq<int>>, ts: seq<int>,
                                           n: nat, op: int)
    requires g.Valid() && Below(g, ts, n) && lists.Keys == g.supers.Keys
    ensures FirstWith(car, lists, PreorderList(g, ts, n), op, SearchList(g, car, lists, ts, n, op))
    decreases n, 1, |ts|
  {
    hide FirstWith;
    if ts == [] {
      assert FirstWith(car, lists, [], op, None) by { NoneFirst(car, lists, op); }
    } else {
      SearchIsFirst(g, car, lists, ts[0], op);
      SearchListFirst(g, car, lists, ts[1..], n, op);
      FirstJoin(car, lists, Preorder(g, ts[0]), PreorderList(g, ts[1..], n), op, Search(g, car, lists, ts[0], op),
          SearchList(g, car, lists, ts[1..], n, op));
    }
  }

  lemma NoneFirst(car: map<int, Entry>, lists: map<int, seq<int>>, op: int)
    ensures FirstWith(car, lists, [], op, None)
  {
  }

  /** The work left under a list of types, which bounds the walk. */
  function Work(g: Types, t: int): (n: nat)
    requires g.Valid() && t in g.supers
    ensures n >= 1
    decreases g.rank[t] + 1, 0, 0
  {
    1 + WorkList(g, g.supers[t], g.rank[t])
  }

  function WorkList(g: Types, ts: seq<int>, n: nat): (w: nat)
    requires g.Valid() && Below(g, ts, n)
    ensures w >= 1
    decreases n, 1, |ts|
  {
    if ts == [] then 1 else Work(g, ts[0]) + WorkList(g, ts[1..], n)
  }

  /** The stack of lists still to be searched, the top last; `ns` bounds the ranks in each. */
  ghost predicate StackOk(g: Types, later: seq<seq<int>>, ns: seq<nat>) {
    |ns| == |later| && forall i :: 0 <= i < |later| ==> Below(g, later[i], ns[i])
  }

  ghost function SearchStack(g: Types, car: map<int, Entry>, lists: map<int, seq<int>>, later: seq<seq<int>>,
                             ns: seq<nat>, op: int): Option<Result>
    requires g.Valid() && StackOk(g, later, ns)
  {
    if later == [] then None
    else
      var top := |later| - 1;
      var r := SearchList(g, car, lists, later[top], ns[top], op);
      if r.Some? then r else SearchStack(g, car, lists, later[..top], ns[..top], op)
  }

  ghost function WorkStack(g: Types, later: seq<seq<int>>, ns: seq<nat>): nat
    requires g.Valid() && StackOk(g, later, ns)
  {
    if later == [] then 0
    else
      var top := |later| - 1;
      WorkList(g, later[top], ns[top]) + WorkStack(g, later[..top], ns[..top])
  }

  /** The whole search from type `t` with `later` still to come. */
  ghost function SearchFrom(g: Types, car: map<int, Entry>, lists: map<int, seq<int>>, t: int, later: seq<seq<int>>,
                            ns: seq<nat>, op: int): Option<Result>
    requires g.Valid() && t in g.supers && StackOk(g, later, ns)
  {
    var r := Search(g, car, lists, t, op);
    if r.Some? then r else SearchStack(g, car, lists, later, ns, op)
  }

  /** Pushing the supertypes of a type that has no method for `op`. */
  lemma Push(g: Types, car: map<int, Entry>, lists: map<int, seq<int>>, t: int, later: seq<seq<int>>,
      ns: seq<nat>, op: int)
    requires g.Valid() && t in g.supers && t in lists && StackOk(g, later, ns)
    requires Match(car, lists[t], op) == None
    ensures var l, n := later + [g.supers[t]], ns + [g.rank[t]];
            && StackOk(g, l, n)
            && SearchStack(g, car, lists, l, n, op) == SearchFrom(g, car, lists, t, later, ns, op)
            && WorkStack(g, l, n) + 1 == Work(g, t) + WorkStack(g, later, ns)
  {
    var l, n := later + [g.supers[t]], ns + [g.rank[t]];
    assert l[..|l| - 1] == later && n[..|l| - 1] == ns;
  }

  lemma DropEmpty(g: Types, car: map<int, Entry>, lists: map<int, seq<int>>, later: seq<seq<int>>,
      ns: seq<nat>, op: int)
    requires g.Valid() && later != [] && StackOk(g, later, ns) && later[|later| - 1] == []
    ensures var top := |later| - 1;
            && StackOk(g, later[..top], ns[..top])
            && SearchStack(g, car, lists, later, ns, op) == SearchStack(g, car, lists, later[..top], ns[..top], op)
            && WorkStack(g, later[..top], ns[..top]) < WorkStack(g, later, ns)
  {
  }

  /** Going on to the first type of the top list. */
  lemma Take(g: Types, car: map<int, Entry>, lists: map<int, seq<int>>, later: seq<seq<int>>, ns: seq<nat>, op: int)
    requires g.Valid() && later != [] && StackOk(g, later, ns) && later[|later| - 1] != []
    ensures var top := |later| - 1;
            var t, l := later[top][0], later[top := later[top][1..]];
            && t in g.supers && StackOk(g, l, ns)
            && SearchFrom(g, car, lists, t, l, ns, op) == SearchStack(g, car, lists, later, ns, op)
            && Work(g, t) + WorkStack(g, l, ns) == WorkStack(g, later, ns)
  {
    var top := |later| - 1;
    var l := later[top := later[top][1..]];
    assert l[..top] == later[..top];
    assert Below(g, later[top], ns[top]);
    assert Below(g, l[top], ns[top]);
  }

  ghost predicate AlistOk(car: map<int, Entry>, cdr: map<int, int>, head: int, cells: seq<int>) {
    Linked(cdr, head, cells) && Distinct(cells) && forall c <- cells :: c in car
  }

  ghost predicate NoneShared(a: seq<int>, b: seq<int>) { forall c <- a :: c !in b }

  /** Each type's alist is a list of cells that no other type's shares. */
  ghost predicate AlistsOk(g: Types, car: map<int, Entry>, heads: map<int, int>, cdr: map<int, int>,
                           lists: map<int, seq<int>>)
  {
    && heads.Keys == g.supers.Keys && lists.Keys == g.supers.Keys
    && (forall t <- lists :: AlistOk(car, cdr, heads[t], lists[t]))
    && (forall t <- lists, u <- lists :: t != u ==> NoneShared(lists[t], lists[u]))
  }

  ghost predicate SameMatch(car: map<int, Entry>, a: seq<int>, b: seq<int>) {
    forall any :: Match(car, a, any) == Match(car, b, any)
  }

  /** No operation's first match differs in any alist. */
  ghost predicate Agree(car: map<int, Entry>, lists: map<int, seq<int>>, lists': map<int, seq<int>>) {
    lists'.Keys == lists.Keys && forall t <- lists :: SameMatch(car, lists[t], lists'[t])
  }

  lemma PromoteOk(g: Types, car: map<int, Entry>, heads: map<int, int>, cdr: map<int, int>,
                  lists: map<int, seq<int>>, t: int, k: int, op: int)
    requires AlistsOk(g, car, heads, cdr, lists) && t in lists && 0 < k < |lists[t]|
    requires Match(car, lists[t][..k], op) == None && lists[t][k] in car && car[lists[t][k]].op == op
    ensures var c, p := lists[t][k], lists[t][k - 1];
            && p in cdr && c in cdr
            && AlistsOk(g, car, heads[t := c], cdr[p := cdr[c]][c := heads[t]], lists[t := ToFront(lists[t], k)])
            && Agree(car, lists, lists[t := ToFront(lists[t], k)])
  {
    hide Linked, Distinct, ToFront, Match, NoneShared;
    var cells := lists[t];
    var c, p, lists' := cells[k], cells[k - 1], lists[t := ToFront(cells, k)];
    assert AlistOk(car, cdr, heads[t], cells);
    PromoteThis(car, heads[t], cdr, cells, k, op);
    var cdr' := cdr[p := cdr[c]][c := heads[t]];
    hide AlistOk;
    forall u <- lists' ensures AlistOk(car, cdr', heads[t := c][u], lists'[u]) {
      if u != t { PromoteOther(car, heads[t], cdr, cells, k, heads[u], lists[u]); }
    }
    forall u <- lists', v <- lists' | u != v ensures NoneShared(lists'[u], lists'[v]) {
      assert NoneShared(lists[u], lists[v]);
      SharedFront(cells, k, lists[u]);
      SharedFront(cells, k, lists[v]);
    }
  }

  lemma PromoteThis(car: map<int, Entry>, head: int, cdr: map<int, int>, cells: seq<int>, k: int, op: int)
    requires AlistOk(car, cdr, head, cells) && 0 < k < |cells|
    requires Match(car, cells[..k], op) == None && cells[k] in car && car[cells[k]].op == op
    ensures var c, p := cells[k], cells[k - 1];
            && p in cdr && c in cdr
            && AlistOk(car, cdr[p := cdr[c]][c := head], c, ToFront(cells, k))
            && SameMatch(car, cells, ToFront(cells, k))
  {
    Relink(cdr, head, cells, k);
    FrontSize(cells, k);
    forall any ensures Match(car, cells, any) == Match(car, ToFront(cells, k), any) {
      MatchMoved(car, cells, k, op, any);
    }
  }

  lemma PromoteOther(car: map<int, Entry>, head: int, cdr: map<int, int>, cells: seq<int>, k: int, other: int,
      list: seq<int>)
    requires 0 < k < |cells| && NoneShared(cells, list) && AlistOk(car, cdr, other, list) && cells[k] in cdr
    ensures AlistOk(car, cdr[cells[k - 1] := cdr[cells[k]]][cells[k] := head], other, list)
  {
    OtherList(cdr, other, list, cells[k - 1], cdr[cells[k]], cells[k], head);
  }

  lemma SharedFront(cells: seq<int>, k: int, list: seq<int>)
    requires 0 <= k < |cells|
    ensures NoneShared(cells, list) ==> NoneShared(ToFront(cells, k), list)
    ensures NoneShared(list, cells) ==> NoneShared(list, ToFront(cells, k))
  {
    FrontSize(cells, k);
  }

  class Methods {
    const g: Types
    const car: map<int, Entry>
    var heads: map<int, int>           // the alist slot of each type
    var cdr: map<int, int>
    ghost var lists: map<int, seq<int>>

    ghost predicate Valid()
      reads this
    {
      g.Valid() && AlistsOk(g, car, heads, cdr, lists)
    }

    constructor (types: Types, entries: map<int, Entry>, first: map<int, int>, links: map<int, int>)
      ensures g == types && car == entries && heads == first && cdr == links
    {
      g, car, heads, cdr := types, entries, first, links;
    }

    twostate predicate SameMatches()
      reads this
    {
      Agree(car, old(lists), lists)
    }

    /** The inner loop: look through the alist of `t`, and move a match to the front. */
    method LookIn(t: int, op: int) returns (r: Option<int>)
      requires Valid() && t in g.supers
      modifies this`heads, this`cdr, this`lists
      ensures Valid() && SameMatches()
      ensures r == Match(car, old(lists)[t], op) && (r.Some? ==> r.value in car && car[r.value].op == op)
      ensures r == None ==> lists == old(lists)
      ensures r.Some? ==> exists k :: && 0 <= k < |old(lists)[t]| && old(lists)[t][k] == r.value
                                      && lists == old(lists)[t := ToFront(old(lists)[t], k)]
    {
      hide Distinct;
      var thelist := heads[t];
      var alist, locl := thelist, NIL;
      ghost var cells, k := lists[t], 0;
      while alist != NIL
        invariant 0 <= k <= |cells| && alist == Next(cells, k) && locl == Next(cells, k - 1)
        invariant Match(car, cells[..k], op) == None && unchanged(this)
        decreases |cells| - k
      {
        MatchStep(car, cells, k, op);
        if car[alist].op == op {
          FrontSelf(lists, t);
          if locl != NIL { Promote(t, alist, locl, k, op); }
          r := Some(alist);
          assert cells[k] == alist;
          return;
        }
        locl := alist;
        alist := cdr[alist];
        k := k + 1;
      }
      assert cells[..k] == cells;
      r := None;
    }

    /** The move to the front, by three stores. */
    method Promote(t: int, alist: int, locl: int, ghost k: int, op: int)
      requires Valid() && t in g.supers && 0 < k < |lists[t]|
      requires Match(car, lists[t][..k], op) == None && car[lists[t][k]].op == op
      requires alist == lists[t][k] && locl == lists[t][k - 1]
      modifies this`heads, this`cdr, this`lists
      ensures Valid() && SameMatches() && lists == old(lists)[t := ToFront(old(lists)[t], k)]
    {
      PromoteOk(g, car, heads, cdr, lists, t, k, op);
      var thelist := heads[t];
      cdr := cdr[locl := cdr[alist]];
      heads := heads[t := alist];
      cdr := cdr[alist := thelist];
      lists := lists[t := ToFront(lists[t], k)];
    }

    /** find_method_type_pair: the walk finds what the recursive definition does, it ends, and it
        disturbs the outcome of no later search. */
    method FindMethodTypePair(op: int, objType: int) returns (r: Option<Result>)
      requires Valid() && objType in g.supers
      modifies this`heads, this`cdr, this`lists
      ensures r == Search(g, car, old(lists), objType, op)
      ensures Valid() && Agree(car, old(lists), lists)
      ensures r == None ==> lists == old(lists)
      ensures r.Some? ==> var t := r.value.typ;
                          t in old(lists) && exists k :: && 0 <= k < |old(lists)[t]|
                                                         && lists == old(lists)[t := ToFront(old(lists)[t], k)]
                                                         && old(lists)[t][k] in car
                                                         && car[old(lists)[t][k]] == Entry(op, r.value.meth)
      ensures forall t <- g.supers :: forall any :: Search(g, car, lists, t, any) == Search(g, car, old(lists), t, any)
    {
      hide AlistsOk, Search, SearchStack, WorkStack, Agree, Below;
      var typ, laterLists := objType, [];
      ghost var ns: seq<nat> := [];
      ghost var was := lists;
      AgreeSelf(car, lists);
      Start(g, car, was, typ, op);
      while true
        invariant Valid() && lists == was && typ in g.supers && |ns| == |laterLists| && StackOk(g, laterLists, ns)
        invariant Search(g, car, was, objType, op) == SearchFrom(g, car, was, typ, laterLists, ns, op)
        decreases Work(g, typ) + WorkStack(g, laterLists, ns)
      {
        TypeHasList(g, car, heads, cdr, lists, typ);
        var c := LookIn(typ, op);
        if c.Some? {
          HereFirst(g, car, was, typ, op);
          ghost var k :| 0 <= k < |was[typ]| && was[typ][k] == c.value
                         && lists == was[typ := ToFront(was[typ], k)];
          assert car[was[typ][k]] == Entry(op, car[c.value].meth);
          forall t <- g.supers, any ensures Search(g, car, lists, t, any) == Search(g, car, was, t, any) {
            SearchAgrees(g, car, was, lists, t, any);
          }
          return Some(Result(car[c.value].meth, typ));
        }
        Push(g, car, was, typ, laterLists, ns, op);
        ghost var before := Work(g, typ) + WorkStack(g, laterLists, ns);
        laterLists := laterLists + [g.supers[typ]];
        ns := ns + [g.rank[typ]];
        while laterLists[|laterLists| - 1] == []
          invariant laterLists != [] && |ns| == |laterLists| && StackOk(g, laterLists, ns)
          invariant Search(g, car, was, objType, op) == SearchStack(g, car, was, laterLists, ns, op)
          invariant WorkStack(g, laterLists, ns) < before
          decreases |laterLists|
          modifies {}
        {
          DropEmpty(g, car, was, laterLists, ns, op);
          if |laterLists| == 1 {
            NothingLeft(g, car, was, op);
            assert laterLists[..0] == [] && ns[..0] == [];
            return None;
          }
          ns := ns[..|laterLists| - 1];
          laterLists := laterLists[..|laterLists| - 1];
        }
        Take(g, car, was, laterLists, ns, op);
        var top := |laterLists| - 1;
        typ := laterLists[top][0];
        laterLists := laterLists[top := laterLists[top][1..]];
      }
    }
  }

  lemma FrontSelf(lists: map<int, seq<int>>, t: int)
    requires t in lists
    ensures lists[t] != [] ==> lists[t := ToFront(lists[t], 0)] == lists
  {
    if lists[t] != [] { assert ToFront(lists[t], 0) == lists[t]; }
  }

  lemma AgreeSelf(car: map<int, Entry>, lists: map<int, seq<int>>)
    ensures Agree(car, lists, lists)
  {
  }

  lemma Start(g: Types, car: map<int, Entry>, lists: map<int, seq<int>>, t: int, op: int)
    requires g.Valid() && t in g.supers
    ensures StackOk(g, [], []) && SearchFrom(g, car, lists, t, [], [], op) == Search(g, car, lists, t, op)
  {
  }

  lemma NothingLeft(g: Types, car: map<int, Entry>, lists: map<int, seq<int>>, op: int)
    requires g.Valid()
    ensures StackOk(g, [], []) && SearchStack(g, car, lists, [], [], op) == None
  {
  }

  lemma TypeHasList(g: Types, car: map<int, Entry>, heads: map<int, int>, cdr: map<int, int>,
                    lists: map<int, seq<int>>, t: int)
    requires AlistsOk(g, car, heads, cdr, lists) && t in g.supers
    ensures t in lists
  {
  }

  lemma HereFirst(g: Types, car: map<int, Entry>, lists: map<int, seq<int>>, t: int, op: int)
    requires g.Valid() && t in g.supers && t in lists
    ensures var c := Match(car, lists[t], op);
            c.Some? && c.value in car ==> Search(g, car, lists, t, op) == Some(Result(car[c.value].meth, t))
  {
  }

  /** A search depends on the alists only through their first matches. */
  lemma {:induction false} SearchAgrees(g: Types, car: map<int, Entry>, lists: map<int, seq<int>>,
                                       lists': map<int, seq<int>>, t: int, op: int)
    requires g.Valid() && t in g.supers && Agree(car, lists, lists')
    ensures Search(g, car, lists', t, op) == Search(g, car, lists, t, op)
    decreases g.rank[t] + 1, 0, 0
  {
    assert t in lists ==> SameMatch(car, lists[t], lists'[t]);
    SearchListAgrees(g, car, lists, lists', g.supers[t], g.rank[t], op);
  }

  lemma {:induction false} SearchListAgrees(g: Types, car: map<int, Entry>, lists: map<int, seq<int>>,
                                           lists': map<int, seq<int>>, ts: seq<int>, n: nat, op: int)
    requires g.Valid() && Below(g, ts, n) && Agree(car, lists, lists')
    ensures SearchList(g, car, lists', ts, n, op) == SearchList(g, car, lists, ts, n, op)
    decreases n, 1, |ts|
  {
    if ts != [] {
      SearchAgrees(g, car, lists, lists', ts[0], op);
      SearchListAgrees(g, car, lists, lists', ts[1..], n, op);
    }
  }

  lemma MatchStep(car: map<int, Entry>, cells: seq<int>, k: int, op: int)
    requires 0 <= k < |cells| && Match(car, cells[..k], op) == None && cells[k] in car
    ensures car[cells[k]].op == op ==> Match(car, cells, op) == Some(cells[k])
    ensures car[cells[k]].op != op ==> Match(car, cells[..k + 1], op) == None
  {
    var c := [cells[k]];
    assert cells == cells[..k] + (c + cells[k + 1..]);
    assert cells[..k + 1] == cells[..k] + c && c[1..] == [];
    MatchAppend(car, cells[..k], c + cells[k + 1..], op);
    MatchAppend(car, c, cells[k + 1..], op);
    MatchAppend(car, cells[..k], c, op);
  }
}
