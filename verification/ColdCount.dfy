/** The counting pass of oak-cold-linker.c, which sizes the regions of the world. */
module ColdCount {
  import opened ColdData

  /** A patch of a block; the kinds the linker does not know are only found out later. */
  datatype Patch = Variable(off: int, name: Bytes) | Code(off: int, blk: int)
                 | Constant(off: int, s: Sexp) | Unknown(off: int)

  datatype Block = Block(patches: seq<Patch>, ops: seq<int>)

  type File = seq<Block>

  const PAIR_SIZE := 3
  const SYMBOL_SIZE := 2
  const CELL_SIZE := 1
  const MAX_VARS := 8192

  /** NULL, T, a method, two types and a coercible type */
  const HANDBUILT := 33

  /** var_table and sym_table, in the order the keys were first seen, and dat_count. */
  datatype Counts = Counts(vars: seq<Bytes>, syms: seq<Bytes>, dat: int)

  /** ht_probe */
  function Add(t: seq<Bytes>, n: Bytes): seq<Bytes> {
    if n in t then t else t + [n]
  }

  function CountSymbol(c: Counts, n: Bytes, cpw: int): Counts
    requires cpw >= 1
  {
    Counts(c.vars, Add(c.syms, n), c.dat + StringSize(n, cpw))
  }

  function CountVariable(c: Counts, n: Bytes, cpw: int): Counts
    requires cpw >= 1
  {
    CountSymbol(c.(vars := Add(c.vars, n)), n, cpw)
  }

  /** count_data, recursing on the car and on the cdr. */
  function CountData(c: Counts, s: Sexp, cpw: int): Counts
    requires cpw >= 1
    decreases s
  {
    match s
    case Sym(n) => CountSymbol(c, n, cpw)
    case Str(x) => c.(dat := c.dat + StringSize(x, cpw))
    case Cons(a, d) => CountData(CountData(c.(dat := c.dat + PAIR_SIZE), a, cpw), d, cpw)
    case _ => c
  }

  function CountPatch(c: Counts, p: Patch, cpw: int): Counts
    requires cpw >= 1
  {
    match p
    case Constant(_, s) => CountData(c, s, cpw)
    case Variable(_, n) => CountVariable(c, n, cpw)
    case _ => c
  }

  function CountPatches(c: Counts, ps: seq<Patch>, cpw: int): Counts
    requires cpw >= 1
  {
    if ps == [] then c else CountPatch(CountPatches(c, ps[..|ps| - 1], cpw), ps[|ps| - 1], cpw)
  }

  function CountVariables(c: Counts, names: seq<Bytes>, cpw: int): Counts
    requires cpw >= 1
  {
    if names == [] then c
    else CountVariable(CountVariables(c, names[..|names| - 1], cpw), names[|names| - 1], cpw)
  }

  lemma {:induction false} CountAppend(c: Counts, ps: seq<Patch>, qs: seq<Patch>, cpw: int)
    requires cpw >= 1
    ensures CountPatches(c, ps + qs, cpw) == CountPatches(CountPatches(c, ps, cpw), qs, cpw)
    decreases |qs|
  {
    if qs == [] {
      assert ps + qs == ps;
    } else {
      CountAppend(c, ps, qs[..|qs| - 1], cpw);
      assert (ps + qs)[..|ps + qs| - 1] == ps + qs[..|qs| - 1];
    }
  }

  // ---- What the counts are good for ----

  function NameCells(names: seq<Bytes>, cpw: int): (n: int)
    requires cpw >= 1
    ensures n >= 0
  {
    if names == [] then 0
    else
      StringWordsCount(names[|names| - 1], cpw);
      NameCells(names[..|names| - 1], cpw) + StringSize(names[|names| - 1], cpw)
  }

  function ConstantCells(ps: seq<Patch>, cpw: int): nat
    requires cpw >= 1
  {
    if ps == [] then 0
    else ConstantCells(ps[..|ps| - 1], cpw)
         + (if ps[|ps| - 1].Constant? then CellCost(ps[|ps| - 1].s, cpw) else 0)
  }

  predicate Distinct(t: seq<Bytes>) { forall i, j :: 0 <= i < j < |t| ==> t[i] != t[j] }

  predicate Subset(t: seq<Bytes>, u: seq<Bytes>) { forall n <- t :: n in u }

  predicate TablesOk(c: Counts) { Distinct(c.vars) && Distinct(c.syms) && Subset(c.vars, c.syms) }

  /** Every symbol in the constant is in the table. */
  predicate Covers(t: seq<Bytes>, s: Sexp) {
    match s
    case Sym(n) => n in t
    case Cons(a, d) => Covers(t, a) && Covers(t, d)
    case _ => true
  }

  predicate CoversPatch(c: Counts, p: Patch) {
    match p
    case Constant(_, s) => Covers(c.syms, s)
    case Variable(_, n) => n in c.vars
    case _ => true
  }

  lemma {:induction false} CoversMore(t: seq<Bytes>, u: seq<Bytes>, s: Sexp)
    requires Covers(t, s) && t <= u
    ensures Covers(u, s)
    decreases s
  {
    if s.Cons? {
      CoversMore(t, u, s.car);
      CoversMore(t, u, s.cdr);
    }
  }

  /** Room beyond the names of the symbols seen so far. */
  function Spare(c: Counts, cpw: int): int
    requires cpw >= 1
  {
    c.dat - NameCells(c.syms, cpw)
  }

  lemma SymbolSound(c: Counts, n: Bytes, cpw: int)
    requires cpw >= 1 && TablesOk(c)
    ensures var r := CountSymbol(c, n, cpw);
            TablesOk(r) && r.vars == c.vars && c.syms <= r.syms && n in r.syms && Spare(r, cpw) >= Spare(c, cpw)
  {
    StringWordsCount(n, cpw);
    assert (c.syms + [n])[..|c.syms|] == c.syms;
  }

  lemma VariableSound(c: Counts, n: Bytes, cpw: int)
    requires cpw >= 1 && TablesOk(c)
    ensures var r := CountVariable(c, n, cpw);
            && TablesOk(r) && c.vars <= r.vars && c.syms <= r.syms && n in r.vars
            && Spare(r, cpw) >= Spare(c, cpw)
  {
    StringWordsCount(n, cpw);
    assert (c.syms + [n])[..|c.syms|] == c.syms;
  }

  lemma {:induction false} DataSound(c: Counts, s: Sexp, cpw: int)
    requires cpw >= 1 && TablesOk(c)
    ensures var r := CountData(c, s, cpw);
            && TablesOk(r) && r.vars == c.vars && c.syms <= r.syms && Covers(r.syms, s)
            && Spare(r, cpw) >= Spare(c, cpw) + CellCost(s, cpw)
    decreases s
  {
    match s
    case Sym(n) => SymbolSound(c, n, cpw);
    case Cons(a, d) =>
      var c3 := c.(dat := c.dat + 3);
      DataSound(c3, a, cpw);
      DataSound(CountData(c3, a, cpw), d, cpw);
      CoversMore(CountData(c3, a, cpw).syms, CountData(c, s, cpw).syms, a);
    case _ =>
  }

  lemma CoversPatchMore(c: Counts, r: Counts, p: Patch)
    requires CoversPatch(c, p) && c.vars <= r.vars && c.syms <= r.syms
    ensures CoversPatch(r, p)
  {
    if p.Constant? { CoversMore(c.syms, r.syms, p.s); }
  }

  /** The counts leave room for every constant beside the names of all the symbols, and know every
      symbol and variable the patches mention. */
  lemma {:induction false} PatchesSound(c: Counts, ps: seq<Patch>, cpw: int)
    requires cpw >= 1 && TablesOk(c)
    ensures var r := CountPatches(c, ps, cpw);
            && TablesOk(r) && c.vars <= r.vars && c.syms <= r.syms
            && (forall p <- ps :: CoversPatch(r, p))
            && Spare(r, cpw) >= Spare(c, cpw) + ConstantCells(ps, cpw)
    decreases |ps|
  {
    hide TablesOk, Covers, Spare, CountData, CountVariable;
    if ps != [] {
      var init, p := ps[..|ps| - 1], ps[|ps| - 1];
      PatchesSound(c, init, cpw);
      var m, r := CountPatches(c, init, cpw), CountPatches(c, ps, cpw);
      match p {
        case Constant(_, s) => DataSound(m, s, cpw);
        case Variable(_, n) => VariableSound(m, n, cpw);
        case _ =>
      }
      forall q <- ps ensures CoversPatch(r, q) {
        if q in init { CoversPatchMore(m, r, q); }
      }
    }
  }

  lemma {:induction false} VariablesSound(c: Counts, names: seq<Bytes>, cpw: int)
    requires cpw >= 1 && TablesOk(c)
    ensures var r := CountVariables(c, names, cpw);
            && TablesOk(r) && c.vars <= r.vars && c.syms <= r.syms && Subset(names, r.vars)
            && Spare(r, cpw) >= Spare(c, cpw)
    decreases |names|
  {
    hide TablesOk, Spare, CountVariable;
    if names != [] {
      var init := names[..|names| - 1];
      VariablesSound(c, init, cpw);
      VariableSound(CountVariables(c, init, cpw), names[|names| - 1], cpw);
      assert forall n <- names :: n in init || n == names[|names| - 1];
    }
  }

  // ---- What exactly is counted ----

  /** The symbols of a constant, each as often as it occurs. */
  function SymbolsIn(s: Sexp): seq<Bytes> {
    match s
    case Sym(n) => [n]
    case Cons(a, d) => SymbolsIn(a) + SymbolsIn(d)
    case _ => []
  }

  /** The names in the patches, each as often as it occurs. */
  function Mentioned(ps: seq<Patch>): seq<Bytes> {
    if ps == [] then []
    else
      var p := ps[|ps| - 1];
      Mentioned(ps[..|ps| - 1]) + if p.Constant? then SymbolsIn(p.s) else if p.Variable? then [p.name] else []
  }

  lemma {:induction false} NamesApart(a: seq<Bytes>, b: seq<Bytes>, cpw: int)
    requires cpw >= 1
    ensures NameCells(a + b, cpw) == NameCells(a, cpw) + NameCells(b, cpw)
    decreases |b|
  {
    if b == [] {
      assert a + b == a;
    } else {
      NamesApart(a, b[..|b| - 1], cpw);
      assert (a + b)[..|a + b| - 1] == a + b[..|b| - 1];
    }
  }

  lemma OneName(n: Bytes, cpw: int)
    requires cpw >= 1
    ensures NameCells([n], cpw) == StringSize(n, cpw) && NameCells([], cpw) == 0
  {
    assert [n][..0] == [];
  }

  lemma {:induction false} DataExact(c: Counts, s: Sexp, cpw: int)
    requires cpw >= 1
    ensures var r := CountData(c, s, cpw);
            && r.vars == c.vars && (forall n :: n in r.syms <==> n in c.syms || n in SymbolsIn(s))
            && r.dat == c.dat + CellCost(s, cpw) + NameCells(SymbolsIn(s), cpw)
    decreases s
  {
    match s
    case Sym(n) => OneName(n, cpw);
    case Cons(a, d) =>
      var c3 := c.(dat := c.dat + 3);
      DataExact(c3, a, cpw);
      DataExact(CountData(c3, a, cpw), d, cpw);
      NamesApart(SymbolsIn(a), SymbolsIn(d), cpw);
    case _ => OneName([], cpw);
  }

  /** The tables get the names mentioned and no others, and what is counted is the cells of the constants
      and those of a name for every time one is mentioned. */
  lemma {:induction false} PatchesExact(c: Counts, ps: seq<Patch>, cpw: int)
    requires cpw >= 1
    ensures var r := CountPatches(c, ps, cpw);
            && (forall n :: n in r.syms <==> n in c.syms || n in Mentioned(ps))
            && (forall n :: n in r.vars <==> n in c.vars || exists p :: p in ps && p.Variable? && p.name == n)
            && r.dat == c.dat + ConstantCells(ps, cpw) + NameCells(Mentioned(ps), cpw)
    decreases |ps|
  {
    hide CountData, NameCells;
    if ps == [] {
      OneName([], cpw);
    } else {
      var init, p := ps[..|ps| - 1], ps[|ps| - 1];
      PatchesExact(c, init, cpw);
      var m, more := CountPatches(c, init, cpw), Mentioned(ps)[|Mentioned(init)|..];
      assert Mentioned(ps) == Mentioned(init) + more;
      NamesApart(Mentioned(init), more, cpw);
      forall q ensures q in ps <==> q in init || q == p { }
      match p
      case Constant(_, s) => DataExact(m, s, cpw);
      case Variable(_, n) => OneName(n, cpw);
      case _ => OneName([], cpw);
    }
  }

  lemma {:induction false} VariablesExact(c: Counts, names: seq<Bytes>, cpw: int)
    requires cpw >= 1
    ensures var r := CountVariables(c, names, cpw);
            && (forall n :: n in r.syms <==> n in c.syms || n in names)
            && (forall n :: n in r.vars <==> n in c.vars || n in names)
            && r.dat == c.dat + NameCells(names, cpw)
    decreases |names|
  {
    if names == [] {
      OneName([], cpw);
    } else {
      var init, n := names[..|names| - 1], names[|names| - 1];
      VariablesExact(c, init, cpw);
      forall m ensures m in names <==> m in init || m == n { }
    }
  }
}
