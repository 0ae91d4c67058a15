/** The phases of oak-cold-linker.c before anything is written: counting, base addresses, and the
    addresses of symbols, variables and blocks. */
module ColdPhases {
  import opened ColdData
  import opened ColdCount
  import opened ColdLayout
  import Arith
  import Counting

  function Ascii(s: string): (b: Bytes)
    ensures |b| == |s| && forall i :: 0 <= i < |s| ==> b[i] == s[i] as int
  {
    seq(|s|, i requires 0 <= i < |s| => s[i] as int)
  }

  const PRELOAD: seq<Bytes> :=
    [Ascii("NIL"), Ascii("T"), Ascii("CONS-PAIR"), Ascii("%CODE-VECTOR"), Ascii("STRING"),
     Ascii("%%SYMLOC"), Ascii("%%NSYMS"), Ascii("%%SYMSIZE"), Ascii("%%VARLOC"), Ascii("%%NVARS"),
     Ascii("%%WORD-SIZE"), Ascii("%%INSTRUCTIONS-PER-REF")]

  function FilePatches(f: File): seq<Patch> {
    if f == [] then [] else FilePatches(f[..|f| - 1]) + f[|f| - 1].patches
  }

  function AllPatches(files: seq<File>): seq<Patch> {
    if files == [] then [] else AllPatches(files[..|files| - 1]) + FilePatches(files[|files| - 1])
  }

  function Preloaded(cpw: int): Counts
    requires cpw >= 1
  {
    CountVariables(Counts([], [], 0), PRELOAD, cpw)
  }

  /** What count_things leaves in the tables and in dat_count. */
  function CountAll(files: seq<File>, cpw: int): Counts
    requires cpw >= 1
  {
    var c := CountPatches(Preloaded(cpw), AllPatches(files), cpw);
    c.(dat := c.dat + HANDBUILT)
  }

  /** The data region holds the handbuilt objects, the name of every symbol and every constant. */
  lemma CountsSuffice(files: seq<File>, cpw: int)
    requires cpw >= 1
    ensures var c := CountAll(files, cpw);
            && TablesOk(c) && Subset(PRELOAD, c.vars)
            && (forall p <- AllPatches(files) :: CoversPatch(c, p))
            && c.dat >= HANDBUILT + NameCells(c.syms, cpw) + ConstantCells(AllPatches(files), cpw)
  {
    hide CountPatches, CountVariables, AllPatches, NameCells, ConstantCells;
    NoNames(cpw);
    VariablesSound(Counts([], [], 0), PRELOAD, cpw);
    var p := Preloaded(cpw);
    PatchesSound(p, AllPatches(files), cpw);
    var c := CountPatches(p, AllPatches(files), cpw);
    forall q <- AllPatches(files) ensures CoversPatch(CountAll(files, cpw), q) {
      CoversPatchMore(c, CountAll(files, cpw), q);
    }
  }

  /** The patches counted are those in the blocks of the files. */
  predicate PatchAt(files: seq<File>, f: int, b: int, p: Patch) {
    0 <= f < |files| && 0 <= b < |files[f]| && p in files[f][b].patches
  }

  lemma {:induction false} PatchCounted(files: seq<File>, f: int, b: int, p: Patch)
    requires PatchAt(files, f, b, p)
    ensures p in AllPatches(files)
    decreases |files|
  {
    var n := |files| - 1;
    if f < n { PatchCounted(files[..n], f, b, p); } else { PatchOfFile(files[n], b, p); }
  }

  lemma {:induction false} PatchOfFile(f: File, b: int, p: Patch)
    requires 0 <= b < |f| && p in f[b].patches
    ensures p in FilePatches(f)
    decreases |f|
  {
    var n := |f| - 1;
    if b < n { PatchOfFile(f[..n], b, p); }
  }

  lemma {:induction false} PatchFound(files: seq<File>, p: Patch) returns (f: int, b: int)
    requires p in AllPatches(files)
    ensures PatchAt(files, f, b, p)
    decreases |files|
  {
    var n := |files| - 1;
    if p in AllPatches(files[..n]) {
      f, b := PatchFound(files[..n], p);
    } else {
      f := n;
      b := PatchInFile(files[n], p);
    }
  }

  lemma {:induction false} PatchInFile(f: File, p: Patch) returns (b: int)
    requires p in FilePatches(f)
    ensures 0 <= b < |f| && p in f[b].patches
    decreases |f|
  {
    var n := |f| - 1;
    if p in FilePatches(f[..n]) { b := PatchInFile(f[..n], p); } else { b := n; }
  }

  /** The variables are the preloaded ones and those the patches of the files name, the symbols those and the
      ones in constants; and the data region is as large as the handbuilt objects, the constants, and a name
      for every mention of a symbol. */
  lemma CountsExact(files: seq<File>, cpw: int)
    requires cpw >= 1
    ensures var c, ps := CountAll(files, cpw), AllPatches(files);
            && (forall n :: n in c.vars <==> n in PRELOAD || exists p :: p in ps && p.Variable? && p.name == n)
            && (forall n :: n in c.syms <==> n in PRELOAD || n in Mentioned(ps))
            && c.dat == HANDBUILT + ConstantCells(ps, cpw) + NameCells(PRELOAD, cpw) + NameCells(Mentioned(ps), cpw)
  {
    hide NameCells, CountPatches, CountVariables, Mentioned, ConstantCells, PRELOAD;
    VariablesExact(Counts([], [], 0), PRELOAD, cpw);
    PatchesExact(Preloaded(cpw), AllPatches(files), cpw);
  }

  lemma NoNames(cpw: int)
    requires cpw >= 1
    ensures NameCells([], cpw) == 0
  {
  }

  /** count_data: the cdr chain is a loop. */
  method CountDataLoop(c: Counts, s: Sexp, cpw: int) returns (r: Counts)
    requires cpw >= 1
    ensures r == CountData(c, s, cpw)
    decreases s
  {
    match s {
      case Sym(n) => r := CountSymbol(c, n, cpw);
      case Str(x) => r := c.(dat := c.dat + StringSize(x, cpw));
      case Cons(_, _) =>
        r := c;
        var d := s;
        while d.Cons?
          invariant d == s || d < s
          invariant CountData(r, d, cpw) == CountData(c, s, cpw)
          decreases d
        {
          r := r.(dat := r.dat + PAIR_SIZE);
          r := CountDataLoop(r, d.car, cpw);
          d := d.cdr;
        }
        r := CountDataLoop(r, d, cpw);
      case _ => r := c;
    }
  }

  /** count_variable, which gives up when the table is full. */
  method CountNewVariable(c: Counts, n: Bytes, cpw: int) returns (ok: bool, r: Counts)
    requires cpw >= 1 && |c.vars| <= MAX_VARS
    ensures ok <==> |CountVariable(c, n, cpw).vars| <= MAX_VARS
    ensures ok ==> r == CountVariable(c, n, cpw)
  {
    r := c;
    if n !in c.vars {
      if |c.vars| >= MAX_VARS { return false, c; }
      r := c.(vars := c.vars + [n]);
    }
    return true, CountSymbol(r, n, cpw);
  }

  method CountBlock(c: Counts, ps: seq<Patch>, cpw: int) returns (ok: bool, r: Counts)
    requires cpw >= 1 && TablesOk(c) && |c.vars| <= MAX_VARS
    ensures ok <==> |CountPatches(c, ps, cpw).vars| <= MAX_VARS
    ensures ok ==> r == CountPatches(c, ps, cpw)
  {
    hide TablesOk, CountData, CountVariable;
    r := c;
    var i := 0;
    while i < |ps|
      invariant 0 <= i <= |ps| && r == CountPatches(c, ps[..i], cpw) && |r.vars| <= MAX_VARS
    {
      assert ps[..i + 1][..i] == ps[..i];
      ghost var next := CountPatches(c, ps[..i + 1], cpw);
      ok := true;
      match ps[i] {
        case Constant(_, s) => PatchesSound(c, ps[..i], cpw); DataSound(r, s, cpw); r := CountDataLoop(r, s, cpw);
        case Variable(_, n) => ok, r := CountNewVariable(r, n, cpw);
        case _ =>
      }
      if !ok {
        assert ps == ps[..i + 1] + ps[i + 1..];
        CountAppend(c, ps[..i + 1], ps[i + 1..], cpw);
        PatchesSound(c, ps[..i + 1], cpw);
        PatchesSound(next, ps[i + 1..], cpw);
        return;
      }
      i := i + 1;
    }
    assert ps[..i] == ps;
    ok := true;
  }

  /** The blocks of one file: it must have one, and whole words of opcodes. */
  method CountFile(c: Counts, f: File, cpw: int, ipr: int) returns (ok: bool, r: Counts, ops: int)
    requires cpw >= 1 && ipr > 0 && TablesOk(c) && |c.vars| <= MAX_VARS
    ensures ok <==> f != [] && WholeWords(f, ipr) && |CountPatches(c, FilePatches(f), cpw).vars| <= MAX_VARS
    ensures ok ==> r == CountPatches(c, FilePatches(f), cpw) && ops == FileOps(f, ipr)
  {
    hide TablesOk, CountPatches;
    r, ops := c, 0;
    if |f| < 1 { return false, c, 0; }
    ops := -ipr + 2 * ipr * (|f| - 1);
    var b := 0;
    NoPatches(c, cpw);
    while b < |f|
      invariant 0 <= b <= |f| && r == CountPatches(c, FilePatches(f[..b]), cpw) && |r.vars| <= MAX_VARS
      invariant WholeWords(f[..b], ipr) && ops == -ipr + 2 * ipr * (|f| - 1) + OpsSum(f[..b])
    {
      if |f[b].ops| % ipr != 0 { return false, r, ops; }
      ops := ops + |f[b].ops|;
      assert f[..b + 1][..b] == f[..b];
      PatchesSound(c, FilePatches(f[..b]), cpw);
      CountAppend(c, FilePatches(f[..b]), f[b].patches, cpw);
      ok, r := CountBlock(r, f[b].patches, cpw);
      if !ok {
        MorePatches(f, b + 1);
        CountGrows(c, FilePatches(f[..b + 1]), FilePatches(f), cpw);
        return;
      }
      b := b + 1;
    }
    assert f[..b] == f;
    ok := true;
  }

  predicate WholeWords(f: File, ipr: int)
    requires ipr > 0
  {
    forall b :: 0 <= b < |f| ==> |f[b].ops| % ipr == 0
  }

  lemma NoPatches(c: Counts, cpw: int)
    requires cpw >= 1
    ensures CountPatches(c, [], cpw) == c
  {
  }

  lemma {:induction false} MorePatches(f: File, b: int)
    requires 0 <= b <= |f|
    ensures FilePatches(f[..b]) <= FilePatches(f)
    decreases |f| - b
  {
    if b < |f| {
      MorePatches(f, b + 1);
      assert f[..b + 1][..b] == f[..b];
    } else {
      assert f[..b] == f;
    }
  }

  lemma {:induction false} MoreFiles(files: seq<File>, n: int)
    requires 0 <= n <= |files|
    ensures AllPatches(files[..n]) <= AllPatches(files)
    decreases |files| - n
  {
    if n < |files| {
      MoreFiles(files, n + 1);
      assert files[..n + 1][..n] == files[..n];
    } else {
      assert files[..n] == files;
    }
  }

  /** The tables only grow. */
  lemma CountGrows(c: Counts, ps: seq<Patch>, qs: seq<Patch>, cpw: int)
    requires cpw >= 1 && TablesOk(c) && ps <= qs
    ensures |CountPatches(c, ps, cpw).vars| <= |CountPatches(c, qs, cpw).vars|
  {
    var rest := qs[|ps|..];
    assert qs == ps + rest;
    CountAppend(c, ps, rest, cpw);
    PatchesSound(c, ps, cpw);
    PatchesSound(CountPatches(c, ps, cpw), rest, cpw);
  }

  method CountPreloads(cpw: int) returns (c: Counts)
    requires cpw >= 1
    ensures c == Preloaded(cpw) && TablesOk(c) && |c.vars| <= 12
  {
    hide CountVariable, TablesOk, PRELOAD;
    c := Counts([], [], 0);
    EmptyOk();
    var i := 0;
    while i < |PRELOAD|
      invariant 0 <= i <= |PRELOAD| && |c.vars| <= i && c == CountVariables(Counts([], [], 0), PRELOAD[..i], cpw)
    {
      AddsOne(c, PRELOAD[i], cpw);
      assert PRELOAD[..i + 1][..i] == PRELOAD[..i];
      c := CountVariable(c, PRELOAD[i], cpw);
      i := i + 1;
    }
    assert PRELOAD[..i] == PRELOAD;
    VariablesSound(Counts([], [], 0), PRELOAD, cpw);
  }

  lemma EmptyOk()
    ensures TablesOk(Counts([], [], 0)) && |PRELOAD| == 12
  {
  }

  lemma AddsOne(c: Counts, n: Bytes, cpw: int)
    requires cpw >= 1
    ensures |CountVariable(c, n, cpw).vars| <= |c.vars| + 1
  {
  }

  function MaxBlks(files: seq<File>): int {
    if files == [] then 0
    else
      var m, n := MaxBlks(files[..|files| - 1]), |files[|files| - 1]|;
      if n > m then n else m
  }

  lemma {:induction false} MaxBlksBounds(files: seq<File>)
    ensures forall f :: 0 <= f < |files| ==> |files[f]| <= MaxBlks(files)
    decreases |files|
  {
    if files != [] {
      var n := |files| - 1;
      MaxBlksBounds(files[..n]);
      forall f | 0 <= f < |files| ensures |files[f]| <= MaxBlks(files) {
        if f < n { assert files[..n][f] == files[f]; }
      }
    }
  }

  /** count_things: it gives up exactly when a file has no blocks, an opcode list is not a whole
      number of words, or there are too many variables. */
  method CountThings(files: seq<File>, cpw: int, ipr: int) returns (ok: bool, c: Counts, ops: int, maxBlks: int)
    requires cpw >= 1 && ipr > 0
    ensures ok <==> Shaped(files, ipr) && |CountAll(files, cpw).vars| <= MAX_VARS
    ensures ok ==> c == CountAll(files, cpw) && ops == ipr * CodeEnd(files, ipr)
    ensures ok ==> maxBlks == MaxBlks(files)
  {
    hide TablesOk, CountPatches, Preloaded;
    c := CountPreloads(cpw);
    ghost var c0 := c;
    ops, maxBlks := 3 * ipr, 0;
    var i := 0;
    NoPatches(c, cpw);
    while i < |files|
      invariant 0 <= i <= |files| && c == CountPatches(c0, AllPatches(files[..i]), cpw) && |c.vars| <= MAX_VARS
      invariant ops == OpsCount(files[..i], ipr) && maxBlks == MaxBlks(files[..i])
      invariant forall f :: 0 <= f < i ==> files[f] != [] && WholeWords(files[f], ipr)
    {
      assert files[..i + 1][..i] == files[..i];
      PatchesSound(c0, AllPatches(files[..i]), cpw);
      CountAppend(c0, AllPatches(files[..i]), FilePatches(files[i]), cpw);
      var n: int;
      ok, c, n := CountFile(c, files[i], cpw, ipr);
      if !ok {
        MoreFiles(files, i + 1);
        CountGrows(c0, AllPatches(files[..i + 1]), AllPatches(files), cpw);
        return;
      }
      ops := ops + n;
      if |files[i]| > maxBlks { maxBlks := |files[i]|; }
      i := i + 1;
    }
    assert files[..i] == files;
    c := c.(dat := c.dat + HANDBUILT);
    OpsCountIs(files, ipr);
    ok := true;
  }

  // ---- Symbols and variables ----

  /** Distinct symbols get disjoint cells of the region that starts at `lo`. */
  ghost predicate Spaced(m: map<Bytes, int>, lo: int, hi: int) {
    && (forall n <- m :: lo <= m[n] && m[n] + SYMBOL_SIZE <= hi && (m[n] - lo) % 2 == 0)
    && (forall a <- m, b <- m :: m[a] == m[b] ==> a == b)
  }

  lemma SpacedMore(m: map<Bytes, int>, lo: int, hi: int, n: Bytes)
    requires Spaced(m, lo, hi) && hi == lo + 2 * |m| && n !in m
    ensures Spaced(m[n := hi], lo, hi + 2) && hi + 2 == lo + 2 * |m[n := hi]|
  {
  }

  lemma {:induction false} SetSize(t: seq<Bytes>)
    ensures |set n | n in t| <= |t|
  {
    if t != [] {
      var init := t[..|t| - 1];
      SetSize(init);
      assert (set n | n in t) == (set n | n in init) + {t[|t| - 1]};
    }
  }

  /** The first `i` variables have the cells from `lo` on, in order. */
  ghost predicate InOrder(m: map<Bytes, int>, vars: seq<Bytes>, lo: int, i: int) {
    && 0 <= i <= |vars|
    && (forall j :: 0 <= j < i ==> vars[j] in m && m[vars[j]] == lo + j)
    && (forall n <- m :: lo <= m[n] < lo + i && vars[m[n] - lo] == n)
  }

  lemma InOrderMore(m: map<Bytes, int>, vars: seq<Bytes>, lo: int, i: int)
    requires InOrder(m, vars, lo, i) && i < |vars| && Distinct(vars)
    ensures vars[i] !in m && InOrder(m[vars[i] := lo + i], vars, lo, i + 1)
  {
  }

  lemma NoneSpaced(lo: int)
    ensures Spaced(map[], lo, lo)
  {
  }

  lemma NoneInOrder(vars: seq<Bytes>, lo: int)
    ensures InOrder(map[], vars, lo, 0)
  {
  }

  /** The first pass of layout_symbols_and_variables: the variables, and their symbols. */
  method LayoutVariables(vars: seq<Bytes>, startVar: int, startSym: int)
    returns (varAddr: map<Bytes, int>, symAddr: map<Bytes, int>)
    requires Distinct(vars)
    ensures InOrder(varAddr, vars, startVar, |vars|)
    ensures symAddr.Keys == varAddr.Keys && Spaced(symAddr, startSym, startSym + SYMBOL_SIZE * |symAddr|)
  {
    hide Spaced, InOrder, Distinct;
    varAddr, symAddr := map[], map[];
    var nextVar, nextSym, i := startVar, startSym, 0;
    NoneSpaced(startSym);
    NoneInOrder(vars, startVar);
    while i < |vars|
      invariant 0 <= i <= |vars| && nextVar == startVar + i && nextSym == startSym + 2 * |symAddr|
      invariant InOrder(varAddr, vars, startVar, i) && symAddr.Keys == varAddr.Keys
      invariant Spaced(symAddr, startSym, nextSym)
    {
      InOrderMore(varAddr, vars, startVar, i);
      SpacedMore(symAddr, startSym, nextSym, vars[i]);
      symAddr := symAddr[vars[i] := nextSym];
      nextSym := nextSym + SYMBOL_SIZE;
      varAddr := varAddr[vars[i] := nextVar];
      nextVar := nextVar + CELL_SIZE;
      i := i + 1;
    }
  }

  /** layout_symbols_and_variables: the variables' symbols come first, in the order of the
      variables, and then the others, in the order they were first seen. */
  method LayoutNames(c: Counts, startVar: int, startSym: int)
    returns (varAddr: map<Bytes, int>, symAddr: map<Bytes, int>)
    requires TablesOk(c)
    ensures InOrder(varAddr, c.vars, startVar, |c.vars|)
    ensures forall n :: n in symAddr <==> n in c.syms
    ensures Spaced(symAddr, startSym, startSym + SYMBOL_SIZE * |c.syms|)
  {
    varAddr, symAddr := LayoutVariables(c.vars, startVar, startSym);
    assert forall n <- symAddr :: n in c.syms;
    symAddr := LayoutOthers(symAddr, c.syms, startSym);
  }

  /** The second pass: the symbols that are not variables. */
  method LayoutOthers(m: map<Bytes, int>, syms: seq<Bytes>, startSym: int) returns (symAddr: map<Bytes, int>)
    requires Spaced(m, startSym, startSym + SYMBOL_SIZE * |m|) && forall n <- m :: n in syms
    ensures forall n :: n in symAddr <==> n in syms
    ensures Spaced(symAddr, startSym, startSym + SYMBOL_SIZE * |syms|)
  {
    hide Spaced;
    ghost var names := set n | n in syms;
    symAddr := m;
    var nextSym, i := startSym + SYMBOL_SIZE * |m|, 0;
    while i < |syms|
      invariant 0 <= i <= |syms| && nextSym == startSym + 2 * |symAddr|
      invariant symAddr.Keys <= names && forall j :: 0 <= j < i ==> syms[j] in symAddr
      invariant Spaced(symAddr, startSym, nextSym)
    {
      var name := syms[i];
      if name !in symAddr {
        SpacedMore(symAddr, startSym, nextSym, name);
        symAddr := symAddr[name := nextSym];
        nextSym := nextSym + SYMBOL_SIZE;
      }
      i := i + 1;
    }
    SetSize(syms);
    Counting.SubsetSize(symAddr.Keys, names);
    SpacedWider(symAddr, startSym, nextSym, startSym + SYMBOL_SIZE * |syms|);
  }

  lemma SpacedWider(m: map<Bytes, int>, lo: int, hi: int, more: int)
    requires Spaced(m, lo, hi) && hi <= more
    ensures Spaced(m, lo, more)
  {
  }

  // ---- The block table ----

  datatype Kind = TopLevel | LastTopLevel | Regular

  datatype BlkInfo = BlkInfo(addr: int, kind: Kind)

  /** uniq_blkno */
  function Uniq(maxBlks: int, f: int, b: int): int { b + maxBlks * f }

  lemma UniqInjective(maxBlks: int, f: int, b: int, g: int, c: int)
    requires 0 <= b < maxBlks && 0 <= c < maxBlks
    ensures Uniq(maxBlks, f, b) == Uniq(maxBlks, g, c) <==> f == g && b == c
  {
    Arith.DivUnique(Uniq(maxBlks, f, b), maxBlks, f, b);
    Arith.DivUnique(Uniq(maxBlks, g, c), maxBlks, g, c);
  }

  function KindOf(files: seq<File>, f: int, b: int): Kind {
    if b > 0 then Regular else if f == |files| - 1 then LastTopLevel else TopLevel
  }

  /** The table knows block (f, b), and where it belongs. */
  predicate Knows(table: map<int, BlkInfo>, maxBlks: int, files: seq<File>, ipr: int, f: int, b: int)
    requires Shaped(files, ipr) && IsBlock(files, f, b)
  {
    var u := Uniq(maxBlks, f, b);
    u in table && table[u] == BlkInfo(Address(files, ipr, f, b), KindOf(files, f, b))
  }

  /** What has been entered when the passes have come to top level block `tops` and to regular
      block (f, b). */
  ghost predicate Entered(table: map<int, BlkInfo>, maxBlks: int, files: seq<File>, ipr: int, tops: int, f: int, b: int)
    requires Shaped(files, ipr)
  {
    && (forall g :: 0 <= g < tops <= |files| ==> Knows(table, maxBlks, files, ipr, g, 0))
    && (forall g, c :: IsBlock(files, g, c) && c > 0 && (g < f || (g == f && c < b)) ==>
          Knows(table, maxBlks, files, ipr, g, c))
    && (forall u <- table :: IsKey(maxBlks, files, u))
  }

  ghost predicate IsKey(maxBlks: int, files: seq<File>, u: int) {
    exists f, b :: IsBlock(files, f, b) && u == Uniq(maxBlks, f, b)
  }

  lemma Enter(table: map<int, BlkInfo>, maxBlks: int, files: seq<File>, ipr: int, tops: int, f: int, b: int,
              g: int, c: int)
    requires Shaped(files, ipr) && Entered(table, maxBlks, files, ipr, tops, f, b)
    requires forall i :: 0 <= i < |files| ==> |files[i]| <= maxBlks
    requires IsBlock(files, g, c)
    requires if c == 0 then g == tops && f == 0 && b == 0 else g == f && c == b && tops == |files|
    ensures var t := table[Uniq(maxBlks, g, c) := BlkInfo(Address(files, ipr, g, c), KindOf(files, g, c))];
            if c == 0 then Entered(t, maxBlks, files, ipr, tops + 1, 0, 0)
            else Entered(t, maxBlks, files, ipr, tops, f, b + 1)
  {
    hide Address;
    var t := table[Uniq(maxBlks, g, c) := BlkInfo(Address(files, ipr, g, c), KindOf(files, g, c))];
    forall h, d | IsBlock(files, h, d)
      ensures Knows(table, maxBlks, files, ipr, h, d) || (h == g && d == c) ==> Knows(t, maxBlks, files, ipr, h, d)
    {
      UniqInjective(maxBlks, g, c, h, d);
    }
  }

  lemma NoneEntered(maxBlks: int, files: seq<File>, ipr: int)
    requires Shaped(files, ipr)
    ensures Entered(map[], maxBlks, files, ipr, 0, 0, 0)
  {
  }

  lemma NextFile(table: map<int, BlkInfo>, maxBlks: int, files: seq<File>, ipr: int, tops: int, f: int, b: int)
    requires Shaped(files, ipr) && Entered(table, maxBlks, files, ipr, tops, f, b)
    ensures b == 0 ==> Entered(table, maxBlks, files, ipr, tops, f, 1)
    ensures 0 <= f < |files| && b >= |files[f]| ==> Entered(table, maxBlks, files, ipr, tops, f + 1, 0)
  {
  }

  /** build_blk_table.  Running out of code space is only possible when some top level block has no
      opcodes. */
  method BuildBlkTable(files: seq<File>, ipr: int, maxBlks: int)
    returns (ok: bool, table: map<int, BlkInfo>, firstRegular: int)
    requires Shaped(files, ipr) && forall i :: 0 <= i < |files| ==> |files[i]| <= maxBlks
    ensures TopsFilled(files, ipr) ==> ok
    ensures ok ==> Entered(table, maxBlks, files, ipr, |files|, |files|, 0)
    ensures ok ==> firstRegular == FirstRegular(files, ipr)
  {
    hide Entered, PlaceTop, PlaceFile, PlaceRegular, FirstRegular, CodeEnd, Address, BlockSize;
    var end := CodeEnd(files, ipr);
    table, firstRegular := map[], 0;
    var next, f := 3, 0;
    NoneEntered(maxBlks, files, ipr);
    TopSteps(files, ipr, 0);
    while f < |files|
      invariant 0 <= f <= |files| && next == PlaceTop(files, ipr, f)
      invariant Entered(table, maxBlks, files, ipr, f, 0, 0)
    {
      var here := next;
      TopSteps(files, ipr, f);
      var words := TopWords(files, ipr, f);
      next := next + words;
      if TopsFilled(files, ipr) { BlockWithin(files, ipr, f, 0); }
      if next > end { return false, table, 0; }
      Enter(table, maxBlks, files, ipr, f, 0, 0, f, 0);
      table := table[Uniq(maxBlks, f, 0) := BlkInfo(here, if f == |files| - 1 then LastTopLevel else TopLevel)];
      f := f + 1;
    }
    firstRegular := next;
    f := 0;
    FileSteps(files, ipr, 0);
    while f < |files|
      invariant 0 <= f <= |files| && next == PlaceFile(files, ipr, f)
      invariant Entered(table, maxBlks, files, ipr, |files|, f, 0)
    {
      var b := 1;
      FileSteps(files, ipr, f);
      NextFile(table, maxBlks, files, ipr, |files|, f, 0);
      while b < |files[f]|
        invariant 1 <= b <= |files[f]| && next == PlaceRegular(files, ipr, f, b)
        invariant Entered(table, maxBlks, files, ipr, |files|, f, b)
      {
        var here := next;
        RegularSteps(files, ipr, f, b);
        var words := RegularWords(files, ipr, f, b);
        next := next + words;
        if TopsFilled(files, ipr) { BlockWithin(files, ipr, f, b); }
        if next > end { return false, table, 0; }
        Enter(table, maxBlks, files, ipr, |files|, f, b, f, b);
        table := table[Uniq(maxBlks, f, b) := BlkInfo(here, Regular)];
        b := b + 1;
      }
      NextFile(table, maxBlks, files, ipr, |files|, f, b);
      f := f + 1;
    }
    ok := true;
  }

  /** (nops + TOP_CODE_DELTA) / instrs_per_ref and (nops + REG_CODE_DELTA) / instrs_per_ref */
  method TopWords(files: seq<File>, ipr: int, f: int) returns (n: int)
    requires Shaped(files, ipr) && 0 <= f < |files|
    ensures n == BlockSize(files, ipr, f, 0)
  {
    var nops := |files[f][0].ops|;
    Arith.DivMod(nops, ipr);
    if nops == 0 {
      n := -1;
    } else {
      n := (nops - ipr) / ipr;
      Arith.DivUnique(nops - ipr, ipr, nops / ipr - 1, 0);
    }
  }

  method RegularWords(files: seq<File>, ipr: int, f: int, b: int) returns (n: int)
    requires Shaped(files, ipr) && IsBlock(files, f, b) && b > 0
    ensures n == BlockSize(files, ipr, f, b)
  {
    var nops := |files[f][b].ops|;
    Arith.DivMod(nops, ipr);
    n := (nops + 2 * ipr) / ipr;
    Arith.DivUnique(nops + 2 * ipr, ipr, nops / ipr + 2, 0);
  }
}
