/** Where the linker puts code blocks, variables and symbols (oak-cold-linker.c), and why the
    regions are exactly as large as what goes in them. */
module ColdLayout {
  import opened ColdData
  import opened ColdCount
  import Arith

  // ---- Prefix sums ----

  function Sum(s: seq<int>): int {
    if s == [] then 0 else Sum(s[..|s| - 1]) + s[|s| - 1]
  }

  /** The sum of the first `k`. */
  function Before(s: seq<int>, k: int): int
    requires 0 <= k <= |s|
  {
    Sum(s[..k])
  }

  predicate NonNegative(s: seq<int>) { forall i :: 0 <= i < |s| ==> s[i] >= 0 }

  lemma BeforeStep(s: seq<int>, k: int)
    requires 0 <= k < |s|
    ensures Before(s, k + 1) == Before(s, k) + s[k]
  {
    assert s[..k + 1][..k] == s[..k];
  }

  lemma {:induction false} BeforeMonotone(s: seq<int>, j: int, k: int)
    requires NonNegative(s) && 0 <= j <= k <= |s|
    ensures Before(s, j) <= Before(s, k) <= Sum(s) && Before(s, 0) == 0 && Before(s, |s|) == Sum(s)
    decreases |s| - j
  {
    assert s[..|s|] == s;
    if j < |s| {
      BeforeStep(s, j);
      BeforeMonotone(s, j + 1, if k > j then k else k + 1);
      if k == j { assert Before(s, k) <= Before(s, k + 1); }
    }
  }

  /** Consecutive intervals of the given sizes cover everything below their sum. */
  lemma {:induction false} Locate(s: seq<int>, a: int) returns (k: int)
    requires NonNegative(s) && 0 <= a < Sum(s)
    ensures 0 <= k < |s| && Before(s, k) <= a < Before(s, k) + s[k]
    decreases |s|
  {
    var n := |s| - 1;
    if a >= Sum(s[..n]) {
      k := n;
    } else {
      k := Locate(s[..n], a);
      assert s[..n][..k] == s[..k];
    }
  }

  // ---- Code blocks ----

  function Words(b: Block, ipr: int): int
    requires ipr > 0
  {
    |b.ops| / ipr
  }

  predicate HasBlocks(files: seq<File>) { forall i :: 0 <= i < |files| ==> files[i] != [] }

  /** The words a top level block takes: it starts at its second word. */
  function TopSizes(files: seq<File>, ipr: int): (r: seq<int>)
    requires ipr > 0 && HasBlocks(files)
    ensures |r| == |files|
  {
    seq(|files|, i requires 0 <= i < |files| => Words(files[i][0], ipr) - 1)
  }

  /** The words the regular blocks of a file take: each has a two-word header. */
  function RegSizes(f: File, ipr: int): (r: seq<int>)
    requires ipr > 0 && f != []
    ensures |r| == |f| - 1
  {
    seq(|f| - 1, i requires 0 <= i < |f| - 1 => Words(f[i + 1], ipr) + 2)
  }

  function RegTotals(files: seq<File>, ipr: int): (r: seq<int>)
    requires ipr > 0 && HasBlocks(files)
    ensures |r| == |files|
  {
    seq(|files|, i requires 0 <= i < |files| => Sum(RegSizes(files[i], ipr)))
  }

  predicate Shaped(files: seq<File>, ipr: int) {
    && ipr > 0 && HasBlocks(files)
    && (forall i, b :: 0 <= i < |files| && 0 <= b < |files[i]| ==> |files[i][b].ops| % ipr == 0)
  }

  predicate IsBlock(files: seq<File>, f: int, b: int) { 0 <= f < |files| && 0 <= b < |files[f]| }

  /** The address of block `b` of file `f`: top level blocks come first. */
  function Address(files: seq<File>, ipr: int, f: int, b: int): int
    requires Shaped(files, ipr) && IsBlock(files, f, b)
  {
    if b == 0 then 3 + Before(TopSizes(files, ipr), f)
    else FirstRegular(files, ipr) + Before(RegTotals(files, ipr), f) + Before(RegSizes(files[f], ipr), b - 1)
  }

  function FirstRegular(files: seq<File>, ipr: int): int
    requires Shaped(files, ipr)
  {
    3 + Sum(TopSizes(files, ipr))
  }

  /** start_of_var_space */
  function CodeEnd(files: seq<File>, ipr: int): int
    requires Shaped(files, ipr)
  {
    FirstRegular(files, ipr) + Sum(RegTotals(files, ipr))
  }

  /** Where the two passes over the blocks have come to. */
  function PlaceTop(files: seq<File>, ipr: int, f: int): int
    requires Shaped(files, ipr) && 0 <= f <= |files|
  {
    3 + Before(TopSizes(files, ipr), f)
  }

  function PlaceFile(files: seq<File>, ipr: int, f: int): int
    requires Shaped(files, ipr) && 0 <= f <= |files|
  {
    FirstRegular(files, ipr) + Before(RegTotals(files, ipr), f)
  }

  function PlaceRegular(files: seq<File>, ipr: int, f: int, b: int): int
    requires Shaped(files, ipr) && 0 <= f < |files| && 1 <= b <= |files[f]|
  {
    PlaceFile(files, ipr, f) + Before(RegSizes(files[f], ipr), b - 1)
  }

  lemma TopSteps(files: seq<File>, ipr: int, f: int)
    requires Shaped(files, ipr) && 0 <= f <= |files|
    ensures PlaceTop(files, ipr, 0) == 3 && PlaceTop(files, ipr, |files|) == FirstRegular(files, ipr)
    ensures f < |files| ==> && PlaceTop(files, ipr, f) == Address(files, ipr, f, 0)
                            && PlaceTop(files, ipr, f + 1) == Address(files, ipr, f, 0) + BlockSize(files, ipr, f, 0)
  {
    var s := TopSizes(files, ipr);
    assert s[..|s|] == s;
    if f < |files| { BeforeStep(s, f); }
  }

  lemma FileSteps(files: seq<File>, ipr: int, f: int)
    requires Shaped(files, ipr) && 0 <= f <= |files|
    ensures PlaceFile(files, ipr, 0) == FirstRegular(files, ipr)
    ensures PlaceFile(files, ipr, |files|) == CodeEnd(files, ipr)
    ensures f < |files| ==> && PlaceRegular(files, ipr, f, 1) == PlaceFile(files, ipr, f)
                            && PlaceRegular(files, ipr, f, |files[f]|) == PlaceFile(files, ipr, f + 1)
  {
    var s := RegTotals(files, ipr);
    assert s[..|s|] == s;
    if f < |files| {
      BeforeStep(s, f);
      var t := RegSizes(files[f], ipr);
      assert t[..|t|] == t;
    }
  }

  lemma RegularSteps(files: seq<File>, ipr: int, f: int, b: int)
    requires Shaped(files, ipr) && IsBlock(files, f, b) && b > 0
    ensures PlaceRegular(files, ipr, f, b) == Address(files, ipr, f, b)
    ensures PlaceRegular(files, ipr, f, b + 1) == Address(files, ipr, f, b) + BlockSize(files, ipr, f, b)
  {
    BeforeStep(RegSizes(files[f], ipr), b - 1);
  }

  function BlockSize(files: seq<File>, ipr: int, f: int, b: int): int
    requires Shaped(files, ipr) && IsBlock(files, f, b)
  {
    if b == 0 then Words(files[f][0], ipr) - 1 else Words(files[f][b], ipr) + 2
  }

  /** Every top level block has a word of opcodes. */
  predicate TopsFilled(files: seq<File>, ipr: int)
    requires Shaped(files, ipr)
  {
    forall f :: 0 <= f < |files| ==> Words(files[f][0], ipr) >= 1
  }

  lemma RegSizesNonNegative(f: File, ipr: int)
    requires ipr > 0 && f != []
    ensures NonNegative(RegSizes(f, ipr))
  {
    forall i | 0 <= i < |f| - 1 ensures RegSizes(f, ipr)[i] >= 0 {
      Arith.DivPos(|f[i + 1].ops|, ipr);
    }
  }

  lemma SizesNonNegative(files: seq<File>, ipr: int)
    requires Shaped(files, ipr)
    ensures NonNegative(TopSizes(files, ipr)) <==> TopsFilled(files, ipr)
    ensures forall i :: 0 <= i < |files| ==> NonNegative(RegSizes(files[i], ipr))
    ensures NonNegative(RegTotals(files, ipr))
  {
    if NonNegative(TopSizes(files, ipr)) {
      forall f | 0 <= f < |files| ensures Words(files[f][0], ipr) >= 1 {
        assert TopSizes(files, ipr)[f] >= 0;
      }
    }
    forall i | 0 <= i < |files|
      ensures NonNegative(RegSizes(files[i], ipr)) && RegTotals(files, ipr)[i] >= 0
    {
      RegSizesNonNegative(files[i], ipr);
      BeforeMonotone(RegSizes(files[i], ipr), 0, 0);
    }
  }

  predicate Ascends(files: seq<File>, ipr: int, f: int)
    requires Shaped(files, ipr) && 0 <= f < |files| - 1
  {
    Address(files, ipr, f, 0) <= Address(files, ipr, f + 1, 0)
  }

  predicate TopFilled(files: seq<File>, ipr: int, f: int)
    requires Shaped(files, ipr) && 0 <= f < |files|
  {
    Words(files[f][0], ipr) >= 1
  }

  /** Exactly when every top level block but the last has a word do their addresses ascend. */
  lemma TopsAscend(files: seq<File>, ipr: int)
    requires Shaped(files, ipr)
    ensures (forall f :: 0 <= f < |files| - 1 ==> Ascends(files, ipr, f))
            <==> (forall f :: 0 <= f < |files| - 1 ==> TopFilled(files, ipr, f))
  {
    forall f | 0 <= f < |files| - 1
      ensures Ascends(files, ipr, f) <==> TopFilled(files, ipr, f)
    {
      BeforeStep(TopSizes(files, ipr), f);
    }
  }

  /** Block (f, b) comes before block (g, c) in code space. */
  predicate Earlier(f: int, b: int, g: int, c: int) {
    if b == 0 then c > 0 || f < g else c > 0 && (f < g || (f == g && b < c))
  }

  /** Each block ends where the next may begin: no two overlap, and none leaves the code region. */
  lemma BlocksInOrder(files: seq<File>, ipr: int, f: int, b: int, g: int, c: int)
    requires Shaped(files, ipr) && TopsFilled(files, ipr)
    requires IsBlock(files, f, b) && IsBlock(files, g, c) && Earlier(f, b, g, c)
    ensures 3 <= Address(files, ipr, f, b)
    ensures Address(files, ipr, f, b) + BlockSize(files, ipr, f, b) <= Address(files, ipr, g, c)
  {
    BlockWithin(files, ipr, f, b);
    BlockWithin(files, ipr, g, c);
    if c == 0 {
      TopsInOrder(files, ipr, f, g);
    } else if b > 0 {
      RegularsInOrder(files, ipr, f, b, g, c);
    }
  }

  lemma TopsInOrder(files: seq<File>, ipr: int, f: int, g: int)
    requires Shaped(files, ipr) && TopsFilled(files, ipr) && 0 <= f < g < |files|
    ensures Address(files, ipr, f, 0) + BlockSize(files, ipr, f, 0) <= Address(files, ipr, g, 0)
  {
    SizesNonNegative(files, ipr);
    var tops := TopSizes(files, ipr);
    BeforeStep(tops, f);
    BeforeMonotone(tops, f + 1, g);
  }

  lemma RegularsInOrder(files: seq<File>, ipr: int, f: int, b: int, g: int, c: int)
    requires Shaped(files, ipr) && IsBlock(files, f, b) && IsBlock(files, g, c)
    requires 0 < b && 0 < c && (f < g || (f == g && b < c))
    ensures Address(files, ipr, f, b) + BlockSize(files, ipr, f, b) <= Address(files, ipr, g, c)
  {
    SizesNonNegative(files, ipr);
    var sizes, totals := RegSizes(files[f], ipr), RegTotals(files, ipr);
    BeforeStep(sizes, b - 1);
    if f < g {
      BeforeMonotone(sizes, b, |sizes|);
      BeforeStep(totals, f);
      BeforeMonotone(totals, f + 1, g);
      BeforeMonotone(RegSizes(files[g], ipr), 0, c - 1);
    } else {
      BeforeMonotone(sizes, b, c - 1);
    }
  }

  lemma BlockWithin(files: seq<File>, ipr: int, f: int, b: int)
    requires Shaped(files, ipr) && TopsFilled(files, ipr) && IsBlock(files, f, b)
    ensures var a := Address(files, ipr, f, b);
            var n := BlockSize(files, ipr, f, b);
            && n >= 0 && 3 <= a && a + n <= CodeEnd(files, ipr)
            && (b == 0 ==> a + n <= FirstRegular(files, ipr))
            && (b > 0 ==> a >= FirstRegular(files, ipr))
  {
    SizesNonNegative(files, ipr);
    var tops, totals := TopSizes(files, ipr), RegTotals(files, ipr);
    BeforeMonotone(totals, 0, f);
    if b == 0 {
      assert tops[f] >= 0;
      BeforeStep(tops, f);
      BeforeMonotone(tops, 0, f);
      BeforeMonotone(tops, f + 1, f + 1);
    } else {
      BeforeMonotone(tops, 0, 0);
      var sizes := RegSizes(files[f], ipr);
      assert sizes[b - 1] >= 0;
      BeforeStep(sizes, b - 1);
      BeforeMonotone(sizes, 0, b - 1);
      BeforeMonotone(sizes, b, b);
      BeforeStep(totals, f);
      BeforeMonotone(totals, f + 1, f + 1);
    }
  }

  /** The blocks fill code space: every word after the header of the code vector is in one. */
  lemma BlocksCover(files: seq<File>, ipr: int, a: int) returns (f: int, b: int)
    requires Shaped(files, ipr) && TopsFilled(files, ipr) && 3 <= a < CodeEnd(files, ipr)
    ensures IsBlock(files, f, b)
    ensures Address(files, ipr, f, b) <= a < Address(files, ipr, f, b) + BlockSize(files, ipr, f, b)
  {
    SizesNonNegative(files, ipr);
    var first := FirstRegular(files, ipr);
    if a < first {
      f := Locate(TopSizes(files, ipr), a - 3);
      b := 0;
    } else {
      var totals := RegTotals(files, ipr);
      f := Locate(totals, a - first);
      var i := Locate(RegSizes(files[f], ipr), a - first - Before(totals, f));
      b := i + 1;
    }
  }

  // ---- Counting opcodes ----

  /** count_things, per block of a file: the length of its opcode list, in opcodes. */
  function OpsSum(f: File): int {
    if f == [] then 0 else OpsSum(f[..|f| - 1]) + |f[|f| - 1].ops|
  }

  function FileOps(f: File, ipr: int): int { -ipr + 2 * ipr * (|f| - 1) + OpsSum(f) }

  function OpsCount(files: seq<File>, ipr: int): int {
    if files == [] then 3 * ipr else OpsCount(files[..|files| - 1], ipr) + FileOps(files[|files| - 1], ipr)
  }

  /** The words of opcodes in the first `n` blocks, without the regular headers. */
  function FileWordsTo(f: File, ipr: int, n: int): int
    requires ipr > 0 && 1 <= n <= |f|
  {
    Words(f[0], ipr) + Before(RegSizes(f, ipr), n - 1) - 2 * (n - 1)
  }

  lemma {:induction false} FileOpsAre(f: File, ipr: int, n: int)
    requires ipr > 0 && 1 <= n <= |f| && forall b :: 0 <= b < |f| ==> |f[b].ops| % ipr == 0
    ensures OpsSum(f[..n]) == ipr * FileWordsTo(f, ipr, n)
    decreases n
  {
    Arith.DivMod(|f[n - 1].ops|, ipr);
    OpsStep(f, n);
    WordsStep(f, ipr, n);
    if n > 1 {
      FileOpsAre(f, ipr, n - 1);
      hide FileWordsTo, Words, OpsSum;
      Distribute(ipr, FileWordsTo(f, ipr, n - 1), Words(f[n - 1], ipr));
    }
  }

  lemma OpsStep(f: File, n: int)
    requires 1 <= n <= |f|
    ensures OpsSum(f[..n]) == (if n == 1 then 0 else OpsSum(f[..n - 1])) + |f[n - 1].ops|
  {
    assert f[..n][..n - 1] == f[..n - 1];
  }

  lemma WordsStep(f: File, ipr: int, n: int)
    requires ipr > 0 && 1 <= n <= |f|
    ensures FileWordsTo(f, ipr, n) == (if n == 1 then 0 else FileWordsTo(f, ipr, n - 1)) + Words(f[n - 1], ipr)
  {
    if n > 1 { BeforeStep(RegSizes(f, ipr), n - 2); }
  }

  lemma ShapedPrefix(files: seq<File>, ipr: int, n: int)
    requires Shaped(files, ipr) && 0 <= n <= |files|
    ensures Shaped(files[..n], ipr)
    ensures TopSizes(files, ipr)[..n] == TopSizes(files[..n], ipr)
    ensures RegTotals(files, ipr)[..n] == RegTotals(files[..n], ipr)
  {
  }

  /** The opcodes counted are exactly those of the words laid out. */
  lemma {:induction false} OpsCountIs(files: seq<File>, ipr: int)
    requires Shaped(files, ipr)
    ensures OpsCount(files, ipr) == ipr * CodeEnd(files, ipr)
    decreases |files|
  {
    var n := |files| - 1;
    if n >= 0 {
      var init, f := files[..n], files[n];
      ShapedPrefix(files, ipr, n);
      OpsCountIs(init, ipr);
      FileOpsAre(f, ipr, |f|);
      assert f[..|f|] == f;
      var s := RegSizes(f, ipr);
      assert s[..|s|] == s;
      var w, t := Words(f[0], ipr), Sum(s);
      FileWords(ipr, |f|, w, t);
      Distribute(ipr, CodeEnd(init, ipr), w - 1 + t);
    }
  }

  lemma Distribute(a: int, b: int, c: int)
    ensures a * b + a * c == a * (b + c)
  {
  }

  lemma FileWords(ipr: int, n: int, w: int, t: int)
    ensures -ipr + 2 * ipr * (n - 1) + ipr * (w + t - 2 * (n - 1)) == ipr * (w - 1 + t)
  {
  }
}
