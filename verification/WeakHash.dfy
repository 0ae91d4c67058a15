/** The open-addressing hash of weak.c, from references to their weak pointers. */
module WeakHash {
  import opened Words
  import Arith
  import Counting

  datatype Slot = Slot(obj: Word, wp: Word)

  const TWO64 := 0x1_0000_0000_0000_0000

  /** The reference as a 64-bit number: cells are eight bytes and the tag is in the low bits. */
  function RawRef(r: Word): int {
    match r
    case Fix(n) => (4 * n) % TWO64
    case Imm(c) => (4 * c + 1) % TWO64
    case Loc(a) => (8 * a + 2) % TWO64
    case Ptr(a) => (8 * a + 3) % TWO64
  }

  /** wp_key */
  function Key(r: Word): int { (0x9E3779B97F4A7C15 * RawRef(r)) % TWO64 }

  /** The multiplier's inverse modulo 2^64. */
  const BACK := 0xF1DE83E19937733D

  /** The key loses nothing: it leads back to the reference. */
  lemma KeyBack(r: Word)
    ensures (BACK * Key(r)) % TWO64 == RawRef(r)
  {
    var raw := RawRef(r);
    var q := (0x9E3779B97F4A7C15 * raw) / TWO64;
    assert BACK * 0x9E3779B97F4A7C15 == 1 + TWO64 * 0x957BBF35006ED677;
    Arith.DivUnique(BACK * Key(r), TWO64, 0x957BBF35006ED677 * raw - BACK * q, raw);
  }

  /** Words that fit in 64 bits. */
  predicate Fits(r: Word) {
    match r
    case Fix(n) => -0x2000_0000_0000_0000 <= n < 0x2000_0000_0000_0000
    case Imm(c) => 0 <= c < 0x4000_0000_0000_0000
    case Loc(a) => 0 <= a < 0x2000_0000_0000_0000
    case Ptr(a) => 0 <= a < 0x2000_0000_0000_0000
  }

  /** Different references have different keys. */
  lemma KeysApart(r: Word, s: Word)
    requires Fits(r) && Fits(s)
    ensures Key(r) == Key(s) <==> r == s
  {
    KeyBack(r);
    KeyBack(s);
    RawIs(r);
    RawIs(s);
    hide Key;
  }

  lemma RawIs(r: Word)
    requires Fits(r)
    ensures match r
            case Fix(n) => RawRef(r) == if n < 0 then 4 * n + TWO64 else 4 * n
            case Imm(c) => RawRef(r) == 4 * c + 1
            case Loc(a) => RawRef(r) == 8 * a + 2
            case Ptr(a) => RawRef(r) == 8 * a + 3
  {
    if r.Fix? && r.n < 0 { Arith.DivUnique(4 * r.n, TWO64, -1, 4 * r.n + TWO64); }
  }

  /** The `k`th place a probe for `r` looks at. */
  function At(size: int, r: Word, k: int): (p: int)
    requires size > 0
    ensures 0 <= p < size
  {
    (Key(r) + k) % size
  }

  lemma NextAt(size: int, r: Word, k: int)
    requires size > 0
    ensures At(size, r, k + 1) == if At(size, r, k) + 1 == size then 0 else At(size, r, k) + 1
  {
    var x := Key(r) + k;
    Arith.DivMod(x, size);
    var q, m := x / size, x % size;
    if m + 1 == size { Arith.DivUnique(x + 1, size, q + 1, 0); } else { Arith.DivUnique(x + 1, size, q, m + 1); }
  }

  /** A probe of `size` steps looks everywhere. */
  lemma {:induction false} Everywhere(size: int, r: Word, p: int) returns (k: int)
    requires size > 0 && 0 <= p < size
    ensures 0 <= k < size && At(size, r, k) == p
  {
    var h := At(size, r, 0);
    Arith.DivMod(Key(r), size);
    var q := Key(r) / size;
    if p >= h {
      k := p - h;
      Arith.DivUnique(Key(r) + k, size, q, p);
    } else {
      k := p - h + size;
      Arith.DivUnique(Key(r) + k, size, q + 1, p);
    }
  }

  /** The first `k` places on the way are taken. */
  ghost predicate Reach(hash: seq<Slot>, f: Word, r: Word, k: int)
    requires |hash| > 0
  {
    forall j :: 0 <= j < k ==> hash[At(|hash|, r, j)].obj != f
  }

  ghost predicate Holds(hash: seq<Slot>, f: Word, r: Word, k: int)
    requires |hash| > 0
  {
    hash[At(|hash|, r, k)].obj == r && Reach(hash, f, r, k)
  }

  ghost predicate Placed(hash: seq<Slot>, f: Word, r: Word)
    requires |hash| > 0
  {
    exists k :: 0 <= k < |hash| && Holds(hash, f, r, k)
  }

  /** The table holds exactly the associations of `m`, each where a probe finds it, and has a free
      slot; `f` marks one. */
  ghost predicate HashOk(hash: seq<Slot>, f: Word, m: map<Word, int>) {
    && f !in m && |m| < |hash|
    && (forall p :: 0 <= p < |hash| && hash[p].obj != f ==> hash[p].obj in m && hash[p].wp == Fix(m[hash[p].obj]))
    && (forall p, q :: 0 <= p < q < |hash| && hash[p].obj != f ==> hash[p].obj != hash[q].obj)
    && (forall r <- m :: Placed(hash, f, r))
  }

  lemma FreeSlot(hash: seq<Slot>, f: Word, m: map<Word, int>) returns (p: int)
    requires HashOk(hash, f, m)
    ensures 0 <= p < |hash| && hash[p].obj == f
  {
    if q :| 0 <= q < |hash| && hash[q].obj == f {
      p := q;
    } else {
      var objs := seq(|hash|, i requires 0 <= i < |hash| => hash[i].obj);
      var s := Counting.PrefixSet(objs, |objs|);
      Counting.SubsetSize(s, m.Keys);
      p := 0;
    }
  }

  /** A probe meets a free slot before it has looked everywhere. */
  lemma ProbeEnds(hash: seq<Slot>, f: Word, m: map<Word, int>, r: Word, k: int)
    requires HashOk(hash, f, m) && Reach(hash, f, r, k)
    ensures k < |hash|
  {
    var p := FreeSlot(hash, f, m);
    var j := Everywhere(|hash|, r, p);
  }

  /** A probe that meets a free slot has shown that the reference is not there. */
  lemma NotThere(hash: seq<Slot>, f: Word, m: map<Word, int>, r: Word, k: int)
    requires HashOk(hash, f, m) && Reach(hash, f, r, k) && 0 <= k < |hash| && hash[At(|hash|, r, k)].obj == f
    requires forall j :: 0 <= j < k ==> hash[At(|hash|, r, j)].obj != r
    ensures r !in m
  {
    assert r in m ==> Placed(hash, f, r);
  }

  lemma Insert(hash: seq<Slot>, f: Word, m: map<Word, int>, r: Word, w: int, k: int)
    requires HashOk(hash, f, m) && r != f && r !in m && |m| + 1 < |hash|
    requires 0 <= k < |hash| && Reach(hash, f, r, k) && hash[At(|hash|, r, k)].obj == f
    ensures HashOk(hash[At(|hash|, r, k) := Slot(r, Fix(w))], f, m[r := w])
  {
    hide At;
    var p := At(|hash|, r, k);
    var after := hash[p := Slot(r, Fix(w))];
    assert |m[r := w]| == |m| + 1;
    forall x <- m[r := w] ensures Placed(after, f, x) {
      if x == r {
        assert Holds(after, f, r, k);
      } else {
        assert Placed(hash, f, x);
        var j :| 0 <= j < |hash| && Holds(hash, f, x, j);
        assert Holds(after, f, x, j);
      }
    }
  }

  lemma EmptyHash(n: int, f: Word, hash: seq<Slot>)
    requires |hash| == n > 0 && forall p :: 0 <= p < n ==> hash[p].obj == f
    ensures HashOk(hash, f, map[])
  {
  }

  // ---- The table from weak pointers to references ----

  /** `m` is the table read backwards. */
  ghost predicate Inverse(table: seq<Word>, index: int, f: Word, m: map<Word, int>) {
    && 0 <= index <= |table| && f !in m
    && (forall i :: 0 <= i < index && table[i] != f ==> table[i] in m && m[table[i]] == i)
    && (forall r <- m :: 0 <= m[r] < index && table[m[r]] == r)
  }

  /** The linear scan the hash stands for. */
  function Scan(table: seq<Word>, index: int, r: Word): int
    requires 0 <= index <= |table|
  {
    if index == 0 then -1
    else
      var i := Scan(table, index - 1, r);
      if i >= 0 then i else if table[index - 1] == r then index - 1 else -1
  }

  lemma {:induction false} ScanFinds(table: seq<Word>, index: int, r: Word)
    requires 0 <= index <= |table|
    ensures -1 <= Scan(table, index, r) < index
    ensures Scan(table, index, r) >= 0 ==> table[Scan(table, index, r)] == r
    ensures Scan(table, index, r) < 0 ==> forall i :: 0 <= i < index ==> table[i] != r
    decreases index
  {
    if index > 0 { ScanFinds(table, index - 1, r); }
  }

  lemma ScanAgrees(table: seq<Word>, index: int, f: Word, m: map<Word, int>, r: Word)
    requires Inverse(table, index, f, m) && r != f
    ensures Scan(table, index, r) == if r in m then m[r] else -1
  {
    ScanFinds(table, index, r);
  }

  /** Weak pointers are distinct, so there are no more live references than indices. */
  lemma {:induction false} LiveBound(table: seq<Word>, index: int, f: Word, m: map<Word, int>)
    requires Inverse(table, index, f, m)
    ensures |m| <= index
    ensures forall i :: 0 <= i < index && table[i] == f ==> |m| < index
  {
    var image := set r | r in m :: m[r];
    ImageSize(m, image);
    var all := Counting.Interval(0, index);
    Counting.SubsetSize(image, all);
    forall i | 0 <= i < index && table[i] == f ensures |m| < index {
      Counting.SubsetSize(image, all - {i});
    }
  }

  lemma {:induction false} ImageSize(m: map<Word, int>, image: set<int>)
    requires image == set r | r in m :: m[r]
    requires forall r <- m, s <- m :: m[r] == m[s] ==> r == s
    ensures |image| == |m|
    decreases |m|
  {
    if m.Keys != {} {
      var x :| x in m.Keys;
      var rest := m - {x};
      assert |rest| == |m| - 1 by { assert rest.Keys == m.Keys - {x}; assert |rest.Keys| == |rest| && |m.Keys| == |m|; }
      var less := set r | r in rest :: rest[r];
      forall v ensures v in image - {m[x]} <==> v in less {
        if v in image - {m[x]} {
          var r :| r in m && m[r] == v;
          assert r in rest && rest[r] == v;
        }
        if v in less {
          var r :| r in rest && rest[r] == v;
          assert m[r] == v && r != x;
        }
      }
      assert image - {m[x]} == less;
      ImageSize(rest, image - {m[x]});
    }
  }

  /** The part of `m` that the first `i` slots account for. */
  ghost function Restrict(m: map<Word, int>, i: int): map<Word, int> {
    map r | r in m && m[r] < i :: m[r]
  }

  lemma RestrictStep(table: seq<Word>, index: int, f: Word, m: map<Word, int>, i: int)
    requires Inverse(table, index, f, m) && 0 <= i < index
    ensures Inverse(table, i, f, Restrict(m, i)) && |Restrict(m, i)| <= i
    ensures Restrict(m, i + 1) == if table[i] == f then Restrict(m, i) else Restrict(m, i)[table[i] := i]
    ensures table[i] != f ==> table[i] !in Restrict(m, i)
  {
    RestrictInverse(table, index, f, m, i);
    LiveBound(table, i, f, Restrict(m, i));
    hide Inverse;
    RestrictNext(table, index, f, m, i);
  }

  lemma RestrictInverse(table: seq<Word>, index: int, f: Word, m: map<Word, int>, i: int)
    requires Inverse(table, index, f, m) && 0 <= i <= index
    ensures Inverse(table, i, f, Restrict(m, i))
  {
  }

  lemma RestrictNext(table: seq<Word>, index: int, f: Word, m: map<Word, int>, i: int)
    requires Inverse(table, index, f, m) && 0 <= i < index
    ensures 0 <= i < |table|
    ensures Restrict(m, i + 1) == if table[i] == f then Restrict(m, i) else Restrict(m, i)[table[i] := i]
    ensures table[i] != f ==> table[i] !in Restrict(m, i)
  {
  }

  lemma RestrictEnds(table: seq<Word>, index: int, f: Word, m: map<Word, int>)
    requires Inverse(table, index, f, m)
    ensures Restrict(m, 0) == map[] && Restrict(m, index) == m
  {
  }
}
