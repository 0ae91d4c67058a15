/** The pair cache and the data allocator of oak-cold-linker.c, updated in place. */
module ColdPairs {
  import opened Words
  import opened ColdData
  import Arith

  const PC_SIZE := 512
  const TWO32 := 0x1_0000_0000

  /** ht_hash, before the final reduction */
  function StringHash(s: Bytes, h: int): int
    decreases |s|
  {
    if s == [] then h else StringHash(s[1..], (h * 33 + s[0]) % TWO32)
  }

  function HtHash(s: Bytes, size: int): (h: int)
    requires size > 0
    ensures 0 <= h < size
  {
    StringHash(s, 5381) % size
  }

  function Xor(h: int, k: bv32): (x: int)
    requires 0 <= h < TWO32
    ensures 0 <= x < TWO32
  {
    ((h as bv32) ^ k) as int
  }

  /** The natural recursive definition of sexp_hash, on 32-bit unsigned numbers. */
  function Hash(s: Sexp): (h: int)
    ensures 0 <= h < TWO32
  {
    match s
    case Nil => 1
    case Int(i) => (i * 2654435761) % TWO32
    case Sym(n) => HtHash(n, 1000000007)
    case Chr(c) => (c * 7919) % TWO32
    case Str(x) => Xor(HtHash(x, 1000000007), 0xDEAD)
    case Bool(b) => if b then 42 else 43
    case Cons(a, d) => (Hash(a) * 31 + Hash(d)) % TWO32
  }

  lemma AddMod(a: int, b: int, c: int)
    requires c > 0
    ensures (a % c + b) % c == (a + b) % c
  {
    var q, r := a / c, a % c;
    assert a == c * q + r;
    AddMultiple(r + b, q, c);
  }

  lemma AddMultiple(x: int, q: int, c: int)
    requires c > 0
    ensures (x + c * q) % c == x % c
  {
    Arith.DivMod(x, c);
    var k, r := x / c, x % c;
    assert x + c * q == c * (k + q) + r;
    Arith.DivUnique(x + c * q, c, k + q, r);
  }

  lemma HashTurn(acc: int, x: int, d: int)
    ensures ((acc + x * 31) % TWO32 + d) % TWO32 == (acc + (x * 31 + d) % TWO32) % TWO32
  {
    AddMod(acc + x * 31, d, TWO32);
    AddMod(x * 31 + d, acc, TWO32);
  }

  /** sexp_hash: the cdr chain is a loop. */
  method SexpHash(s: Sexp) returns (h: int)
    ensures h == Hash(s)
    decreases s
  {
    var acc, c := 0, s;
    while c.Cons?
      invariant c == s || c < s
      invariant (acc + Hash(c)) % TWO32 == Hash(s)
      decreases c
    {
      var x := SexpHash(c.car);
      HashTurn(acc, x, Hash(c.cdr));
      acc := (acc + x * 31) % TWO32;
      c := c.cdr;
    }
    h := (acc + Hash(c)) % TWO32;
  }

  /** sexp_equal: both cdr chains are walked in step. */
  method SexpEqual(a: Sexp, b: Sexp) returns (eq: bool)
    ensures eq <==> a == b
    decreases a
  {
    var x, y := a, b;
    while x.Cons? && y.Cons?
      invariant x == a || x < a
      invariant x == y <==> a == b
      decreases x
    {
      var same := SexpEqual(x.car, y.car);
      if !same { return false; }
      x, y := x.cdr, y.cdr;
    }
    if x.Cons? || y.Cons? { return false; }
    match x {
      case Nil => eq := y.Nil?;
      case Int(i) => eq := y.Int? && i == y.i;
      case Sym(n) => eq := y.Sym? && n == y.name;
      case Chr(c) => eq := y.Chr? && c == y.c;
      case Str(t) => eq := y.Str? && t == y.s;
      case Bool(p) => eq := y.Bool? && p == y.b;
    }
  }

  datatype Entry = Entry(key: Sexp, val: Word)

  /** The 512 chains hold exactly the entries of `cache`, each where its hash says. */
  ghost predicate Bucketed(buckets: seq<seq<Entry>>, cache: map<Sexp, Word>) {
    && |buckets| == PC_SIZE
    && (forall h, i :: 0 <= h < PC_SIZE && 0 <= i < |buckets[h]| ==>
          var n := buckets[h][i]; Hash(n.key) % PC_SIZE == h && n.key in cache && cache[n.key] == n.val)
    && (forall k <- cache :: InChain(buckets[Hash(k) % PC_SIZE], k))
  }

  predicate InChain(chain: seq<Entry>, k: Sexp) { exists i :: 0 <= i < |chain| && chain[i].key == k }

  lemma BucketedInsert(buckets: seq<seq<Entry>>, cache: map<Sexp, Word>, k: Sexp, v: Word)
    requires Bucketed(buckets, cache) && k !in cache
    ensures var h := Hash(k) % PC_SIZE;
            Bucketed(buckets[h := [Entry(k, v)] + buckets[h]], cache[k := v])
  {
    var h := Hash(k) % PC_SIZE;
    var chain := [Entry(k, v)] + buckets[h];
    var after := buckets[h := chain];
    assert chain[0].key == k;
    forall x <- cache[k := v] ensures InChain(after[Hash(x) % PC_SIZE], x) {
      if x != k && Hash(x) % PC_SIZE == h {
        var i :| 0 <= i < |buckets[h]| && buckets[h][i].key == x;
        assert chain[i + 1].key == x;
      }
    }
  }
}
