/** oak_c_string_fill (xmalloc.c): the emulator's decoder of packed strings. */
module OakString {
  import opened Words
  import opened ColdData
  import Arith

  /** The reference a fixnum is stored as: tag 0 in the low two bits. */
  function Raw(n: int): int { 4 * n }

  /** 0xff & (raw >> (8k + 2)) */
  function RawByte(raw: int, k: nat): int { raw / (4 * Pow256(k)) % 256 }

  lemma RawByteIs(n: int, k: nat)
    ensures RawByte(Raw(n), k) == n / Pow256(k) % 256
  {
    Arith.DivShift(4, 0, n, Pow256(k));
  }

  /** Copy out `len` characters and a terminating NUL. */
  method OakCStringFill(oakstr: seq<Cell>, cstring: array<int>, len: int, cpw: int)
    requires cpw >= 1 && 0 <= len < cstring.Length
    requires forall j :: 0 <= j < |oakstr| ==> oakstr[j].Num? && oakstr[j].w.Fix?
    requires forall i :: 0 <= i < len ==> 0 <= i / cpw < |oakstr|
    modifies cstring
    ensures forall i :: 0 <= i < len ==> cstring[i] == CharAt(oakstr, 0, cpw, i)
    ensures cstring[len] == 0 && forall i :: len < i < cstring.Length ==> cstring[i] == old(cstring[i])
  {
    var i, at := 0, 0;
    while i < len
      invariant 0 <= i <= len && 0 <= at && (i == at * cpw || i == len)
      invariant forall j :: 0 <= j < i ==> cstring[j] == CharAt(oakstr, 0, cpw, j)
      invariant forall j :: len < j < cstring.Length ==> cstring[j] == old(cstring[j])
      decreases len - i
    {
      Arith.DivUnique(i, cpw, at, 0);
      var temp := Raw(oakstr[at].w.n);
      var k := 0;
      while k < cpw && i < len
        invariant 0 <= k <= cpw && i == at * cpw + k && i <= len && (k == 0 ==> i < len)
        invariant forall j :: 0 <= j < i ==> cstring[j] == CharAt(oakstr, 0, cpw, j)
        invariant forall j :: len < j < cstring.Length ==> cstring[j] == old(cstring[j])
        decreases cpw - k
      {
        Arith.DivUnique(i, cpw, at, k);
        RawByteIs(oakstr[at].w.n, k);
        cstring[i] := RawByte(temp, k);
        k, i := k + 1, i + 1;
      }
      at := at + 1;
      assert k == cpw ==> i == at * cpw;
    }
    cstring[i] := 0;
  }

  /** Filling from what the linker packed gives the string back. */
  method ReadPacked(s: Bytes, cstring: array<int>, cpw: int)
    requires cpw >= 1 && AreBytes(s) && |s| < cstring.Length
    modifies cstring
    ensures cstring[..|s|] == s && cstring[|s|] == 0
  {
    var cells := StringWords(s, cpw);
    WordsAreFixnums(s, cpw);
    forall i | 0 <= i < |s| ensures 0 <= i / cpw < |cells| && CharAt(cells, 0, cpw, i) == s[i] {
      StringDecodes(s, cpw, i);
    }
    OakCStringFill(cells, cstring, |s|, cpw);
  }

  lemma {:induction false} WordsAreFixnums(s: Bytes, cpw: int)
    requires cpw >= 1
    ensures forall j :: 0 <= j < |StringWords(s, cpw)| ==> StringWords(s, cpw)[j].Num? && StringWords(s, cpw)[j].w.Fix?
    decreases |s|
  {
    if s != [] { WordsAreFixnums(s[Min(cpw, |s|)..], cpw); }
  }
}
