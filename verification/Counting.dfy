/** Cardinality facts used to bound space and probe sequences. */
module Counting {

  lemma PrefixSet<T>(s: seq<T>, n: nat) returns (r: set<T>)
    requires n <= |s| && forall i, j :: 0 <= i < j < |s| ==> s[i] != s[j]
    ensures r == (set i | 0 <= i < n :: s[i]) && |r| == n
  {
    if n == 0 {
      r := {};
    } else {
      var r0 := PrefixSet(s, n - 1);
      assert s[n - 1] !in r0;
      r := r0 + {s[n - 1]};
    }
  }

  ghost function Interval(lo: int, hi: int): (s: set<int>)
    ensures forall a :: a in s <==> lo <= a < hi
    ensures lo <= hi ==> |s| == hi - lo
    decreases hi - lo
  {
    if lo < hi then Interval(lo, hi - 1) + {hi - 1} else {}
  }

  lemma SubsetSize<T>(s: set<T>, t: set<T>)
    requires s <= t
    ensures |s| <= |t|
  {
    assert t == s + (t - s);
  }

  /** Pigeonhole: among more than n values below n, two are equal. */
  lemma Pigeonhole(s: seq<int>, n: nat) returns (i: nat, j: nat)
    requires |s| > n && forall k :: 0 <= k < |s| ==> 0 <= s[k] < n
    ensures i < j < |s| && s[i] == s[j]
  {
    if i0: nat, j0: nat :| i0 < j0 < |s| && s[i0] == s[j0] {
      i, j := i0, j0;
    } else {
      var r := PrefixSet(s, |s|);
      SubsetSize(r, Interval(0, n));
      assert false;
    }
  }
}
