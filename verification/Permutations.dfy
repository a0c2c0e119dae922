/** Sequences with the same elements on a part of them, and untouched outside. */
module Permutations {

  /** `t` permutes `s` on the positions from `lo` up to `hi`, and agrees with it elsewhere. */
  ghost predicate Permuted(s: seq<int>, t: seq<int>, lo: nat, hi: nat) {
    && lo <= hi <= |s| == |t|
    && s[..lo] == t[..lo] && s[hi..] == t[hi..]
    && multiset(s[lo..hi]) == multiset(t[lo..hi])
  }

  function Swapped(s: seq<int>, i: nat, j: nat): seq<int>
    requires i < |s| && j < |s|
  {
    s[i := s[j]][j := s[i]]
  }

  lemma SwapPermutes(s: seq<int>, i: nat, j: nat, lo: nat, hi: nat)
    requires lo <= i < hi <= |s| && lo <= j < hi
    ensures Permuted(s, Swapped(s, i, j), lo, hi)
  {
    var t := Swapped(s, i, j);
    var p := s[lo..hi];
    assert t[lo..hi] == p[i - lo := p[j - lo]][j - lo := p[i - lo]];
  }

  method Swap(arr: array<int>, i: nat, j: nat)
    requires i < arr.Length && j < arr.Length
    modifies arr
    ensures arr[..] == Swapped(old(arr[..]), i, j)
  {
    var temp := arr[i];
    arr[i] := arr[j];
    arr[j] := temp;
  }

  lemma Same(s: seq<int>, lo: nat, hi: nat)
    requires lo <= hi <= |s|
    ensures Permuted(s, s, lo, hi)
  {
  }

  lemma Lengths(s: seq<int>, t: seq<int>, lo: nat, hi: nat)
    requires Permuted(s, t, lo, hi)
    ensures |s| == |t| && hi <= |s|
  {
  }

  lemma Chain(s: seq<int>, t: seq<int>, u: seq<int>, lo: nat, hi: nat)
    requires Permuted(s, t, lo, hi) && Permuted(t, u, lo, hi)
    ensures Permuted(s, u, lo, hi)
  {
  }

  lemma SwapChain(s0: seq<int>, s: seq<int>, i: nat, j: nat, lo: nat, hi: nat)
    requires Permuted(s0, s, lo, hi) && lo <= i < hi <= |s| && lo <= j < hi
    ensures Permuted(s0, Swapped(s, i, j), lo, hi)
  {
    SwapPermutes(s, i, j, lo, hi);
    Chain(s0, s, Swapped(s, i, j), lo, hi);
  }

  lemma Widen(s: seq<int>, t: seq<int>, lo: nat, hi: nat, lo': nat, hi': nat)
    requires Permuted(s, t, lo, hi) && lo' <= lo && hi <= hi' <= |s|
    ensures Permuted(s, t, lo', hi')
  {
    assert s[lo'..hi'] == s[..lo][lo'..] + s[lo..hi] + s[hi..][..hi' - hi];
    assert t[lo'..hi'] == t[..lo][lo'..] + t[lo..hi] + t[hi..][..hi' - hi];
  }

  /** A step that permutes part of the cells. */
  lemma WidenChain(s: seq<int>, t: seq<int>, u: seq<int>, lo: nat, hi: nat, n: nat)
    requires Permuted(s, t, 0, n) && hi <= n
    requires if lo < hi then Permuted(t, u, lo, hi) else u == t
    ensures Permuted(s, u, 0, n)
  {
    hide Permuted;
    Lengths(s, t, 0, n);
    if lo < hi {
      Widen(t, u, lo, hi, 0, n);
      Chain(s, t, u, 0, n);
    }
  }

  lemma Outside(s: seq<int>, t: seq<int>, lo: nat, hi: nat, k: nat)
    requires Permuted(s, t, lo, hi) && k < |s| && !(lo <= k < hi)
    ensures t[k] == s[k]
  {
    if k < lo {
      assert s[..lo][k] == t[..lo][k];
    } else {
      assert s[hi..][k - hi] == t[hi..][k - hi];
    }
  }

  /** Every element of the part comes from the part. */
  lemma Source(s: seq<int>, t: seq<int>, lo: nat, hi: nat, k: nat) returns (i: nat)
    requires Permuted(s, t, lo, hi) && lo <= k < hi
    ensures lo <= i < hi && s[i] == t[k]
  {
    assert t[lo..hi][k - lo] in multiset(s[lo..hi]);
    var j :| 0 <= j < hi - lo && s[lo..hi][j] == t[k];
    i := lo + j;
  }

  ghost predicate AllAtMost(s: seq<int>, lo: nat, hi: nat, x: int)
    requires hi <= |s|
  {
    forall k :: lo <= k < hi ==> s[k] <= x
  }

  ghost predicate AllAtLeast(s: seq<int>, lo: nat, hi: nat, x: int)
    requires hi <= |s|
  {
    forall k :: lo <= k < hi ==> s[k] >= x
  }

  lemma BoundsKept(s: seq<int>, t: seq<int>, lo: nat, hi: nat, x: int)
    requires Permuted(s, t, lo, hi)
    ensures AllAtMost(s, lo, hi, x) ==> AllAtMost(t, lo, hi, x)
    ensures AllAtLeast(s, lo, hi, x) ==> AllAtLeast(t, lo, hi, x)
  {
    forall k | lo <= k < hi
      ensures AllAtMost(s, lo, hi, x) ==> t[k] <= x
      ensures AllAtLeast(s, lo, hi, x) ==> t[k] >= x
    {
      var _ := Source(s, t, lo, hi, k);
    }
  }

  ghost predicate NonDecreasing(s: seq<int>, lo: nat, hi: nat)
    requires hi <= |s|
  {
    forall i, j :: lo <= i < j < hi ==> s[i] <= s[j]
  }

  ghost predicate NonIncreasing(s: seq<int>, lo: nat, hi: nat)
    requires hi <= |s|
  {
    forall i, j :: lo <= i < j < hi ==> s[i] >= s[j]
  }
}
