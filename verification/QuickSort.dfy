/** The quicksort with two pointers that closes in on the place of the first element. */
module QuickSort {
  import opened Permutations

  /** The part is split at `p`: nothing larger before it, only larger behind it. */
  ghost predicate SplitAt(s: seq<int>, lo: nat, p: nat, hi: nat)
    requires lo <= p < hi <= |s|
  {
    AllAtMost(s, lo, p, s[p]) && forall k :: p < k < hi ==> s[p] < s[k]
  }

  /** The pointers have left only elements up to `x` on the left, and larger ones on the right. */
  ghost predicate Scanned(s: seq<int>, l: nat, i: nat, j: nat, r: nat, x: int) {
    && l <= i <= j <= r < |s|
    && (forall k :: l <= k < i ==> s[k] <= x)
    && (forall k :: j < k <= r ==> x < s[k])
  }

  lemma ScanStarts(s: seq<int>, l: nat, r: nat)
    requires l <= r < |s|
    ensures Scanned(s, l, l, r, r, s[l])
  {
  }

  lemma ScanMoves(s: seq<int>, l: nat, i: nat, j: nat, r: nat, x: int)
    requires i < j < |s| && Scanned(s, l, i, j, r, x)
    ensures x < s[j] ==> Scanned(s, l, i, j - 1, r, x)
    ensures s[i] <= x ==> Scanned(s, l, i + 1, j, r, x)
  {
  }

  lemma ExchangeKeepsScanned(s0: seq<int>, s: seq<int>, l: nat, i: nat, j: nat, r: nat, x: int)
    requires l < i < j <= r < |s| && Scanned(s, l, i, j, r, x) && s[l] == x && s[j] <= x < s[i]
    requires Permuted(s0, s, l, r + 1)
    ensures var t := Swapped(s, i, j);
            Scanned(t, l, i, j, r, x) && t[l] == x && t[i] <= x && Permuted(s0, t, l, r + 1)
  {
    hide Permuted;
    SwapChain(s0, s, i, j, l, r + 1);
  }

  lemma PivotSettles(s0: seq<int>, s: seq<int>, l: nat, i: nat, r: nat)
    requires l <= i <= r < |s| && Scanned(s, l, i, i, r, s[l]) && s[i] <= s[l] && Permuted(s0, s, l, r + 1)
    ensures SplitAt(Swapped(s, l, i), l, i, r + 1) && Permuted(s0, Swapped(s, l, i), l, r + 1)
    ensures i == l ==> SplitAt(s, l, i, r + 1)
  {
    hide Permuted;
    SwapChain(s0, s, l, i, l, r + 1);
  }

  /** partition.  The pivot cell stays put until the pointers meet. */
  method Partition(arr: array<int>, l: nat, r: nat) returns (pivot: nat)
    requires l < r < arr.Length
    modifies arr
    ensures l <= pivot <= r && SplitAt(arr[..], l, pivot, r + 1)
    ensures Permuted(old(arr[..]), arr[..], l, r + 1)
  {
    hide Permuted, SplitAt, Scanned;
    var i, j := l, r;
    pivot := i;
    var number := arr[i];
    ghost var s0 := arr[..];
    Same(s0, l, r + 1);
    ScanStarts(s0, l, r);
    while i < j
      invariant l <= i <= j <= r && l <= pivot <= r
      invariant Permuted(s0, arr[..], l, r + 1)
      invariant if i < j then pivot == l && Scanned(arr[..], l, i, j, r, number) && arr[l] == number && arr[i] <= number
                else SplitAt(arr[..], l, pivot, r + 1)
      decreases j - i
    {
      ghost var s := arr[..];
      while i < j && arr[j] > number
        invariant arr[..] == s && i <= j <= r && Scanned(s, l, i, j, r, number)
      {
        assert s[j] == arr[j];
        ScanMoves(s, l, i, j, r, number);
        j := j - 1;
      }
      while i < j && arr[i] <= number
        invariant arr[..] == s && l <= i <= j && Scanned(s, l, i, j, r, number)
      {
        assert s[i] == arr[i];
        ScanMoves(s, l, i, j, r, number);
        i := i + 1;
      }
      assert s[i] == arr[i] && s[j] == arr[j] && s[l] == arr[l];
      if i < j {
        ExchangeKeepsScanned(s0, s, l, i, j, r, number);
        Swap(arr, i, j);
      } else if i == j {
        PivotSettles(s0, s, l, i, r);
        if i != pivot {
          arr[pivot] := arr[i];
          arr[i] := number;
          pivot := i;
        }
        assert arr[..] == Swapped(s, l, i);
      } else {
        assert false;
      }
    }
  }

  /** Two sorted halves around a split make a sorted whole. */
  lemma Joined(s: seq<int>, lo: nat, p: nat, hi: nat)
    requires lo <= p < hi <= |s|
    requires NonDecreasing(s, lo, p) && NonDecreasing(s, p + 1, hi)
    requires AllAtMost(s, lo, p, s[p]) && AllAtLeast(s, p + 1, hi, s[p])
    ensures NonDecreasing(s, lo, hi)
  {
  }

  lemma OneIsSorted(s: seq<int>, lo: nat, hi: nat)
    requires hi <= |s|
    ensures hi <= lo + 1 ==> NonDecreasing(s, lo, hi)
  {
  }

  /** sort, on the cells from `l` to `r`. */
  method Sort(arr: array<int>, l: nat, r: int)
    requires l - 1 <= r < arr.Length
    modifies arr
    ensures NonDecreasing(arr[..], l, r + 1) && Permuted(old(arr[..]), arr[..], l, r + 1)
    decreases r + 1 - l
  {
    hide *;
    ghost var s0 := arr[..];
    Same(s0, l, r + 1);
    OneIsSorted(s0, l, r + 1);
    if l < r {
      var pivot: int := Partition(arr, l, r);
      ghost var s1 := arr[..];
      Sort(arr, l, pivot - 1);
      ghost var s2 := arr[..];
      Sort(arr, pivot + 1, r);
      ghost var s3 := arr[..];
      HalvesSorted(s1, s2, s3, l, pivot, r + 1);
      Chain(s0, s1, s3, l, r + 1);
    }
  }

  /** Sorting before and behind the split leaves it a split. */
  lemma HalvesSorted(s1: seq<int>, s2: seq<int>, s3: seq<int>, lo: nat, p: nat, hi: nat)
    requires lo <= p < hi <= |s1| && SplitAt(s1, lo, p, hi)
    requires Permuted(s1, s2, lo, p) && NonDecreasing(s2, lo, p)
    requires Permuted(s2, s3, p + 1, hi) && NonDecreasing(s3, p + 1, hi)
    ensures Permuted(s1, s3, lo, hi) && NonDecreasing(s3, lo, hi)
  {
    assert |s1| == |s2| == |s3|;
    Widen(s1, s2, lo, p, lo, hi);
    Widen(s2, s3, p + 1, hi, lo, hi);
    Chain(s1, s2, s3, lo, hi);
    forall k | p <= k < hi ensures s2[k] == s1[k] { Outside(s1, s2, lo, p, k); }
    forall k | lo <= k <= p ensures s3[k] == s2[k] { Outside(s2, s3, p + 1, hi, k); }
    BoundsKept(s1, s2, lo, p, s1[p]);
    BoundsKept(s2, s3, p + 1, hi, s1[p]);
    Joined(s3, lo, p, hi);
  }

  /** quicksort. */
  method Quicksort(arr: array<int>, len: nat)
    requires len <= arr.Length
    modifies arr
    ensures NonDecreasing(arr[..], 0, len) && Permuted(old(arr[..]), arr[..], 0, len)
  {
    Sort(arr, 0, len - 1);
  }
}
