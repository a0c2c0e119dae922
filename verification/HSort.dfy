/** The heap sort whose heap hangs every cell k below cell k/2, counting cells from zero: cell 0 is
    above cell 1 alone, and the cells from 1 on form the usual tree. */
module HSort {
  import opened Permutations

  function Parent(k: nat): nat { k / 2 }

  /** Among the first `n` cells, none is larger than its parent, for parents from `lo` on. */
  ghost predicate Heap(s: seq<int>, n: nat, lo: nat)
    requires n <= |s|
  {
    forall k: nat :: 1 <= k < n && lo <= Parent(k) ==> s[k] <= s[Parent(k)]
  }

  /** The same but for cell `p`, whose value may be too small; its children fit below its parent. */
  ghost predicate HeapBut(s: seq<int>, n: nat, lo: nat, p: nat)
    requires n <= |s|
  {
    && (forall k: nat :: 1 <= k < n && lo <= Parent(k) != p ==> s[k] <= s[Parent(k)])
    && (forall k: nat :: 1 <= k < n && Parent(k) == p != Parent(p) && lo <= Parent(p) ==> s[k] <= s[Parent(p)])
  }

  ghost predicate NoLargerChild(s: seq<int>, n: nat, p: nat, x: int)
    requires n <= |s|
  {
    forall k: nat :: 1 <= k < n && Parent(k) == p ==> s[k] <= x
  }

  lemma SiftStarts(s: seq<int>, n: nat, p: nat)
    requires n <= |s| && Heap(s, n, p + 1)
    ensures HeapBut(s, n, p, p)
  {
  }

  lemma SiftEnds(s: seq<int>, n: nat, lo: nat, p: nat)
    requires p < n <= |s| && HeapBut(s, n, lo, p) && NoLargerChild(s, n, p, s[p])
    ensures Heap(s, n, lo)
  {
  }

  lemma NoChildren(s: seq<int>, n: nat, p: nat)
    requires p < n <= |s| && n <= p * 2
    ensures NoLargerChild(s, n, p, s[p])
  {
  }

  /** The largest child takes the place of its parent, and the gap moves down. */
  lemma SiftStep(s: seq<int>, n: nat, lo: nat, p: nat, c: nat)
    requires lo <= p < n <= |s| && 1 <= c < n && Parent(c) == p != c && HeapBut(s, n, lo, p)
    requires s[p] < s[c] && NoLargerChild(s, n, p, s[c])
    ensures HeapBut(Swapped(s, p, c), n, lo, c)
  {
  }

  /** The choice heapAjust makes in every turn of its loop: the child to change places with, or `p`
      itself to stop.  The first child of cell 0 is cell 0. */
  method LargerChild(arr: array<int>, n: nat, p: nat) returns (c: nat)
    requires p < n <= arr.Length && 2 * p < n
    ensures p <= c < n && NoLargerChild(arr[..], n, p, arr[c])
    ensures c != p ==> arr[p] < arr[c] && Parent(c) == p
  {
    var i := p * 2;
    var temp := arr[p];
    c := p;
    if i + 1 < n {
      if temp < arr[i] || temp < arr[i + 1] {
        if arr[i] < arr[i + 1] {
          c := i + 1;
        } else {
          c := i;
        }
      }
    } else {
      if temp < arr[i] {
        c := i;
      }
    }
  }

  /** heapAjust: the value in cell `pos` sinks to its place. */
  method HeapAdjust(arr: array<int>, n: nat, pos: nat)
    requires n <= arr.Length && Heap(arr[..], n, pos + 1)
    modifies arr
    ensures Heap(arr[..], n, pos)
    ensures if pos < n then Permuted(old(arr[..]), arr[..], pos, n) else arr[..] == old(arr[..])
  {
    if pos >= n {
      assert Heap(arr[..], n, pos);
      return;
    }
    hide Permuted, Heap, HeapBut, Swapped, NoLargerChild, Parent;
    ghost var s0 := arr[..];
    Same(s0, pos, n);
    SiftStarts(s0, n, pos);
    var p := pos;
    var i := p * 2;
    while i < n
      invariant pos <= p < n && i == p * 2
      invariant HeapBut(arr[..], n, pos, p) && Permuted(s0, arr[..], pos, n)
      decreases n - p
    {
      var c := LargerChild(arr, n, p);
      if c == p {
        SiftEnds(arr[..], n, pos, p);
        return;
      }
      SiftStep(arr[..], n, pos, p, c);
      SwapChain(s0, arr[..], p, c, pos, n);
      Swap(arr, p, c);
      p := c;
      i := p * 2;
    }
    NoChildren(arr[..], n, p);
    SiftEnds(arr[..], n, pos, p);
  }

  /** The first cell of a heap holds its largest value. */
  lemma {:induction false} TopIsLargest(s: seq<int>, n: nat, k: nat)
    requires k < n <= |s| && Heap(s, n, 0)
    ensures s[k] <= s[0]
    decreases k
  {
    if 0 < k {
      TopIsLargest(s, n, Parent(k));
    }
  }

  /** The cells up to `n` form a heap of values no larger than the sorted ones behind them. */
  ghost predicate HeapThenSorted(s: seq<int>, n: nat, len: nat)
    requires n <= len <= |s|
  {
    Heap(s, n, 0) && NonDecreasing(s, n, len) && forall k :: n <= k < len ==> AllAtMost(s, 0, n, s[k])
  }

  /** Taking the top behind the heap and repairing the heap keeps that. */
  lemma TopMoved(s: seq<int>, t: seq<int>, i: nat, len: nat)
    requires 0 < i < len <= |s| && HeapThenSorted(s, i + 1, len)
    requires Permuted(Swapped(s, 0, i), t, 0, i) && Heap(t, i, 0)
    ensures HeapThenSorted(t, i, len)
  {
    var u := Swapped(s, 0, i);
    forall k | i <= k < len ensures t[k] == u[k] && AllAtMost(t, 0, i, t[k]) {
      Outside(u, t, 0, i, k);
      forall j | 0 <= j <= i ensures s[j] <= s[0] { TopIsLargest(s, i + 1, j); }
      BoundsKept(u, t, 0, i, u[k]);
    }
  }

  lemma SwapLeavesHeapBelow(s: seq<int>, i: nat, len: nat)
    requires 0 < i < len <= |s| && HeapThenSorted(s, i + 1, len)
    ensures Heap(Swapped(s, 0, i), i, 1)
  {
  }

  lemma AnyLooseHeap(s: seq<int>, n: nat)
    requires n <= |s|
    ensures Heap(s, n, n / 2 + 1)
  {
  }

  lemma HeapBegins(s: seq<int>, n: nat)
    requires n <= |s| && Heap(s, n, 0)
    ensures HeapThenSorted(s, n, n)
  {
  }

  lemma HeapDone(s: seq<int>, n: nat)
    requires n <= |s|
    requires if n == 0 then HeapThenSorted(s, 0, 0) else HeapThenSorted(s, 1, n)
    ensures NonDecreasing(s, 0, n)
  {
  }

  /** sort. */
  method Sort(arr: array<int>, n: nat)
    requires n <= arr.Length
    modifies arr
    ensures NonDecreasing(arr[..], 0, n) && Permuted(old(arr[..]), arr[..], 0, n)
  {
    hide Permuted, Heap, Swapped, HeapThenSorted, NonDecreasing;
    ghost var s0 := arr[..];
    Same(s0, 0, n);
    AnyLooseHeap(s0, n);
    var i: int := n / 2;
    while i >= 0
      invariant -1 <= i <= n / 2 && Heap(arr[..], n, i + 1) && Permuted(s0, arr[..], 0, n)
    {
      ghost var s := arr[..];
      HeapAdjust(arr, n, i);
      WidenChain(s0, s, arr[..], i, n, n);
      i := i - 1;
    }
    HeapBegins(arr[..], n);
    i := n - 1;
    while i > 0
      invariant if n == 0 then i == -1 else 0 <= i < n
      invariant HeapThenSorted(arr[..], i + 1, n) && Permuted(s0, arr[..], 0, n)
    {
      ghost var s := arr[..];
      ghost var u := Swapped(s, 0, i);
      Swap(arr, 0, i);
      SwapChain(s0, s, 0, i, 0, n);
      SwapLeavesHeapBelow(s, i, n);
      HeapAdjust(arr, i, 0);
      TopMoved(s, arr[..], i, n);
      WidenChain(s0, u, arr[..], 0, i, n);
      i := i - 1;
    }
    HeapDone(arr[..], n);
  }
}
