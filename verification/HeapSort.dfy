/** The recursive heap sort on a heap with its smallest value on top; it leaves the largest first. */
module HeapSort {
  import opened Permutations

  function Parent(k: nat): int { (k - 1) / 2 }

  /** Among the first `n` cells, none is smaller than its parent, for parents from `lo` on. */
  ghost predicate Heap(s: seq<int>, n: nat, lo: nat)
    requires n <= |s|
  {
    forall k: nat :: 1 <= k < n && lo <= Parent(k) ==> s[Parent(k)] <= s[k]
  }

  /** The same but for cell `p`, whose value may be too large; its children fit below its parent. */
  ghost predicate HeapBut(s: seq<int>, n: nat, lo: nat, p: nat)
    requires n <= |s|
  {
    && (forall k: nat :: 1 <= k < n && lo <= Parent(k) != p ==> s[Parent(k)] <= s[k])
    && (p < n && 1 <= p && lo <= Parent(p) ==>
          forall k: nat :: 1 <= k < n && Parent(k) == p ==> s[Parent(p)] <= s[k])
  }

  ghost predicate NoSmallerChild(s: seq<int>, n: nat, p: nat, x: int)
    requires n <= |s|
  {
    forall k: nat :: 1 <= k < n && Parent(k) == p ==> x <= s[k]
  }

  lemma SiftStarts(s: seq<int>, n: nat, p: nat)
    requires n <= |s| && Heap(s, n, p + 1)
    ensures HeapBut(s, n, p, p)
  {
  }

  lemma SiftEnds(s: seq<int>, n: nat, lo: nat, p: nat)
    requires p < n <= |s| && HeapBut(s, n, lo, p) && NoSmallerChild(s, n, p, s[p])
    ensures Heap(s, n, lo)
  {
  }

  /** The smallest child takes the place of its parent, and the gap moves down. */
  lemma SiftStep(s: seq<int>, n: nat, lo: nat, p: nat, c: nat)
    requires lo <= p < c < n <= |s| && Parent(c) == p && HeapBut(s, n, lo, p)
    requires s[c] < s[p] && NoSmallerChild(s, n, p, s[c])
    ensures HeapBut(Swapped(s, p, c), n, lo, c)
  {
  }

  /** The choice heapify makes: the smallest of a cell and its two children. */
  method Smallest(arr: array<int>, i: nat, heapsize: nat) returns (smallest: nat)
    requires i < heapsize <= arr.Length
    ensures i <= smallest < heapsize && NoSmallerChild(arr[..], heapsize, i, arr[smallest])
    ensures smallest != i ==> arr[smallest] < arr[i] && Parent(smallest) == i
  {
    smallest := i;
    var left, right := 2 * i + 1, 2 * i + 2;
    if left < heapsize {
      if arr[i] > arr[left] {
        smallest := left;
      } else {
        smallest := i;
      }
    }
    if right < heapsize {
      if arr[smallest] > arr[right] {
        smallest := right;
      }
    }
  }

  /** heapify: the value in cell `i` sinks to its place in the heap of the cells from `lo` on. */
  method Heapify(arr: array<int>, i: nat, heapsize: nat, ghost lo: nat)
    requires lo <= i < heapsize <= arr.Length && HeapBut(arr[..], heapsize, lo, i)
    modifies arr
    ensures Heap(arr[..], heapsize, lo) && Permuted(old(arr[..]), arr[..], lo, heapsize)
    decreases heapsize - i
  {
    hide Permuted, Heap, HeapBut, Swapped, NoSmallerChild, Parent;
    ghost var s0 := arr[..];
    var smallest := Smallest(arr, i, heapsize);
    if smallest != i {
      SiftStep(s0, heapsize, lo, i, smallest);
      SwapPermutes(s0, i, smallest, lo, heapsize);
      Swap(arr, i, smallest);
      ghost var s1 := arr[..];
      Heapify(arr, smallest, heapsize, lo);
      Chain(s0, s1, arr[..], lo, heapsize);
    } else {
      SiftEnds(s0, heapsize, lo, i);
      Same(s0, lo, heapsize);
    }
  }

  lemma AnyLooseHeap(s: seq<int>, n: nat)
    requires n <= |s|
    ensures Heap(s, n, n / 2)
  {
  }

  /** buildheap. */
  method BuildHeap(arr: array<int>, length: nat)
    requires length <= arr.Length
    modifies arr
    ensures Heap(arr[..], length, 0) && Permuted(old(arr[..]), arr[..], 0, length)
  {
    hide Permuted, Heap, HeapBut;
    ghost var s0 := arr[..];
    Same(s0, 0, length);
    AnyLooseHeap(s0, length);
    var i := length / 2 - 1;
    while i >= 0
      invariant -1 <= i < length / 2 || i == -1
      invariant Heap(arr[..], length, i + 1) && Permuted(s0, arr[..], 0, length)
    {
      ghost var s := arr[..];
      SiftStarts(s, length, i);
      Heapify(arr, i, length, i);
      WidenChain(s0, s, arr[..], i, length, length);
      i := i - 1;
    }
  }

  /** The first cell of a heap holds its smallest value. */
  lemma {:induction false} TopIsSmallest(s: seq<int>, n: nat, k: nat)
    requires k < n <= |s| && Heap(s, n, 0)
    ensures s[0] <= s[k]
    decreases k
  {
    if 0 < k {
      TopIsSmallest(s, n, Parent(k));
    }
  }

  /** The cells up to `n` form a heap of values no smaller than the sorted ones behind them. */
  ghost predicate HeapThenSorted(s: seq<int>, n: nat, len: nat)
    requires n <= len <= |s|
  {
    Heap(s, n, 0) && NonIncreasing(s, n, len) && forall k :: n <= k < len ==> AllAtLeast(s, 0, n, s[k])
  }

  lemma HeapBegins(s: seq<int>, n: nat)
    requires n <= |s| && Heap(s, n, 0)
    ensures HeapThenSorted(s, n, n)
  {
  }

  lemma HeapDone(s: seq<int>, n: nat)
    requires n <= |s|
    requires if n == 0 then HeapThenSorted(s, 0, 0) else HeapThenSorted(s, 1, n)
    ensures NonIncreasing(s, 0, n)
  {
  }

  lemma SwapLeavesHeapBelow(s: seq<int>, i: nat, len: nat)
    requires 0 < i < len <= |s| && HeapThenSorted(s, i + 1, len)
    ensures HeapBut(Swapped(s, 0, i), i, 0, 0)
  {
  }

  /** Taking the top behind the heap and repairing the heap keeps both. */
  lemma TopMoved(s: seq<int>, t: seq<int>, i: nat, len: nat)
    requires 0 < i < len <= |s| && HeapThenSorted(s, i + 1, len)
    requires Permuted(Swapped(s, 0, i), t, 0, i) && Heap(t, i, 0)
    ensures HeapThenSorted(t, i, len)
  {
    var u := Swapped(s, 0, i);
    forall k | i <= k < len ensures t[k] == u[k] && AllAtLeast(t, 0, i, t[k]) {
      Outside(u, t, 0, i, k);
      forall j | 0 <= j <= i ensures s[0] <= s[j] { TopIsSmallest(s, i + 1, j); }
      BoundsKept(u, t, 0, i, u[k]);
    }
  }

  /** heapsort. */
  method Heapsort(arr: array<int>, length: nat)
    requires length <= arr.Length
    modifies arr
    ensures NonIncreasing(arr[..], 0, length) && Permuted(old(arr[..]), arr[..], 0, length)
  {
    hide Permuted, Heap, HeapBut, Swapped, HeapThenSorted, NonIncreasing;
    ghost var s0 := arr[..];
    var heapsize := length;
    BuildHeap(arr, length);
    HeapBegins(arr[..], length);
    var i := 0;
    while i < length - 1
      invariant 0 <= i && heapsize == length - i && (length == 0 || 1 <= heapsize)
      invariant HeapThenSorted(arr[..], heapsize, length) && Permuted(s0, arr[..], 0, length)
    {
      ghost var s := arr[..];
      ghost var u := Swapped(s, 0, heapsize - 1);
      Swap(arr, 0, heapsize - 1);
      heapsize := heapsize - 1;
      SwapChain(s0, s, 0, heapsize, 0, length);
      SwapLeavesHeapBelow(s, heapsize, length);
      Heapify(arr, 0, heapsize, 0);
      TopMoved(s, arr[..], heapsize, length);
      WidenChain(s0, u, arr[..], 0, heapsize, length);
      i := i + 1;
    }
    HeapDone(arr[..], length);
  }
}
