/** Counting the slices of at least three elements that form an arithmetic progression, in one pass
    over the runs of equal differences. */
module ArithmeticSlices {

  function Gap(a: seq<int>, k: int): int
    requires 1 <= k < |a|
  {
    a[k] - a[k - 1]
  }

  /** The elements from `s` to `e` are at least three, and their differences are all equal. */
  ghost predicate IsSlice(a: seq<int>, s: int, e: int) {
    0 <= s && s + 2 <= e < |a| && forall j, k :: s < j <= e && s < k <= e ==> Gap(a, j) == Gap(a, k)
  }

  ghost predicate IsProgression(a: seq<int>, s: int, e: int)
    requires 0 <= s < e < |a|
  {
    forall k :: s < k <= e ==> a[k] == a[s] + (k - s) * (a[s + 1] - a[s])
  }

  /** A slice is an arithmetic progression of at least three elements. */
  lemma SliceIff(a: seq<int>, s: int, e: int)
    ensures IsSlice(a, s, e) <==> 0 <= s && s + 2 <= e < |a| && IsProgression(a, s, e)
  {
    hide IsProgression;
    if IsSlice(a, s, e) {
      Progression(a, s, e);
    }
    if 0 <= s && s + 2 <= e < |a| && IsProgression(a, s, e) {
      forall k | s < k <= e ensures Gap(a, k) == a[s + 1] - a[s] {
        ProgressionGap(a, s, e, k);
      }
    }
  }

  lemma ProgressionGap(a: seq<int>, s: int, e: int, k: int)
    requires 0 <= s < k <= e < |a| && IsProgression(a, s, e)
    ensures Gap(a, k) == a[s + 1] - a[s]
  {
    var d := a[s + 1] - a[s];
    assert s < k - 1 ==> a[k - 1] == a[s] + (k - 1 - s) * d;
    assert (k - s) * d == (k - 1 - s) * d + d;
  }

  lemma {:induction false} Progression(a: seq<int>, s: int, e: int)
    requires 0 <= s < e < |a| && forall k :: s < k <= e ==> Gap(a, k) == Gap(a, s + 1)
    ensures IsProgression(a, s, e)
    decreases e
  {
    if s + 1 < e {
      Progression(a, s, e - 1);
      var d := a[s + 1] - a[s];
      assert Gap(a, e) == d && a[e - 1] == a[s] + (e - 1 - s) * d;
      assert (e - s) * d == (e - 1 - s) * d + d;
    }
  }

  /** All slices that end before `n`. */
  ghost function Slices(a: seq<int>, n: nat): set<(int, int)> {
    set s, e | 0 <= s < n && 0 <= e < n && IsSlice(a, s, e) :: (s, e)
  }

  ghost function Column(lo: int, hi: int, e: int): set<(int, int)> {
    set s | lo <= s < hi :: (s, e)
  }

  lemma {:induction false} ColumnSize(lo: int, hi: int, e: int)
    requires lo <= hi
    ensures |Column(lo, hi, e)| == hi - lo
    decreases hi - lo
  {
    if lo == hi {
      assert Column(lo, hi, e) == {};
    } else {
      ColumnSize(lo, hi - 1, e);
      assert Column(lo, hi, e) == Column(lo, hi - 1, e) + {(hi - 1, e)};
    }
  }

  /** The cells from `first` up to `n` form the longest run of gap `gap` that ends there. */
  ghost predicate IsRun(a: seq<int>, first: int, n: int, gap: int) {
    && 0 <= first && first + 2 <= n <= |a|
    && (forall k :: first < k < n ==> Gap(a, k) == gap)
    && (first == 0 || Gap(a, first) != gap)
  }

  /** A run that goes on ends one slice more for every cell but its last two. */
  lemma RunGrows(a: seq<int>, first: int, n: nat, gap: int)
    requires n < |a| && IsRun(a, first, n, gap) && Gap(a, n) == gap
    ensures |Slices(a, n + 1)| == |Slices(a, n)| + (n - first - 1)
  {
    hide IsSlice, IsRun;
    RunHasTwo(a, first, n, gap);
    SlicesOfRun(a, first, n, gap);
    var more := Column(first, n - 1, n);
    assert Slices(a, n + 1) == Slices(a, n) + more;
    assert Slices(a, n) !! more;
    ColumnSize(first, n - 1, n);
  }

  lemma RunHasTwo(a: seq<int>, first: int, n: int, gap: int)
    requires IsRun(a, first, n, gap)
    ensures 0 <= first && first + 2 <= n
  {
  }

  lemma SlicesOfRun(a: seq<int>, first: int, n: nat, gap: int)
    requires n < |a| && IsRun(a, first, n, gap) && Gap(a, n) == gap
    ensures forall s :: IsSlice(a, s, n) <==> first <= s < n - 1
    ensures forall s, e :: IsSlice(a, s, e) ==> 0 <= s && s + 2 <= e
  {
    var before := if first == 0 then gap else Gap(a, first);
  }

  /** A change of the gap ends no slice. */
  lemma GapChanges(a: seq<int>, n: nat)
    requires 1 <= n < |a| && (n == 1 || Gap(a, n) != Gap(a, n - 1))
    ensures Slices(a, n + 1) == Slices(a, n)
  {
    var before := if n == 1 then 0 else Gap(a, n - 1);
    assert forall s :: !IsSlice(a, s, n);
  }

  function Within(num: int): int { (num - 2) * (num - 1) / 2 }

  lemma WithinNext(num: int)
    ensures Within(num + 1) == Within(num) + (num - 1)
  {
    assert (num - 1) * num == (num - 2) * (num - 1) + (num - 1) * 2;
  }

  /** numberOfArithmeticSlices: one turn of the loop may leave `i` where it is, but then it has closed
      a run. */
  method NumberOfArithmeticSlices(a: seq<int>) returns (ret: int)
    ensures ret == |Slices(a, |a|)|
  {
    if |a| < 3 {
      assert Slices(a, |a|) == {};
      return 0;
    }
    hide Slices, IsRun, Within;
    ret := 0;
    var flag, gap, first := false, -1, 0;
    var i := 1;
    NoSlicesYet(a);
    while i < |a|
      invariant 1 <= i <= |a| && first < i
      invariant flag ==> IsRun(a, first, i, gap) && 2 <= i - first && ret + Within(i - first) == |Slices(a, i)|
      invariant !flag ==> ret == |Slices(a, i)| && i < |a| && (i == 1 || Gap(a, i) != Gap(a, i - 1))
      decreases |a| - i, flag
    {
      if !flag {
        flag := true;
        gap := a[i] - a[i - 1];
        first := i - 1;
        GapChanges(a, i);
        RunStarts(a, i);
        i := i + 1;
      } else if gap != a[i] - a[i - 1] {
        RunGap(a, first, i, gap);
        SmallRun(i - first);
        if i - first >= 3 {
          var num := i - first;
          ret := ret + Within(num);
        }
        flag := false;
      } else {
        RunGrows(a, first, i, gap);
        RunGoesOn(a, first, i, gap);
        WithinNext(i - first);
        i := i + 1;
      }
    }
    SmallRun(|a| - first);
    if flag && first + 3 <= |a| {
      var num := |a| - first;
      ret := ret + Within(num);
    }
  }

  lemma NoSlicesYet(a: seq<int>)
    ensures Slices(a, 1) == {}
  {
  }

  lemma RunStarts(a: seq<int>, i: nat)
    requires 1 <= i < |a| && (i == 1 || Gap(a, i) != Gap(a, i - 1))
    ensures IsRun(a, i - 1, i + 1, Gap(a, i)) && Within(2) == 0
  {
  }

  lemma RunGap(a: seq<int>, first: int, i: nat, gap: int)
    requires i < |a| && IsRun(a, first, i, gap)
    ensures 2 <= i && Gap(a, i - 1) == gap
  {
  }

  lemma RunGoesOn(a: seq<int>, first: int, i: nat, gap: int)
    requires i < |a| && IsRun(a, first, i, gap) && Gap(a, i) == gap
    ensures IsRun(a, first, i + 1, gap)
  {
  }

  lemma SmallRun(num: int)
    ensures num == 2 ==> Within(num) == 0
  {
  }
}
