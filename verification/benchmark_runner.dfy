/** The four sorts the benchmark runner times (quick, merge, heap and shell
    sort) and the check it applies to their output, over the integers of an
    array modelled as a sequence. */
module BenchmarkRunner {
  import opened Sorting
  import SortBenchmark

  /** `validate`: scans the neighbouring pairs and gives up at the first
      descent; it accepts exactly the sorted arrays. */
  method Validate(data: seq<int>) returns (r: bool)
    ensures r <==> Sorted(data)
  {
    AdjacentSortedIffSorted(data);
    var i := 0;
    while i < |data| - 1
      invariant 0 <= i && (i == 0 || i < |data|)
      invariant forall k :: 0 <= k < i ==> data[k] <= data[k + 1]
    {
      if data[i] > data[i + 1] {
        return false;
      }
      i := i + 1;
    }
    return true;
  }

  // ---------------------------------------------------------------------
  // Quick sort

  /** `quickSort`: the whole array. */
  method QuickSort(a0: seq<int>) returns (a: seq<int>)
    ensures Sorted(a) && multiset(a) == multiset(a0)
  {
    a := QuickSortHelper(a0, 0, |a0| - 1);
  }

  /** `quickSortHelper`: partition low..high, then sort the two sides of the
      pivot's final place. */
  method QuickSortHelper(a0: seq<int>, low: int, high: int) returns (a: seq<int>)
    requires 0 <= low <= high + 1 <= |a0|
    ensures SameOutside(a, a0, low, high + 1) && multiset(a) == multiset(a0)
    ensures SortedBetween(a, low, high + 1)
    decreases high - low
  {
    if low >= high {
      return a0;
    }
    var a1, p := Partition(a0, low, high);
    ghost var pivot := a1[p];
    PivotSplit(a1, low, p, high);
    a := QuickSortHelper(a1, low, p - 1);
    SortBenchmark.SideSorted(a1, a, low, p - 1, p + 1, high, pivot, low, p);
    ghost var a2 := a;
    a := QuickSortHelper(a, p + 1, high);
    SortBenchmark.SideSorted(a2, a, low, p - 1, p + 1, high, pivot, p + 1, high + 1);
    SortBenchmark.ThreeWaySorted(a, low, p - 1, p + 1, high, pivot);
  }

  /** A partitioned segment is the three-way state of a pivot run of
      length one. */
  lemma PivotSplit(a: seq<int>, low: int, p: int, high: int)
    requires 0 <= low <= p <= high < |a|
    requires AllAtMost(a, low, p, a[p]) && AllAbove(a, p + 1, high + 1, a[p])
    ensures SortBenchmark.ThreeWay(a, low, p - 1, p + 1, high, a[p])
  {
  }

  /** Every value of the segment exceeds p. */
  predicate AllAbove(s: seq<int>, lo: int, hi: int, p: int)
    requires 0 <= lo <= hi <= |s|
  {
    forall k :: lo <= k < hi ==> p < s[k]
  }

  /** `if (arr[y] < arr[x]) swap(arr, x, y)`: afterwards the two positions
      are in order, hold the same two values, and nothing else moved. */
  function CompareSwap(a: seq<int>, x: int, y: int): (r: seq<int>)
    requires 0 <= x < |a| && 0 <= y < |a|
    ensures |r| == |a| && multiset(r) == multiset(a) && r[x] <= r[y]
    ensures forall k :: 0 <= k < |a| && k != x && k != y ==> r[k] == a[k]
    ensures multiset{r[x], r[y]} == multiset{a[x], a[y]}
  {
    if a[y] < a[x] then Swap(a, x, y) else a
  }

  /** The three compare-and-swap steps before `partition` picks its pivot:
      only positions low, mid and high are reordered, and high ends up no
      larger than mid. With three distinct positions it holds the median of
      the three values; with two (mid = low) the larger one moves to low. */
  function MedianOfThree(a: seq<int>, low: int, high: int): (r: seq<int>)
    requires 0 <= low < high < |a|
    ensures var mid := low + (high - low) / 2;
      && |r| == |a| && multiset(r) == multiset(a)
      && (forall k :: 0 <= k < |a| && k != low && k != mid && k != high ==> r[k] == a[k])
      && r[high] <= r[mid]
      && (mid > low ==>
            r[low] <= r[high] &&
            multiset{r[low], r[mid], r[high]} == multiset{a[low], a[mid], a[high]})
      && (mid == low ==> r[high] <= r[low])
  {
    var mid := low + (high - low) / 2;
    var b := CompareSwap(a, low, mid);
    var c := CompareSwap(b, low, high);
    var r := CompareSwap(c, high, mid);
    MedianFacts(a, low, mid, high, b, c, r);
    r
  }

  lemma MedianFacts(a: seq<int>, low: int, mid: int, high: int, b: seq<int>, c: seq<int>, r: seq<int>)
    requires 0 <= low <= mid < high < |a|
    requires b == CompareSwap(a, low, mid) && c == CompareSwap(b, low, high)
    requires r == CompareSwap(c, high, mid)
    ensures |r| == |a| && multiset(r) == multiset(a) && r[high] <= r[mid]
    ensures forall k :: 0 <= k < |a| && k != low && k != mid && k != high ==> r[k] == a[k]
    ensures mid > low ==>
      r[low] <= r[high] && multiset{r[low], r[mid], r[high]} == multiset{a[low], a[mid], a[high]}
    ensures mid == low ==> r[high] <= r[low]
  {
    if mid > low {
      ThreeSwap(a, b, low, mid, high);
      ThreeSwap(b, c, low, high, mid);
      ThreeSwap(c, r, high, mid, low);
    }
  }

  /** A compare-and-swap of x and y keeps the values at x, y and a third
      position z. */
  lemma ThreeSwap(a: seq<int>, r: seq<int>, x: int, y: int, z: int)
    requires 0 <= x < |a| && 0 <= y < |a| && 0 <= z < |a| && |r| == |a|
    requires z != x && z != y && r[z] == a[z]
    requires multiset{r[x], r[y]} == multiset{a[x], a[y]}
    ensures multiset{r[x], r[y], r[z]} == multiset{a[x], a[y], a[z]}
    ensures multiset{r[x], r[z], r[y]} == multiset{a[x], a[z], a[y]}
    ensures multiset{r[z], r[y], r[x]} == multiset{a[z], a[y], a[x]}
  {
    assert multiset{r[x], r[y], r[z]} == multiset{r[x], r[y]} + multiset{r[z]};
    assert multiset{a[x], a[y], a[z]} == multiset{a[x], a[y]} + multiset{a[z]};
  }

  /** `partition` (Lomuto, after the median-of-three step): returns the
      pivot's final place p; the values before it in the segment are at
      most the pivot, the values after it exceed it, and only the segment
      is permuted. */
  method Partition(a0: seq<int>, low: int, high: int) returns (a: seq<int>, p: int)
    requires 0 <= low < high < |a0|
    ensures low <= p <= high
    ensures SameOutside(a, a0, low, high + 1) && multiset(a) == multiset(a0)
    ensures AllAtMost(a, low, p, a[p]) && AllAbove(a, p + 1, high + 1, a[p])
  {
    a := MedianOfThree(a0, low, high);
    var pivot := a[high];
    var i := low - 1;
    var j := low;
    while j < high
      invariant Lomuto(a0, a, low, high, pivot, i, j)
    {
      a, i := LomutoStep(a0, a, low, high, pivot, i, j);
      j := j + 1;
    }
    p := i + 1;
    var b := Swap(a, p, high);
    LomutoDone(a0, a, low, high, pivot, i, b);
    a := b;
  }

  /** What the partition loop keeps: low..i hold values at most the pivot,
      i+1..j−1 values above it, and the pivot waits at high. */
  predicate Lomuto(a0: seq<int>, a: seq<int>, low: int, high: int, pivot: int, i: int, j: int) {
    && 0 <= low <= j <= high < |a0| && low - 1 <= i < j
    && SameOutside(a, a0, low, high + 1) && multiset(a) == multiset(a0)
    && a[high] == pivot
    && AllAtMost(a, low, i + 1, pivot) && AllAbove(a, i + 1, j, pivot)
  }

  /** One turn of the loop: a value at most the pivot joins the left part. */
  method LomutoStep(a0: seq<int>, a: seq<int>, low: int, high: int, pivot: int, i: int, j: int)
    returns (a': seq<int>, i': int)
    requires Lomuto(a0, a, low, high, pivot, i, j) && j < high
    ensures Lomuto(a0, a', low, high, pivot, i', j + 1)
  {
    if a[j] <= pivot {
      i' := i + 1;
      a' := Swap(a, i', j);
      assert AllAtMost(a', low, i' + 1, pivot);
      assert AllAbove(a', i' + 1, j + 1, pivot);
    } else {
      a', i' := a, i;
    }
  }

  /** The closing swap puts the pivot between the two parts. */
  lemma LomutoDone(a0: seq<int>, a: seq<int>, low: int, high: int, pivot: int, i: int, b: seq<int>)
    requires Lomuto(a0, a, low, high, pivot, i, high) && b == Swap(a, i + 1, high)
    ensures SameOutside(b, a0, low, high + 1) && multiset(b) == multiset(a0)
    ensures b[i + 1] == pivot
    ensures AllAtMost(b, low, i + 1, pivot) && AllAbove(b, i + 2, high + 1, pivot)
  {
    assert AllAtMost(b, low, i + 1, pivot);
    forall k | i + 2 <= k <= high
      ensures pivot < b[k]
    {
      if k < high {
        assert b[k] == a[k];
      } else {
        assert b[k] == a[i + 1];
      }
    }
  }

  // ---------------------------------------------------------------------
  // Merge sort

  /** `mergeSort`: the whole array (an empty one gives the empty range
      0..−1, which the helper leaves alone). */
  method MergeSort(a0: seq<int>) returns (a: seq<int>)
    ensures Sorted(a) && multiset(a) == multiset(a0)
  {
    a := MergeSortHelper(a0, 0, |a0| - 1);
  }

  /** `mergeSortHelper`: sorts positions left..right, splitting at
      left + (right − left) / 2, and leaves the rest. */
  method MergeSortHelper(a0: seq<int>, left: int, right: int) returns (a: seq<int>)
    requires 0 <= left <= right + 1 <= |a0|
    ensures SameOutside(a, a0, left, right + 1) && multiset(a) == multiset(a0)
    ensures SortedBetween(a, left, right + 1)
    decreases right - left
  {
    if left >= right {
      return a0;
    }
    var mid := left + (right - left) / 2;
    var a1 := MergeSortHelper(a0, left, mid);
    var a2 := MergeSortHelper(a1, mid + 1, right);
    assert SortedBetween(a2, left, mid + 1);
    a := Merge(a2, left, mid, right);
  }

  /** `merge`: copies the runs left..mid and mid+1..right into L and R and
      merges them back into place, L first on ties. */
  method Merge(a0: seq<int>, left: int, mid: int, right: int) returns (a: seq<int>)
    requires 0 <= left <= mid < right < |a0|
    requires SortedBetween(a0, left, mid + 1) && SortedBetween(a0, mid + 1, right + 1)
    ensures SameOutside(a, a0, left, right + 1) && multiset(a) == multiset(a0)
    ensures SortedBetween(a, left, right + 1)
  {
    var L, R := CopyRuns(a0, left, mid, right);
    var merged := MergeRuns(L, R);
    a := Splice(a0, left, mid + 1, right + 1, merged);
  }

  /** The two `System.arraycopy` calls of `merge`: the runs as sorted
      sequences of their own. */
  method CopyRuns(a0: seq<int>, left: int, mid: int, right: int) returns (L: seq<int>, R: seq<int>)
    requires 0 <= left <= mid < right < |a0|
    requires SortedBetween(a0, left, mid + 1) && SortedBetween(a0, mid + 1, right + 1)
    ensures L == a0[left..mid + 1] && R == a0[mid + 1..right + 1] && Sorted(L) && Sorted(R)
  {
    SortedSlice(a0, left, mid + 1);
    SortedSlice(a0, mid + 1, right + 1);
    L, R := a0[left..mid + 1], a0[mid + 1..right + 1];
  }

  // ---------------------------------------------------------------------
  // Heap sort

  /** `heapSort`: the same two loops as the sort benchmark's heap sort, with
      the same `heapify`; the root goes behind the heap through `swap`. */
  method HeapSort(a0: seq<int>) returns (a: seq<int>)
    ensures Sorted(a) && multiset(a) == multiset(a0)
  {
    a := a0;
    var n := |a|;
    var i := n / 2 - 1;
    while i >= 0
      invariant -1 <= i <= n / 2 - 1 && |a| == n && multiset(a) == multiset(a0)
      invariant SortBenchmark.Heap(a, n, i + 1)
    {
      a := SortBenchmark.Heapify(a, n, i, i);
      i := i - 1;
    }
    i := n - 1;
    while i > 0
      invariant SortBenchmark.SortingDown(a0, a, i)
    {
      a := SortBenchmark.ExtractMax(a0, a, i);
      i := i - 1;
    }
    assert a[0..|a|] == a;
  }

  // ---------------------------------------------------------------------
  // Shell sort

  /** Knuth's gap sequence 1, 4, 13, 40, … */
  function KnuthGap(k: nat): (g: int)
    ensures g >= 1 && g % 3 == 1
  {
    if k == 0 then 1 else 3 * KnuthGap(k - 1) + 1
  }

  /** Dividing a gap by three gives the one before it. */
  lemma KnuthGapDown(k: nat)
    requires k > 0
    ensures KnuthGap(k) / 3 == KnuthGap(k - 1)
  {
  }

  /** `shellSort`: grow the gap through Knuth's sequence while it is below
      n / 3, then run a gap-insertion pass for each gap on the way back down
      to 1. The last pass has gap 1, so the result is sorted. */
  method ShellSort(a0: seq<int>) returns (a: seq<int>)
    ensures Sorted(a) && multiset(a) == multiset(a0)
  {
    var n := |a0|;
    var gap := 1;
    ghost var k: nat := 0;
    while gap < n / 3
      invariant gap == KnuthGap(k)
      decreases n - gap
    {
      gap := 3 * gap + 1;
      k := k + 1;
    }
    a := a0;
    while gap >= 1
      invariant |a| == n && multiset(a) == multiset(a0) && gap >= 0
      invariant (gap >= 1 ==> gap == KnuthGap(k)) && (gap == 0 ==> Sorted(a))
      decreases gap
    {
      a := GapPass(a, gap);
      if k == 0 {
        GapOneSorted(a);
      } else {
        KnuthGapDown(k);
      }
      gap := gap / 3;
      k := if k > 0 then k - 1 else 0;
    }
  }
}
