/** The ten sorts of the sort benchmark, each over the integers of an array
    modelled as a sequence: every one returns a sorted permutation of its
    input. */
module SortBenchmark {
  import opened Wrappers
  import opened Sorting
  import Money

  /** Every element before m is at most every element from m on. */
  predicate Partitioned(a: seq<int>, m: int) {
    forall p, q :: 0 <= p < m <= q < |a| ==> a[p] <= a[q]
  }

  /** `copyArray`: a fresh array with the same contents. */
  method CopyArray(arr: array<int>) returns (r: array<int>)
    ensures fresh(r) && r[..] == arr[..]
  {
    r := new int[arr.Length];
    var i := 0;
    while i < arr.Length
      invariant 0 <= i <= arr.Length
      invariant forall k :: 0 <= k < i ==> r[k] == arr[k]
    {
      r[i] := arr[i];
      i := i + 1;
    }
  }

  // ---------------------------------------------------------------------
  // 1. Bubble sort

  /** `bubbleSort`: pass i bubbles the largest of the first n − i elements
      up to position n − i − 1. */
  method BubbleSort(a0: seq<int>) returns (a: seq<int>)
    ensures Sorted(a) && multiset(a) == multiset(a0)
  {
    a := a0;
    var n := |a|;
    var i := 0;
    while i < n - 1
      invariant 0 <= i <= n && (n > 0 ==> i <= n - 1)
      invariant |a| == n && multiset(a) == multiset(a0)
      invariant SortedBetween(a, n - i, n) && Partitioned(a, n - i)
    {
      var j := 0;
      while j < n - i - 1
        invariant 0 <= j <= n - i - 1
        invariant |a| == n && multiset(a) == multiset(a0)
        invariant SortedBetween(a, n - i, n) && Partitioned(a, n - i)
        invariant forall p :: 0 <= p < j ==> a[p] <= a[j]
      {
        if a[j] > a[j + 1] {
          a := Swap(a, j, j + 1);
        }
        j := j + 1;
      }
      i := i + 1;
    }
  }

  // ---------------------------------------------------------------------
  // 2. Selection sort

  /** `selectionSort`: pass i swaps the smallest remaining element (its
      first occurrence) into position i. */
  method SelectionSort(a0: seq<int>) returns (a: seq<int>)
    ensures Sorted(a) && multiset(a) == multiset(a0)
  {
    a := a0;
    var n := |a|;
    var i := 0;
    while i < n - 1
      invariant 0 <= i <= n && (n > 0 ==> i <= n - 1)
      invariant |a| == n && multiset(a) == multiset(a0)
      invariant SortedBetween(a, 0, i) && Partitioned(a, i)
    {
      var minIdx := i;
      var j := i + 1;
      while j < n
        invariant i <= minIdx < j <= n
        invariant forall k :: i <= k < j ==> a[minIdx] <= a[k]
      {
        if a[j] < a[minIdx] {
          minIdx := j;
        }
        j := j + 1;
      }
      a := Swap(a, i, minIdx);
      i := i + 1;
    }
  }

  // ---------------------------------------------------------------------
  // 3. Insertion sort and 6. shell sort

  /** `insertionSort`: the gap-insertion pass with gap 1 (the source's j is
      the hole's index minus one). */
  method InsertionSort(a0: seq<int>) returns (a: seq<int>)
    ensures Sorted(a) && multiset(a) == multiset(a0)
  {
    a := GapPass(a0, 1);
    GapOneSorted(a);
  }

  /** `shellSort`: gap-insertion passes for the gaps n/2, n/4, …, 1. */
  method ShellSort(a0: seq<int>) returns (a: seq<int>)
    ensures Sorted(a) && multiset(a) == multiset(a0)
  {
    a := a0;
    var gap := |a| / 2;
    while gap > 0
      invariant |a| == |a0| && multiset(a) == multiset(a0) && gap >= 0
      invariant gap == 0 ==> Sorted(a)
    {
      a := GapPass(a, gap);
      if gap == 1 {
        GapOneSorted(a);
      }
      gap := gap / 2;
    }
  }

  // ---------------------------------------------------------------------
  // 4. Merge sort

  /** `mergeSort`: arrays of at most one element are left alone. */
  method MergeSort(a0: seq<int>) returns (a: seq<int>)
    ensures Sorted(a) && multiset(a) == multiset(a0)
  {
    if |a0| <= 1 {
      return a0;
    }
    a := MergeSortHelper(a0, 0, |a0| - 1);
    assert a[0..|a|] == a;
  }

  /** `mergeSortHelper`: sorts positions left..right and leaves the rest. */
  method MergeSortHelper(a0: seq<int>, left: int, right: int) returns (a: seq<int>)
    requires 0 <= left <= right + 1 <= |a0|
    ensures SameOutside(a, a0, left, right + 1) && multiset(a) == multiset(a0)
    ensures SortedBetween(a, left, right + 1)
    decreases right - left
  {
    if left >= right {
      return a0;
    }
    var mid := (left + right) / 2;
    var a1 := MergeSortHelper(a0, left, mid);
    var a2 := MergeSortHelper(a1, mid + 1, right);
    assert SortedBetween(a2, left, mid + 1);
    a := Merge(a2, left, mid, right);
  }

  /** `merge`: merges the sorted runs left..mid and mid+1..right through a
      temporary array copied back in place. */
  method Merge(a0: seq<int>, left: int, mid: int, right: int) returns (a: seq<int>)
    requires 0 <= left <= mid < right < |a0|
    requires SortedBetween(a0, left, mid + 1) && SortedBetween(a0, mid + 1, right + 1)
    ensures SameOutside(a, a0, left, right + 1) && multiset(a) == multiset(a0)
    ensures SortedBetween(a, left, right + 1)
  {
    var temp := MergeRange(a0, left, mid + 1, right + 1);
    a := Splice(a0, left, mid + 1, right + 1, temp);
  }

  // ---------------------------------------------------------------------
  // 5. Quick sort

  /** `quickSort`: Hoare partitioning around the middle element, then the
      two sides (which may leave a run of pivot copies between them). */
  method QuickSort(a0: seq<int>, low: int, high: int) returns (a: seq<int>)
    requires 0 <= low <= high + 1 <= |a0|
    ensures SameOutside(a, a0, low, high + 1) && multiset(a) == multiset(a0)
    ensures SortedBetween(a, low, high + 1)
    decreases high - low
  {
    if low >= high {
      return a0;
    }
    var a1, i, j, pivot := HoarePartition(a0, low, high);
    a := a1;
    if low < j {
      a := QuickSort(a, low, j);
      SideSorted(a1, a, low, j, i, high, pivot, low, j + 1);
    }
    ghost var a2 := a;
    if i < high {
      a := QuickSort(a, i, high);
      SideSorted(a2, a, low, j, i, high, pivot, i, high + 1);
    }
    ThreeWaySorted(a, low, j, i, high, pivot);
  }

  /** The state a partition leaves: values at most the pivot in low..j,
      pivot copies strictly between j and i, values at least the pivot in
      i..high. */
  predicate ThreeWay(a: seq<int>, low: int, j: int, i: int, high: int, pivot: int) {
    && 0 <= low <= j + 1 <= i <= high + 1 <= |a|
    && AllAtMost(a, low, j + 1, pivot) && AllAtLeast(a, i, high + 1, pivot)
    && (forall k :: j < k < i ==> a[k] == pivot)
  }

  /** Sorting one side (lo..hi−1 is low..j or i..high) keeps the three-way
      state, and a side already sorted stays sorted. */
  lemma SideSorted(a: seq<int>, b: seq<int>, low: int, j: int, i: int, high: int,
                   pivot: int, lo: int, hi: int)
    requires ThreeWay(a, low, j, i, high, pivot)
    requires (lo == low && hi == j + 1) || (lo == i && hi == high + 1)
    requires SameOutside(b, a, lo, hi) && multiset(b) == multiset(a)
    ensures ThreeWay(b, low, j, i, high, pivot)
    ensures lo == i ==> SortedBetween(a, low, j + 1) == SortedBetween(b, low, j + 1)
  {
    SegmentPermutation(a, b, lo, hi);
    BoundsPermuted(a, b, lo, hi, pivot);
  }

  /** Two sorted sides around a run of pivot copies make a sorted segment. */
  lemma ThreeWaySorted(a: seq<int>, low: int, j: int, i: int, high: int, pivot: int)
    requires ThreeWay(a, low, j, i, high, pivot)
    requires SortedBetween(a, low, j + 1) && SortedBetween(a, i, high + 1)
    ensures SortedBetween(a, low, high + 1)
  {
  }

  /** The partition loop of `quickSort`. On return i > j, positions low..j
      hold values at most the pivot, positions i..high values at least it,
      positions strictly between hold the pivot, and both sides are strictly
      shorter than the segment. */
  method HoarePartition(a0: seq<int>, low: int, high: int)
    returns (a: seq<int>, i: int, j: int, pivot: int)
    requires 0 <= low < high < |a0|
    ensures SameOutside(a, a0, low, high + 1) && multiset(a) == multiset(a0)
    ensures low <= j + 1 && j < i && i <= high + 1 && j < high && low < i
    ensures AllAtMost(a, low, j + 1, pivot) && AllAtLeast(a, i, high + 1, pivot)
    ensures forall k :: j < k < i ==> a[k] == pivot
  {
    var mid := low + (high - low) / 2;
    pivot := a0[mid];
    a, i, j := a0, low, high;
    while i <= j
      invariant Partitioning(a0, a, low, high, mid, pivot, i, j)
      decreases high - i + j - low + 2
    {
      a, i, j := PartitionStep(a0, a, low, high, mid, pivot, i, j);
    }
  }

  /** One turn of the partition loop: advance i past smaller values, retreat
      j past larger ones, and swap the pair found if they have not crossed. */
  method PartitionStep(a0: seq<int>, a: seq<int>, low: int, high: int, mid: int,
                       pivot: int, i: int, j: int)
    returns (a': seq<int>, i': int, j': int)
    requires Partitioning(a0, a, low, high, mid, pivot, i, j) && i <= j
    ensures Partitioning(a0, a', low, high, mid, pivot, i', j')
    ensures high - i' + j' - low + 2 < high - i + j - low + 2
  {
    var s := if j < high then j + 1 else mid;
    var x := ScanUp(a, low, s, i, pivot);
    var t := if x > low then low else mid;
    var y := ScanDown(a, t, j, high, pivot);
    if x <= y {
      a' := Swap(a, x, y);
      i', j' := x + 1, y - 1;
      SwapPartitions(a0, a, low, high, mid, pivot, i, j, x, y, a');
    } else {
      a', i', j' := a, x, y;
    }
  }

  /** `while (arr[i] < pivot) i++`, stopped at the latest by the sentinel s. */
  method ScanUp(a: seq<int>, low: int, s: int, i: int, pivot: int) returns (x: int)
    requires 0 <= low <= i <= s < |a| && a[s] >= pivot && AllAtMost(a, low, i, pivot)
    ensures i <= x <= s && a[x] >= pivot && AllAtMost(a, low, x, pivot)
  {
    x := i;
    while a[x] < pivot
      invariant i <= x <= s && AllAtMost(a, low, x, pivot)
      decreases s - x
    {
      x := x + 1;
    }
  }

  /** `while (arr[j] > pivot) j--`, stopped at the latest by the sentinel t. */
  method ScanDown(a: seq<int>, t: int, j: int, high: int, pivot: int) returns (y: int)
    requires 0 <= t <= j <= high < |a| && a[t] <= pivot && AllAtLeast(a, j + 1, high + 1, pivot)
    ensures t <= y <= j && a[y] <= pivot && AllAtLeast(a, y + 1, high + 1, pivot)
  {
    y := j;
    while a[y] > pivot
      invariant t <= y <= j && AllAtLeast(a, y + 1, high + 1, pivot)
      decreases y - t
    {
      y := y - 1;
    }
  }

  /** Swapping the out-of-place pair x ≤ y found by the scans extends both
      sides by one. */
  lemma SwapPartitions(a0: seq<int>, a: seq<int>, low: int, high: int, mid: int, pivot: int,
                       i: int, j: int, x: int, y: int, a': seq<int>)
    requires Partitioning(a0, a, low, high, mid, pivot, i, j) && i <= j
    requires i <= x <= y <= j && a[x] >= pivot && a[y] <= pivot
    requires AllAtMost(a, low, x, pivot) && AllAtLeast(a, y + 1, high + 1, pivot)
    requires a' == Swap(a, x, y)
    ensures Partitioning(a0, a', low, high, mid, pivot, x + 1, y - 1)
  {
    assert AllAtMost(a', low, x + 1, pivot);
    assert AllAtLeast(a', y, high + 1, pivot);
  }

  /** What the partition loop keeps. */
  predicate Partitioning(a0: seq<int>, a: seq<int>, low: int, high: int, mid: int,
                         pivot: int, i: int, j: int) {
    && 0 <= low <= mid <= high < |a0|
    && SameOutside(a, a0, low, high + 1) && multiset(a) == multiset(a0)
    && low <= i <= high + 1 && low - 1 <= j <= high
    && ((i == low && j == high && a[mid] == pivot) || (low < i && j < high))
    && AllAtMost(a, low, i, pivot) && AllAtLeast(a, j + 1, high + 1, pivot)
  }

  // ---------------------------------------------------------------------
  // 7. Heap sort

  /** Node p of the heap on the first n positions is no smaller than its
      children. */
  predicate HeapNode(a: seq<int>, n: int, p: int)
    requires 0 <= p && n <= |a|
  {
    && (2 * p + 1 < n ==> a[2 * p + 1] <= a[p])
    && (2 * p + 2 < n ==> a[2 * p + 2] <= a[p])
  }

  /** Every node from `start` on satisfies the heap order. */
  predicate Heap(a: seq<int>, n: int, start: int)
    requires 0 <= start && n <= |a|
  {
    forall p :: start <= p < n ==> HeapNode(a, n, p)
  }

  /** `heapSort`: build a max-heap bottom-up, then repeatedly swap its root
      behind the shrinking heap and sift the new root down. */
  method HeapSort(a0: seq<int>) returns (a: seq<int>)
    ensures Sorted(a) && multiset(a) == multiset(a0)
  {
    a := BuildHeap(a0);
    var i := |a| - 1;
    while i > 0
      invariant SortingDown(a0, a, i)
    {
      a := ExtractMax(a0, a, i);
      i := i - 1;
    }
    assert a[0..|a|] == a;
  }

  /** The first loop of `heapSort`. */
  method BuildHeap(a0: seq<int>) returns (a: seq<int>)
    ensures |a| == |a0| && multiset(a) == multiset(a0) && Heap(a, |a|, 0)
  {
    a := a0;
    var n := |a|;
    var i := n / 2 - 1;
    while i >= 0
      invariant -1 <= i <= n / 2 - 1 && |a| == n && multiset(a) == multiset(a0)
      invariant Heap(a, n, i + 1)
    {
      a := Heapify(a, n, i, i);
      i := i - 1;
    }
  }

  /** What the second loop of `heapSort` keeps: positions 0..i form a heap,
      the positions after i are sorted and hold the largest values. */
  predicate SortingDown(a0: seq<int>, a: seq<int>, i: int) {
    && -1 <= i < |a| == |a0| && multiset(a) == multiset(a0)
    && Heap(a, i + 1, 0) && SortedBetween(a, i + 1, |a|)
    && (i + 1 < |a| ==> AllAtMost(a, 0, i + 1, a[i + 1]))
  }

  /** One turn of the second loop: the root moves to position i. */
  method ExtractMax(a0: seq<int>, a: seq<int>, i: int) returns (a': seq<int>)
    requires SortingDown(a0, a, i) && i > 0
    ensures SortingDown(a0, a', i - 1)
  {
    RootIsMax(a, i + 1);
    var b := Swap(a, 0, i);
    HeapShrink(a, i);
    a' := Heapify(b, i, 0, 0);
    SegmentPermutation(b, a', 0, i);
    BoundsPermuted(b, a', 0, i, a'[i]);
  }

  /** The root of a heap holds its largest value. */
  lemma RootIsMax(a: seq<int>, n: int)
    requires 0 < n <= |a| && Heap(a, n, 0)
    ensures AllAtMost(a, 0, n, a[0])
  {
    forall k | 0 <= k < n ensures a[k] <= a[0] {
      var c := k;
      while c > 0
        invariant 0 <= c <= k && a[k] <= a[c]
        decreases c
      {
        var p := (c - 1) / 2;
        assert HeapNode(a, n, p);
        c := p;
      }
    }
  }

  /** The precondition of a sift-down at i: every node from `start` on
      except i is in heap order, and i's parent (when it is one of them)
      dominates i's children. */
  predicate ReadyToSift(a: seq<int>, n: int, i: int, start: int)
    requires 0 <= start <= i < n <= |a|
  {
    && (forall p :: start <= p < n && p != i ==> HeapNode(a, n, p))
    && (i > 0 && start <= (i - 1) / 2 ==>
         (2 * i + 1 < n ==> a[2 * i + 1] <= a[(i - 1) / 2]) &&
         (2 * i + 2 < n ==> a[2 * i + 2] <= a[(i - 1) / 2]))
  }

  /** `heapify`: sift the value at i down the heap on the first n positions;
      afterwards every node from `start` on is in heap order, and only
      positions i..n−1 have moved. */
  method Heapify(a0: seq<int>, n: int, i: int, ghost start: int) returns (a: seq<int>)
    requires 0 <= start <= i < n <= |a0| && ReadyToSift(a0, n, i, start)
    ensures SameOutside(a, a0, i, n) && multiset(a) == multiset(a0)
    ensures Heap(a, n, start)
    decreases n - i
  {
    var largest, left, right := i, 2 * i + 1, 2 * i + 2;
    if left < n && a0[left] > a0[largest] {
      largest := left;
    }
    if right < n && a0[right] > a0[largest] {
      largest := right;
    }
    if largest != i {
      var b := Swap(a0, i, largest);
      SiftStep(a0, b, n, i, largest, start);
      a := Heapify(b, n, largest, start);
      SameOutsideTrans(a, b, a0, largest, i, n);
    } else {
      assert HeapNode(a0, n, i);
      a := a0;
    }
  }

  lemma SameOutsideTrans(a: seq<int>, b: seq<int>, c: seq<int>, m: int, lo: int, hi: int)
    requires lo <= m && SameOutside(a, b, m, hi) && SameOutside(b, c, lo, hi)
    ensures SameOutside(a, c, lo, hi)
  {
  }

  /** After swapping i with its larger child c, the heap is ready to sift
      at c. */
  lemma SiftStep(a0: seq<int>, b: seq<int>, n: int, i: int, c: int, start: int)
    requires 0 <= start <= i < n <= |a0| && ReadyToSift(a0, n, i, start)
    requires (c == 2 * i + 1 || c == 2 * i + 2) && c < n
    requires a0[i] < a0[c] && (2 * i + 1 < n ==> a0[2 * i + 1] <= a0[c])
    requires 2 * i + 2 < n ==> a0[2 * i + 2] <= a0[c]
    requires b == Swap(a0, i, c)
    ensures ReadyToSift(b, n, c, start)
  {
    assert (c - 1) / 2 == i;
    assert HeapNode(a0, n, c);
    forall p | start <= p < n && p != c ensures HeapNode(b, n, p) {
      if p != i {
        assert HeapNode(a0, n, p);
      }
    }
  }

  /** Swapping the root with the last heap position and dropping that
      position leaves every other node in heap order. */
  lemma HeapShrink(a: seq<int>, i: int)
    requires 0 < i < |a| && Heap(a, i + 1, 0)
    ensures ReadyToSift(Swap(a, 0, i), i, 0, 0)
  {
    var b := Swap(a, 0, i);
    forall p | 0 <= p < i && p != 0 ensures HeapNode(b, i, p) {
      assert HeapNode(a, i + 1, p);
    }
  }

  // ---------------------------------------------------------------------
  // 8. Counting sort

  /** Every element lies in 0..maxValue. */
  predicate InRange(a: seq<int>, maxValue: int) {
    forall k :: 0 <= k < |a| ==> 0 <= a[k] <= maxValue
  }

  /** `countingSort`: count each value of 0..maxValue (an element outside
      that range, or a maxValue below −1, makes the Java code throw), then
      write each value out as often as it was counted. */
  method CountingSort(a0: seq<int>, maxValue: int) returns (a: seq<int>)
    requires maxValue >= -1 && InRange(a0, maxValue)
    ensures Sorted(a) && multiset(a) == multiset(a0)
  {
    var count := Count(a0, maxValue);
    a := [];
    var v := 0;
    while v < |count|
      invariant 0 <= v <= |count| == maxValue + 1
      invariant Sorted(a) && (forall k :: 0 <= k < |a| ==> a[k] < v)
      invariant forall w :: multiset(a)[w] == if 0 <= w < v then multiset(a0)[w] else 0
    {
      var c := count[v];
      while c > 0
        invariant 0 <= c <= count[v]
        invariant Sorted(a) && (forall k :: 0 <= k < |a| ==> a[k] <= v)
        invariant forall w :: (multiset(a)[w] ==
          if 0 <= w < v then multiset(a0)[w] else if w == v then count[v] - c else 0)
      {
        AppendSorted(a, v);
        a := a + [v];
        c := c - 1;
      }
      v := v + 1;
    }
    assert forall w :: multiset(a)[w] == multiset(a0)[w] by {
      forall w | !(0 <= w <= maxValue) ensures multiset(a0)[w] == 0 {
        assert w !in a0;
      }
    }
  }

  /** The counting loop: count[v] is how often v occurs. */
  method Count(a0: seq<int>, maxValue: int) returns (count: seq<int>)
    requires maxValue >= -1 && InRange(a0, maxValue)
    ensures |count| == maxValue + 1
    ensures forall v :: 0 <= v <= maxValue ==> count[v] == multiset(a0)[v]
  {
    count := seq(maxValue + 1, _ => 0);
    var m := 0;
    while m < |a0|
      invariant 0 <= m <= |a0| && |count| == maxValue + 1
      invariant forall v :: 0 <= v <= maxValue ==> count[v] == multiset(a0[..m])[v]
    {
      TakeOne(a0, m);
      count := count[a0[m] := count[a0[m]] + 1];
      m := m + 1;
    }
    assert a0[..m] == a0;
  }

  // ---------------------------------------------------------------------
  // 9. Bucket sort

  /** The bucket of a value of 0..maxValue: the tenth of the range it falls
      in. */
  /** The values `num * 10 / (maxValue + 1)` sends to one of the ten
      buckets: Java's division truncates toward zero, so a small negative
      value, with −(maxValue + 1) < num × 10, lands in bucket 0. Any other
      value indexes the bucket list out of bounds. */
  predicate Bucketable(num: int, maxValue: int) {
    -(maxValue + 1) < num * 10 && num <= maxValue
  }

  /** `num * bucketCount / (maxValue + 1)`, truncated toward zero. */
  function BucketIndex(num: int, maxValue: int): (b: int)
    requires Bucketable(num, maxValue)
    ensures 0 <= b < 10
    ensures num < 0 ==> b == 0
  {
    TenthBound(num, maxValue + 1);
    JavaDiv(num * 10, maxValue + 1)
  }

  lemma TenthBound(num: int, d: int)
    requires -d < num * 10 && num < d
    ensures d > 0
    ensures 0 <= JavaDiv(num * 10, d) < 10
    ensures num < 0 ==> JavaDiv(num * 10, d) == 0
  {
    if num >= 0 {
      var q := num * 10 / d;
      assert q * d <= num * 10 < 10 * d by {
        assert num * 10 == q * d + num * 10 % d;
      }
      if q >= 10 {
        Money.MulMonotone(d, 10, q);
      }
    } else {
      Money.DivModUnique(-(num * 10), d, 0, -(num * 10));
    }
  }

  /** Larger values never go to an earlier bucket. */
  lemma BucketIndexMonotone(x: int, y: int, maxValue: int)
    requires Bucketable(x, maxValue) && Bucketable(y, maxValue) && x <= y
    ensures BucketIndex(x, maxValue) <= BucketIndex(y, maxValue)
  {
    TenthBound(x, maxValue + 1);
    if x >= 0 {
      DivMonotone(x * 10, y * 10, maxValue + 1);
    }
  }

  lemma DivMonotone(x: int, y: int, d: int)
    requires 0 <= x <= y && d > 0
    ensures x / d <= y / d
  {
    var qx, qy := x / d, y / d;
    if qx > qy {
      assert qx * d <= x && y < (qy + 1) * d;
      Money.MulMonotone(d, qy + 1, qx);
    }
  }

  /** Every element has a bucket. */
  predicate BucketInput(a: seq<int>, maxValue: int) {
    forall k :: 0 <= k < |a| ==> Bucketable(a[k], maxValue)
  }

  /** The buckets concatenated in order. */
  function Flatten(bs: seq<seq<int>>): seq<int> {
    if |bs| == 0 then [] else Flatten(bs[..|bs| - 1]) + bs[|bs| - 1]
  }

  /** Adding x to bucket b (giving cs) adds x to the concatenation. */
  lemma {:induction false} FlattenAdd(bs: seq<seq<int>>, b: int, x: int, cs: seq<seq<int>>)
    requires 0 <= b < |bs| && cs == bs[b := bs[b] + [x]]
    ensures multiset(Flatten(cs)) == multiset(Flatten(bs)) + multiset{x}
    decreases |bs|
  {
    var n := |bs| - 1;
    assert Flatten(cs) == Flatten(cs[..n]) + cs[n];
    assert Flatten(bs) == Flatten(bs[..n]) + bs[n];
    if b < n {
      FlattenAdd(bs[..n], b, x, cs[..n]);
      assert cs[n] == bs[n];
    } else {
      assert cs[..n] == bs[..n];
      assert cs[n] == bs[n] + [x];
    }
  }

  lemma {:induction false} FlattenEmpty(bs: seq<seq<int>>)
    requires forall b :: 0 <= b < |bs| ==> bs[b] == []
    ensures Flatten(bs) == []
    decreases |bs|
  {
    if |bs| > 0 {
      FlattenEmpty(bs[..|bs| - 1]);
    }
  }

  /** Every value in bucket b lies in range and belongs there. */
  predicate Distributed(bs: seq<seq<int>>, maxValue: int) {
    forall b, k :: 0 <= b < |bs| && 0 <= k < |bs[b]| ==>
      Bucketable(bs[b][k], maxValue) && BucketIndex(bs[b][k], maxValue) == b
  }

  /** `bucketSort`: distribute the values over ten buckets by BucketIndex,
      sort each bucket (`Collections.sort`, modelled by the insertion sort:
      a sorted permutation is unique, see SortedUnique) and concatenate
      them. The products num × 10 must not overflow a Java int. */
  method BucketSort(a0: seq<int>, maxValue: int) returns (a: seq<int>)
    requires BucketInput(a0, maxValue) && maxValue * 10 <= 0x7fff_ffff
    ensures Sorted(a) && multiset(a) == multiset(a0)
  {
    var buckets := Distribute(a0, maxValue);
    a := [];
    var b := 0;
    while b < 10
      invariant 0 <= b <= 10
      invariant Sorted(a) && multiset(a) == multiset(Flatten(buckets[..b]))
      invariant forall k :: 0 <= k < |a| ==> Bucketable(a[k], maxValue) && BucketIndex(a[k], maxValue) < b
    {
      var sorted := InsertionSort(buckets[b]);
      AppendBucket(a, sorted, buckets[b], b, maxValue);
      assert buckets[..b + 1][..b] == buckets[..b];
      a := a + sorted;
      b := b + 1;
    }
    assert buckets[..10] == buckets;
  }

  /** The distribution loop. */
  method Distribute(a0: seq<int>, maxValue: int) returns (buckets: seq<seq<int>>)
    requires BucketInput(a0, maxValue)
    ensures |buckets| == 10 && Distributed(buckets, maxValue)
    ensures multiset(Flatten(buckets)) == multiset(a0)
  {
    buckets := seq(10, _ => []);
    FlattenEmpty(buckets);
    var m := 0;
    while m < |a0|
      invariant 0 <= m <= |a0| && |buckets| == 10 && Distributed(buckets, maxValue)
      invariant multiset(Flatten(buckets)) == multiset(a0[..m])
    {
      var x := a0[m];
      var b := BucketIndex(x, maxValue);
      FlattenAdd(buckets, b, x, buckets[b := buckets[b] + [x]]);
      DistributedAdd(buckets, b, x, maxValue);
      TakeOne(a0, m);
      buckets := buckets[b := buckets[b] + [x]];
      m := m + 1;
    }
    assert a0[..m] == a0;
  }

  lemma DistributedAdd(bs: seq<seq<int>>, b: int, x: int, maxValue: int)
    requires Distributed(bs, maxValue) && Bucketable(x, maxValue) && 0 <= b < |bs|
    requires BucketIndex(x, maxValue) == b
    ensures Distributed(bs[b := bs[b] + [x]], maxValue)
  {
    var cs := bs[b := bs[b] + [x]];
    forall c, k | 0 <= c < |cs| && 0 <= k < |cs[c]|
      ensures Bucketable(cs[c][k], maxValue) && BucketIndex(cs[c][k], maxValue) == c
    {
      if c == b && k == |bs[b]| {
        assert cs[c][k] == x;
      } else {
        assert cs[c][k] == bs[c][k];
      }
    }
  }

  /** Appending the sorted bucket b after the earlier buckets keeps the
      output sorted. */
  lemma AppendBucket(a: seq<int>, sorted: seq<int>, bucket: seq<int>, b: int, maxValue: int)
    requires Sorted(a) && Sorted(sorted) && multiset(sorted) == multiset(bucket)
    requires forall k :: 0 <= k < |a| ==> Bucketable(a[k], maxValue) && BucketIndex(a[k], maxValue) < b
    requires forall k :: 0 <= k < |bucket| ==> Bucketable(bucket[k], maxValue) && BucketIndex(bucket[k], maxValue) == b
    ensures Sorted(a + sorted)
    ensures forall k :: 0 <= k < |a + sorted| ==>
      Bucketable((a + sorted)[k], maxValue) && BucketIndex((a + sorted)[k], maxValue) < b + 1
  {
    forall m | 0 <= m < |sorted|
      ensures Bucketable(sorted[m], maxValue) && BucketIndex(sorted[m], maxValue) == b
    {
      assert sorted[m] in multiset(bucket);
    }
    forall p, q | 0 <= p < |a| <= q < |a + sorted| ensures (a + sorted)[p] <= (a + sorted)[q] {
      var x, y := a[p], sorted[q - |a|];
      if y < x {
        BucketIndexMonotone(y, x, maxValue);
      }
    }
  }

  // ---------------------------------------------------------------------
  // Every sort has the same result

  /** A sorted permutation is unique: all the sorts above compute the same
      sequence. */
  lemma {:induction false} SortedUnique(a: seq<int>, b: seq<int>)
    requires Sorted(a) && Sorted(b) && multiset(a) == multiset(b)
    ensures a == b
    decreases |a|
  {
    assert |a| == |multiset(a)| == |multiset(b)| == |b|;
    if |a| > 0 {
      SameMinimum(a, b);
      DropHead(a);
      DropHead(b);
      SortedUnique(a[1..], b[1..]);
      assert a == [a[0]] + a[1..] && b == [b[0]] + b[1..];
    }
  }

  /** Sorted permutations of each other start with the same value. */
  lemma SameMinimum(a: seq<int>, b: seq<int>)
    requires Sorted(a) && Sorted(b) && multiset(a) == multiset(b) && |a| > 0 && |b| > 0
    ensures a[0] == b[0]
  {
    assert a[0] in multiset(b);
    var kb :| 0 <= kb < |b| && b[kb] == a[0];
    assert b[0] in multiset(a);
    var ka :| 0 <= ka < |a| && a[ka] == b[0];
  }

  lemma DropHead(s: seq<int>)
    requires Sorted(s) && |s| > 0
    ensures Sorted(s[1..]) && multiset(s[1..]) == multiset(s) - multiset{s[0]}
  {
    assert s == [s[0]] + s[1..];
  }

  // ---------------------------------------------------------------------
  // 10. Radix sort

  /** Java's `/` on int: the quotient truncated toward zero. */
  function JavaDiv(x: int, d: int): (q: int)
    requires d > 0
    ensures x >= 0 ==> q == x / d
  {
    if x >= 0 then x / d else -((-x) / d)
  }

  /** Java's `%` on int: the remainder takes the sign of the dividend. */
  function JavaRem(x: int, d: int): (r: int)
    requires d > 0
    ensures x >= 0 ==> r == x % d && 0 <= r < d
    ensures x < 0 ==> -d < r <= 0
  {
    if x >= 0 then x % d else -((-x) % d)
  }

  /** Java's quotient and remainder recombine to the dividend; with the
      remainder's sign following the dividend's, this is division truncated
      toward zero. */
  lemma JavaDivRem(x: int, d: int)
    requires d > 0
    ensures x == JavaDiv(x, d) * d + JavaRem(x, d)
  {
    if x < 0 {
      assert -x == ((-x) / d) * d + (-x) % d;
    }
  }

  /** The digit `(x / exp) % 10` a pass sorts by; negative for some negative
      x, which then indexes the count array out of bounds. */
  function Digit(x: int, exp: int): (d: int)
    requires exp >= 1
    ensures -10 < d < 10
    ensures x >= 0 ==> d == (x / exp) % 10
  {
    JavaRem(JavaDiv(x, exp), 10)
  }

  /** The digit of every element. */
  function Keys(s: seq<int>, exp: int): (ks: seq<int>)
    requires exp >= 1
    ensures |ks| == |s| && forall k :: 0 <= k < |s| ==> ks[k] == Digit(s[k], exp)
  {
    seq(|s|, k requires 0 <= k < |s| => Digit(s[k], exp))
  }

  /** The elements of s whose key is d, in their order in s. */
  function Bucket(s: seq<int>, ks: seq<int>, d: int): seq<int>
    requires |ks| == |s|
  {
    Taken(s, ks, |s|, d)
  }

  /** The elements among the first n of s whose key is d. */
  function Taken(s: seq<int>, ks: seq<int>, n: int, d: int): (r: seq<int>)
    requires 0 <= n <= |s| == |ks|
    ensures |r| <= n
  {
    if n == 0 then [] else Taken(s, ks, n - 1, d) + (if ks[n - 1] == d then [s[n - 1]] else [])
  }

  /** Taken looks at the first n elements only. */
  lemma {:induction false} TakenPrefix(s: seq<int>, ks: seq<int>, m: int, n: int, d: int)
    requires 0 <= n <= m <= |s| == |ks|
    ensures Taken(s, ks, n, d) == Taken(s[..m], ks[..m], n, d)
  {
    if n > 0 {
      TakenPrefix(s, ks, m, n - 1, d);
    }
  }

  /** The buckets of the keys 0..D−1 concatenated: for D = 10 the
      arrangement a stable pass by digit produces. */
  function ByDigit(s: seq<int>, ks: seq<int>, D: nat): seq<int>
    requires |ks| == |s|
  {
    if D == 0 then [] else ByDigit(s, ks, D - 1) + Bucket(s, ks, D - 1)
  }

  /** Where the bucket of key d starts in ByDigit(s, ks, 10). */
  function Start(s: seq<int>, ks: seq<int>, d: nat): nat
    requires |ks| == |s|
  {
    |ByDigit(s, ks, d)|
  }

  /** Every key is a digit. */
  predicate KeysInRange(ks: seq<int>) {
    forall k :: 0 <= k < |ks| ==> 0 <= ks[k] < 10
  }

  predicate NonNegative(s: seq<int>) {
    forall k :: 0 <= k < |s| ==> 0 <= s[k]
  }

  /** `countingSortByDigit`: count the digits, turn the counts into bucket
      ends, then place the elements from last to first at the end of their
      bucket. None stands for the ArrayIndexOutOfBoundsException a negative
      digit raises in the counting loop. The result is the stable
      arrangement by digit. */
  method CountingSortByDigit(a: seq<int>, exp: int) returns (r: Option<seq<int>>)
    requires exp >= 1
    ensures r.None? <==> !KeysInRange(Keys(a, exp))
    ensures r.Some? ==> r.value == ByDigit(a, Keys(a, exp), 10)
    ensures r.Some? ==> |r.value| == |a| && multiset(r.value) == multiset(a)
    ensures NonNegative(a) && SortedBelow(a, exp) ==>
      r.Some? && NonNegative(r.value) && SortedBelow(r.value, 10 * exp)
  {
    var counted := CountDigits(a, exp);
    if counted.None? {
      return None;
    }
    var ends := BucketEnds(a, Keys(a, exp), counted.value);
    var output := PlaceAll(a, exp, Keys(a, exp), ends);
    ByDigitPermutes(a, Keys(a, exp));
    ByDigitLength(a, Keys(a, exp));
    if NonNegative(a) && SortedBelow(a, exp) {
      ByDigitBelow(a, exp, 10);
    }
    return Some(output);
  }

  /** The counting loop: how many elements have each digit, or None at the
      first negative digit. */
  method CountDigits(a: seq<int>, exp: int) returns (r: Option<seq<int>>)
    requires exp >= 1
    ensures r.None? <==> !KeysInRange(Keys(a, exp))
    ensures r.Some? ==> |r.value| == 10
    ensures r.Some? ==> forall d :: 0 <= d < 10 ==> r.value[d] == |Bucket(a, Keys(a, exp), d)|
  {
    ghost var ks := Keys(a, exp);
    var count := seq(10, _ => 0);
    var i := 0;
    while i < |a|
      invariant 0 <= i <= |a| && |count| == 10 && KeysInRange(ks[..i])
      invariant forall d :: 0 <= d < 10 ==> count[d] == |Taken(a, ks, i, d)|
    {
      var digit := Digit(a[i], exp);
      if digit < 0 {
        assert ks[i] < 0;
        return None;
      }
      count := count[digit := count[digit] + 1];
      i := i + 1;
    }
    return Some(count);
  }

  /** The prefix-sum loop: bucket sizes become bucket ends. */
  method BucketEnds(ghost a: seq<int>, ghost ks: seq<int>, sizes: seq<int>) returns (count: seq<int>)
    requires |ks| == |a| && |sizes| == 10
    requires forall d :: 0 <= d < 10 ==> sizes[d] == |Bucket(a, ks, d)|
    ensures |count| == 10 && forall d :: 0 <= d < 10 ==> count[d] == Start(a, ks, d + 1)
  {
    count := sizes;
    StartStep(a, ks, 0);
    var i := 1;
    while i < 10
      invariant 1 <= i <= 10 && |count| == 10
      invariant forall d :: 0 <= d < i ==> count[d] == Start(a, ks, d + 1)
      invariant forall d :: i <= d < 10 ==> count[d] == |Bucket(a, ks, d)|
    {
      StartStep(a, ks, i);
      count := count[i := count[i] + count[i - 1]];
      i := i + 1;
    }
  }

  /** The placing loop: from the last element to the first, each goes just
      before the current end of its bucket. */
  method PlaceAll(a: seq<int>, exp: int, ghost ks: seq<int>, ends: seq<int>) returns (output: seq<int>)
    requires exp >= 1 && ks == Keys(a, exp) && KeysInRange(ks) && |ends| == 10
    requires forall d :: 0 <= d < 10 ==> ends[d] == Start(a, ks, d + 1)
    ensures output == ByDigit(a, ks, 10)
  {
    ByDigitLength(a, ks);
    var blank := Zeros(|a|);
    PlaceStart(a, ks, ends, blank);
    var count;
    count, output := PlaceFrom(a, exp, ks, |a| - 1, ends, blank);
    Assemble(a, ks, count, output);
  }

  /** The placing loop, from index i down to 0. */
  method PlaceFrom(a: seq<int>, exp: int, ghost ks: seq<int>, i0: int, count0: seq<int>, output0: seq<int>)
    returns (count: seq<int>, output: seq<int>)
    requires exp >= 1 && ks == Keys(a, exp)
    requires Placing(a, ks, i0, count0, output0)
    ensures Placing(a, ks, -1, count, output)
  {
    count, output := count0, output0;
    var i := i0;
    while i >= 0
      invariant Placing(a, ks, i, count, output)
      decreases i
    {
      count, output := PlaceNext(a, exp, ks, i, count, output);
      i := i - 1;
    }
  }

  /** A fresh `new int[n]`. */
  function Zeros(n: nat): (r: seq<int>)
    ensures |r| == n
  {
    if n == 0 then [] else Zeros(n - 1) + [0]
  }

  /** One round of the placing loop: a[i] goes just before the end of its
      bucket, and that end moves down by one. */
  method PlaceNext(a: seq<int>, exp: int, ghost ks: seq<int>, i: int, count0: seq<int>, output0: seq<int>)
    returns (count: seq<int>, output: seq<int>)
    requires exp >= 1 && ks == Keys(a, exp)
    requires Placing(a, ks, i, count0, output0) && i >= 0
    ensures Placing(a, ks, i - 1, count, output)
  {
    PlaceStep(a, ks, i, count0, output0);
    var digit := Digit(a[i], exp);
    output := output0[count0[digit] - 1 := a[i]];
    count := count0[digit := count0[digit] - 1];
  }

  lemma {:induction false} PlaceStart(a: seq<int>, ks: seq<int>, count: seq<int>, output: seq<int>)
    requires |ks| == |a| == |output| && KeysInRange(ks) && |ByDigit(a, ks, 10)| == |a|
    requires |count| == 10 && forall d :: 0 <= d < 10 ==> count[d] == Start(a, ks, d + 1)
    ensures Placing(a, ks, |a| - 1, count, output)
  {
    forall d {:trigger count[d]} | 0 <= d < 10
      ensures count[d] == Start(a, ks, d) + |Bucket(a, ks, d)|
    {
      StartStep(a, ks, d);
    }
  }

  /** What the placing loop keeps: count[d] is one past where the next
      element of key d goes, and the tail of each bucket is in place. */
  predicate Placing(a: seq<int>, ks: seq<int>, i: int, count: seq<int>, output: seq<int>) {
    && -1 <= i < |a| == |output| == |ks| && |count| == 10 && KeysInRange(ks)
    && |ByDigit(a, ks, 10)| == |a|
    && (forall d {:trigger count[d]} :: 0 <= d < 10 ==>
          count[d] == Start(a, ks, d) + |Taken(a, ks, i + 1, d)|)
    && TailsPlaced(a, ks, i + 1, output)
  }

  /** Each bucket's elements from a[m..] are at their final place. */
  predicate TailsPlaced(a: seq<int>, ks: seq<int>, m: int, output: seq<int>)
    requires 0 <= m <= |a| == |ks|
  {
    forall d, k :: 0 <= d < 10 && |Taken(a, ks, m, d)| <= k < |Bucket(a, ks, d)| ==>
      SlotPlaced(a, ks, output, d, k)
  }

  /** Element k of the bucket of key d is at its final place. */
  predicate SlotPlaced(a: seq<int>, ks: seq<int>, output: seq<int>, d: int, k: int)
    requires |a| == |ks| && 0 <= d && 0 <= k < |Bucket(a, ks, d)|
  {
    Start(a, ks, d) + k < |output| && output[Start(a, ks, d) + k] == Bucket(a, ks, d)[k]
  }

  lemma PlaceStep(a: seq<int>, ks: seq<int>, i: int, count: seq<int>, output: seq<int>)
    requires Placing(a, ks, i, count, output) && i >= 0
    ensures var d := ks[i];
      && 1 <= count[d] <= |output|
      && Placing(a, ks, i - 1, count[d := count[d] - 1], output[count[d] - 1 := a[i]])
  {
    PlaceRoom(a, ks, i, count, output);
    PlaceCounts(a, ks, i, count);
    PlaceOutput(a, ks, i, count, output, a[i], count[ks[i]] - 1, output[count[ks[i]] - 1 := a[i]]);
  }

  /** Taking a[i] off the prefix a[..i+1] takes it off its own bucket only. */
  lemma {:induction false} BucketLast(a: seq<int>, ks: seq<int>, i: int, d: int)
    requires 0 <= i < |a| == |ks|
    ensures Taken(a, ks, i + 1, d) ==
      Taken(a, ks, i, d) + (if ks[i] == d then [a[i]] else [])
  {
  }

  lemma PlaceCounts(a: seq<int>, ks: seq<int>, i: int, count: seq<int>)
    requires 0 <= i < |a| == |ks| && |count| == 10 && 0 <= ks[i] < 10
    requires forall d :: 0 <= d < 10 ==>
      count[d] == Start(a, ks, d) + |Taken(a, ks, i + 1, d)|
    ensures forall d :: 0 <= d < 10 ==>
      count[ks[i] := count[ks[i]] - 1][d] == Start(a, ks, d) + |Taken(a, ks, i, d)|
  {
    forall d | 0 <= d < 10
      ensures count[ks[i] := count[ks[i]] - 1][d] == Start(a, ks, d) + |Taken(a, ks, i, d)|
    {
      BucketLast(a, ks, i, d);
    }
  }

  /** Writing x = a[i] at slot p, giving o, keeps every bucket tail in
      place and adds a[i] to its own. */
  lemma {:induction false} PlaceOutput(a: seq<int>, ks: seq<int>, i: int, count: seq<int>, output: seq<int>,
                                       x: int, p: int, o: seq<int>)
    requires Placing(a, ks, i, count, output) && i >= 0
    requires x == a[i] && p == count[ks[i]] - 1 && 0 <= p < |output| && o == output[p := x]
    ensures TailsPlaced(a, ks, i, o)
  {
    forall d, k | 0 <= d < 10 && |Taken(a, ks, i, d)| <= k < |Bucket(a, ks, d)|
      ensures SlotPlaced(a, ks, o, d, k)
    {
      PlaceOne(a, ks, i, count, output, x, p, o, d, k);
    }
  }

  /** The slot a[i] goes to exists. */
  lemma PlaceRoom(a: seq<int>, ks: seq<int>, i: int, count: seq<int>, output: seq<int>)
    requires Placing(a, ks, i, count, output) && i >= 0
    ensures 1 <= count[ks[i]] <= |output|
  {
    BucketLast(a, ks, i, ks[i]);
    BucketPrefix(a, ks, i + 1, ks[i]);
    StartBounds(a, ks, ks[i]);
  }

  /** One position of the bucket tails after placing a[i]. */
  lemma {:induction false} PlaceOne(a: seq<int>, ks: seq<int>, i: int, count: seq<int>, output: seq<int>,
                                    x: int, p: int, o: seq<int>, e: int, k: int)
    requires Placing(a, ks, i, count, output) && i >= 0 && 0 <= e < 10
    requires |Taken(a, ks, i, e)| <= k < |Bucket(a, ks, e)|
    requires x == a[i] && p == count[ks[i]] - 1 && 0 <= p < |output| && o == output[p := x]
    ensures SlotPlaced(a, ks, o, e, k)
  {
    if e == ks[i] && k == |Taken(a, ks, i, e)| {
      PlaceSameNew(a, ks, i, count, output, e);
    } else if e == ks[i] {
      PlaceSameOld(a, ks, i, count, output, e, k);
    } else {
      PlaceOther(a, ks, i, count, output, e, k);
    }
  }

  /** In the bucket of a[i], a[i] goes to the first slot not yet filled. */
  lemma {:induction false} PlaceSameNew(a: seq<int>, ks: seq<int>, i: int, count: seq<int>, output: seq<int>, e: int)
    requires Placing(a, ks, i, count, output) && i >= 0 && e == ks[i]
    ensures var k := |Taken(a, ks, i, e)|;
      && k < |Bucket(a, ks, e)| && Start(a, ks, e) + k < |output|
      && Start(a, ks, e) + k == count[e] - 1 && a[i] == Bucket(a, ks, e)[k]
  {
    var m := |Taken(a, ks, i, e)|;
    BucketLast(a, ks, i, e);
    BucketPrefix(a, ks, i + 1, e);
    StartBounds(a, ks, e);
    assert Taken(a, ks, i + 1, e)[m] == a[i];
  }

  /** The later slots of a[i]'s bucket were filled before and stay. */
  lemma {:induction false} PlaceSameOld(a: seq<int>, ks: seq<int>, i: int, count: seq<int>, output: seq<int>, e: int, k: int)
    requires Placing(a, ks, i, count, output) && i >= 0 && e == ks[i]
    requires |Taken(a, ks, i, e)| < k < |Bucket(a, ks, e)|
    ensures Start(a, ks, e) + k < |output| && Start(a, ks, e) + k != count[e] - 1
    ensures output[Start(a, ks, e) + k] == Bucket(a, ks, e)[k]
  {
    BucketLast(a, ks, i, e);
    assert count[e] == Start(a, ks, e) + |Taken(a, ks, i + 1, e)| == Start(a, ks, e) + |Taken(a, ks, i, e)| + 1;
    StartBounds(a, ks, e);
    assert SlotPlaced(a, ks, output, e, k);
  }

  /** The other buckets' slots are away from where a[i] goes. */
  lemma {:induction false} PlaceOther(a: seq<int>, ks: seq<int>, i: int, count: seq<int>, output: seq<int>, e: int, k: int)
    requires Placing(a, ks, i, count, output) && i >= 0 && 0 <= e < 10 && e != ks[i]
    requires |Taken(a, ks, i, e)| <= k < |Bucket(a, ks, e)|
    ensures Start(a, ks, e) + k < |output| && Start(a, ks, e) + k != count[ks[i]] - 1
    ensures output[Start(a, ks, e) + k] == Bucket(a, ks, e)[k]
  {
    var digit := ks[i];
    BucketLast(a, ks, i, digit);
    BucketPrefix(a, ks, i + 1, digit);
    BucketLast(a, ks, i, e);
    StartBounds(a, ks, e);
    StartBounds(a, ks, digit);
    if e < digit {
      StartsApart(a, ks, e, digit);
    } else {
      StartsApart(a, ks, digit, e);
    }
    assert SlotPlaced(a, ks, output, e, k);
  }

  lemma StartStep(a: seq<int>, ks: seq<int>, d: nat)
    requires |ks| == |a|
    ensures Start(a, ks, d + 1) == Start(a, ks, d) + |Bucket(a, ks, d)|
  {
    assert ByDigit(a, ks, d + 1) == ByDigit(a, ks, d) + Bucket(a, ks, d);
  }

  /** A bucket lies between its start and the next bucket's start, which
      is at most the whole length. */
  lemma {:induction false} StartBounds(a: seq<int>, ks: seq<int>, d: int)
    requires |ks| == |a| && 0 <= d < 10 && |ByDigit(a, ks, 10)| == |a|
    ensures Start(a, ks, d) + |Bucket(a, ks, d)| == Start(a, ks, d + 1) <= |a|
  {
    StartStep(a, ks, d);
    StartMonotone(a, ks, d + 1, 10);
  }

  lemma {:induction false} StartMonotone(a: seq<int>, ks: seq<int>, d: nat, e: nat)
    requires |ks| == |a| && d <= e
    ensures Start(a, ks, d) <= Start(a, ks, e)
    decreases e - d
  {
    if d < e {
      StartMonotone(a, ks, d, e - 1);
      StartStep(a, ks, e - 1);
    }
  }

  /** The buckets of two keys d < e do not overlap. */
  lemma {:induction false} StartsApart(a: seq<int>, ks: seq<int>, d: int, e: int)
    requires |ks| == |a| && 0 <= d < e < 10
    ensures Start(a, ks, d) + |Bucket(a, ks, d)| <= Start(a, ks, e)
  {
    StartStep(a, ks, d);
    StartMonotone(a, ks, d + 1, e);
  }

  /** The bucket of a prefix is a prefix of the bucket. */
  lemma {:induction false} BucketPrefix(a: seq<int>, ks: seq<int>, m: int, d: int)
    requires |ks| == |a| && 0 <= m <= |a|
    ensures var b := Taken(a, ks, m, d);
      |b| <= |Bucket(a, ks, d)| && Bucket(a, ks, d)[..|b|] == b
    decreases |a| - m
  {
    if m < |a| {
      BucketPrefix(a, ks, m + 1, d);
    }
  }

  /** A sequence that holds every bucket at its start is ByDigit. */
  lemma {:induction false} Assemble(a: seq<int>, ks: seq<int>, count: seq<int>, output: seq<int>)
    requires Placing(a, ks, -1, count, output)
    ensures output == ByDigit(a, ks, 10)
  {
    var D := 0;
    while D < 10
      invariant 0 <= D <= 10 && Start(a, ks, D) <= |output|
      invariant output[..Start(a, ks, D)] == ByDigit(a, ks, D)
    {
      AssembleStep(a, ks, output, D);
      D := D + 1;
    }
    assert output[..|output|] == output;
  }

  /** The bucket of digit D follows the earlier ones. */
  lemma AssembleStep(a: seq<int>, ks: seq<int>, output: seq<int>, D: int)
    requires |a| == |ks| == |output| && |ByDigit(a, ks, 10)| == |a|
    requires TailsPlaced(a, ks, 0, output) && 0 <= D < 10
    requires Start(a, ks, D) <= |output| && output[..Start(a, ks, D)] == ByDigit(a, ks, D)
    ensures Start(a, ks, D + 1) <= |output| && output[..Start(a, ks, D + 1)] == ByDigit(a, ks, D + 1)
  {
    StartBounds(a, ks, D);
    var lo, hi := Start(a, ks, D), Start(a, ks, D + 1);
    forall k | 0 <= k < hi - lo
      ensures output[lo..hi][k] == Bucket(a, ks, D)[k]
    {
      assert SlotPlaced(a, ks, output, D, k);
    }
    assert output[lo..hi] == Bucket(a, ks, D);
    assert output[..hi] == output[..lo] + output[lo..hi];
  }

  /** What the element x with key c adds to ByDigit(·, ·, D). */
  function Added(x: int, c: int, D: nat): multiset<int> {
    if 0 <= c < D then multiset{x} else multiset{}
  }

  /** Adding an element at the end adds it to ByDigit when its key is
      below D. */
  lemma {:induction false} ByDigitSnoc(s: seq<int>, ks: seq<int>, D: nat)
    requires |ks| == |s| > 0
    ensures multiset(ByDigit(s, ks, D)) ==
      multiset(ByDigit(s[..|s| - 1], ks[..|s| - 1], D)) + Added(s[|s| - 1], ks[|s| - 1], D)
  {
    if D > 0 {
      ByDigitSnoc(s, ks, D - 1);
      SnocStep(s, ks, D);
    }
  }

  /** The step of ByDigitSnoc from D − 1 to D. */
  lemma SnocStep(s: seq<int>, ks: seq<int>, D: nat)
    requires |ks| == |s| > 0 && D > 0
    requires multiset(ByDigit(s, ks, D - 1)) ==
      multiset(ByDigit(s[..|s| - 1], ks[..|s| - 1], D - 1)) + Added(s[|s| - 1], ks[|s| - 1], D - 1)
    ensures multiset(ByDigit(s, ks, D)) ==
      multiset(ByDigit(s[..|s| - 1], ks[..|s| - 1], D)) + Added(s[|s| - 1], ks[|s| - 1], D)
  {
    var t, kt, x, c := s[..|s| - 1], ks[..|s| - 1], s[|s| - 1], ks[|s| - 1];
    BucketSnoc(s, ks, D - 1);
    var g, b := multiset(ByDigit(t, kt, D - 1)), multiset(Bucket(t, kt, D - 1));
    var e1, e2 := Added(x, c, D - 1), if c == D - 1 then multiset{x} else multiset{};
    var gs, bs := multiset(ByDigit(s, ks, D - 1)), multiset(Bucket(s, ks, D - 1));
    assert Added(x, c, D) == e1 + e2;
    ByDigitSplit(s, ks, D);
    ByDigitSplit(t, kt, D);
    Regroup(multiset(ByDigit(s, ks, D)), gs, bs, g, e1, b, e2,
            multiset(ByDigit(t, kt, D)), Added(x, c, D));
  }

  lemma ByDigitSplit(s: seq<int>, ks: seq<int>, D: nat)
    requires |ks| == |s| && D > 0
    ensures multiset(ByDigit(s, ks, D)) == multiset(ByDigit(s, ks, D - 1)) + multiset(Bucket(s, ks, D - 1))
  {
    assert ByDigit(s, ks, D) == ByDigit(s, ks, D - 1) + Bucket(s, ks, D - 1);
  }

  lemma Regroup(total: multiset<int>, gs: multiset<int>, bs: multiset<int>,
                g: multiset<int>, e1: multiset<int>, b: multiset<int>, e2: multiset<int>,
                other: multiset<int>, added: multiset<int>)
    requires total == gs + bs && gs == g + e1 && bs == b + e2
    requires other == g + b && added == e1 + e2
    ensures total == other + added
  {
  }

  /** The bucket of s is the bucket of s without its last element, plus
      that element when it has the key. */
  lemma {:induction false} BucketSnoc(s: seq<int>, ks: seq<int>, d: int)
    requires |ks| == |s| > 0
    ensures multiset(Bucket(s, ks, d)) == multiset(Bucket(s[..|s| - 1], ks[..|s| - 1], d))
      + (if ks[|s| - 1] == d then multiset{s[|s| - 1]} else multiset{})
  {
    TakenPrefix(s, ks, |s| - 1, |s| - 1, d);
  }

  /** A pass by digit permutes the sequence. */
  lemma {:induction false} ByDigitPermutes(s: seq<int>, ks: seq<int>)
    requires |ks| == |s| && KeysInRange(ks)
    ensures multiset(ByDigit(s, ks, 10)) == multiset(s)
    decreases |s|
  {
    if |s| > 0 {
      ByDigitPermutes(s[..|s| - 1], ks[..|s| - 1]);
      PermutesStep(s, ks);
    } else {
      ByDigitEmpty(s, ks, 10);
    }
  }

  lemma {:induction false} ByDigitEmpty(s: seq<int>, ks: seq<int>, D: nat)
    requires |ks| == |s| == 0
    ensures ByDigit(s, ks, D) == []
  {
    if D > 0 {
      ByDigitEmpty(s, ks, D - 1);
    }
  }

  /** The step of ByDigitPermutes: from s without its last element to s. */
  lemma {:induction false} PermutesStep(s: seq<int>, ks: seq<int>)
    requires |ks| == |s| > 0 && KeysInRange(ks)
    requires multiset(ByDigit(s[..|s| - 1], ks[..|s| - 1], 10)) == multiset(s[..|s| - 1])
    ensures multiset(ByDigit(s, ks, 10)) == multiset(s)
  {
    var t, x := s[..|s| - 1], s[|s| - 1];
    ByDigitSnoc(s, ks, 10);
    assert 0 <= ks[|s| - 1] < 10;
    assert Added(x, ks[|s| - 1], 10) == multiset{x};
    assert s == t + [x];
  }

  lemma {:induction false} ByDigitLength(s: seq<int>, ks: seq<int>)
    requires |ks| == |s| && KeysInRange(ks)
    ensures |ByDigit(s, ks, 10)| == |s|
  {
    ByDigitPermutes(s, ks);
    assert |ByDigit(s, ks, 10)| == |multiset(ByDigit(s, ks, 10))|;
  }

  /** `Arrays.stream(arr).max().getAsInt()` on a non-empty array. */
  function Max(s: seq<int>): (m: int)
    requires |s| > 0
    ensures m in s && forall k :: 0 <= k < |s| ==> s[k] <= m
  {
    if |s| == 1 then s[0]
    else
      var r := Max(s[1..]);
      assert forall k :: 1 <= k < |s| ==> s[k] == s[1..][k - 1];
      if s[0] >= r then s[0] else r
  }

  /** `radixSort`: passes by the digits of weight 1, 10, 100, ... while the
      maximum has a digit at that weight. None stands for the
      NoSuchElementException of an empty array and for the out-of-bounds
      index a negative digit raises. On non-negative input the result is
      the sorted permutation; when the maximum is not positive no pass runs. */
  method RadixSort(a0: seq<int>) returns (r: Option<seq<int>>)
    ensures |a0| == 0 ==> r.None?
    ensures r.Some? ==> |r.value| == |a0| && multiset(r.value) == multiset(a0)
    ensures |a0| > 0 && NonNegative(a0) ==> r.Some? && Sorted(r.value)
    ensures |a0| > 0 && Max(a0) <= 0 ==> r == Some(a0)
    ensures |a0| > 0 && 0 < Max(a0) < 10 ==>
      r == (if KeysInRange(Keys(a0, 1)) then Some(ByDigit(a0, Keys(a0, 1), 10)) else None)
  {
    if |a0| == 0 {
      return None;
    }
    var max := Max(a0);
    var a := a0;
    var exp := 1;
    while JavaDiv(max, exp) > 0
      invariant Rounds(a0, max, a, exp)
      decreases max - exp
    {
      QuotientPositive(max, exp);
      var pass := RadixRound(a0, max, a, exp);
      if pass.None? {
        return None;
      }
      a := pass.value;
      exp := exp * 10;
    }
    QuotientPositive(max, exp);
    if NonNegative(a0) {
      AllBelow(a, a0, max, exp);
      BelowSorted(a, exp);
    }
    return Some(a);
  }

  /** The loop test `max / exp > 0` asks whether exp is at most max. */
  lemma QuotientPositive(max: int, exp: int)
    requires exp >= 1
    ensures JavaDiv(max, exp) > 0 <==> exp <= max
  {
    if max >= exp {
      Money.MulMonotone(exp, 1, max / exp);
    } else if max >= 0 {
      Money.DivModUnique(max, exp, 0, max);
    }
  }

  /** What the passes so far keep: a permutation of a0, ordered below exp
      when a0 is non-negative, and a0 itself while no pass has run. */
  predicate Rounds(a0: seq<int>, max: int, a: seq<int>, exp: int) {
    && exp >= 1 && |a| == |a0| && multiset(a) == multiset(a0)
    && (NonNegative(a0) ==> NonNegative(a) && SortedBelow(a, exp))
    && (max <= 0 ==> exp == 1)
    && (exp == 1 ==> a == a0)
    && (exp > 1 ==> exp >= 10 && (max < 10 ==> FirstPass(a0, a)))
  }

  /** a is the single digit pass over a0 that succeeds. */
  predicate FirstPass(a0: seq<int>, a: seq<int>) {
    KeysInRange(Keys(a0, 1)) && a == ByDigit(a0, Keys(a0, 1), 10)
  }

  /** One pass of the radix loop, which runs only while max is positive. */
  method RadixRound(ghost a0: seq<int>, ghost max: int, a: seq<int>, exp: int) returns (r: Option<seq<int>>)
    requires Rounds(a0, max, a, exp) && 0 < exp <= max
    ensures r.Some? ==> Rounds(a0, max, r.value, exp * 10)
    ensures NonNegative(a0) ==> r.Some?
    ensures exp == 1 ==> (r.None? <==> !KeysInRange(Keys(a0, 1)))
  {
    r := CountingSortByDigit(a, exp);
  }

  /** [-10, -20, 5]: Java's remainder gives both negative elements the digit
      0, the single pass keeps them in input order, and nothing fails. */
  lemma NegativeOnePass()
    ensures var a := [-10, -20, 5];
      && Max(a) == 5 && FirstPass(a, a) && !Sorted(a)
  {
    var a := [-10, -20, 5];
    assert Max(a) == 5 by {
      assert Max(a[1..]) == 5 by {
        assert a[1..][1..] == [5];
      }
    }
    var ks := Keys(a, 1);
    assert ks == [0, 0, 5] by {
      assert Digit(-10, 1) == 0 && Digit(-20, 1) == 0 && Digit(5, 1) == 5;
    }
    assert KeysInRange(ks);
    assert Bucket(a, ks, 0) == [-10, -20] by {
      assert Taken(a, ks, 1, 0) == [-10];
      assert Taken(a, ks, 2, 0) == [-10, -20];
    }
    assert Bucket(a, ks, 5) == [5] by {
      TakenNone(a, ks, 2, 5);
    }
    forall d | d != 0 && d != 5
      ensures Bucket(a, ks, d) == []
    {
      TakenNone(a, ks, 3, d);
    }
    assert ByDigit(a, ks, 5) == [-10, -20] by {
      assert ByDigit(a, ks, 1) == [-10, -20];
      assert ByDigit(a, ks, 2) == [-10, -20];
      assert ByDigit(a, ks, 3) == [-10, -20];
    }
    assert ByDigit(a, ks, 10) == a by {
      assert ByDigit(a, ks, 6) == a;
      assert ByDigit(a, ks, 7) == a;
      assert ByDigit(a, ks, 8) == a;
    }
  }

  /** No element among the first n has key d: nothing is taken. */
  lemma {:induction false} TakenNone(s: seq<int>, ks: seq<int>, n: int, d: int)
    requires 0 <= n <= |s| == |ks|
    requires forall k :: 0 <= k < n ==> ks[k] != d
    ensures Taken(s, ks, n, d) == []
  {
    if n > 0 {
      TakenNone(s, ks, n - 1, d);
    }
  }

  /** Radix sort returns a negative input unsorted and without failure. */
  method NegativeUnsorted() returns (r: Option<seq<int>>)
    ensures r == Some([-10, -20, 5]) && !Sorted(r.value)
  {
    NegativeOnePass();
    r := RadixSort([-10, -20, 5]);
  }

  /** A permutation of a0 lies below any bound above a0's maximum. */
  lemma {:induction false} AllBelow(a: seq<int>, a0: seq<int>, max: int, exp: int)
    requires |a0| > 0 && max == Max(a0) && max < exp && multiset(a) == multiset(a0)
    ensures forall k :: 0 <= k < |a| ==> a[k] < exp
  {
    forall k | 0 <= k < |a|
      ensures a[k] < exp
    {
      assert a[k] in multiset(a0);
    }
  }

  /** Ordered by the remainders modulo m: what the passes so far achieve. */
  predicate SortedBelow(s: seq<int>, m: int)
    requires m >= 1
  {
    forall i, j :: 0 <= i < j < |s| ==> s[i] % m <= s[j] % m
  }

  /** Every element is non-negative, with its digit of weight exp below D. */
  predicate DigitsBelow(s: seq<int>, exp: int, D: int)
    requires exp >= 1
  {
    forall k :: 0 <= k < |s| ==> s[k] >= 0 && (s[k] / exp) % 10 < D
  }

  /** Every element is non-negative, with digit d at weight exp. */
  predicate DigitIs(s: seq<int>, exp: int, d: int)
    requires exp >= 1
  {
    forall k :: 0 <= k < |s| ==> s[k] >= 0 && (s[k] / exp) % 10 == d
  }

  lemma NonNegativeKeys(a: seq<int>, exp: int)
    requires exp >= 1 && NonNegative(a)
    ensures KeysInRange(Keys(a, exp))
  {
  }

  /** Below a bound m every value is its own remainder, so the order modulo
      m is the order. */
  lemma BelowSorted(s: seq<int>, m: int)
    requires m >= 1 && NonNegative(s) && SortedBelow(s, m)
    requires forall k :: 0 <= k < |s| ==> s[k] < m
    ensures Sorted(s)
  {
    forall i, j | 0 <= i < j < |s|
      ensures s[i] <= s[j]
    {
      assert s[i] % m == s[i] && s[j] % m == s[j];
    }
  }

  /** The remainder modulo 10·e is the digit of weight e followed by the
      remainder modulo e. */
  lemma ModSplit(x: int, e: int)
    requires x >= 0 && e >= 1
    ensures x % (10 * e) == ((x / e) % 10) * e + x % e
  {
    var q, r := x / e, x % e;
    var h, t := q / 10, q % 10;
    assert x == q * e + r;
    assert q == h * 10 + t;
    assert x == h * (10 * e) + (t * e + r) by {
      assert q * e == (h * 10 + t) * e == h * (10 * e) + t * e;
    }
    Money.MulMonotone(e, t, 9);
    Money.DivModUnique(x, 10 * e, h, t * e + r);
  }

  /** A bucket of a sequence ordered below exp is ordered below exp, its
      elements all have the bucket's digit, and none is above (below exp) a
      later element of the sequence. */
  lemma {:induction false} TakenSorted(a: seq<int>, exp: int, n: int, d: int)
    requires exp >= 1 && 0 <= n <= |a| && NonNegative(a) && SortedBelow(a, exp)
    ensures var t := Taken(a, Keys(a, exp), n, d);
      && SortedBelow(t, exp) && DigitIs(t, exp, d)
      && forall k, q :: 0 <= k < |t| && n <= q < |a| ==> t[k] % exp <= a[q] % exp
  {
    if n > 0 {
      TakenSorted(a, exp, n - 1, d);
      TakenSortedStep(a, exp, n, d);
    }
  }

  lemma {:induction false} TakenSortedStep(a: seq<int>, exp: int, n: int, d: int)
    requires exp >= 1 && 0 < n <= |a| && NonNegative(a) && SortedBelow(a, exp)
    requires var t := Taken(a, Keys(a, exp), n - 1, d);
      && SortedBelow(t, exp) && DigitIs(t, exp, d)
      && forall k, q :: 0 <= k < |t| && n - 1 <= q < |a| ==> t[k] % exp <= a[q] % exp
    ensures var t := Taken(a, Keys(a, exp), n, d);
      && SortedBelow(t, exp) && DigitIs(t, exp, d)
      && forall k, q :: 0 <= k < |t| && n <= q < |a| ==> t[k] % exp <= a[q] % exp
  {
    var t0 := Taken(a, Keys(a, exp), n - 1, d);
    var t := Taken(a, Keys(a, exp), n, d);
    if Keys(a, exp)[n - 1] == d {
      assert t == t0 + [a[n - 1]];
    } else {
      assert t == t0;
    }
  }

  /** Within one bucket the digit is shared, so the order below exp is the
      order below 10·exp. */
  lemma BucketBelow(t: seq<int>, exp: int, d: int)
    requires exp >= 1 && SortedBelow(t, exp) && DigitIs(t, exp, d)
    ensures SortedBelow(t, 10 * exp)
  {
    forall i, j | 0 <= i < j < |t|
      ensures t[i] % (10 * exp) <= t[j] % (10 * exp)
    {
      ModSplit(t[i], exp);
      ModSplit(t[j], exp);
    }
  }

  /** A pass by the digit of weight exp over a sequence ordered below exp
      leaves it ordered below 10·exp: the buckets come in digit order and
      each keeps the earlier order. */
  lemma {:induction false} ByDigitBelow(a: seq<int>, exp: int, D: nat)
    requires exp >= 1 && NonNegative(a) && SortedBelow(a, exp) && D <= 10
    ensures var b := ByDigit(a, Keys(a, exp), D);
      SortedBelow(b, 10 * exp) && DigitsBelow(b, exp, D)
  {
    if D > 0 {
      ByDigitBelow(a, exp, D - 1);
      TakenSorted(a, exp, |a|, D - 1);
      BucketBelow(Bucket(a, Keys(a, exp), D - 1), exp, D - 1);
      ByDigitBelowStep(a, exp, D);
    }
  }

  lemma {:induction false} ByDigitBelowStep(a: seq<int>, exp: int, D: nat)
    requires exp >= 1 && 0 < D <= 10
    requires var b := ByDigit(a, Keys(a, exp), D - 1);
      SortedBelow(b, 10 * exp) && DigitsBelow(b, exp, D - 1)
    requires var t := Bucket(a, Keys(a, exp), D - 1);
      SortedBelow(t, 10 * exp) && DigitIs(t, exp, D - 1)
    ensures var b := ByDigit(a, Keys(a, exp), D);
      SortedBelow(b, 10 * exp) && DigitsBelow(b, exp, D)
  {
    var b0, t := ByDigit(a, Keys(a, exp), D - 1), Bucket(a, Keys(a, exp), D - 1);
    assert ByDigit(a, Keys(a, exp), D) == b0 + t;
    forall i, j | 0 <= i < |b0| && 0 <= j < |t|
      ensures b0[i] % (10 * exp) < t[j] % (10 * exp)
    {
      DigitOrder(b0[i], t[j], exp);
    }
    ConcatBelow(b0, t, 10 * exp);
  }

  /** A smaller digit of weight e means a smaller remainder modulo 10·e. */
  lemma DigitOrder(x: int, y: int, e: int)
    requires x >= 0 && y >= 0 && e >= 1 && (x / e) % 10 < (y / e) % 10
    ensures x % (10 * e) < y % (10 * e)
  {
    ModSplit(x, e);
    ModSplit(y, e);
    MulGap((x / e) % 10, (y / e) % 10, e);
    assert x % e < e;
  }

  lemma MulGap(s: int, t: int, e: int)
    requires s < t && e >= 1
    ensures s * e + e <= t * e
  {
    assert t * e - s * e == (t - s) * e;
    Money.MulMonotone(e, 1, t - s);
  }

  lemma ConcatBelow(l: seq<int>, r: seq<int>, m: int)
    requires m >= 1 && SortedBelow(l, m) && SortedBelow(r, m)
    requires forall i, j :: 0 <= i < |l| && 0 <= j < |r| ==> l[i] % m < r[j] % m
    ensures SortedBelow(l + r, m)
  {
  }
}
