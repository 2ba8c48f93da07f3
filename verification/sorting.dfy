/** Shared vocabulary for the sorting algorithms: sortedness, the swap of
    two positions, and the two inner loops both benchmark classes share (the
    gap-insertion pass of their shell sorts and the merge of two runs).
    Arrays are modelled as sequences threaded through each method. */
module Sorting {

  predicate Sorted(s: seq<int>) {
    forall i, j :: 0 <= i < j < |s| ==> s[i] <= s[j]
  }

  /** Sorted on the positions lo..hi−1. */
  predicate SortedBetween(s: seq<int>, lo: int, hi: int)
    requires 0 <= lo <= hi <= |s|
  {
    forall i, j :: lo <= i < j < hi ==> s[i] <= s[j]
  }

  lemma SortedSlice(s: seq<int>, lo: int, hi: int)
    requires 0 <= lo <= hi <= |s| && SortedBetween(s, lo, hi)
    ensures Sorted(s[lo..hi])
  {
    forall i, j | 0 <= i < j < hi - lo
      ensures s[lo..hi][i] <= s[lo..hi][j]
    {
      assert s[lo..hi][i] == s[lo + i] && s[lo..hi][j] == s[lo + j];
    }
  }

  /** A segment holds the elements of its two halves. */
  lemma SliceHalves(s: seq<int>, lo: int, mid: int, hi: int)
    requires 0 <= lo <= mid <= hi <= |s|
    ensures multiset(s[lo..hi]) == multiset(s[lo..mid]) + multiset(s[mid..hi])
  {
    assert s[lo..hi] == s[lo..mid] + s[mid..hi];
  }

  /** Every neighbouring pair is in order. */
  predicate AdjacentSorted(s: seq<int>) {
    forall i :: 0 <= i < |s| - 1 ==> s[i] <= s[i + 1]
  }

  /** Ordered neighbours are exactly ordered pairs. */
  lemma AdjacentSortedIffSorted(s: seq<int>)
    ensures AdjacentSorted(s) <==> Sorted(s)
  {
    if AdjacentSorted(s) {
      forall i, j | 0 <= i < j < |s| ensures s[i] <= s[j] {
        var k := i;
        while k < j
          invariant i <= k <= j && s[i] <= s[k]
        {
          k := k + 1;
        }
      }
    }
  }

  /** `swap`: exchange two positions and change nothing else. */
  function Swap(s: seq<int>, i: int, j: int): (r: seq<int>)
    requires 0 <= i < |s| && 0 <= j < |s|
    ensures |r| == |s| && r[i] == s[j] && r[j] == s[i]
    ensures forall k :: 0 <= k < |s| && k != i && k != j ==> r[k] == s[k]
    ensures multiset(r) == multiset(s)
  {
    s[i := s[j]][j := s[i]]
  }

  /** Swapping twice restores the sequence. */
  lemma SwapInvolution(s: seq<int>, i: int, j: int)
    requires 0 <= i < |s| && 0 <= j < |s|
    ensures Swap(Swap(s, i, j), i, j) == s
  {
  }

  /** Positions outside lo..hi−1 agree. */
  predicate SameOutside(a: seq<int>, b: seq<int>, lo: int, hi: int) {
    |a| == |b| && forall k :: 0 <= k < |a| && !(lo <= k < hi) ==> a[k] == b[k]
  }

  /** Two permutations of each other that agree outside a segment permute
      that segment. */
  lemma SegmentPermutation(a: seq<int>, b: seq<int>, lo: int, hi: int)
    requires 0 <= lo <= hi <= |a| && SameOutside(a, b, lo, hi) && multiset(a) == multiset(b)
    ensures multiset(a[lo..hi]) == multiset(b[lo..hi])
  {
    var p, q := a[..lo], a[hi..];
    assert p == b[..lo] && q == b[hi..];
    assert a == p + a[lo..hi] + q;
    assert b == p + b[lo..hi] + q;
    assert multiset(a) == multiset(p) + multiset(a[lo..hi]) + multiset(q);
    assert multiset(b) == multiset(p) + multiset(b[lo..hi]) + multiset(q);
    Cancel(multiset(p), multiset(a[lo..hi]), multiset(b[lo..hi]), multiset(q));
  }

  lemma Cancel(p: multiset<int>, x: multiset<int>, y: multiset<int>, q: multiset<int>)
    requires p + x + q == p + y + q
    ensures x == y
  {
    assert x == p + x + q - p - q;
    assert y == p + y + q - p - q;
  }

  /** Writing a permutation m of the segment lo..hi−1 (given as its
      halves lo..mid−1 and mid..hi−1) back in its place changes nothing
      else, permutes the whole, and keeps m's order. */
  function Splice(a0: seq<int>, lo: int, mid: int, hi: int, m: seq<int>): (a: seq<int>)
    requires 0 <= lo <= mid <= hi <= |a0| && |m| == |a0[lo..mid]| + |a0[mid..hi]|
    requires multiset(m) == multiset(a0[lo..mid]) + multiset(a0[mid..hi])
    ensures SameOutside(a, a0, lo, hi) && multiset(a) == multiset(a0)
    ensures forall k :: lo <= k < hi ==> a[k] == m[k - lo]
    ensures Sorted(m) ==> SortedBetween(a, lo, hi)
  {
    var a := a0[..lo] + m + a0[hi..];
    SliceHalves(a0, lo, mid, hi);
    SpliceFacts(a0, lo, hi, m, a);
    a
  }

  lemma {:induction false} SpliceFacts(a0: seq<int>, lo: int, hi: int, m: seq<int>, a: seq<int>)
    requires 0 <= lo <= hi <= |a0| && |m| == hi - lo && a == a0[..lo] + m + a0[hi..]
    requires multiset(m) == multiset(a0[lo..hi])
    ensures SameOutside(a, a0, lo, hi) && multiset(a) == multiset(a0)
    ensures forall k :: lo <= k < hi ==> a[k] == m[k - lo]
  {
    assert a0 == a0[..lo] + a0[lo..hi] + a0[hi..];
    forall k | 0 <= k < |a| && !(lo <= k < hi)
      ensures a[k] == a0[k]
    {
      if k < lo {
        assert a[k] == a0[..lo][k];
      } else {
        assert a[k] == a0[hi..][k - hi];
      }
    }
  }

  /** The segment's values are bounded by p from above. */
  predicate AllAtMost(s: seq<int>, lo: int, hi: int, p: int)
    requires 0 <= lo <= hi <= |s|
  {
    forall k :: lo <= k < hi ==> s[k] <= p
  }

  predicate AllAtLeast(s: seq<int>, lo: int, hi: int, p: int)
    requires 0 <= lo <= hi <= |s|
  {
    forall k :: lo <= k < hi ==> p <= s[k]
  }

  /** Permuting a segment keeps its bounds. */
  lemma BoundsPermuted(a: seq<int>, b: seq<int>, lo: int, hi: int, p: int)
    requires 0 <= lo <= hi <= |a| == |b| && multiset(a[lo..hi]) == multiset(b[lo..hi])
    ensures AllAtMost(a, lo, hi, p) ==> AllAtMost(b, lo, hi, p)
    ensures AllAtLeast(a, lo, hi, p) ==> AllAtLeast(b, lo, hi, p)
  {
    forall k | lo <= k < hi
      ensures exists m :: lo <= m < hi && a[m] == b[k]
    {
      assert b[k] == b[lo..hi][k - lo];
      assert b[k] in multiset(a[lo..hi]);
      var m :| 0 <= m < hi - lo && a[lo..hi][m] == b[k];
      assert a[lo + m] == b[k];
    }
  }

  /** Every gap-th pair below n is in order. */
  predicate GapSorted(s: seq<int>, gap: int, n: int)
    requires 0 <= gap && n <= |s|
  {
    forall k :: gap <= k < n ==> s[k - gap] <= s[k]
  }

  /** The gap-insertion pass both shell sorts run for one gap (and the
      insertion sort for gap 1): each element is moved down its gap-chain
      past the larger ones. Afterwards every gap-chain is in order. */
  method GapPass(a0: seq<int>, gap: int) returns (a: seq<int>)
    requires gap >= 1
    ensures multiset(a) == multiset(a0) && |a| == |a0|
    ensures GapSorted(a, gap, |a|)
  {
    a := a0;
    var i := gap;
    while i < |a|
      invariant |a| == |a0| && multiset(a) == multiset(a0)
      invariant GapSorted(a, gap, if i < |a| then i else |a|)
    {
      a := GapInsert(a, gap, i);
      i := i + 1;
    }
  }

  /** One step of the pass: the element at i slides down its chain, each
      larger element above it moving up by one gap. */
  method GapInsert(a0: seq<int>, gap: int, i: int) returns (a: seq<int>)
    requires 1 <= gap <= i < |a0| && GapSorted(a0, gap, i)
    ensures multiset(a) == multiset(a0) && |a| == |a0|
    ensures GapSorted(a, gap, i + 1)
  {
    a := a0;
    var temp := a[i];
    var j := i;
    while j >= gap && a[j - gap] > temp
      invariant Shifting(a0, a, gap, i, j, temp)
      decreases j
    {
      ShiftDown(a0, a, gap, i, j, temp, a[j := a[j - gap]]);
      a := a[j := a[j - gap]];
      j := j - gap;
    }
    ShiftDone(a0, a, gap, i, j, temp, a[j := temp]);
    a := a[j := temp];
  }

  /** What the shifting loop keeps: with `temp` written back into the hole
      at j the sequence is a permutation of the start, every pair of the
      chain below i is in order except the one ending at the untouched i,
      and everything moved up is larger than `temp`. */
  predicate Shifting(a0: seq<int>, a: seq<int>, gap: int, i: int, j: int, temp: int) {
    && 1 <= gap && 0 <= j <= i < |a| == |a0|
    && (j == i || j + gap <= i)
    && multiset(a[j := temp]) == multiset(a0)
    && (forall k :: gap <= k <= i && !(j == i && k == i) ==> a[k - gap] <= a[k])
    && (j < i ==> temp < a[j + gap])
  }

  /** Moving the larger a[j − gap] up into the hole keeps Shifting, the
      hole moving down by one gap; b is the updated sequence. */
  lemma ShiftDown(a0: seq<int>, a: seq<int>, gap: int, i: int, j: int, temp: int, b: seq<int>)
    requires Shifting(a0, a, gap, i, j, temp) && j >= gap && a[j - gap] > temp
    requires b == a[j := a[j - gap]]
    ensures Shifting(a0, b, gap, i, j - gap, temp)
  {
    HoleDown(a, j, j - gap, temp, b, a[j := temp], b[j - gap := temp]);
    forall k | gap <= k <= i && !(j - gap == i && k == i)
      ensures b[k - gap] <= b[k]
    {
      if k == j + gap {
        assert a[j - gap] <= a[j] <= a[j + gap];
      }
    }
  }

  /** Moving the hole from j down to h, the value at h going up into j,
      leaves the sequence with the hole filled a permutation of before. */
  lemma HoleDown(a: seq<int>, j: int, h: int, temp: int, b: seq<int>, c: seq<int>, d: seq<int>)
    requires 0 <= h < j < |a| && b == a[j := a[h]] && c == a[j := temp] && d == b[h := temp]
    ensures multiset(d) == multiset(c)
  {
    assert d == Swap(c, j, h);
  }

  /** Once the chain below the hole holds nothing larger, writing `temp`
      into the hole (giving b) orders the chain up to i. */
  lemma ShiftDone(a0: seq<int>, a: seq<int>, gap: int, i: int, j: int, temp: int, b: seq<int>)
    requires Shifting(a0, a, gap, i, j, temp) && !(j >= gap && a[j - gap] > temp)
    requires b == a[j := temp]
    ensures multiset(b) == multiset(a0) && |b| == |a0|
    ensures GapSorted(b, gap, i + 1)
  {
    forall k | gap <= k < i + 1
      ensures b[k - gap] <= b[k]
    {
      if k == j {
        assert b[k - gap] == a[k - gap];
      } else if k == j + gap {
        assert b[k - gap] == temp;
      } else {
        assert b[k - gap] == a[k - gap] && b[k] == a[k];
      }
    }
  }

  /** With gap 1 the pass is an insertion sort. */
  lemma GapOneSorted(s: seq<int>)
    requires GapSorted(s, 1, |s|)
    ensures Sorted(s)
  {
    assert AdjacentSorted(s) by {
      forall i | 0 <= i < |s| - 1 ensures s[i] <= s[i + 1] {
        assert s[(i + 1) - 1] <= s[i + 1];
      }
    }
    AdjacentSortedIffSorted(s);
  }

  /** Appending a value no smaller than the last keeps a run sorted. */
  lemma AppendSorted(s: seq<int>, x: int)
    requires Sorted(s) && (|s| > 0 ==> s[|s| - 1] <= x)
    ensures Sorted(s + [x])
  {
  }

  /** Taking one more element of a run adds it to the taken multiset. */
  lemma TakeOne(s: seq<int>, i: int)
    requires 0 <= i < |s|
    ensures multiset(s[..i + 1]) == multiset(s[..i]) + multiset{s[i]}
  {
    assert s[..i + 1] == s[..i] + [s[i]];
  }

  /** What the merge loop keeps: the output is sorted, holds exactly the
      elements taken so far, and none of them exceeds a head still waiting. */
  predicate Merging(left: seq<int>, right: seq<int>, i: int, j: int, out: seq<int>) {
    && 0 <= i <= |left| && 0 <= j <= |right| && |out| == i + j
    && Sorted(out)
    && multiset(out) == multiset(left[..i]) + multiset(right[..j])
    && (|out| > 0 && i < |left| ==> out[|out| - 1] <= left[i])
    && (|out| > 0 && j < |right| ==> out[|out| - 1] <= right[j])
  }

  /** The merge loop both merge sorts share: repeatedly take the smaller
      head, the left one on a tie, then the rest of whichever run is left. */
  method MergeRuns(left: seq<int>, right: seq<int>) returns (out: seq<int>)
    requires Sorted(left) && Sorted(right)
    ensures |out| == |left| + |right|
    ensures Sorted(out) && multiset(out) == multiset(left) + multiset(right)
  {
    out := [];
    var i, j := 0, 0;
    while i < |left| || j < |right|
      invariant Merging(left, right, i, j, out)
      decreases |left| - i + |right| - j
    {
      i, j, out := MergeStep(left, right, i, j, out);
    }
    assert left[..i] == left && right[..j] == right;
  }

  /** The merge of the two sorted neighbouring runs lo..mid−1 and
      mid..hi−1 of s into a temporary sequence. */
  method MergeRange(s: seq<int>, lo: int, mid: int, hi: int) returns (out: seq<int>)
    requires 0 <= lo <= mid <= hi <= |s|
    requires SortedBetween(s, lo, mid) && SortedBetween(s, mid, hi)
    ensures |out| == |s[lo..mid]| + |s[mid..hi]| && Sorted(out)
    ensures multiset(out) == multiset(s[lo..mid]) + multiset(s[mid..hi])
  {
    SortedSlice(s, lo, mid);
    SortedSlice(s, mid, hi);
    out := MergeRuns(s[lo..mid], s[mid..hi]);
  }

  /** One turn of the merge loop. */
  method MergeStep(left: seq<int>, right: seq<int>, i: int, j: int, out: seq<int>)
    returns (i': int, j': int, out': seq<int>)
    requires Sorted(left) && Sorted(right) && Merging(left, right, i, j, out)
    requires i < |left| || j < |right|
    ensures Merging(left, right, i', j', out')
    ensures |left| - i' + |right| - j' < |left| - i + |right| - j
  {
    if j == |right| || (i < |left| && left[i] <= right[j]) {
      out' := out + [left[i]];
      i', j' := i + 1, j;
      TakeLeft(left, right, i, j, out, out');
    } else {
      out' := out + [right[j]];
      i', j' := i, j + 1;
      TakeRight(left, right, i, j, out, out');
    }
  }

  /** Taking the left head, no larger than the right one, keeps Merging. */
  lemma TakeLeft(left: seq<int>, right: seq<int>, i: int, j: int, out: seq<int>, out': seq<int>)
    requires Sorted(left) && Merging(left, right, i, j, out) && i < |left|
    requires j < |right| ==> left[i] <= right[j]
    requires out' == out + [left[i]]
    ensures Merging(left, right, i + 1, j, out')
  {
    TakeOne(left, i);
    AppendSorted(out, left[i]);
  }

  /** Taking the right head, smaller than the left one, keeps Merging. */
  lemma TakeRight(left: seq<int>, right: seq<int>, i: int, j: int, out: seq<int>, out': seq<int>)
    requires Sorted(right) && Merging(left, right, i, j, out) && j < |right|
    requires i < |left| ==> right[j] < left[i]
    requires out' == out + [right[j]]
    ensures Merging(left, right, i, j + 1, out')
  {
    TakeOne(right, j);
    AppendSorted(out, right[j]);
  }
}
