/** The sequential sorting routines of lab 3.5, over integers ordered by `<` (the `std::less` the
    program sorts with). A pointer `first` into an array is the array with the index `lo`. */
module Sorting {
  import opened ArrayOps

  /** The contents is ordered by `isBefore`: every adjacent pair is related, tested from the front. */
  function IsOrdered(s: seq<int>, isBefore: (int, int) -> bool): bool
  {
    if |s| < 2 then true else isBefore(s[0], s[1]) && IsOrdered(s[1..], isBefore)
  }

  /** `IsOrdered` holds exactly when every adjacent pair satisfies `isBefore`. */
  lemma {:induction false} IsOrderedAdjacent(s: seq<int>, isBefore: (int, int) -> bool)
    ensures IsOrdered(s, isBefore) <==> forall k :: 0 < k < |s| ==> isBefore(s[k - 1], s[k])
  {
    if |s| >= 2 {
      IsOrderedAdjacent(s[1..], isBefore);
    }
  }

  function Less(x: int, y: int): bool
  {
    x < y
  }

  /** Under `<` the test is strict: a sequence with two equal neighbours is not ordered, however
      sorted it is. */
  lemma EqualNeighboursNotOrdered(s: seq<int>, k: nat)
    requires 0 < k < |s| && s[k - 1] == s[k]
    ensures !IsOrdered(s, Less)
  {
    IsOrderedAdjacent(s, Less);
  }

  /** Elements in `[lo, hi)` are in non-decreasing order. */
  ghost predicate SortedBetween(s: seq<int>, lo: int, hi: int)
    requires 0 <= lo <= hi <= |s|
  {
    forall i, j :: lo <= i < j < hi ==> s[i] <= s[j]
  }

  /** A sorted range has no element ordered before its predecessor, and conversely. */
  lemma SortedIffNoDescent(s: seq<int>, lo: int, hi: int)
    requires 0 <= lo <= hi <= |s|
    ensures SortedBetween(s, lo, hi) <==> forall k :: lo < k < hi ==> !(s[k] < s[k - 1])
  {
    if forall k :: lo < k < hi ==> !(s[k] < s[k - 1]) {
      forall i, j | lo <= i < j < hi ensures s[i] <= s[j] {
        var m := i;
        while m < j
          invariant i <= m <= j && s[i] <= s[m]
        {
          m := m + 1;
        }
      }
    }
  }

  /** Two arrays agree outside `[lo, hi)` and have the same elements: then they have the same
      elements inside `[lo, hi)`. */
  lemma SegmentPermutes(s: seq<int>, t: seq<int>, lo: int, hi: int)
    requires 0 <= lo <= hi <= |s| == |t|
    requires multiset(s) == multiset(t)
    requires s[..lo] == t[..lo] && s[hi..] == t[hi..]
    ensures multiset(s[lo..hi]) == multiset(t[lo..hi])
  {
    assert s == s[..lo] + s[lo..hi] + s[hi..];
    assert t == t[..lo] + t[lo..hi] + t[hi..];
    assert multiset(s) == multiset(s[..lo]) + multiset(s[lo..hi]) + multiset(s[hi..]);
    assert multiset(t) == multiset(t[..lo]) + multiset(t[lo..hi]) + multiset(t[hi..]);
    forall x ensures multiset(s[lo..hi])[x] == multiset(t[lo..hi])[x] {
      assert multiset(s)[x] == multiset(t)[x];
    }
  }

  /** `after` is `before` with `[lo, hi)` sorted in place: that range is sorted and holds the same
      elements as before, and nothing outside it changed. */
  ghost predicate SortedInPlace(after: seq<int>, before: seq<int>, lo: nat, hi: nat)
  {
    && lo <= hi <= |after| == |before|
    && SortedBetween(after, lo, hi)
    && multiset(after[lo..hi]) == multiset(before[lo..hi])
    && after[..lo] == before[..lo] && after[hi..] == before[hi..]
  }

  /** `split` is `orig` with `[lo, hi)` partitioned around `split[m]`: the elements of the range
      are permuted, those before `m` are less than `split[m]` and those after it are not. */
  ghost predicate PartitionedAround(split: seq<int>, orig: seq<int>, lo: nat, m: nat, hi: nat)
  {
    && lo <= m < hi <= |split| == |orig|
    && multiset(split) == multiset(orig)
    && split[..lo] == orig[..lo] && split[hi..] == orig[hi..]
    && (forall k :: lo <= k < m ==> split[k] < split[m])
    && (forall k :: m < k < hi ==> split[k] >= split[m])
  }

  /** The state of the inner loop of insertion sort, which carries the element at `lo + q` down
      through the ordered range `[lo, lo + p]`: the range without that element is ordered, and
      the element is less than everything after it in the range. */
  ghost predicate Inserting(s: seq<int>, lo: nat, p: nat, q: nat)
    requires q <= p && lo + p < |s|
  {
    && (forall i, j :: lo <= i < j <= lo + p && i != lo + q && j != lo + q ==> s[i] <= s[j])
    && (forall k :: lo + q < k <= lo + p ==> s[lo + q] < s[k])
  }

  /** The inner loop starts with the new element at the end of the ordered range. */
  lemma InsertingStart(s: seq<int>, lo: nat, p: nat)
    requires lo + p < |s| && SortedBetween(s, lo, lo + p)
    ensures Inserting(s, lo, p, p)
  {
  }

  /** Swapping the element with a greater left neighbour moves it down one place. */
  lemma InsertingStep(s: seq<int>, lo: nat, p: nat, q: nat)
    requires 0 < q <= p && lo + p < |s| && Inserting(s, lo, p, q)
    requires s[lo + q] < s[lo + q - 1]
    ensures Inserting(s[lo + q := s[lo + q - 1]][lo + q - 1 := s[lo + q]], lo, p, q - 1)
  {
  }

  /** The inner loop stops when the element is at the front or not less than its left neighbour;
      then the range `[lo, lo + p]` is ordered. */
  lemma InsertingDone(s: seq<int>, lo: nat, p: nat, q: nat)
    requires q <= p && lo + p < |s| && Inserting(s, lo, p, q)
    requires q == 0 || !(s[lo + q] < s[lo + q - 1])
    ensures SortedBetween(s, lo, lo + p + 1)
  {
    forall i, j | lo <= i < j <= lo + p ensures s[i] <= s[j] {
      if j == lo + q && i < j - 1 {
        assert s[i] <= s[j - 1];
      }
    }
  }

  /** Swapping two places inside `[lo, hi)` keeps what is outside it. */
  lemma SwapInside(s: seq<int>, i: nat, j: nat, lo: nat, hi: nat)
    requires lo <= i < hi && lo <= j < hi && hi <= |s|
    ensures s[i := s[j]][j := s[i]][..lo] == s[..lo]
    ensures s[i := s[j]][j := s[i]][hi..] == s[hi..]
  {
  }

  /** Sorts `a[lo..lo + length]` by moving each element down by adjacent swaps while it is ordered
      before its left neighbour. The result is sorted, a permutation of the input, and nothing
      outside the range changes. */
  method InsertionSort(a: array<int>, lo: nat, length: nat)
    requires lo + length <= a.Length
    modifies a
    ensures SortedInPlace(a[..], old(a[..]), lo, lo + length)
  {
    var p := 1;
    while p < length
      invariant 1 <= p && (length > 0 ==> p <= length)
      invariant SortedBetween(a[..], lo, lo + if length == 0 then 0 else p)
      invariant multiset(a[..]) == multiset(old(a[..]))
      invariant a[..lo] == old(a[..lo]) && a[lo + length..] == old(a[lo + length..])
    {
      InsertNext(a, lo, length, p);
      p := p + 1;
    }
    SegmentPermutes(a[..], old(a[..]), lo, lo + length);
  }

  /** The inner loop of insertion sort: with `[lo, lo + p)` ordered, swaps the element at
      `lo + p` down while it is ordered before its left neighbour, which orders `[lo, lo + p]`. */
  method InsertNext(a: array<int>, lo: nat, length: nat, p: nat)
    requires p < length && lo + length <= a.Length && SortedBetween(a[..], lo, lo + p)
    modifies a
    ensures SortedBetween(a[..], lo, lo + p + 1)
    ensures multiset(a[..]) == multiset(old(a[..]))
    ensures a[..lo] == old(a[..lo]) && a[lo + length..] == old(a[lo + length..])
  {
    InsertingStart(a[..], lo, p);
    var q: nat := p;
    while q > 0 && a[lo + q] < a[lo + q - 1]
      invariant q <= p && Inserting(a[..], lo, p, q)
      invariant multiset(a[..]) == multiset(old(a[..]))
      invariant a[..lo] == old(a[..lo]) && a[lo + length..] == old(a[lo + length..])
    {
      InsertingStep(a[..], lo, p, q);
      SwapInside(a[..], lo + q, lo + q - 1, lo, lo + length);
      Exchange(a, lo + q, lo + q - 1);
      q := q - 1;
    }
    InsertingDone(a[..], lo, p, q);
  }

  /** Reorders `a[lo..hi]` so that the elements less than `pivot` come first, and returns the
      index of the first element that is not. (`std::partition` promises only this much about the
      order; the loop below is one algorithm that delivers it.) */
  method Partition(a: array<int>, lo: nat, hi: nat, pivot: int) returns (m: nat)
    requires lo <= hi <= a.Length
    modifies a
    ensures lo <= m <= hi
    ensures forall k :: lo <= k < m ==> a[k] < pivot
    ensures forall k :: m <= k < hi ==> a[k] >= pivot
    ensures multiset(a[..]) == multiset(old(a[..]))
    ensures forall k :: 0 <= k < a.Length && !(lo <= k < hi) ==> a[k] == old(a[k])
  {
    m := lo;
    var k := lo;
    while k < hi
      invariant lo <= m <= k <= hi
      invariant forall i :: lo <= i < m ==> a[i] < pivot
      invariant forall i :: m <= i < k ==> a[i] >= pivot
      invariant multiset(a[..]) == multiset(old(a[..]))
      invariant forall i :: 0 <= i < a.Length && !(lo <= i < hi) ==> a[i] == old(a[i])
    {
      if a[k] < pivot {
        Exchange(a, m, k);
        m := m + 1;
      }
      k := k + 1;
    }
  }

  /** The converse of `SegmentPermutes`: permuting `[lo, hi)` and keeping the rest permutes the
      whole. */
  lemma SegmentPermutesWhole(s: seq<int>, t: seq<int>, lo: int, hi: int)
    requires 0 <= lo <= hi <= |s| == |t|
    requires multiset(s[lo..hi]) == multiset(t[lo..hi])
    requires s[..lo] == t[..lo] && s[hi..] == t[hi..]
    ensures multiset(s) == multiset(t)
  {
    assert s == s[..lo] + s[lo..hi] + s[hi..];
    assert t == t[..lo] + t[lo..hi] + t[hi..];
  }

  /** A bound on every element of `[lo, hi)` survives a permutation of that range. */
  lemma BoundsSurvive(s: seq<int>, t: seq<int>, lo: int, hi: int, pivot: int, below: bool)
    requires 0 <= lo <= hi <= |s| && hi <= |t|
    requires multiset(s[lo..hi]) == multiset(t[lo..hi])
    requires forall k :: lo <= k < hi ==> if below then t[k] < pivot else t[k] >= pivot
    ensures forall k :: lo <= k < hi ==> if below then s[k] < pivot else s[k] >= pivot
  {
    forall k | lo <= k < hi ensures if below then s[k] < pivot else s[k] >= pivot {
      assert s[k] == s[lo..hi][k - lo];
      assert s[k] in multiset(t[lo..hi]);
      var j :| lo <= j < hi && t[j] == s[k] by {
        var i :| 0 <= i < hi - lo && t[lo..hi][i] == s[k];
        assert t[lo + i] == s[k];
      }
    }
  }

  /** Whether a range is sorted depends only on the elements in it. */
  lemma SortedKept(s: seq<int>, t: seq<int>, lo: int, hi: int)
    requires 0 <= lo <= hi <= |s| && hi <= |t| && s[lo..hi] == t[lo..hi]
    requires SortedBetween(s, lo, hi)
    ensures SortedBetween(t, lo, hi)
  {
    forall i, j | lo <= i < j < hi ensures t[i] <= t[j] {
      assert t[i] == t[lo..hi][i - lo] && t[j] == t[lo..hi][j - lo];
    }
  }

  /** A sorted range of elements below the pivot, the pivot, and a sorted range of elements not
      below it, side by side, make a sorted range. */
  lemma JoinSorted(s: seq<int>, lo: int, m: int, hi: int)
    requires 0 <= lo <= m < hi <= |s|
    requires SortedBetween(s, lo, m) && SortedBetween(s, m + 1, hi)
    requires forall k :: lo <= k < m ==> s[k] < s[m]
    requires forall k :: m < k < hi ==> s[k] >= s[m]
    ensures SortedBetween(s, lo, hi)
  {
  }

  /** The quicksort step: `split` is `orig` partitioned around `split[m]`, `left` is `split` with
      `[lo, m)` sorted in place and `right` is `left` with `[m + 1, hi)` sorted in place. Then
      `right` is `orig` with `[lo, hi)` sorted in place. */
  lemma QuicksortStep(orig: seq<int>, split: seq<int>, left: seq<int>, right: seq<int>,
                      lo: nat, m: nat, hi: nat)
    requires PartitionedAround(split, orig, lo, m, hi)
    requires SortedInPlace(left, split, lo, m) && SortedInPlace(right, left, m + 1, hi)
    ensures SortedInPlace(right, orig, lo, hi)
  {
    LeftSorted(orig, split, left, lo, m, hi);
    RightSorted(orig, left, right, lo, m, hi);
  }

  /** Sorting the part below the pivot keeps the range partitioned around it. */
  lemma LeftSorted(orig: seq<int>, split: seq<int>, left: seq<int>, lo: nat, m: nat, hi: nat)
    requires PartitionedAround(split, orig, lo, m, hi) && SortedInPlace(left, split, lo, m)
    ensures PartitionedAround(left, orig, lo, m, hi) && SortedBetween(left, lo, m)
  {
    var pivot := split[m];
    BoundsSurvive(left, split, lo, m, pivot, true);
    assert forall k :: m <= k < hi ==> left[k] == split[k] by {
      forall k | m <= k < hi ensures left[k] == split[k] {
        assert left[k] == left[m..][k - m];
      }
    }
    SegmentPermutesWhole(left, split, lo, m);
    assert left[hi..] == split[hi..];
  }

  /** Sorting the part above the pivot of a partitioned range whose lower part is sorted sorts
      the whole range. */
  lemma RightSorted(orig: seq<int>, left: seq<int>, right: seq<int>, lo: nat, m: nat, hi: nat)
    requires PartitionedAround(left, orig, lo, m, hi) && SortedBetween(left, lo, m)
    requires SortedInPlace(right, left, m + 1, hi)
    ensures SortedInPlace(right, orig, lo, hi)
  {
    var pivot := left[m];
    BoundsSurvive(right, left, m + 1, hi, pivot, false);
    assert right[lo..m] == left[lo..m];
    assert forall k :: lo <= k <= m ==> right[k] == left[k] by {
      forall k | lo <= k <= m ensures right[k] == left[k] {
        assert right[k] == right[..m + 1][k];
      }
    }
    SortedKept(left, right, lo, m);
    SegmentPermutesWhole(right, left, m + 1, hi);
    JoinSorted(right, lo, m, hi);
    assert right[..lo] == left[..lo];
    SegmentPermutes(right, orig, lo, hi);
  }

  /** Partitions `a[lo..hi - 1]` around the pivot `a[hi - 1]` and swaps the pivot into the first
      position not below it, which is returned. */
  method PartitionAroundLast(a: array<int>, lo: nat, hi: nat) returns (m: nat)
    requires lo < hi <= a.Length
    modifies a
    ensures PartitionedAround(a[..], old(a[..]), lo, m, hi)
  {
    var pivot := a[hi - 1];
    m := Partition(a, lo, hi - 1, pivot);
    Exchange(a, hi - 1, m);
  }

  /** Sorts `a[lo..lo + length]`: ranges of fewer than 2 elements are left alone, ranges of fewer
      than 16 go to insertion sort, longer ones are split around a pivot. The result is sorted and
      a permutation of the input; nothing outside the range changes. */
  method ConcurrentQuicksort(a: array<int>, lo: nat, length: nat)
    requires lo + length <= a.Length
    modifies a
    ensures SortedInPlace(a[..], old(a[..]), lo, lo + length)
    decreases length, 1
  {
    if length < 2 {
    } else if length < 16 {
      InsertionSort(a, lo, length);
    } else {
      SortAroundPivot(a, lo, length);
    }
  }

  /** The recursive case of the quicksort: the last element is the pivot, the rest is partitioned
      by `< pivot`, the pivot is swapped into place and both sides are sorted (the two sides are
      sorted in parallel by the program; one after the other here). */
  method SortAroundPivot(a: array<int>, lo: nat, length: nat)
    requires 0 < length && lo + length <= a.Length
    modifies a
    ensures SortedInPlace(a[..], old(a[..]), lo, lo + length)
    decreases length, 0
  {
    ghost var orig := a[..];
    var hi := lo + length;
    var m := PartitionAroundLast(a, lo, hi);
    ghost var split := a[..];
    ConcurrentQuicksort(a, lo, m - lo);
    ghost var left := a[..];
    ConcurrentQuicksort(a, m + 1, hi - m - 1);
    ghost var right := a[..];
    QuicksortStep(orig, split, left, right, lo, m, hi);
  }
}
