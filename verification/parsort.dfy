/**
 * The sorting core of csf_assign04/parsort.c: the qsort comparator, swap,
 * the Hoare-style partition around the middle element, and quicksort with
 * its two halves sorted one after the other instead of in child processes.
 * Array elements are `int64_t`; only comparisons are applied to them, so
 * they are modelled as unbounded integers.
 */
module ParSort {
  import opened MachineInts

  /** compare: -1, 0 or 1 as l < r, l == r or l > r. */
  function Compare(l: int, r: int): (c: int)
    ensures c == -1 <==> l < r
    ensures c == 0 <==> l == r
    ensures c == 1 <==> l > r
  {
    (if l > r then 1 else 0) - (if l < r then 1 else 0)
  }

  /** swap: exchanges two positions and leaves every other one alone. */
  function Swap(s: seq<int>, i: int, j: int): (t: seq<int>)
    requires 0 <= i < |s| && 0 <= j < |s|
    ensures |t| == |s| && t[i] == s[j] && t[j] == s[i]
    ensures forall k :: 0 <= k < |s| && k != i && k != j ==> t[k] == s[k]
  {
    s[i := s[j]][j := s[i]]
  }

  /** Swapping inside [lo, hi) keeps that range a permutation of itself and the rest unchanged. */
  lemma SwapInRange(s: seq<int>, i: int, j: int, lo: int, hi: int)
    requires 0 <= lo <= i < hi <= |s| && lo <= j < hi
    ensures Swap(s, i, j)[..lo] == s[..lo] && Swap(s, i, j)[hi..] == s[hi..]
    ensures multiset(Swap(s, i, j)[lo..hi]) == multiset(s[lo..hi])
  {
    var t := Swap(s, i, j);
    assert t[..lo] == s[..lo];
    assert t[hi..] == s[hi..];
    assert t[lo..hi] == s[lo..hi][i - lo := s[j]][j - lo := s[i]];
  }

  predicate SortedRange(s: seq<int>, lo: int, hi: int)
    requires 0 <= lo <= hi <= |s|
  {
    forall i, j :: lo <= i < j < hi ==> s[i] <= s[j]
  }

  predicate Sorted(s: seq<int>) {
    forall i, j :: 0 <= i < j < |s| ==> s[i] <= s[j]
  }

  /** The contract shared by partition and quicksort: only [lo, hi) changes, and only by permutation. */
  predicate PermutesRange(a: seq<int>, b: seq<int>, lo: int, hi: int)
    requires 0 <= lo <= hi <= |a|
  {
    |b| == |a| && b[..lo] == a[..lo] && b[hi..] == a[hi..]
    && multiset(b[lo..hi]) == multiset(a[lo..hi])
  }

  lemma SwapKeepsPermutation(a: seq<int>, b: seq<int>, i: int, j: int, lo: int, hi: int)
    requires 0 <= lo <= i < hi <= |a| && lo <= j < hi
    requires PermutesRange(a, b, lo, hi)
    ensures PermutesRange(a, Swap(b, i, j), lo, hi)
  {
    SwapInRange(b, i, j, lo, hi);
  }

  /**
   * The scanning loop of partition over [start, end - 1), with the pivot
   * value parked at end - 1 and signed indices: afterwards everything
   * before the returned index is below the pivot and everything from it
   * up to end - 1 is at least the pivot.
   */
  method PartitionScan(a: seq<int>, start: int, end: int) returns (b: seq<int>, left: int)
    requires 0 <= start && end <= |a| && end - start >= 2
    ensures PermutesRange(a, b, start, end) && b[end - 1] == a[end - 1]
    ensures start <= left <= end - 1
    ensures forall k :: start <= k < left ==> b[k] < a[end - 1]
    ensures forall k :: left <= k < end - 1 ==> b[k] >= a[end - 1]
  {
    var pivot := a[end - 1];
    b := a;
    left := start;
    var right := end - 2;
    while left <= right
      invariant start <= left <= end - 1 && start - 1 <= right <= end - 2 && left <= right + 1
      invariant PermutesRange(a, b, start, end) && b[end - 1] == pivot
      invariant forall k :: start <= k < left ==> b[k] < pivot
      invariant forall k :: right < k < end - 1 ==> b[k] >= pivot
      decreases right - left + 1, if left <= right && b[left] >= pivot && b[right] < pivot then 1 else 0
    {
      if b[left] < pivot {
        left := left + 1;
      } else if b[right] >= pivot {
        right := right - 1;
      } else {
        SwapKeepsPermutation(a, b, left, right, start, end);
        b := Swap(b, left, right);
      }
    }
  }

  /**
   * partition on [start, end): the middle element is the pivot; it is
   * parked at end - 1 for the scan and then swapped into its final place,
   * which is returned.
   */
  method Partition(a: seq<int>, start: int, end: int) returns (b: seq<int>, mid: int)
    requires 0 <= start && end <= |a| && end - start >= 2
    ensures PermutesRange(a, b, start, end)
    ensures start <= mid < end
    ensures b[mid] == a[start + (end - start) / 2]
    ensures forall k :: start <= k < mid ==> b[k] < b[mid]
    ensures forall k :: mid < k < end ==> b[k] >= b[mid]
  {
    var pivotIndex := start + (end - start) / 2;
    var parked := ParkPivot(a, start, end, pivotIndex);
    var scanned, left := PartitionScan(parked, start, end);
    PermutesTransitive(a, parked, scanned, start, end);
    b, mid := PlacePivot(a, scanned, start, end, left);
  }

  /** The first swap of partition: the pivot value is parked at end - 1. */
  function ParkPivot(a: seq<int>, start: int, end: int, pivotIndex: int): (p: seq<int>)
    requires 0 <= start <= pivotIndex < end <= |a|
    ensures PermutesRange(a, p, start, end) && p[end - 1] == a[pivotIndex]
  {
    SwapKeepsPermutation(a, a, pivotIndex, end - 1, start, end);
    Swap(a, pivotIndex, end - 1)
  }

  /** The final swap of partition: the parked pivot moves to the boundary the scan found. */
  lemma PlacePivotBounds(s: seq<int>, start: int, end: int, left: int)
    requires 0 <= start && end <= |s| && start <= left <= end - 1
    requires forall k :: start <= k < left ==> s[k] < s[end - 1]
    requires forall k :: left <= k < end - 1 ==> s[k] >= s[end - 1]
    ensures var b := Swap(s, left, end - 1);
            && b[left] == s[end - 1]
            && (forall k :: start <= k < left ==> b[k] < b[left])
            && (forall k :: left < k < end ==> b[k] >= b[left])
  {
  }

  method PlacePivot(a: seq<int>, s: seq<int>, start: int, end: int, left: int) returns (b: seq<int>, mid: int)
    requires 0 <= start && end <= |a| && start <= left <= end - 1
    requires PermutesRange(a, s, start, end)
    requires forall k :: start <= k < left ==> s[k] < s[end - 1]
    requires forall k :: left <= k < end - 1 ==> s[k] >= s[end - 1]
    ensures PermutesRange(a, b, start, end) && mid == left && b[mid] == s[end - 1]
    ensures forall k :: start <= k < mid ==> b[k] < b[mid]
    ensures forall k :: mid < k < end ==> b[k] >= b[mid]
  {
    SwapKeepsPermutation(a, s, left, end - 1, start, end);
    PlacePivotBounds(s, start, end, left);
    b := Swap(s, left, end - 1);
    mid := left;
  }

  lemma PermutesTransitive(a: seq<int>, b: seq<int>, c: seq<int>, lo: int, hi: int)
    requires 0 <= lo <= hi <= |a|
    requires PermutesRange(a, b, lo, hi) && PermutesRange(b, c, lo, hi)
    ensures PermutesRange(a, c, lo, hi)
  {
  }

  // ---------------------------------------------------------------------
  // partition as written, with unsigned indices
  // ---------------------------------------------------------------------

  /** A run of the unsigned-index partition: it finishes, or reads outside the array. */
  datatype Outcome = Done(s: seq<int>, index: nat) | OutOfBounds(index: nat)

  /**
   * The scanning loop with `unsigned long` indices: `--right_index` at 0
   * wraps to 2^64 - 1, after which the loop keeps running and reads
   * arr[right_index]. A read at an index past the array is reported as
   * OutOfBounds and ends the run.
   */
  function ScanAsWritten(s: seq<int>, pivot: int, left: u64, right: u64): (r: Outcome)
    requires |s| < TWO64
    ensures r.Done? ==> |r.s| == |s| && multiset(r.s) == multiset(s)
    ensures r.OutOfBounds? ==> r.index >= |s|
    decreases if right < |s| then right + 1 else 0,
              if left <= |s| then |s| - left else 0,
              if left <= right && right < |s| && s[left] >= pivot && s[right] < pivot then 1 else 0
  {
    if left > right then Done(s, left)
    else if left >= |s| then OutOfBounds(left)
    else if s[left] < pivot then ScanAsWritten(s, pivot, left + 1, right)
    else if right >= |s| then OutOfBounds(right)
    else if s[right] >= pivot then ScanAsWritten(s, pivot, left, if right == 0 then TWO64 - 1 else right - 1)
    else ScanAsWritten(Swap(s, left, right), pivot, left, right)
  }

  /** partition exactly as written, on the whole array `s`. */
  function PartitionAsWritten(s: seq<int>, start: u64, end: u64): (r: Outcome)
    requires |s| < TWO64 && start < end <= |s| && end - start >= 2
    ensures r.Done? ==> r.index < |s| && |r.s| == |s| && multiset(r.s) == multiset(s)
    ensures r.OutOfBounds? ==> r.index >= |s|
  {
    var len := end - start;
    var pivotIndex := start + len / 2;
    var pivot := s[pivotIndex];
    var s1 := Swap(s, pivotIndex, end - 1);
    var r := ScanAsWritten(s1, pivot, start, start + (len - 2));
    if r.OutOfBounds? then r
    else if r.index < |r.s| then Done(Swap(r.s, r.index, end - 1), r.index)
    else OutOfBounds(r.index)
  }

  /**
   * With start = 0 and a pivot no larger than anything before it, the
   * right index steps below 0, wraps, and the next read is far outside
   * the array: here on [5, 5] and on [2, 1].
   */
  lemma PartitionAsWrittenWraps()
    ensures PartitionAsWritten([5, 5], 0, 2) == OutOfBounds(TWO64 - 1)
    ensures PartitionAsWritten([2, 1], 0, 2) == OutOfBounds(TWO64 - 1)
  {
    assert Swap([5, 5], 1, 1) == [5, 5];
    assert ScanAsWritten([5, 5], 5, 0, TWO64 - 1) == OutOfBounds(TWO64 - 1);
    assert ScanAsWritten([5, 5], 5, 0, 0) == OutOfBounds(TWO64 - 1);
    assert Swap([2, 1], 1, 1) == [2, 1];
    assert ScanAsWritten([2, 1], 1, 0, TWO64 - 1) == OutOfBounds(TWO64 - 1);
    assert ScanAsWritten([2, 1], 1, 0, 0) == OutOfBounds(TWO64 - 1);
  }

  /**
   * Away from index 0 the unsigned scan behaves like the signed one: with
   * start >= 1 the right index never steps below start - 1 >= 0, so it
   * never wraps, and the scan ends with [start, index) below the pivot and
   * [index, end - 1) at least the pivot.
   */
  lemma {:induction false} ScanAsWrittenAway(s: seq<int>, pivot: int, start: int, end: int, left: u64, right: u64)
    requires |s| < TWO64 && 1 <= start < end <= |s|
    requires start <= left <= end - 1 && start - 1 <= right <= end - 2 && left <= right + 1
    requires s[end - 1] == pivot
    requires forall k :: start <= k < left ==> s[k] < pivot
    requires forall k :: right < k < end - 1 ==> s[k] >= pivot
    ensures ScannedAround(s, pivot, start, end, ScanAsWritten(s, pivot, left, right))
    decreases right + 1 - left, if left <= right && s[left] >= pivot && s[right] < pivot then 1 else 0
  {
    if left > right {
      ScanEndsAround(s, pivot, start, end, left, right);
    } else if s[left] < pivot {
      ScanAsWrittenAway(s, pivot, start, end, left + 1, right);
      ScanLeftStep(s, pivot, start, end, left, right);
    } else if s[right] >= pivot {
      ScanAsWrittenAway(s, pivot, start, end, left, right - 1);
      ScanRightStep(s, pivot, start, end, left, right);
    } else {
      ScanSwapStep(s, pivot, start, end, left, right);
      var t := Swap(s, left, right);
      ScanAsWrittenAway(t, pivot, start, end, left, right);
      ScannedAroundTransitive(s, t, pivot, start, end, ScanAsWritten(t, pivot, left, right));
    }
  }

  lemma ScanEndsAround(s: seq<int>, pivot: int, start: int, end: int, left: u64, right: u64)
    requires |s| < TWO64 && 1 <= start < end <= |s|
    requires start <= left <= end - 1 && left == right + 1
    requires s[end - 1] == pivot
    requires forall k :: start <= k < left ==> s[k] < pivot
    requires forall k :: right < k < end - 1 ==> s[k] >= pivot
    ensures ScannedAround(s, pivot, start, end, ScanAsWritten(s, pivot, left, right))
  {
  }

  lemma ScanLeftStep(s: seq<int>, pivot: int, start: int, end: int, left: u64, right: u64)
    requires |s| < TWO64 && 1 <= start < end <= |s|
    requires left <= right < |s| && s[left] < pivot
    requires ScannedAround(s, pivot, start, end, ScanAsWritten(s, pivot, left + 1, right))
    ensures ScannedAround(s, pivot, start, end, ScanAsWritten(s, pivot, left, right))
  {
    assert ScanAsWritten(s, pivot, left, right) == ScanAsWritten(s, pivot, left + 1, right);
  }

  /** Away from index 0, stepping the right index down does not wrap. */
  lemma ScanRightStep(s: seq<int>, pivot: int, start: int, end: int, left: u64, right: u64)
    requires |s| < TWO64 && 1 <= start < end <= |s|
    requires 1 <= left <= right < |s| && s[left] >= pivot && s[right] >= pivot
    requires ScannedAround(s, pivot, start, end, ScanAsWritten(s, pivot, left, right - 1))
    ensures ScannedAround(s, pivot, start, end, ScanAsWritten(s, pivot, left, right))
  {
    assert ScanAsWritten(s, pivot, left, right) == ScanAsWritten(s, pivot, left, right - 1);
  }

  /** The swapping step of the scan keeps the scan's bounds and the permutation. */
  lemma ScanSwapStep(s: seq<int>, pivot: int, start: int, end: int, left: u64, right: u64)
    requires |s| < TWO64 && 1 <= start < end <= |s|
    requires start <= left <= right <= end - 2
    requires s[end - 1] == pivot && s[left] >= pivot && s[right] < pivot
    requires forall k :: start <= k < left ==> s[k] < pivot
    requires forall k :: right < k < end - 1 ==> s[k] >= pivot
    ensures var t := Swap(s, left, right);
            && ScanAsWritten(s, pivot, left, right) == ScanAsWritten(t, pivot, left, right)
            && PermutesRange(s, t, start, end) && t[end - 1] == pivot
            && t[left] < pivot && t[right] >= pivot
            && (forall k :: start <= k < left ==> t[k] < pivot)
            && (forall k :: right < k < end - 1 ==> t[k] >= pivot)
  {
    SwapKeepsPermutation(s, s, left, right, start, end);
  }

  /** A finished scan of [start, end) whose result splits around the parked pivot. */
  predicate ScannedAround(s: seq<int>, pivot: int, start: int, end: int, r: Outcome)
    requires 0 <= start < end <= |s|
  {
    && r.Done? && start <= r.index <= end - 1
    && PermutesRange(s, r.s, start, end) && r.s[end - 1] == pivot
    && (forall k :: start <= k < r.index ==> r.s[k] < pivot)
    && (forall k :: r.index <= k < end - 1 ==> r.s[k] >= pivot)
  }

  lemma ScannedAroundTransitive(s: seq<int>, t: seq<int>, pivot: int, start: int, end: int, r: Outcome)
    requires 0 <= start < end <= |s|
    requires PermutesRange(s, t, start, end) && ScannedAround(t, pivot, start, end, r)
    ensures ScannedAround(s, pivot, start, end, r)
  {
    PermutesTransitive(s, t, r.s, start, end);
  }

  /**
   * For every range that does not start at index 0, partition as written
   * finishes and meets the contract of the signed partition: a permutation
   * of [start, end) with the middle element at the returned index, smaller
   * values before it and the rest after it.
   */
  lemma PartitionAsWrittenAwayFromZero(s: seq<int>, start: u64, end: u64)
    requires |s| < TWO64 && 1 <= start < end <= |s| && end - start >= 2
    ensures var r := PartitionAsWritten(s, start, end);
            && r.Done? && start <= r.index < end
            && PermutesRange(s, r.s, start, end)
            && r.s[r.index] == s[start + (end - start) / 2]
            && (forall k :: start <= k < r.index ==> r.s[k] < r.s[r.index])
            && (forall k :: r.index < k < end ==> r.s[k] >= r.s[r.index])
  {
    var t, i := PartitionAwayScan(s, start, end);
    PlaceAfterScan(s, t, start, end, i);
  }

  /** The scan inside partition as written, away from index 0, and the result it leads to. */
  lemma PartitionAwayScan(s: seq<int>, start: u64, end: u64) returns (t: seq<int>, i: nat)
    requires |s| < TWO64 && 1 <= start < end <= |s| && end - start >= 2
    ensures PermutesRange(s, t, start, end) && start <= i <= end - 1
    ensures t[end - 1] == s[start + (end - start) / 2]
    ensures forall k :: start <= k < i ==> t[k] < t[end - 1]
    ensures forall k :: i <= k < end - 1 ==> t[k] >= t[end - 1]
    ensures PartitionAsWritten(s, start, end) == Done(Swap(t, i, end - 1), i)
  {
    var pivotIndex := start + (end - start) / 2;
    var s1 := ParkPivot(s, start, end, pivotIndex);
    t, i := ScanAwayResult(s1, s[pivotIndex], start, end);
    PermutesTransitive(s, s1, t, start, end);
    PartitionAsWrittenFinishes(s, start, end, t, i);
  }

  /** The whole scan from (start, end - 2), away from index 0, with its result named. */
  lemma ScanAwayResult(s: seq<int>, pivot: int, start: u64, end: u64) returns (t: seq<int>, i: nat)
    requires |s| < TWO64 && 1 <= start < end <= |s| && end - start >= 2
    requires s[end - 1] == pivot
    ensures ScanAsWritten(s, pivot, start, end - 2) == Done(t, i)
    ensures PermutesRange(s, t, start, end) && start <= i <= end - 1 && t[end - 1] == pivot
    ensures forall k :: start <= k < i ==> t[k] < pivot
    ensures forall k :: i <= k < end - 1 ==> t[k] >= pivot
  {
    ScanAsWrittenAway(s, pivot, start, end, start, end - 2);
    var r := ScanAsWritten(s, pivot, start, end - 2);
    t, i := r.s, r.index;
  }

  lemma PartitionAsWrittenFinishes(s: seq<int>, start: u64, end: u64, t: seq<int>, i: nat)
    requires |s| < TWO64 && start < end <= |s| && end - start >= 2
    requires 0 <= i < |t|
    requires ScanAsWritten(Swap(s, start + (end - start) / 2, end - 1), s[start + (end - start) / 2], start, end - 2) == Done(t, i)
    ensures PartitionAsWritten(s, start, end) == Done(Swap(t, i, end - 1), i)
  {
  }

  /** The final swap of partition, after a scan that kept [lo, hi) a permutation of `a`. */
  lemma PlaceAfterScan(a: seq<int>, t: seq<int>, start: int, end: int, i: int)
    requires 0 <= start && end <= |a| && start <= i <= end - 1
    requires PermutesRange(a, t, start, end)
    requires forall k :: start <= k < i ==> t[k] < t[end - 1]
    requires forall k :: i <= k < end - 1 ==> t[k] >= t[end - 1]
    ensures var b := Swap(t, i, end - 1);
            && PermutesRange(a, b, start, end) && b[i] == t[end - 1]
            && (forall k :: start <= k < i ==> b[k] < b[i])
            && (forall k :: i < k < end ==> b[k] >= b[i])
  {
    SwapKeepsPermutation(a, t, i, end - 1, start, end);
    PlacePivotBounds(t, start, end, i);
  }

  // ---------------------------------------------------------------------
  // The library sort
  // ---------------------------------------------------------------------

  function Insert(x: int, s: seq<int>): (r: seq<int>)
    requires Sorted(s)
    ensures Sorted(r) && multiset(r) == multiset(s) + multiset{x}
  {
    if |s| == 0 then [x]
    else if x <= s[0] then [x] + s
    else
      var rest := Insert(x, s[1..]);
      assert s == [s[0]] + s[1..];
      InsertedAtLeast(rest, s[1..], x, s[0]);
      [s[0]] + rest
  }

  /** Inserting a value no smaller than a lower bound of a sequence keeps the bound. */
  lemma InsertedAtLeast(r: seq<int>, t: seq<int>, x: int, lo: int)
    requires multiset(r) == multiset(t) + multiset{x}
    requires forall k :: 0 <= k < |t| ==> lo <= t[k]
    requires lo <= x
    ensures forall k :: 0 <= k < |r| ==> lo <= r[k]
  {
    forall k | 0 <= k < |r|
      ensures lo <= r[k]
    {
      assert r[k] in multiset(r);
      if r[k] != x {
        assert r[k] in multiset(t);
      }
    }
  }

  /**
   * The `qsort` call on short ranges. Only its contract matters here: it
   * sorts ascending under `compare` and permutes. Any sort meeting that
   * contract gives the same result, because a sorted permutation is unique.
   */
  function LibrarySort(s: seq<int>): (r: seq<int>)
    ensures Sorted(r) && multiset(r) == multiset(s)
  {
    if |s| == 0 then []
    else
      assert s == [s[0]] + s[1..];
      Insert(s[0], LibrarySort(s[1..]))
  }

  // ---------------------------------------------------------------------
  // Quicksort
  // ---------------------------------------------------------------------

  /** Permuting a sub-range permutes every range that contains it. */
  lemma PermutesWiden(a: seq<int>, b: seq<int>, lo: int, hi: int, lo': int, hi': int)
    requires 0 <= lo <= lo' <= hi' <= hi <= |a|
    requires PermutesRange(a, b, lo', hi')
    ensures PermutesRange(a, b, lo, hi)
  {
    assert a[lo..hi] == a[lo..lo'] + a[lo'..hi'] + a[hi'..hi];
    assert b[lo..hi] == b[lo..lo'] + b[lo'..hi'] + b[hi'..hi];
    assert b[lo..lo'] == b[..lo'][lo..] == a[..lo'][lo..] == a[lo..lo'];
    assert b[hi'..hi] == b[hi'..][..hi - hi'] == a[hi'..][..hi - hi'] == a[hi'..hi];
    assert b[..lo] == b[..lo'][..lo];
    assert a[..lo] == a[..lo'][..lo];
    assert b[hi..] == b[hi'..][hi - hi'..];
    assert a[hi..] == a[hi'..][hi - hi'..];
  }

  /** A strict upper bound on a range survives a permutation of that range. */
  lemma BelowPermuted(a: seq<int>, b: seq<int>, lo: int, hi: int, pivot: int)
    requires 0 <= lo <= hi <= |a| && PermutesRange(a, b, lo, hi)
    requires forall k :: lo <= k < hi ==> a[k] < pivot
    ensures forall k :: lo <= k < hi ==> b[k] < pivot
  {
    forall k | lo <= k < hi
      ensures b[k] < pivot
    {
      assert b[k] == b[lo..hi][k - lo];
      assert b[k] in multiset(a[lo..hi]);
      var j :| 0 <= j < hi - lo && a[lo..hi][j] == b[k];
      assert a[lo + j] == b[k];
    }
  }

  /** A lower bound on a range survives a permutation of that range. */
  lemma AtLeastPermuted(a: seq<int>, b: seq<int>, lo: int, hi: int, pivot: int)
    requires 0 <= lo <= hi <= |a| && PermutesRange(a, b, lo, hi)
    requires forall k :: lo <= k < hi ==> a[k] >= pivot
    ensures forall k :: lo <= k < hi ==> b[k] >= pivot
  {
    forall k | lo <= k < hi
      ensures b[k] >= pivot
    {
      assert b[k] == b[lo..hi][k - lo];
      assert b[k] in multiset(a[lo..hi]);
      var j :| 0 <= j < hi - lo && a[lo..hi][j] == b[k];
      assert a[lo + j] == b[k];
    }
  }

  /** Outside the permuted range nothing moves. */
  lemma PermutesOutside(a: seq<int>, b: seq<int>, lo: int, hi: int, k: int)
    requires 0 <= lo <= hi <= |a| && PermutesRange(a, b, lo, hi)
    requires 0 <= k < |a| && (k < lo || hi <= k)
    ensures b[k] == a[k]
  {
    if k < lo {
      assert b[k] == b[..lo][k];
    } else {
      assert b[k] == b[hi..][k - hi];
    }
  }

  /** The `qsort` branch: the library sorts the range in place. */
  function SortRange(a: seq<int>, start: int, end: int): (b: seq<int>)
    requires 0 <= start <= end <= |a|
    ensures PermutesRange(a, b, start, end) && SortedRange(b, start, end)
  {
    var sorted := LibrarySort(a[start..end]);
    assert |sorted| == |multiset(sorted)| == |multiset(a[start..end])| == end - start;
    var b := a[..start] + sorted + a[end..];
    assert b[..start] == a[..start];
    assert b[start..end] == sorted;
    assert b[end..] == a[end..];
    b
  }

  /**
   * quicksort on [start, end), the two halves sorted one after the other.
   * Ranges shorter than 2 are left alone; ranges no longer than the
   * threshold go to the library sort; longer ones are partitioned and
   * the parts before and after the pivot are sorted recursively.
   */
  method Quicksort(a: seq<int>, start: int, end: int, threshold: int) returns (b: seq<int>)
    requires 0 <= start <= end <= |a|
    ensures PermutesRange(a, b, start, end) && SortedRange(b, start, end)
    ensures end - start < 2 ==> b == a
    decreases end - start
  {
    var len := end - start;
    if len < 2 {
      return a;
    }
    if len <= threshold {
      return SortRange(a, start, end);
    }
    var p, mid := Partition(a, start, end);
    var l := Quicksort(p, start, mid, threshold);
    b := Quicksort(l, mid + 1, end, threshold);
    Combine(a, p, l, b, start, mid, end);
  }

  /** Sorted parts around a pivot placed between them make the whole range sorted. */
  lemma Combine(a: seq<int>, p: seq<int>, l: seq<int>, b: seq<int>, start: int, mid: int, end: int)
    requires 0 <= start <= mid < end <= |a|
    requires PermutesRange(a, p, start, end)
    requires forall k :: start <= k < mid ==> p[k] < p[mid]
    requires forall k :: mid < k < end ==> p[k] >= p[mid]
    requires PermutesRange(p, l, start, mid) && SortedRange(l, start, mid)
    requires PermutesRange(l, b, mid + 1, end) && SortedRange(b, mid + 1, end)
    ensures PermutesRange(a, b, start, end) && SortedRange(b, start, end)
  {
    var pivot := p[mid];
    PermutesWiden(p, l, start, end, start, mid);
    PermutesWiden(l, b, start, end, mid + 1, end);
    PermutesTransitive(a, p, l, start, end);
    PermutesTransitive(a, l, b, start, end);
    BelowPermuted(p, l, start, mid, pivot);
    PermutesOutside(p, l, start, mid, mid);
    forall k | mid < k < end
      ensures l[k] >= pivot
    {
      PermutesOutside(p, l, start, mid, k);
    }
    AtLeastPermuted(l, b, mid + 1, end, pivot);
    forall k | start <= k <= mid
      ensures b[k] == l[k]
    {
      PermutesOutside(l, b, mid + 1, end, k);
    }
  }
}
