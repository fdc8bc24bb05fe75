/**
 * Quick sort engine: Lomuto partition of the inclusive range [low, high]
 * around the last element, then recursion on [low, p-1] and [p+1, high].
 * A partition records a ChoosePivot step, a Compare step per scanned
 * element, a Swap step after each element not greater than the pivot is
 * moved into the low part, and a MovePivot step. Every step carries
 * iteration 0: the pass counter is never incremented.
 *
 * The specification is split in two: ScanArr, PartArr and QuickArr say how
 * the array is rearranged; ScanLog, PartitionLog and QuickLog say what is
 * recorded meanwhile, reading each snapshot off the array functions. The
 * engine is proved to produce both at once.
 */
module QuickSort {
  import opened Seqs
  import opened StepLog

  /** "Choose pivot": the snapshot before the scan, highlighting the pivot at high. */
  function PivotStep(s: seq<int>, high: int): Step {
    Step(s, ChoosePivot, Some(0), [high], [])
  }

  /** "Compare with pivot": the scanned element j against the pivot at high. */
  function CompareStep(s: seq<int>, j: int, high: int): Step {
    Step(s, Compare, Some(0), [j, high], [])
  }

  /** The snapshot after exchanging positions i and j of the scan. */
  function SwapStep(t: seq<int>, i: int, j: int): Step {
    Step(t, Swap, Some(0), [i, j], [i, j])
  }

  /** The snapshot after the pivot at high was exchanged into position p. */
  function MovePivotStep(t: seq<int>, p: int, high: int): Step {
    Step(t, MovePivot, Some(0), [p, high], [p, high])
  }

  /** An array together with a boundary or pivot index. */
  datatype Cut = Cut(arr: seq<int>, at: int)

  /** What a sort leaves: the array and the log. */
  datatype Sorting = Sorting(arr: seq<int>, steps: seq<Step>)

  // ---------------------------------------------------------------------
  // The array

  /**
   * The `for j` loop of partition from j on, with boundary i: an element not
   * greater than the pivot is exchanged into position i+1. Yields the array
   * and the final boundary.
   */
  function ScanArr(s: seq<int>, high: int, pivot: int, i: int, j: int): (r: Cut)
    requires -1 <= i < j <= high < |s|
    ensures |r.arr| == |s| && i <= r.at < high
    decreases high - j
  {
    if j == high then Cut(s, i)
    else if s[j] <= pivot then ScanArr(Swapped(s, i + 1, j), high, pivot, i + 1, j + 1)
    else ScanArr(s, high, pivot, i, j + 1)
  }

  /** partition(arr, low, high): scan, then exchange the pivot into position i+1 and return that index. */
  function PartArr(s: seq<int>, low: int, high: int): (r: Cut)
    requires 0 <= low < high < |s|
    ensures |r.arr| == |s| && low <= r.at <= high
  {
    var c := ScanArr(s, high, s[high], low - 1, low);
    Cut(Swapped(c.arr, c.at + 1, high), c.at + 1)
  }

  /** quickSortRecursive(arr, low, high): partition a range of two or more, then sort both sides. */
  function QuickArr(s: seq<int>, low: int, high: int): (r: seq<int>)
    requires 0 <= low <= high + 1 <= |s|
    ensures |r| == |s|
    decreases high - low
  {
    if low < high then
      var c := PartArr(s, low, high);
      QuickArr(QuickArr(c.arr, low, c.at - 1), c.at + 1, high)
    else s
  }

  // ---------------------------------------------------------------------
  // The log

  /** The steps the `for j` loop of partition appends to `steps`, scanning from j on with boundary i. */
  function ScanLog(s: seq<int>, high: int, pivot: int, i: int, j: int, steps: seq<Step>): seq<Step>
    requires -1 <= i < j <= high < |s|
    decreases high - j
  {
    if j == high then steps
    else
      var st := steps + [CompareStep(s, j, high)];
      if s[j] <= pivot then
        var t := Swapped(s, i + 1, j);
        ScanLog(t, high, pivot, i + 1, j + 1, st + [SwapStep(t, i + 1, j)])
      else ScanLog(s, high, pivot, i, j + 1, st)
  }

  /** The steps partition(arr, low, high) appends: the pivot choice, the scan, the pivot move. */
  function PartitionLog(s: seq<int>, low: int, high: int, steps: seq<Step>): seq<Step>
    requires 0 <= low < high < |s|
  {
    var r := PartArr(s, low, high);
    ScanLog(s, high, s[high], low - 1, low, steps + [PivotStep(s, high)]) + [MovePivotStep(r.arr, r.at, high)]
  }

  /** The steps quickSortRecursive(arr, low, high) appends: a partition, then both sides in turn. */
  function QuickLog(s: seq<int>, low: int, high: int, steps: seq<Step>): seq<Step>
    requires 0 <= low <= high + 1 <= |s|
    decreases high - low
  {
    if low < high then
      var c := PartArr(s, low, high);
      var l := QuickLog(c.arr, low, c.at - 1, PartitionLog(s, low, high, steps));
      QuickLog(QuickArr(c.arr, low, c.at - 1), c.at + 1, high, l)
    else steps
  }

  /** The sort as the engine calls it: the whole array, starting from an empty log. */
  function QuickSorting(s: seq<int>): Sorting {
    Sorting(QuickArr(s, 0, |s| - 1), QuickLog(s, 0, |s| - 1, []))
  }

  // ---------------------------------------------------------------------
  // Rearranging inside a range

  /** t differs from s only inside [lo, hi], and holds the same elements. */
  ghost predicate PermutesRange(s: seq<int>, t: seq<int>, lo: int, hi: int) {
    && 0 <= lo <= hi + 1 <= |s| && |t| == |s|
    && (forall k :: 0 <= k < |s| && (k < lo || hi < k) ==> t[k] == s[k])
    && multiset(t) == multiset(s)
  }

  /** A sequence's multiset, cut in three at lo and hi + 1. */
  lemma {:induction false} MultisetThreeParts(s: seq<int>, lo: int, hi: int)
    requires 0 <= lo <= hi + 1 <= |s|
    ensures multiset(s) == multiset(s[..lo]) + multiset(s[lo..hi + 1]) + multiset(s[hi + 1..])
  {
    assert s == s[..lo] + s[lo..hi + 1] + s[hi + 1..];
  }

  /** Equal outer parts cancel from equal multiset sums. */
  lemma {:induction false} MultisetCancel(a: multiset<int>, x: multiset<int>, y: multiset<int>, b: multiset<int>)
    requires a + x + b == a + y + b
    ensures x == y
  {
    forall v ensures x[v] == y[v] {
      assert (a + x + b)[v] == (a + y + b)[v];
    }
  }

  /** A rearrangement of [lo, hi] holds the same elements inside [lo, hi]. */
  lemma {:induction false} RangeMultiset(s: seq<int>, t: seq<int>, lo: int, hi: int)
    requires PermutesRange(s, t, lo, hi)
    ensures multiset(t[lo..hi + 1]) == multiset(s[lo..hi + 1])
  {
    assert t[..lo] == s[..lo];
    assert t[hi + 1..] == s[hi + 1..];
    MultisetThreeParts(s, lo, hi);
    MultisetThreeParts(t, lo, hi);
    MultisetCancel(multiset(s[..lo]), multiset(t[lo..hi + 1]), multiset(s[lo..hi + 1]), multiset(s[hi + 1..]));
  }

  /** Exchanging two positions inside [lo, hi] only rearranges that range. */
  lemma {:induction false} SwapPermutesRange(s: seq<int>, x: int, y: int, lo: int, hi: int)
    requires 0 <= lo <= x <= hi < |s| && lo <= y <= hi
    ensures PermutesRange(s, Swapped(s, x, y), lo, hi)
  {
    SwappedPermutes(s, x, y);
  }

  /** Two rearrangements of the same range make one. */
  lemma {:induction false} PermutesRangeTrans(s: seq<int>, t: seq<int>, u: seq<int>, lo: int, hi: int)
    requires PermutesRange(s, t, lo, hi) && PermutesRange(t, u, lo, hi)
    ensures PermutesRange(s, u, lo, hi)
  {
  }

  /** A rearrangement of [a, b] is a rearrangement of every range around it. */
  lemma {:induction false} PermutesRangeWiden(s: seq<int>, t: seq<int>, a: int, b: int, lo: int, hi: int)
    requires PermutesRange(s, t, a, b) && 0 <= lo <= a && b <= hi < |s|
    ensures PermutesRange(s, t, lo, hi)
  {
  }

  /** Rearranging [lo, hi] keeps an upper bound on that range. */
  lemma {:induction false} RangeBoundAbove(s: seq<int>, t: seq<int>, lo: int, hi: int, x: int)
    requires PermutesRange(s, t, lo, hi)
    requires forall k :: lo <= k <= hi ==> s[k] <= x
    ensures forall k :: lo <= k <= hi ==> t[k] <= x
  {
    RangeMultiset(s, t, lo, hi);
    forall k | lo <= k <= hi ensures t[k] <= x {
      assert t[k] == t[lo..hi + 1][k - lo];
      assert t[k] in multiset(s[lo..hi + 1]);
      var m :| 0 <= m < |s[lo..hi + 1]| && s[lo..hi + 1][m] == t[k];
      assert s[lo + m] == t[k];
    }
  }

  /** Rearranging [lo, hi] keeps a strict lower bound on that range. */
  lemma {:induction false} RangeBoundBelow(s: seq<int>, t: seq<int>, lo: int, hi: int, x: int)
    requires PermutesRange(s, t, lo, hi)
    requires forall k :: lo <= k <= hi ==> s[k] > x
    ensures forall k :: lo <= k <= hi ==> t[k] > x
  {
    RangeMultiset(s, t, lo, hi);
    forall k | lo <= k <= hi ensures t[k] > x {
      assert t[k] == t[lo..hi + 1][k - lo];
      assert t[k] in multiset(s[lo..hi + 1]);
      var m :| 0 <= m < |s[lo..hi + 1]| && s[lo..hi + 1][m] == t[k];
      assert s[lo + m] == t[k];
    }
  }

  // ---------------------------------------------------------------------
  // The partition: order and permutation

  /**
   * The scan keeps its invariant: [low, i] holds elements not greater than the
   * pivot, (i, j) elements greater than it; at the end (i, high) is all greater.
   */
  lemma {:induction false} ScanSplits(s: seq<int>, low: int, high: int, pivot: int, i: int, j: int)
    requires 0 <= low && low - 1 <= i < j <= high < |s|
    requires forall k :: low <= k <= i ==> s[k] <= pivot
    requires forall k :: i < k < j ==> s[k] > pivot
    ensures forall k :: low <= k <= ScanArr(s, high, pivot, i, j).at ==> ScanArr(s, high, pivot, i, j).arr[k] <= pivot
    ensures forall k :: ScanArr(s, high, pivot, i, j).at < k < high ==> ScanArr(s, high, pivot, i, j).arr[k] > pivot
    decreases high - j
  {
    if j < high {
      if s[j] <= pivot {
        ScanSplits(Swapped(s, i + 1, j), low, high, pivot, i + 1, j + 1);
      } else {
        ScanSplits(s, low, high, pivot, i, j + 1);
      }
    }
  }

  /** The scan only writes positions after its boundary i and before high. */
  lemma {:induction false} ScanOutside(s: seq<int>, high: int, pivot: int, i: int, j: int)
    requires -1 <= i < j <= high < |s|
    ensures forall k :: 0 <= k < |s| && (k <= i || high <= k) ==> ScanArr(s, high, pivot, i, j).arr[k] == s[k]
    decreases high - j
  {
    if j < high {
      if s[j] <= pivot {
        ScanOutside(Swapped(s, i + 1, j), high, pivot, i + 1, j + 1);
      } else {
        ScanOutside(s, high, pivot, i, j + 1);
      }
    }
  }

  /** The scan only exchanges elements, so it keeps the multiset. */
  lemma {:induction false} ScanMultiset(s: seq<int>, high: int, pivot: int, i: int, j: int)
    requires -1 <= i < j <= high < |s|
    ensures multiset(ScanArr(s, high, pivot, i, j).arr) == multiset(s)
    decreases high - j
  {
    if j < high {
      if s[j] <= pivot {
        var t := Swapped(s, i + 1, j);
        assert ScanArr(s, high, pivot, i, j) == ScanArr(t, high, pivot, i + 1, j + 1);
        SwappedPermutes(s, i + 1, j);
        ScanMultiset(t, high, pivot, i + 1, j + 1);
      } else {
        assert ScanArr(s, high, pivot, i, j) == ScanArr(s, high, pivot, i, j + 1);
        ScanMultiset(s, high, pivot, i, j + 1);
      }
    }
  }

  /** The scan only rearranges [low, high-1], so the pivot stays at high. */
  lemma {:induction false} ScanPermutes(s: seq<int>, low: int, high: int, pivot: int)
    requires 0 <= low < high < |s|
    ensures PermutesRange(s, ScanArr(s, high, pivot, low - 1, low).arr, low, high - 1)
  {
    ScanOutside(s, high, pivot, low - 1, low);
    ScanMultiset(s, high, pivot, low - 1, low);
  }

  /** The final exchange puts the pivot between the two parts the scan left. */
  lemma {:induction false} PlacePivot(s: seq<int>, t: seq<int>, low: int, high: int, i: int)
    requires 0 <= low && low - 1 <= i < high < |s| && |t| == |s|
    requires PermutesRange(s, t, low, high - 1)
    requires forall k :: low <= k <= i ==> t[k] <= s[high]
    requires forall k :: i < k < high ==> t[k] > s[high]
    ensures var u := Swapped(t, i + 1, high);
            && u[i + 1] == s[high]
            && (forall k :: low <= k < i + 1 ==> u[k] <= s[high])
            && (forall k :: i + 1 < k <= high ==> u[k] > s[high])
            && PermutesRange(s, u, low, high)
  {
    var u := Swapped(t, i + 1, high);
    assert t[high] == s[high];
    PermutesRangeWiden(s, t, low, high - 1, low, high);
    SwapPermutesRange(t, i + 1, high, low, high);
    PermutesRangeTrans(s, t, u, low, high);
  }

  /**
   * The array side of partition: p in [low, high] with the pivot s[high] at p,
   * nothing greater than it in [low, p-1], only greater elements in [p+1, high],
   * and the range's elements rearranged; nothing outside [low, high] changes.
   */
  lemma {:induction false} PartArrSplits(s: seq<int>, low: int, high: int)
    requires 0 <= low < high < |s|
    ensures var r := PartArr(s, low, high);
            && low <= r.at <= high
            && r.arr[r.at] == s[high]
            && (forall k :: low <= k < r.at ==> r.arr[k] <= s[high])
            && (forall k :: r.at < k <= high ==> r.arr[k] > s[high])
            && PermutesRange(s, r.arr, low, high)
  {
    var c := ScanArr(s, high, s[high], low - 1, low);
    ScanSplits(s, low, high, s[high], low - 1, low);
    ScanPermutes(s, low, high, s[high]);
    PlacePivot(s, c.arr, low, high, c.at);
  }

  // ---------------------------------------------------------------------
  // What a partition records

  /** The scan records one Compare per scanned element and one Swap per element moved to the low part. */
  lemma {:induction false} ScanCounts(s: seq<int>, high: int, pivot: int, i: int, j: int, st: seq<Step>)
    requires -1 <= i < j <= high < |s|
    ensures CountKind(ScanLog(s, high, pivot, i, j, st), Compare) == CountKind(st, Compare) + (high - j)
    ensures CountKind(ScanLog(s, high, pivot, i, j, st), Swap) == CountKind(st, Swap) + (ScanArr(s, high, pivot, i, j).at - i)
    decreases high - j
  {
    if j < high {
      var c := CompareStep(s, j, high);
      CountKindAppend(st, [c], Compare);
      CountKindAppend(st, [c], Swap);
      if s[j] <= pivot {
        var t := Swapped(s, i + 1, j);
        var w := SwapStep(t, i + 1, j);
        CountKindAppend(st + [c], [w], Compare);
        CountKindAppend(st + [c], [w], Swap);
        ScanCounts(t, high, pivot, i + 1, j + 1, st + [c] + [w]);
      } else {
        ScanCounts(s, high, pivot, i, j + 1, st + [c]);
      }
    }
  }

  /** The scan records no ChoosePivot and no MovePivot step. */
  lemma {:induction false} ScanKinds(s: seq<int>, high: int, pivot: int, i: int, j: int, st: seq<Step>)
    requires -1 <= i < j <= high < |s|
    ensures CountKind(ScanLog(s, high, pivot, i, j, st), ChoosePivot) == CountKind(st, ChoosePivot)
    ensures CountKind(ScanLog(s, high, pivot, i, j, st), MovePivot) == CountKind(st, MovePivot)
    decreases high - j
  {
    if j < high {
      var c := CompareStep(s, j, high);
      CountKindAppend(st, [c], ChoosePivot);
      CountKindAppend(st, [c], MovePivot);
      if s[j] <= pivot {
        var t := Swapped(s, i + 1, j);
        var w := SwapStep(t, i + 1, j);
        CountKindAppend(st + [c], [w], ChoosePivot);
        CountKindAppend(st + [c], [w], MovePivot);
        ScanKinds(t, high, pivot, i + 1, j + 1, st + [c] + [w]);
      } else {
        ScanKinds(s, high, pivot, i, j + 1, st + [c]);
      }
    }
  }

  /**
   * A partition of [low, high] records one ChoosePivot, high - low Compares,
   * one Swap per element of [low, high-1] not greater than the pivot (p - low
   * of them) and one MovePivot.
   */
  lemma {:induction false} PartitionCounts(s: seq<int>, low: int, high: int, st: seq<Step>)
    requires 0 <= low < high < |s|
    ensures CountKind(PartitionLog(s, low, high, st), ChoosePivot) == CountKind(st, ChoosePivot) + 1
    ensures CountKind(PartitionLog(s, low, high, st), Compare) == CountKind(st, Compare) + (high - low)
    ensures CountKind(PartitionLog(s, low, high, st), Swap) == CountKind(st, Swap) + (PartArr(s, low, high).at - low)
    ensures CountKind(PartitionLog(s, low, high, st), MovePivot) == CountKind(st, MovePivot) + 1
  {
    var b := PivotStep(s, high);
    var r := PartArr(s, low, high);
    var sc := ScanLog(s, high, s[high], low - 1, low, st + [b]);
    var e := MovePivotStep(r.arr, r.at, high);
    ScanCounts(s, high, s[high], low - 1, low, st + [b]);
    ScanKinds(s, high, s[high], low - 1, low, st + [b]);
    CountKindSnoc(st, b, ChoosePivot);
    CountKindSnoc(st, b, Compare);
    CountKindSnoc(st, b, Swap);
    CountKindSnoc(st, b, MovePivot);
    CountKindSnoc(sc, e, ChoosePivot);
    CountKindSnoc(sc, e, Compare);
    CountKindSnoc(sc, e, Swap);
    CountKindSnoc(sc, e, MovePivot);
  }

  /** Every step the scan appends is tagged 0 and holds a full snapshot. */
  lemma {:induction false} ScanTagged(s: seq<int>, high: int, pivot: int, i: int, j: int, st: seq<Step>)
    requires -1 <= i < j <= high < |s|
    requires TaggedIn(st, |s|, 0, 1)
    ensures TaggedIn(ScanLog(s, high, pivot, i, j, st), |s|, 0, 1)
    decreases high - j
  {
    if j < high {
      var c := CompareStep(s, j, high);
      TaggedInAppend(st, [c], |s|, 0, 1);
      if s[j] <= pivot {
        var t := Swapped(s, i + 1, j);
        TaggedInAppend(st + [c], [SwapStep(t, i + 1, j)], |s|, 0, 1);
        ScanTagged(t, high, pivot, i + 1, j + 1, st + [c] + [SwapStep(t, i + 1, j)]);
      } else {
        ScanTagged(s, high, pivot, i, j + 1, st + [c]);
      }
    }
  }

  /** Every step a partition appends is tagged 0 and holds a full snapshot. */
  lemma {:induction false} PartitionTagged(s: seq<int>, low: int, high: int, st: seq<Step>)
    requires 0 <= low < high < |s|
    requires TaggedIn(st, |s|, 0, 1)
    ensures TaggedIn(PartitionLog(s, low, high, st), |s|, 0, 1)
  {
    var b := PivotStep(s, high);
    var r := PartArr(s, low, high);
    TaggedInAppend(st, [b], |s|, 0, 1);
    ScanTagged(s, high, s[high], low - 1, low, st + [b]);
    TaggedInAppend(ScanLog(s, high, s[high], low - 1, low, st + [b]), [MovePivotStep(r.arr, r.at, high)], |s|, 0, 1);
  }

  /** The scan never shortens the log. */
  lemma {:induction false} ScanGrows(s: seq<int>, high: int, pivot: int, i: int, j: int, st: seq<Step>)
    requires -1 <= i < j <= high < |s|
    ensures |ScanLog(s, high, pivot, i, j, st)| >= |st|
    decreases high - j
  {
    if j < high {
      var st' := st + [CompareStep(s, j, high)];
      if s[j] <= pivot {
        var t := Swapped(s, i + 1, j);
        ScanGrows(t, high, pivot, i + 1, j + 1, st' + [SwapStep(t, i + 1, j)]);
      } else {
        ScanGrows(s, high, pivot, i, j + 1, st');
      }
    }
  }

  /** A partition appends at least one step, and the last is a MovePivot holding the partitioned array. */
  lemma {:induction false} PartitionLast(s: seq<int>, low: int, high: int, st: seq<Step>)
    requires 0 <= low < high < |s|
    ensures |PartitionLog(s, low, high, st)| > |st|
    ensures Last(PartitionLog(s, low, high, st)).kind == MovePivot
    ensures Last(PartitionLog(s, low, high, st)).arrayState == PartArr(s, low, high).arr
  {
    ScanGrows(s, high, s[high], low - 1, low, st + [PivotStep(s, high)]);
  }

  // ---------------------------------------------------------------------
  // The recursion: order and permutation

  /** Partition only writes inside [low, high]. */
  lemma {:induction false} PartArrOutside(s: seq<int>, low: int, high: int)
    requires 0 <= low < high < |s|
    ensures forall k :: 0 <= k < |s| && (k < low || high < k) ==> PartArr(s, low, high).arr[k] == s[k]
  {
    ScanOutside(s, high, s[high], low - 1, low);
  }

  /** Partition only exchanges elements, so it keeps the multiset. */
  lemma {:induction false} PartArrMultiset(s: seq<int>, low: int, high: int)
    requires 0 <= low < high < |s|
    ensures multiset(PartArr(s, low, high).arr) == multiset(s)
  {
    var c := ScanArr(s, high, s[high], low - 1, low);
    ScanMultiset(s, high, s[high], low - 1, low);
    SwappedPermutes(c.arr, c.at + 1, high);
  }

  /** Sorting [low, high] changes nothing outside the range. */
  lemma {:induction false} QuickArrOutside(s: seq<int>, low: int, high: int)
    requires 0 <= low <= high + 1 <= |s|
    ensures forall k :: 0 <= k < |s| && (k < low || high < k) ==> QuickArr(s, low, high)[k] == s[k]
    decreases high - low
  {
    if low < high {
      var c := PartArr(s, low, high);
      PartArrOutside(s, low, high);
      QuickArrOutside(c.arr, low, c.at - 1);
      QuickArrOutside(QuickArr(c.arr, low, c.at - 1), c.at + 1, high);
    }
  }

  /** Sorting [low, high] keeps the multiset. */
  lemma {:induction false} QuickArrMultiset(s: seq<int>, low: int, high: int)
    requires 0 <= low <= high + 1 <= |s|
    ensures multiset(QuickArr(s, low, high)) == multiset(s)
    decreases high - low, 1
  {
    if high <= low {
      return;
    }
    var c := PartArr(s, low, high);
    PartArrMultiset(s, low, high);
    QuickSidesMultiset(c.arr, low, c.at, high);
  }

  /** Sorting both sides of a pivot at p keeps the multiset. */
  lemma {:induction false} QuickSidesMultiset(u: seq<int>, low: int, p: int, high: int)
    requires 0 <= low <= p <= high < |u|
    ensures multiset(QuickArr(QuickArr(u, low, p - 1), p + 1, high)) == multiset(u)
    decreases high - low, 0
  {
    QuickArrMultiset(u, low, p - 1);
    QuickArrMultiset(QuickArr(u, low, p - 1), p + 1, high);
  }

  /** Sorting [low, high] only rearranges that range. */
  lemma {:induction false} QuickArrPermutes(s: seq<int>, low: int, high: int)
    requires 0 <= low <= high + 1 <= |s|
    ensures PermutesRange(s, QuickArr(s, low, high), low, high)
  {
    QuickArrOutside(s, low, high);
    QuickArrMultiset(s, low, high);
  }

  /** Sorting [low, high] keeps an upper bound on that range. */
  lemma {:induction false} QuickArrAtMost(s: seq<int>, low: int, high: int, x: int)
    requires 0 <= low <= high + 1 <= |s|
    requires forall k :: low <= k <= high ==> s[k] <= x
    ensures forall k :: low <= k <= high ==> QuickArr(s, low, high)[k] <= x
  {
    QuickArrPermutes(s, low, high);
    RangeBoundAbove(s, QuickArr(s, low, high), low, high, x);
  }

  /** Sorting [low, high] keeps a strict lower bound on that range. */
  lemma {:induction false} QuickArrAbove(s: seq<int>, low: int, high: int, x: int)
    requires 0 <= low <= high + 1 <= |s|
    requires forall k :: low <= k <= high ==> s[k] > x
    ensures forall k :: low <= k <= high ==> QuickArr(s, low, high)[k] > x
  {
    QuickArrPermutes(s, low, high);
    RangeBoundBelow(s, QuickArr(s, low, high), low, high, x);
  }

  /** Sorting [low, high] leaves that range in ascending order. */
  lemma {:induction false} QuickArrSorted(s: seq<int>, low: int, high: int)
    requires 0 <= low <= high + 1 <= |s|
    ensures SortedBetween(QuickArr(s, low, high), low, high + 1)
    decreases high - low, 2
  {
    if low < high {
      var c := PartArr(s, low, high);
      QuickSplitSorted(s, low, high, c.arr, c.at);
    }
  }

  /** QuickArrSorted for one level, with the partition named. */
  lemma {:induction false} QuickSplitSorted(s: seq<int>, low: int, high: int, u: seq<int>, p: int)
    requires 0 <= low < high < |s|
    requires PartArr(s, low, high) == Cut(u, p)
    ensures SortedBetween(QuickArr(QuickArr(u, low, p - 1), p + 1, high), low, high + 1)
    decreases high - low, 1
  {
    var v := QuickArr(u, low, p - 1);
    QuickLowSide(s, low, high, u, p, v);
    var w := QuickArr(v, p + 1, high);
    QuickHighSide(v, low, p, high, s[high], w);
    QuickCombine(v, w, low, p, high, s[high]);
  }

  /** After the partition and the sort of its low side: the low side sorted and bounded, the rest as partitioned. */
  lemma {:induction false} QuickLowSide(s: seq<int>, low: int, high: int, u: seq<int>, p: int, v: seq<int>)
    requires 0 <= low < high < |s|
    requires PartArr(s, low, high) == Cut(u, p)
    requires v == QuickArr(u, low, p - 1)
    ensures low <= p <= high && |v| == |s| && v[p] == s[high]
    ensures forall k :: low <= k < p ==> v[k] <= s[high]
    ensures forall k :: p < k <= high ==> v[k] > s[high]
    ensures SortedBetween(v, low, p)
    decreases high - low, 0
  {
    PartArrSplits(s, low, high);
    QuickArrOutside(u, low, p - 1);
    QuickArrAtMost(u, low, p - 1, s[high]);
    QuickArrSorted(u, low, p - 1);
  }

  /** The sort of the high side [p+1, high] keeps it above the pivot and sorts it. */
  lemma {:induction false} QuickHighSide(v: seq<int>, low: int, p: int, high: int, x: int, w: seq<int>)
    requires 0 <= low <= p <= high < |v|
    requires w == QuickArr(v, p + 1, high)
    requires forall k :: p < k <= high ==> v[k] > x
    ensures |w| == |v|
    ensures forall k :: 0 <= k < |v| && (k < p + 1 || high < k) ==> w[k] == v[k]
    ensures forall k :: p < k <= high ==> w[k] > x
    ensures SortedBetween(w, p + 1, high + 1)
    decreases high - low, 0
  {
    QuickArrOutside(v, p + 1, high);
    QuickArrAbove(v, p + 1, high, x);
    QuickArrSorted(v, p + 1, high);
  }

  /**
   * Sorting both sides of a partition sorts the whole range: the low side
   * stays not greater than the pivot, the high side greater.
   */
  lemma {:induction false} QuickCombine(v: seq<int>, w: seq<int>, low: int, p: int, high: int, x: int)
    requires 0 <= low <= p <= high < |v| && |w| == |v| && v[p] == x
    requires forall k :: low <= k < p ==> v[k] <= x
    requires forall k :: 0 <= k < |v| && (k < p + 1 || high < k) ==> w[k] == v[k]
    requires forall k :: p < k <= high ==> w[k] > x
    requires SortedBetween(v, low, p) && SortedBetween(w, p + 1, high + 1)
    ensures SortedBetween(w, low, high + 1)
  {
    assert w[p] == x;
    forall a, b | low <= a < b < high + 1 ensures w[a] <= w[b] {
      if b < p {
        assert w[a] == v[a] && w[b] == v[b];
      } else if a < p {
        assert w[a] == v[a];
      }
    }
  }

  /** Quick sort's result is a sorted permutation of its input. */
  lemma {:induction false} QuickSortSorts(s: seq<int>)
    ensures Sorted(QuickSorting(s).arr)
    ensures multiset(QuickSorting(s).arr) == multiset(s)
  {
    var r := QuickSorting(s).arr;
    QuickArrPermutes(s, 0, |s| - 1);
    QuickArrSorted(s, 0, |s| - 1);
    assert r[0..|s|] == r && s[0..|s|] == s;
  }

  // ---------------------------------------------------------------------
  // The recursion: the log

  /** Every step the recursion appends is tagged 0 and holds a full snapshot. */
  lemma {:induction false} QuickLogTagged(s: seq<int>, low: int, high: int, st: seq<Step>)
    requires 0 <= low <= high + 1 <= |s|
    requires TaggedIn(st, |s|, 0, 1)
    ensures TaggedIn(QuickLog(s, low, high, st), |s|, 0, 1)
    decreases high - low, 1
  {
    if low < high {
      var c := PartArr(s, low, high);
      QuickSplitTagged(s, low, high, st, c.arr, c.at);
    }
  }

  /** QuickLogTagged for one level, with the partition named. */
  lemma {:induction false} QuickSplitTagged(s: seq<int>, low: int, high: int, st: seq<Step>, u: seq<int>, p: int)
    requires 0 <= low < high < |s|
    requires PartArr(s, low, high) == Cut(u, p)
    requires TaggedIn(st, |s|, 0, 1)
    ensures TaggedIn(QuickLog(QuickArr(u, low, p - 1), p + 1, high, QuickLog(u, low, p - 1, PartitionLog(s, low, high, st))), |s|, 0, 1)
    decreases high - low, 0
  {
    var m := PartitionLog(s, low, high, st);
    PartitionTagged(s, low, high, st);
    QuickLogTagged(u, low, p - 1, m);
    QuickLogTagged(QuickArr(u, low, p - 1), p + 1, high, QuickLog(u, low, p - 1, m));
  }

  /**
   * The log `steps` grew past `st`, and its last step is a MovePivot whose
   * snapshot is `arr`.
   */
  ghost predicate EndsWithMove(steps: seq<Step>, st: seq<Step>, arr: seq<int>) {
    |steps| > |st| && Last(steps).kind == MovePivot && Last(steps).arrayState == arr
  }

  /**
   * A range of fewer than two elements records nothing and changes nothing;
   * a larger one appends at least one step, and the last one is a MovePivot
   * whose snapshot is the array the call leaves: nothing changes after the
   * last partition.
   */
  lemma {:induction false} QuickLogLast(s: seq<int>, low: int, high: int, st: seq<Step>)
    requires 0 <= low <= high + 1 <= |s|
    ensures low >= high ==> QuickLog(s, low, high, st) == st && QuickArr(s, low, high) == s
    ensures low < high ==> EndsWithMove(QuickLog(s, low, high, st), st, QuickArr(s, low, high))
    decreases high - low, 1
  {
    if low < high {
      var c := PartArr(s, low, high);
      QuickSplitLast(s, low, high, st, c.arr, c.at);
    }
  }

  /** QuickLogLast for one level, with the partition named. */
  lemma {:induction false} QuickSplitLast(s: seq<int>, low: int, high: int, st: seq<Step>, u: seq<int>, p: int)
    requires 0 <= low < high < |s|
    requires PartArr(s, low, high) == Cut(u, p)
    ensures var v := QuickArr(u, low, p - 1);
            EndsWithMove(QuickLog(v, p + 1, high, QuickLog(u, low, p - 1, PartitionLog(s, low, high, st))), st,
                         QuickArr(v, p + 1, high))
    decreases high - low, 0
  {
    var m := PartitionLog(s, low, high, st);
    PartitionLast(s, low, high, st);
    var v := QuickArr(u, low, p - 1);
    var l := QuickLog(u, low, p - 1, m);
    QuickLogLast(u, low, p - 1, m);
    assert |l| > |st| && Last(l).kind == MovePivot && Last(l).arrayState == v;
    QuickLogLast(v, p + 1, high, l);
  }

  /**
   * The whole log: every step tagged 0 on a full snapshot; nothing for fewer
   * than two elements; otherwise the last step is the final MovePivot and its
   * snapshot is the sorted result.
   */
  lemma {:induction false} QuickSortLog(s: seq<int>)
    ensures TaggedIn(QuickSorting(s).steps, |s|, 0, 1)
    ensures |s| < 2 ==> QuickSorting(s).steps == []
    ensures |s| >= 2 ==> (|QuickSorting(s).steps| > 0
                          && Last(QuickSorting(s).steps).kind == MovePivot
                          && Last(QuickSorting(s).steps).arrayState == QuickSorting(s).arr)
  {
    QuickLogTagged(s, 0, |s| - 1, []);
    QuickLogLast(s, 0, |s| - 1, []);
  }

  // ---------------------------------------------------------------------
  // The engine

  /** partition(arr, low, high) on the array. */
  method PartitionRange(a: array<int>, low: int, high: int, steps0: seq<Step>) returns (p: int, steps: seq<Step>)
    requires 0 <= low < high < a.Length
    modifies a
    ensures Cut(a[..], p) == PartArr(old(a[..]), low, high)
    ensures steps == PartitionLog(old(a[..]), low, high, steps0)
  {
    var pivot := a[high];
    var i := low - 1;
    steps := steps0 + [PivotStep(a[..], high)];
    var j := low;
    while j < high
      invariant low - 1 <= i < j <= high
      invariant ScanArr(a[..], high, pivot, i, j) == ScanArr(old(a[..]), high, pivot, low - 1, low)
      invariant ScanLog(a[..], high, pivot, i, j, steps)
                == ScanLog(old(a[..]), high, pivot, low - 1, low, steps0 + [PivotStep(old(a[..]), high)])
    {
      steps := steps + [CompareStep(a[..], j, high)];
      if a[j] <= pivot {
        i := i + 1;
        ghost var s := a[..];
        a[i], a[j] := a[j], a[i];
        assert a[..] == Swapped(s, i, j);
        steps := steps + [SwapStep(a[..], i, j)];
      }
      j := j + 1;
    }
    ghost var s := a[..];
    a[i + 1], a[high] := a[high], a[i + 1];
    assert a[..] == Swapped(s, i + 1, high);
    steps := steps + [MovePivotStep(a[..], i + 1, high)];
    p := i + 1;
  }

  /** quickSortRecursive(arr, low, high) on the array. */
  method QuickSortRecursive(a: array<int>, low: int, high: int, steps0: seq<Step>) returns (steps: seq<Step>)
    requires 0 <= low <= high + 1 <= a.Length
    modifies a
    ensures a[..] == QuickArr(old(a[..]), low, high)
    ensures steps == QuickLog(old(a[..]), low, high, steps0)
    decreases high - low
  {
    if low < high {
      var p, st := PartitionRange(a, low, high, steps0);
      st := QuickSortRecursive(a, low, p - 1, st);
      steps := QuickSortRecursive(a, p + 1, high, st);
    } else {
      steps := steps0;
    }
  }

  /** Sorts `a` in place and returns the log. */
  method QuickSortWithSteps(a: array<int>) returns (steps: seq<Step>)
    modifies a
    ensures Sorting(a[..], steps) == QuickSorting(old(a[..]))
    ensures Sorted(a[..]) && multiset(a[..]) == multiset(old(a[..]))
  {
    steps := QuickSortRecursive(a, 0, a.Length - 1, []);
    QuickSortSorts(old(a[..]));
  }
}
