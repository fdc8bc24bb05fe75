/**
 * Selection sort recording, for every pass i < n-1: an AssumeMinimum step, a
 * Compare step per candidate j (followed by a NewMinimum step when the
 * candidate is strictly smaller), and one closing Swap or NoSwap step; every
 * step of pass i is tagged with i.
 *
 * ScanFrom (the inner `for`, which only reads the array) and Selection (the
 * outer `for`) describe what the loops compute.
 */
module SelectionSort {
  import opened Seqs
  import opened StepLog

  /** The step recorded when pass i assumes s[i] is the minimum. */
  function AssumeStep(s: seq<int>, i: int): Step {
    Step(s, AssumeMinimum, Some(i), [i], [])
  }

  /** The step recorded when pass i compares s[j] with the current minimum s[m]. */
  function CompareStep(s: seq<int>, i: int, j: int, m: int): Step {
    Step(s, Compare, Some(i), [j, m], [])
  }

  /** The step recorded when pass i finds the smaller candidate s[j]. */
  function NewMinStep(s: seq<int>, i: int, j: int): Step {
    Step(s, NewMinimum, Some(i), [j], [])
  }

  /** The step recorded after pass i exchanged positions i and m. */
  function SwapStep(t: seq<int>, i: int, m: int): Step {
    Step(t, Swap, Some(i), [], [i, m])
  }

  /** The step recorded when pass i found s[i] already minimal. */
  function NoSwapStep(s: seq<int>, i: int): Step {
    Step(s, NoSwap, Some(i), [], [])
  }

  /** The result of the inner loop: the index of the minimum and the log. */
  datatype Scan = Scan(minIndex: int, steps: seq<Step>)

  /** The steps recorded for candidate j: a Compare, and a NewMinimum when s[j] is smaller than s[m]. */
  function ScanPair(s: seq<int>, i: int, j: int, m: int): seq<Step>
    requires 0 <= j < |s| && 0 <= m < |s|
  {
    if s[j] < s[m] then [CompareStep(s, i, j, m), NewMinStep(s, i, j)] else [CompareStep(s, i, j, m)]
  }

  /** The minimum index after candidate j: j when strictly smaller, m otherwise. */
  function NextMin(s: seq<int>, j: int, m: int): int
    requires 0 <= j < |s| && 0 <= m < |s|
  {
    if s[j] < s[m] then j else m
  }

  /** The inner loop of pass i from candidate j on, with current minimum index m. */
  function ScanFrom(s: seq<int>, i: int, j: int, m: int, steps: seq<Step>): (r: Scan)
    requires 0 <= m < |s| && 0 <= j
    ensures 0 <= r.minIndex < |s| && (r.minIndex == m || j <= r.minIndex)
    decreases |s| - j
  {
    if j >= |s| then Scan(m, steps)
    else ScanFrom(s, i, j + 1, NextMin(s, j, m), steps + ScanPair(s, i, j, m))
  }

  /** What the sort leaves: the array and the log. */
  datatype Sorting = Sorting(arr: seq<int>, steps: seq<Step>)

  /** The index pass i selects: the first position of the minimum of s[i..]. */
  function MinIndex(s: seq<int>, i: int): (m: int)
    requires 0 <= i < |s|
    ensures i <= m < |s|
  {
    ScanFrom(s, i, i + 1, i, []).minIndex
  }

  /** One pass of the outer loop: find the minimum of s[i..] and exchange it into position i. */
  function SelectPass(s: seq<int>, i: int, steps: seq<Step>): (r: Sorting)
    requires 0 <= i < |s|
    ensures |r.arr| == |s|
  {
    var sc := ScanFrom(s, i, i + 1, i, steps + [AssumeStep(s, i)]);
    var m := sc.minIndex;
    if m != i then
      var t := Swapped(s, i, m);
      Sorting(t, sc.steps + [SwapStep(t, i, m)])
    else Sorting(s, sc.steps + [NoSwapStep(s, i)])
  }

  /** The outer loop from pass i on, given the steps recorded so far. */
  function Selection(s: seq<int>, i: nat, steps: seq<Step>): Sorting
    decreases |s| - i
  {
    if i + 1 >= |s| then Sorting(s, steps)
    else
      var p := SelectPass(s, i, steps);
      Selection(p.arr, i + 1, p.steps)
  }

  // ---------------------------------------------------------------------
  // The scan

  /** The index the scan ends on does not depend on the steps recorded before it. */
  lemma {:induction false} ScanIndexIgnoresLog(s: seq<int>, i: int, j: int, m: int, st: seq<Step>, st': seq<Step>)
    requires 0 <= m < |s| && 0 <= j
    ensures ScanFrom(s, i, j, m, st).minIndex == ScanFrom(s, i, j, m, st').minIndex
    decreases |s| - j
  {
    if j < |s| {
      var x := ScanPair(s, i, j, m);
      ScanIndexIgnoresLog(s, i, j + 1, NextMin(s, j, m), st + x, st' + x);
    }
  }

  /**
   * The scan ends on a minimum of s[i..], and on its first occurrence: every
   * element before it (from i on) is strictly greater.
   */
  lemma {:induction false} ScanFindsMin(s: seq<int>, i: int, j: int, m: int, st: seq<Step>)
    requires 0 <= i <= m < j && m < |s|
    requires forall k :: i <= k < j && k < |s| ==> s[m] <= s[k]
    requires forall k :: i <= k < m ==> s[k] > s[m]
    ensures forall k :: i <= k < |s| ==> s[ScanFrom(s, i, j, m, st).minIndex] <= s[k]
    ensures forall k :: i <= k < ScanFrom(s, i, j, m, st).minIndex ==> s[k] > s[ScanFrom(s, i, j, m, st).minIndex]
    decreases |s| - j
  {
    if j < |s| {
      ScanFindsMin(s, i, j + 1, NextMin(s, j, m), st + ScanPair(s, i, j, m));
    }
  }

  /** MinIndex(s, i) is the first position of the minimum of s[i..]. */
  lemma {:induction false} MinIndexSpec(s: seq<int>, i: int)
    requires 0 <= i < |s|
    ensures forall k :: i <= k < |s| ==> s[MinIndex(s, i)] <= s[k]
    ensures forall k :: i <= k < MinIndex(s, i) ==> s[k] > s[MinIndex(s, i)]
  {
    ScanFindsMin(s, i, i + 1, i, []);
  }

  /** The scan appends its steps after those recorded before it. */
  lemma {:induction false} ScanAppends(s: seq<int>, i: int, j: int, m: int, st: seq<Step>)
    requires 0 <= m < |s| && 0 <= j
    ensures ScanFrom(s, i, j, m, st).steps == st + ScanFrom(s, i, j, m, []).steps
    decreases |s| - j
  {
    if j < |s| {
      var x, m' := ScanPair(s, i, j, m), NextMin(s, j, m);
      var rest := ScanFrom(s, i, j + 1, m', []).steps;
      ScanAppends(s, i, j + 1, m', st + x);
      ScanAppends(s, i, j + 1, m', [] + x);
      assert [] + x == x;
      assert (st + x) + rest == st + (x + rest);
    } else {
      assert st + [] == st;
    }
  }

  /** The steps of the scan of pass i: a Compare per candidate, each possibly followed by a NewMinimum. */
  function ScanLog(s: seq<int>, i: int): seq<Step>
    requires 0 <= i < |s|
  {
    ScanFrom(s, i, i + 1, i, []).steps
  }

  /** Every scan step is a Compare or NewMinimum on the unchanged snapshot, tagged i. */
  lemma {:induction false} ScanShape(s: seq<int>, i: int, j: int, m: int)
    requires 0 <= m < |s| && 0 <= j
    ensures var r := ScanFrom(s, i, j, m, []).steps;
            forall k :: 0 <= k < |r| ==>
              r[k].arrayState == s && r[k].iteration == Some(i)
              && (r[k].kind == Compare || r[k].kind == NewMinimum)
    decreases |s| - j
  {
    if j < |s| {
      var x, m' := ScanPair(s, i, j, m), NextMin(s, j, m);
      ScanAppends(s, i, j + 1, m', [] + x);
      ScanShape(s, i, j + 1, m');
    }
  }

  /** The scan from candidate j records exactly one Compare per candidate j..n-1. */
  lemma {:induction false} ScanCompares(s: seq<int>, i: int, j: int, m: int)
    requires 0 <= m < |s| && 0 <= j <= |s|
    ensures CountKind(ScanFrom(s, i, j, m, []).steps, Compare) == |s| - j
    decreases |s| - j
  {
    if j < |s| {
      var x, m' := ScanPair(s, i, j, m), NextMin(s, j, m);
      ScanAppends(s, i, j + 1, m', [] + x);
      ScanCompares(s, i, j + 1, m');
      CountKindAppend(x, ScanFrom(s, i, j + 1, m', []).steps, Compare);
      PairCompares(s, i, j, m);
    }
  }

  /** Candidate j contributes exactly one Compare. */
  lemma {:induction false} PairCompares(s: seq<int>, i: int, j: int, m: int)
    requires 0 <= j < |s| && 0 <= m < |s|
    ensures CountKind(ScanPair(s, i, j, m), Compare) == 1
  {
    var c := CompareStep(s, i, j, m);
    if s[j] < s[m] {
      var n := NewMinStep(s, i, j);
      assert [c, n][1..] == [n] && [n][1..] == [];
      assert CountKind([n], Compare) == 0;
    } else {
      assert [c][1..] == [];
    }
  }

  // ---------------------------------------------------------------------
  // One pass

  /** Pass i exchanges position i with the first minimum of s[i..], or changes nothing when that is i itself. */
  lemma {:induction false} PassSelects(s: seq<int>, i: int, st: seq<Step>)
    requires 0 <= i < |s|
    ensures SelectPass(s, i, st).arr == if MinIndex(s, i) != i then Swapped(s, i, MinIndex(s, i)) else s
  {
    ScanIndexIgnoresLog(s, i, i + 1, i, st + [AssumeStep(s, i)], []);
  }

  /**
   * After pass i, position i holds the minimum of the suffix from i, the prefix
   * before i is untouched, and the multiset is unchanged.
   */
  lemma {:induction false} PassPlacesMin(s: seq<int>, i: int, st: seq<Step>)
    requires 0 <= i < |s|
    ensures forall k :: i <= k < |s| ==> SelectPass(s, i, st).arr[i] <= SelectPass(s, i, st).arr[k]
    ensures SelectPass(s, i, st).arr[..i] == s[..i]
    ensures multiset(SelectPass(s, i, st).arr) == multiset(s)
  {
    var m := MinIndex(s, i);
    PassSelects(s, i, st);
    MinIndexSpec(s, i);
    SwappedPermutes(s, i, m);
    var t := SelectPass(s, i, st).arr;
    forall k | i <= k < |s| ensures t[i] <= t[k] {
      if k != m && k != i && m != i {
        assert t[k] == s[k];
      }
    }
    assert t[..i] == s[..i];
  }

  /** Every element before i is at most every element after it. */
  ghost predicate Settled(s: seq<int>, i: int) {
    forall p, q :: 0 <= p < q < |s| && p < i ==> s[p] <= s[q]
  }

  /** A pass extends the settled prefix by one. */
  lemma {:induction false} PassSettles(s: seq<int>, i: int, st: seq<Step>)
    requires 0 <= i < |s| && Settled(s, i)
    ensures Settled(SelectPass(s, i, st).arr, i + 1)
  {
    var m := MinIndex(s, i);
    PassSelects(s, i, st);
    PassPlacesMin(s, i, st);
    var t := SelectPass(s, i, st).arr;
    forall p, q | 0 <= p < q < |t| && p < i + 1 ensures t[p] <= t[q] {
      if p < i {
        assert t[p] == s[p];
        if q != i && q != m {
          assert t[q] == s[q];
        }
      }
    }
  }

  /** The step closing pass i: a Swap of i and the minimum's index when they differ, NoSwap otherwise. */
  function Closing(s: seq<int>, i: int): Step
    requires 0 <= i < |s|
  {
    var m := MinIndex(s, i);
    if m != i then SwapStep(Swapped(s, i, m), i, m) else NoSwapStep(s, i)
  }

  /**
   * Pass i records an AssumeMinimum step, then its scan, then exactly one
   * closing step.
   */
  lemma {:induction false} PassLog(s: seq<int>, i: int, st: seq<Step>)
    requires 0 <= i < |s|
    ensures SelectPass(s, i, st).steps == st + [AssumeStep(s, i)] + ScanLog(s, i) + [Closing(s, i)]
  {
    var st0 := st + [AssumeStep(s, i)];
    ScanIndexIgnoresLog(s, i, i + 1, i, st0, []);
    ScanAppends(s, i, i + 1, i, st0);
  }

  /** Pass i makes n-1-i comparisons, records only steps tagged i, and ends with one Swap or NoSwap step. */
  lemma {:induction false} PassSteps(s: seq<int>, i: int)
    requires 0 <= i < |s|
    ensures var r := [AssumeStep(s, i)] + ScanLog(s, i) + [Closing(s, i)];
            && CountKind(r, Compare) == |s| - 1 - i
            && (forall k :: 0 <= k < |r| ==> |r[k].arrayState| == |s| && r[k].iteration == Some(i))
            && (forall k :: 0 <= k < |r| - 1 ==> r[k].kind != Swap && r[k].kind != NoSwap)
  {
    var x := ScanLog(s, i);
    ScanShape(s, i, i + 1, i);
    ScanCompares(s, i, i + 1, i);
    CountKindAppend([AssumeStep(s, i)] + x, [Closing(s, i)], Compare);
    CountKindAppend([AssumeStep(s, i)], x, Compare);
    var r := [AssumeStep(s, i)] + x + [Closing(s, i)];
    forall k | 0 <= k < |r| ensures |r[k].arrayState| == |s| && r[k].iteration == Some(i) {
      if 0 < k < |r| - 1 {
        assert r[k] == x[k - 1];
      }
    }
    forall k | 0 <= k < |r| - 1 ensures r[k].kind != Swap && r[k].kind != NoSwap {
      if 0 < k {
        assert r[k] == x[k - 1];
      }
    }
  }

  // ---------------------------------------------------------------------
  // The whole sort

  /** The outer loop only rearranges the array. */
  lemma {:induction false} SelectionPermutes(s: seq<int>, i: nat, st: seq<Step>)
    ensures multiset(Selection(s, i, st).arr) == multiset(s)
    decreases |s| - i
  {
    if i + 1 < |s| {
      var p := SelectPass(s, i, st);
      PassPlacesMin(s, i, st);
      SelectionPermutes(p.arr, i + 1, p.steps);
    }
  }

  /** With the prefix before i settled, the rest of the outer loop leaves the array sorted. */
  lemma {:induction false} SelectionSorts(s: seq<int>, i: nat, st: seq<Step>)
    requires Settled(s, i)
    ensures Sorted(Selection(s, i, st).arr)
    decreases |s| - i
  {
    if i + 1 < |s| {
      var p := SelectPass(s, i, st);
      PassSettles(s, i, st);
      SelectionSorts(p.arr, i + 1, p.steps);
    } else {
      assert Sorted(s) by {
        forall p, q | 0 <= p < q < |s| ensures s[p] <= s[q] {
          assert p < i;
        }
      }
    }
  }

  /** Every step the outer loop appends is tagged with a pass 0 <= i < n-1 and holds a full snapshot. */
  lemma {:induction false} SelectionLog(s: seq<int>, i: nat, st: seq<Step>)
    requires TaggedIn(st, |s|, 0, |s| - 1)
    ensures TaggedIn(Selection(s, i, st).steps, |s|, 0, |s| - 1)
    decreases |s| - i
  {
    if i + 1 < |s| {
      var p := SelectPass(s, i, st);
      var x := [AssumeStep(s, i)] + ScanLog(s, i) + [Closing(s, i)];
      PassLog(s, i, st);
      PassSteps(s, i);
      assert TaggedIn(x, |s|, 0, |s| - 1);
      TaggedInAppend(st, x, |s|, 0, |s| - 1);
      assert p.steps == st + x;
      SelectionLog(p.arr, i + 1, p.steps);
      assert Selection(s, i, st) == Selection(p.arr, i + 1, p.steps);
    }
  }

  /** The comparisons passes i..n-2 make: (n-1-i) + (n-2-i) + ... + 1. */
  function RemainingCompares(n: int, i: int): int
    decreases n - i
  {
    if i + 1 >= n then 0 else (n - 1 - i) + RemainingCompares(n, i + 1)
  }

  /** The sum in closed form, doubled: 2 * ((n-1-i) + ... + 1) == (n-1-i)(n-i). */
  lemma {:induction false} RemainingComparesSum(n: int, i: int)
    requires 0 <= i < n
    ensures 2 * RemainingCompares(n, i) == (n - 1 - i) * (n - i)
    decreases n - i
  {
    if i + 1 < n {
      RemainingComparesSum(n, i + 1);
      var m := n - 1 - i;
      assert (m - 1) * m + 2 * m == m * (m + 1);
    }
  }

  /** One pass adds exactly n-1-i Compare steps to the log. */
  lemma {:induction false} PassCompares(s: seq<int>, i: int, st: seq<Step>)
    requires 0 <= i < |s|
    ensures CountKind(SelectPass(s, i, st).steps, Compare) == CountKind(st, Compare) + (|s| - 1 - i)
  {
    var x := [AssumeStep(s, i)] + ScanLog(s, i) + [Closing(s, i)];
    PassLog(s, i, st);
    PassSteps(s, i);
    assert SelectPass(s, i, st).steps == st + x;
    CountKindAppend(st, x, Compare);
  }

  /** Each pass i compares position i's running minimum with every later position, whatever the data. */
  lemma {:induction false} SelectionCompares(s: seq<int>, i: nat, st: seq<Step>)
    ensures CountKind(Selection(s, i, st).steps, Compare) == CountKind(st, Compare) + RemainingCompares(|s|, i)
    decreases |s| - i
  {
    if i + 1 < |s| {
      var p := SelectPass(s, i, st);
      PassCompares(s, i, st);
      SelectionCompares(p.arr, i + 1, p.steps);
      assert Selection(s, i, st) == Selection(p.arr, i + 1, p.steps);
    }
  }

  /**
   * The whole log: every step holds a full snapshot and is tagged with its
   * pass 0..n-2, and there are exactly n(n-1)/2 Compare steps (stated doubled).
   */
  lemma {:induction false} SelectionSortLog(s: seq<int>)
    ensures TaggedIn(Selection(s, 0, []).steps, |s|, 0, |s| - 1)
    ensures 2 * CountKind(Selection(s, 0, []).steps, Compare) == |s| * (|s| - 1)
  {
    SelectionLog(s, 0, []);
    SelectionCompares(s, 0, []);
    var n := |s|;
    if n > 0 {
      RemainingComparesSum(n, 0);
      assert (n - 1 - 0) * (n - 0) == n * (n - 1);
    }
  }

  /** Selection sort's result is a sorted permutation of its input. */
  lemma {:induction false} SelectionSortSorts(s: seq<int>)
    ensures Sorted(Selection(s, 0, []).arr)
    ensures multiset(Selection(s, 0, []).arr) == multiset(s)
  {
    SelectionSorts(s, 0, []);
    SelectionPermutes(s, 0, []);
  }

  // ---------------------------------------------------------------------
  // The engine

  /** The inner `for` of pass i: scans a[i+1..] for a smaller element, recording its steps. */
  method FindMinimum(a: array<int>, i: int, steps0: seq<Step>) returns (minIndex: int, steps: seq<Step>)
    requires 0 <= i < a.Length
    ensures Scan(minIndex, steps) == ScanFrom(a[..], i, i + 1, i, steps0)
  {
    minIndex, steps := i, steps0;
    var j := i + 1;
    while j < a.Length
      invariant 0 <= minIndex < a.Length && i + 1 <= j
      invariant ScanFrom(a[..], i, j, minIndex, steps) == ScanFrom(a[..], i, i + 1, i, steps0)
    {
      ghost var st, m := steps, minIndex;
      steps := steps + [CompareStep(a[..], i, j, minIndex)];
      if a[j] < a[minIndex] {
        minIndex := j;
        steps := steps + [NewMinStep(a[..], i, minIndex)];
      }
      assert steps == st + ScanPair(a[..], i, j, m);
      j := j + 1;
    }
  }

  /** Sorts `a` in place and returns the log. */
  method SelectionSortWithSteps(a: array<int>) returns (steps: seq<Step>)
    modifies a
    ensures Sorting(a[..], steps) == Selection(old(a[..]), 0, [])
    ensures Sorted(a[..]) && multiset(a[..]) == multiset(old(a[..]))
  {
    steps := [];
    var i := 0;
    while i < a.Length - 1
      invariant Selection(a[..], i, steps) == Selection(old(a[..]), 0, [])
    {
      ghost var s, steps0 := a[..], steps;
      var minIndex;
      minIndex, steps := FindMinimum(a, i, steps + [AssumeStep(a[..], i)]);
      if minIndex != i {
        a[i], a[minIndex] := a[minIndex], a[i];
        steps := steps + [SwapStep(a[..], i, minIndex)];
      } else {
        steps := steps + [NoSwapStep(a[..], i)];
      }
      assert SelectPass(s, i, steps0) == Sorting(a[..], steps);
      i := i + 1;
    }
    SelectionSortSorts(old(a[..]));
  }
}
