/**
 * Merge sort engine: top-down recursion on the inclusive range
 * [left, right], splitting at the floor of the midpoint, and a merge that
 * copies both runs out, writes them back in order (ties taken from the left
 * run) and records a Merge, a Compare per pair consumed and a Merged step.
 * Every step carries iteration 0: the pass counter is never incremented.
 */
module MergeSort {
  import opened Seqs
  import opened StepLog

  /** "Merge two sorted subarrays": snapshot before the merge. */
  function BeginStep(s: seq<int>): Step {
    Step(s, MergeBegin, Some(0), [], [])
  }

  /** The runs' current heads, at their original positions p (left) and q (right). */
  function CompareStep(s: seq<int>, p: int, q: int): Step {
    Step(s, Compare, Some(0), [p, q], [])
  }

  /** "Merged subarrays into": snapshot after the merge, highlighting the range ends. */
  function MergedStep(s: seq<int>, left: int, right: int): Step {
    Step(s, Merged, Some(0), [left, right], [])
  }

  /** What a call leaves behind: the array and the log. */
  datatype Sorting = Sorting(arr: seq<int>, steps: seq<Step>)

  // ---------------------------------------------------------------------
  // Specification of one merge

  /**
   * Whether the next element comes from the left run: it is not used up and
   * either the right run is, or the left head is not greater than the right one.
   */
  predicate TakeLeft(L: seq<int>, R: seq<int>, i: nat, j: nat)
    requires i <= |L| && j <= |R|
  {
    i < |L| && (j == |R| || L[i] <= R[j])
  }

  /** The merge of L[i..] and R[j..], taking the left head whenever it is not greater. */
  function Merge(L: seq<int>, R: seq<int>, i: nat, j: nat): seq<int>
    requires i <= |L| && j <= |R|
    decreases |L| - i + |R| - j
  {
    if i == |L| && j == |R| then []
    else if TakeLeft(L, R, i, j) then [L[i]] + Merge(L, R, i + 1, j)
    else [R[j]] + Merge(L, R, i, j + 1)
  }

  /**
   * The three loops of merge on runs L = s0[left..mid+1] and R = s0[mid+1..right+1]
   * from i, j on: the next output position is left + i + j, and a Compare
   * step is recorded only while both runs have elements left (afterwards the
   * rest of L, then the rest of R, is copied silently).
   */
  function MergeLoop(s: seq<int>, L: seq<int>, R: seq<int>, left: int, mid: int, i: nat, j: nat, steps: seq<Step>): (r: Sorting)
    requires 0 <= left && i <= |L| && j <= |R| && left + |L| + |R| <= |s|
    ensures |r.arr| == |s|
    decreases |L| - i + |R| - j
  {
    if i == |L| && j == |R| then Sorting(s, steps)
    else
      var k := left + i + j;
      var st := if i < |L| && j < |R| then steps + [CompareStep(s, left + i, mid + 1 + j)] else steps;
      if TakeLeft(L, R, i, j) then MergeLoop(s[k := L[i]], L, R, left, mid, i + 1, j, st)
      else MergeLoop(s[k := R[j]], L, R, left, mid, i, j + 1, st)
  }

  /** The array merge(arr, left, mid, right) leaves. */
  function MergeArr(s: seq<int>, left: int, mid: int, right: int): (r: seq<int>)
    requires 0 <= left <= mid < right < |s|
    ensures |r| == |s|
  {
    MergeLoop(s, s[left..mid + 1], s[mid + 1..right + 1], left, mid, 0, 0, []).arr
  }

  /** The steps merge(arr, left, mid, right) records: Merge, the loops' Compare steps, Merged. */
  function MergeLog(s: seq<int>, left: int, mid: int, right: int): seq<Step>
    requires 0 <= left <= mid < right < |s|
  {
    [BeginStep(s)]
    + MergeLoop(s, s[left..mid + 1], s[mid + 1..right + 1], left, mid, 0, 0, []).steps
    + [MergedStep(MergeArr(s, left, mid, right), left, right)]
  }

  /** The array mergeSortRecursive(arr, left, right) leaves. */
  function SortRange(s: seq<int>, left: int, right: int): (r: seq<int>)
    requires 0 <= left && right < |s|
    ensures |r| == |s|
    decreases right - left
  {
    if left >= right then s
    else
      var mid := (left + right) / 2;
      MergeArr(SortRange(SortRange(s, left, mid), mid + 1, right), left, mid, right)
  }

  /** The steps mergeSortRecursive(arr, left, right) records: the left half's, the right half's, the merge's. */
  function RangeLog(s: seq<int>, left: int, right: int): seq<Step>
    requires 0 <= left && right < |s|
    decreases right - left
  {
    if left >= right then []
    else
      var mid := (left + right) / 2;
      var a := SortRange(s, left, mid);
      RangeLog(s, left, mid) + RangeLog(a, mid + 1, right) + MergeLog(SortRange(a, mid + 1, right), left, mid, right)
  }

  /** The sort as the engine calls it: the whole array. */
  function MergeSorting(s: seq<int>): Sorting {
    Sorting(SortRange(s, 0, |s| - 1), RangeLog(s, 0, |s| - 1))
  }

  // ---------------------------------------------------------------------
  // The merged sequence

  /** The merge holds exactly the remaining elements of both runs. */
  lemma {:induction false} MergePermutes(L: seq<int>, R: seq<int>, i: nat, j: nat)
    requires i <= |L| && j <= |R|
    ensures multiset(Merge(L, R, i, j)) == multiset(L[i..]) + multiset(R[j..])
    decreases |L| - i + |R| - j
  {
    if i == |L| && j == |R| {
      assert L[i..] == [] && R[j..] == [];
    } else if TakeLeft(L, R, i, j) {
      MergePermutes(L, R, i + 1, j);
      SuffixMultiset(L, i);
    } else {
      MergePermutes(L, R, i, j + 1);
      SuffixMultiset(R, j);
    }
  }

  /** The merge is as long as the two remainders together. */
  lemma {:induction false} MergeLength(L: seq<int>, R: seq<int>, i: nat, j: nat)
    requires i <= |L| && j <= |R|
    ensures |Merge(L, R, i, j)| == |L| - i + |R| - j
    decreases |L| - i + |R| - j
  {
    if i == |L| && j == |R| {
    } else if TakeLeft(L, R, i, j) {
      MergeLength(L, R, i + 1, j);
    } else {
      MergeLength(L, R, i, j + 1);
    }
  }

  /** Every element of the merge is at least b when every remaining element of both runs is. */
  lemma {:induction false} MergeBounded(L: seq<int>, R: seq<int>, i: nat, j: nat, b: int)
    requires i <= |L| && j <= |R|
    requires forall p :: i <= p < |L| ==> b <= L[p]
    requires forall q :: j <= q < |R| ==> b <= R[q]
    ensures forall p :: 0 <= p < |Merge(L, R, i, j)| ==> b <= Merge(L, R, i, j)[p]
    decreases |L| - i + |R| - j
  {
    if i == |L| && j == |R| {
    } else if TakeLeft(L, R, i, j) {
      MergeBounded(L, R, i + 1, j, b);
    } else {
      MergeBounded(L, R, i, j + 1, b);
    }
  }

  /** Merging two sorted runs gives a sorted sequence. */
  lemma {:induction false} MergeSorted(L: seq<int>, R: seq<int>, i: nat, j: nat)
    requires i <= |L| && j <= |R| && Sorted(L) && Sorted(R)
    ensures Sorted(Merge(L, R, i, j))
    decreases |L| - i + |R| - j
  {
    if i == |L| && j == |R| {
    } else if TakeLeft(L, R, i, j) {
      MergeSorted(L, R, i + 1, j);
      MergeBounded(L, R, i + 1, j, L[i]);
      PrependSorted(L[i], Merge(L, R, i + 1, j));
    } else {
      MergeSorted(L, R, i, j + 1);
      MergeBounded(L, R, i, j + 1, R[j]);
      PrependSorted(R[j], Merge(L, R, i, j + 1));
    }
  }

  /**
   * Where each element of Merge(L, R, i, j) comes from, as a position in
   * L + R: p < |L| means L[p], otherwise R[p - |L|].
   */
  function Origins(L: seq<int>, R: seq<int>, i: nat, j: nat): seq<int>
    requires i <= |L| && j <= |R|
    decreases |L| - i + |R| - j
  {
    if i == |L| && j == |R| then []
    else if TakeLeft(L, R, i, j) then [i] + Origins(L, R, i + 1, j)
    else [|L| + j] + Origins(L, R, i, j + 1)
  }

  /** Origin o labels element x: a remaining position of L or of R holding x. */
  predicate Labels(L: seq<int>, R: seq<int>, i: nat, j: nat, o: int, x: int) {
    (i <= o < |L| && x == L[o]) || (|L| + j <= o < |L| + |R| && x == R[o - |L|])
  }

  /** Every element of Merge(L, R, i, j) is labelled by its origin. */
  ghost predicate Labelled(L: seq<int>, R: seq<int>, i: nat, j: nat)
    requires i <= |L| && j <= |R|
  {
    var m, o := Merge(L, R, i, j), Origins(L, R, i, j);
    |o| == |m| && forall p :: 0 <= p < |o| ==> Labels(L, R, i, j, o[p], m[p])
  }

  /** Every origin is a remaining position of L or of R, and names the element it labels. */
  lemma {:induction false} OriginsLabel(L: seq<int>, R: seq<int>, i: nat, j: nat)
    requires i <= |L| && j <= |R|
    ensures Labelled(L, R, i, j)
    decreases |L| - i + |R| - j
  {
    var m, o := Merge(L, R, i, j), Origins(L, R, i, j);
    if i == |L| && j == |R| {
    } else if TakeLeft(L, R, i, j) {
      OriginsLabel(L, R, i + 1, j);
      var m', o' := Merge(L, R, i + 1, j), Origins(L, R, i + 1, j);
      assert m == [L[i]] + m' && o == [i] + o';
      forall p | 0 <= p < |o| ensures Labels(L, R, i, j, o[p], m[p]) {
        if p > 0 {
          assert o[p] == o'[p - 1] && m[p] == m'[p - 1];
          assert Labels(L, R, i + 1, j, o'[p - 1], m'[p - 1]);
        }
      }
    } else {
      OriginsLabel(L, R, i, j + 1);
      var m', o' := Merge(L, R, i, j + 1), Origins(L, R, i, j + 1);
      assert m == [R[j]] + m' && o == [|L| + j] + o';
      forall p | 0 <= p < |o| ensures Labels(L, R, i, j, o[p], m[p]) {
        if p > 0 {
          assert o[p] == o'[p - 1] && m[p] == m'[p - 1];
          assert Labels(L, R, i, j + 1, o'[p - 1], m'[p - 1]);
        }
      }
    }
  }

  /** Of two equal elements of m, the earlier one has the smaller origin in o. */
  ghost predicate StableOrder(m: seq<int>, o: seq<int>) {
    |o| == |m| && forall p, q :: 0 <= p < q < |m| && m[p] == m[q] ==> o[p] < o[q]
  }

  /**
   * Stability: of two equal elements of the merge, the earlier one comes from
   * the earlier position of L + R. Ties go to the left run because of `<=`.
   */
  lemma {:induction false} MergeStable(L: seq<int>, R: seq<int>, i: nat, j: nat)
    requires i <= |L| && j <= |R| && Sorted(L)
    ensures StableOrder(Merge(L, R, i, j), Origins(L, R, i, j))
    decreases |L| - i + |R| - j
  {
    if i == |L| && j == |R| {
    } else if TakeLeft(L, R, i, j) {
      MergeStable(L, R, i + 1, j);
      OriginsLabel(L, R, i + 1, j);
      HeadFromLeft(L, R, i, j);
    } else {
      MergeStable(L, R, i, j + 1);
      OriginsLabel(L, R, i, j + 1);
      HeadFromRight(L, R, i, j);
    }
  }

  /** When the head comes from L[i], every later origin is past i. */
  lemma {:induction false} HeadFromLeft(L: seq<int>, R: seq<int>, i: nat, j: nat)
    requires i < |L| && j <= |R| && TakeLeft(L, R, i, j)
    requires Labelled(L, R, i + 1, j)
    requires StableOrder(Merge(L, R, i + 1, j), Origins(L, R, i + 1, j))
    ensures StableOrder(Merge(L, R, i, j), Origins(L, R, i, j))
  {
    var m, o := Merge(L, R, i, j), Origins(L, R, i, j);
    var m', o' := Merge(L, R, i + 1, j), Origins(L, R, i + 1, j);
    assert m == [L[i]] + m' && o == [i] + o';
    forall p, q | 0 <= p < q < |m| && m[p] == m[q] ensures o[p] < o[q] {
      if p > 0 {
        assert m[p] == m'[p - 1] && m[q] == m'[q - 1];
      } else {
        assert o[q] == o'[q - 1] && Labels(L, R, i + 1, j, o'[q - 1], m'[q - 1]);
      }
    }
  }

  /** When the head comes from R[j], no later element from L equals it, and later R origins are past j. */
  lemma {:induction false} HeadFromRight(L: seq<int>, R: seq<int>, i: nat, j: nat)
    requires Sorted(L)
    requires i <= |L| && j < |R| && !TakeLeft(L, R, i, j)
    requires Labelled(L, R, i, j + 1)
    requires StableOrder(Merge(L, R, i, j + 1), Origins(L, R, i, j + 1))
    ensures StableOrder(Merge(L, R, i, j), Origins(L, R, i, j))
  {
    var m, o := Merge(L, R, i, j), Origins(L, R, i, j);
    var m', o' := Merge(L, R, i, j + 1), Origins(L, R, i, j + 1);
    assert m == [R[j]] + m' && o == [|L| + j] + o';
    forall p, q | 0 <= p < q < |m| && m[p] == m[q] ensures o[p] < o[q] {
      if p > 0 {
        assert m[p] == m'[p - 1] && m[q] == m'[q - 1];
      } else {
        assert o[q] == o'[q - 1] && m[q] == m'[q - 1];
        assert Labels(L, R, i, j + 1, o'[q - 1], m'[q - 1]);
      }
    }
  }

  // ---------------------------------------------------------------------
  // The merge on the array

  /** Writing x at k, then the rest m of the merge after it, is writing [x] + m from k. */
  lemma {:induction false} WriteHead(s: seq<int>, k: int, e: int, x: int, m: seq<int>)
    requires 0 <= k < e <= |s|
    ensures s[k := x][..k + 1] + m + s[k := x][e..] == s[..k] + ([x] + m) + s[e..]
  {
    assert s[k := x][..k + 1] == s[..k] + [x];
    assert s[k := x][e..] == s[e..];
  }

  /** The loops write the merge of what remains over positions left+i+j .. left+|L|+|R|-1. */
  lemma {:induction false} MergeLoopWrites(s: seq<int>, L: seq<int>, R: seq<int>, left: int, mid: int, i: nat, j: nat, st: seq<Step>)
    requires 0 <= left && i <= |L| && j <= |R| && left + |L| + |R| <= |s|
    ensures MergeLoop(s, L, R, left, mid, i, j, st).arr
            == s[..left + i + j] + Merge(L, R, i, j) + s[left + |L| + |R|..]
    decreases |L| - i + |R| - j
  {
    var k := left + i + j;
    var st' := if i < |L| && j < |R| then st + [CompareStep(s, left + i, mid + 1 + j)] else st;
    if i == |L| && j == |R| {
      assert s == s[..k] + [] + s[k..];
    } else if TakeLeft(L, R, i, j) {
      MergeLoopWrites(s[k := L[i]], L, R, left, mid, i + 1, j, st');
      WriteHead(s, k, left + |L| + |R|, L[i], Merge(L, R, i + 1, j));
    } else {
      MergeLoopWrites(s[k := R[j]], L, R, left, mid, i, j + 1, st');
      WriteHead(s, k, left + |L| + |R|, R[j], Merge(L, R, i, j + 1));
    }
  }

  /** The pairs the first loop consumes before a run is used up. */
  function Compares(L: seq<int>, R: seq<int>, i: nat, j: nat): nat
    requires i <= |L| && j <= |R|
    decreases |L| - i + |R| - j
  {
    if i < |L| && j < |R| then 1 + (if TakeLeft(L, R, i, j) then Compares(L, R, i + 1, j) else Compares(L, R, i, j + 1))
    else 0
  }

  /** At least the shorter run is consumed by comparisons, and never every element. */
  lemma {:induction false} ComparesBounds(L: seq<int>, R: seq<int>, i: nat, j: nat)
    requires i <= |L| && j <= |R|
    ensures var c := Compares(L, R, i, j);
            (|L| - i <= c || |R| - j <= c)
            && (i < |L| && j < |R| ==> c < |L| - i + |R| - j)
    decreases |L| - i + |R| - j
  {
    if i < |L| && j < |R| {
      if TakeLeft(L, R, i, j) {
        ComparesBounds(L, R, i + 1, j);
      } else {
        ComparesBounds(L, R, i, j + 1);
      }
    }
  }

  /** Every step of the loop is a Compare tagged 0 on a full snapshot. */
  ghost predicate CompareLog(steps: seq<Step>, n: int) {
    forall k :: 0 <= k < |steps| ==>
      steps[k].kind == Compare && steps[k].iteration == Some(0) && |steps[k].arrayState| == n
  }

  /** The loops' log extends the one they are given, and the array they leave does not depend on it. */
  lemma {:induction false} MergeLoopAppends(s: seq<int>, L: seq<int>, R: seq<int>, left: int, mid: int, i: nat, j: nat, st: seq<Step>)
    requires 0 <= left && i <= |L| && j <= |R| && left + |L| + |R| <= |s|
    ensures var r, e := MergeLoop(s, L, R, left, mid, i, j, st), MergeLoop(s, L, R, left, mid, i, j, []);
            r.steps == st + e.steps && r.arr == e.arr
    decreases |L| - i + |R| - j
  {
    var k := left + i + j;
    if i == |L| && j == |R| {
      assert st + [] == st;
    } else if i < |L| && j < |R| {
      var c := CompareStep(s, left + i, mid + 1 + j);
      assert [] + [c] == [c];
      if TakeLeft(L, R, i, j) {
        MergeLoopAppends(s[k := L[i]], L, R, left, mid, i + 1, j, st + [c]);
        MergeLoopAppends(s[k := L[i]], L, R, left, mid, i + 1, j, [] + [c]);
        var rest := MergeLoop(s[k := L[i]], L, R, left, mid, i + 1, j, []).steps;
        assert (st + [c]) + rest == st + ([c] + rest);
      } else {
        MergeLoopAppends(s[k := R[j]], L, R, left, mid, i, j + 1, st + [c]);
        MergeLoopAppends(s[k := R[j]], L, R, left, mid, i, j + 1, [] + [c]);
        var rest := MergeLoop(s[k := R[j]], L, R, left, mid, i, j + 1, []).steps;
        assert (st + [c]) + rest == st + ([c] + rest);
      }
    } else if TakeLeft(L, R, i, j) {
      MergeLoopAppends(s[k := L[i]], L, R, left, mid, i + 1, j, st);
    } else {
      MergeLoopAppends(s[k := R[j]], L, R, left, mid, i, j + 1, st);
    }
  }

  /** A Compare step in front of a log of Compare steps. */
  lemma {:induction false} CompareLogCons(c: Step, rest: seq<Step>, n: int)
    requires c.kind == Compare && c.iteration == Some(0) && |c.arrayState| == n && CompareLog(rest, n)
    ensures CompareLog([c] + rest, n)
  {
    forall p | 0 <= p < |[c] + rest|
      ensures ([c] + rest)[p].kind == Compare && ([c] + rest)[p].iteration == Some(0)
              && |([c] + rest)[p].arrayState| == n
    {
      if p > 0 {
        assert ([c] + rest)[p] == rest[p - 1];
      }
    }
  }

  /** The loops record one Compare step per pair consumed, and nothing else. */
  lemma {:induction false} MergeLoopLog(s: seq<int>, L: seq<int>, R: seq<int>, left: int, mid: int, i: nat, j: nat)
    requires 0 <= left && i <= |L| && j <= |R| && left + |L| + |R| <= |s|
    ensures var r := MergeLoop(s, L, R, left, mid, i, j, []).steps;
            |r| == Compares(L, R, i, j) && CompareLog(r, |s|)
    decreases |L| - i + |R| - j
  {
    var k := left + i + j;
    if i == |L| && j == |R| {
    } else if i < |L| && j < |R| {
      var c := CompareStep(s, left + i, mid + 1 + j);
      assert [] + [c] == [c];
      if TakeLeft(L, R, i, j) {
        MergeLoopAppends(s[k := L[i]], L, R, left, mid, i + 1, j, [c]);
        MergeLoopLog(s[k := L[i]], L, R, left, mid, i + 1, j);
        CompareLogCons(c, MergeLoop(s[k := L[i]], L, R, left, mid, i + 1, j, []).steps, |s|);
      } else {
        MergeLoopAppends(s[k := R[j]], L, R, left, mid, i, j + 1, [c]);
        MergeLoopLog(s[k := R[j]], L, R, left, mid, i, j + 1);
        CompareLogCons(c, MergeLoop(s[k := R[j]], L, R, left, mid, i, j + 1, []).steps, |s|);
      }
    } else if TakeLeft(L, R, i, j) {
      MergeLoopLog(s[k := L[i]], L, R, left, mid, i + 1, j);
    } else {
      MergeLoopLog(s[k := R[j]], L, R, left, mid, i, j + 1);
    }
  }

  /** One merge writes the merge of its two runs over [left, right] and changes nothing else. */
  lemma {:induction false} MergeArrWrites(s: seq<int>, left: int, mid: int, right: int)
    requires 0 <= left <= mid < right < |s|
    ensures MergeArr(s, left, mid, right)
            == s[..left] + Merge(s[left..mid + 1], s[mid + 1..right + 1], 0, 0) + s[right + 1..]
  {
    MergeLoopWrites(s, s[left..mid + 1], s[mid + 1..right + 1], left, mid, 0, 0, []);
  }

  /**
   * One merge records a Merge step on the array as it was, one Compare step
   * per pair consumed, and a Merged step on the merged array highlighting
   * left and right.
   */
  lemma {:induction false} MergeLogShape(s: seq<int>, left: int, mid: int, right: int)
    requires 0 <= left <= mid < right < |s|
    ensures var r := MergeLog(s, left, mid, right);
            && |r| == Compares(s[left..mid + 1], s[mid + 1..right + 1], 0, 0) + 2
            && r[0] == BeginStep(s)
            && CompareLog(r[1..|r| - 1], |s|)
            && Last(r) == MergedStep(MergeArr(s, left, mid, right), left, right)
  {
    var L, R := s[left..mid + 1], s[mid + 1..right + 1];
    MergeLoopLog(s, L, R, left, mid, 0, 0);
    var r := MergeLog(s, left, mid, right);
    assert r[1..|r| - 1] == MergeLoop(s, L, R, left, mid, 0, 0, []).steps;
  }

  /**
   * r is s with the range [left, right] sorted: same length, the same
   * elements in the range, sorted there, and nothing outside it changed.
   */
  ghost predicate SortsRange(s: seq<int>, r: seq<int>, left: int, right: int)
    requires 0 <= left <= right + 1 <= |s|
  {
    |r| == |s| && r[..left] == s[..left] && r[right + 1..] == s[right + 1..]
    && Sorted(r[left..right + 1]) && multiset(r[left..right + 1]) == multiset(s[left..right + 1])
  }

  /** Merging two sorted adjacent runs sorts the range they cover. */
  lemma {:induction false} MergeArrSorts(s: seq<int>, left: int, mid: int, right: int)
    requires 0 <= left <= mid < right < |s|
    requires Sorted(s[left..mid + 1]) && Sorted(s[mid + 1..right + 1])
    ensures SortsRange(s, MergeArr(s, left, mid, right), left, right)
  {
    var L, R := s[left..mid + 1], s[mid + 1..right + 1];
    var M := Merge(L, R, 0, 0);
    MergeArrWrites(s, left, mid, right);
    MergeLength(L, R, 0, 0);
    MergePermutes(L, R, 0, 0);
    MergeSorted(L, R, 0, 0);
    var r := MergeArr(s, left, mid, right);
    assert r[left..right + 1] == M;
    assert L[0..] == L && R[0..] == R;
    assert s[left..right + 1] == L + R;
  }

  // ---------------------------------------------------------------------
  // The recursion

  /**
   * Sorting the range [left, right] sorts that range, keeps its elements and
   * leaves everything outside it alone.
   */
  lemma {:induction false} RangeSorts(s: seq<int>, left: int, right: int)
    requires 0 <= left <= right + 1 <= |s|
    ensures SortsRange(s, SortRange(s, left, right), left, right)
    decreases right - left, 1
  {
    if left < right {
      var mid := (left + right) / 2;
      var a := SortRange(s, left, mid);
      var b := SortRange(a, mid + 1, right);
      RangeUnfold(s, left, mid, right, a, b);
      HalvesSort(s, left, mid, right, a, b);
    } else {
      assert |s[left..right + 1]| <= 1;
    }
  }

  /** The step of RangeSorts: sorting both halves, then merging them, sorts the range. */
  lemma {:induction false} HalvesSort(s: seq<int>, left: int, mid: int, right: int, a: seq<int>, b: seq<int>)
    requires 0 <= left <= mid < right < |s|
    requires a == SortRange(s, left, mid) && b == SortRange(a, mid + 1, right)
    ensures SortsRange(s, MergeArr(b, left, mid, right), left, right)
    decreases right - left, 0
  {
    RangeSorts(s, left, mid);
    RangeSorts(a, mid + 1, right);
    RangeSplits(s, a, b, left, mid, right);
    MergeArrSorts(b, left, mid, right);
    SortsRangeTrans(s, b, MergeArr(b, left, mid, right), left, right);
  }

  /** Sorting the two halves one after the other leaves both halves sorted and keeps the range's elements. */
  lemma {:induction false} RangeSplits(s: seq<int>, a: seq<int>, b: seq<int>, left: int, mid: int, right: int)
    requires 0 <= left <= mid < right < |s|
    requires SortsRange(s, a, left, mid) && SortsRange(a, b, mid + 1, right)
    ensures b[..left] == s[..left] && b[right + 1..] == s[right + 1..]
    ensures Sorted(b[left..mid + 1]) && Sorted(b[mid + 1..right + 1])
    ensures multiset(b[left..right + 1]) == multiset(s[left..right + 1])
  {
    assert b[..left] == b[..mid + 1][..left];
    assert a[..left] == a[..mid + 1][..left];
    assert b[left..mid + 1] == b[..mid + 1][left..];
    assert a[left..mid + 1] == a[..mid + 1][left..];
    assert a[mid + 1..right + 1] == a[mid + 1..][..right - mid];
    assert s[mid + 1..right + 1] == s[mid + 1..][..right - mid];
    assert a[right + 1..] == a[mid + 1..][right - mid..];
    assert s[right + 1..] == s[mid + 1..][right - mid..];
    assert b[left..right + 1] == b[left..mid + 1] + b[mid + 1..right + 1];
    assert s[left..right + 1] == s[left..mid + 1] + s[mid + 1..right + 1];
  }

  /** Putting the halves' facts and the merge's facts together. */
  lemma {:induction false} SortsRangeTrans(s: seq<int>, b: seq<int>, r: seq<int>, left: int, right: int)
    requires 0 <= left <= right < |s| && |b| == |s|
    requires b[..left] == s[..left] && b[right + 1..] == s[right + 1..]
    requires multiset(b[left..right + 1]) == multiset(s[left..right + 1])
    requires SortsRange(b, r, left, right)
    ensures SortsRange(s, r, left, right)
  {
  }

  /** Merge sort's result is a sorted permutation of its input. */
  lemma {:induction false} MergeSortSorts(s: seq<int>)
    ensures Sorted(MergeSorting(s).arr)
    ensures multiset(MergeSorting(s).arr) == multiset(s)
  {
    RangeSorts(s, 0, |s| - 1);
    var r := MergeSorting(s).arr;
    assert r[0..|s|] == r && s[0..|s|] == s;
  }

  // ---------------------------------------------------------------------
  // The log

  /** Every step of a merge is tagged 0 and holds a full snapshot. */
  lemma {:induction false} MergeLogTagged(s: seq<int>, left: int, mid: int, right: int)
    requires 0 <= left <= mid < right < |s|
    ensures TaggedIn(MergeLog(s, left, mid, right), |s|, 0, 1)
  {
    MergeLoopLog(s, s[left..mid + 1], s[mid + 1..right + 1], left, mid, 0, 0);
    var c := MergeLoop(s, s[left..mid + 1], s[mid + 1..right + 1], left, mid, 0, 0, []).steps;
    assert TaggedIn(c, |s|, 0, 1);
    TaggedInAppend([BeginStep(s)], c, |s|, 0, 1);
    TaggedInAppend([BeginStep(s)] + c, [MergedStep(MergeArr(s, left, mid, right), left, right)], |s|, 0, 1);
  }

  /** Every step merge sort records is tagged 0 and holds a full snapshot. */
  lemma {:induction false} RangeTagged(s: seq<int>, left: int, right: int)
    requires 0 <= left && right < |s|
    ensures TaggedIn(RangeLog(s, left, right), |s|, 0, 1)
    decreases right - left, 1
  {
    if left < right {
      var mid := (left + right) / 2;
      var a := SortRange(s, left, mid);
      var b := SortRange(a, mid + 1, right);
      RangeUnfold(s, left, mid, right, a, b);
      HalvesTagged(s, left, mid, right, a, b);
    } else {
      assert RangeLog(s, left, right) == [];
    }
  }

  /** The step of RangeTagged: the left half's log, the right half's and the merge's, on arrays of one length. */
  lemma {:induction false} HalvesTagged(s: seq<int>, left: int, mid: int, right: int, a: seq<int>, b: seq<int>)
    requires 0 <= left <= mid < right < |s| && |a| == |s| && |b| == |s|
    ensures TaggedIn(RangeLog(s, left, mid) + RangeLog(a, mid + 1, right) + MergeLog(b, left, mid, right), |s|, 0, 1)
    decreases right - left, 0
  {
    RangeTagged(s, left, mid);
    RangeTagged(a, mid + 1, right);
    MergeLogTagged(b, left, mid, right);
    TaggedInAppend(RangeLog(s, left, mid), RangeLog(a, mid + 1, right), |s|, 0, 1);
    TaggedInAppend(RangeLog(s, left, mid) + RangeLog(a, mid + 1, right), MergeLog(b, left, mid, right), |s|, 0, 1);
  }

  /** A log of Compare steps counts no other kind. */
  lemma {:induction false} CompareLogCounts(c: seq<Step>, n: int)
    requires CompareLog(c, n)
    ensures CountKind(c, MergeBegin) == 0 && CountKind(c, Merged) == 0
    decreases |c|
  {
    if c != [] {
      assert CompareLog(c[1..], n) by {
        forall k | 0 <= k < |c| - 1 ensures c[1..][k] == c[k + 1] {}
      }
      CompareLogCounts(c[1..], n);
    }
  }

  /** A merge records one Merge step and one Merged step. */
  lemma {:induction false} MergeLogCounts(s: seq<int>, left: int, mid: int, right: int)
    requires 0 <= left <= mid < right < |s|
    ensures CountKind(MergeLog(s, left, mid, right), MergeBegin) == 1
    ensures CountKind(MergeLog(s, left, mid, right), Merged) == 1
  {
    MergeLoopLog(s, s[left..mid + 1], s[mid + 1..right + 1], left, mid, 0, 0);
    var c := MergeLoop(s, s[left..mid + 1], s[mid + 1..right + 1], left, mid, 0, 0, []).steps;
    var b, e := BeginStep(s), MergedStep(MergeArr(s, left, mid, right), left, right);
    CompareLogCounts(c, |s|);
    assert [b][1..] == [] && [e][1..] == [];
    CountKindAppend([b] + c, [e], MergeBegin);
    CountKindAppend([b], c, MergeBegin);
    CountKindAppend([b] + c, [e], Merged);
    CountKindAppend([b], c, Merged);
  }

  /** One level of the recursion: the range's array and log in terms of its halves. */
  lemma {:induction false} RangeUnfold(s: seq<int>, left: int, mid: int, right: int, a: seq<int>, b: seq<int>)
    requires 0 <= left < right < |s| && mid == (left + right) / 2
    requires a == SortRange(s, left, mid) && b == SortRange(a, mid + 1, right)
    ensures |a| == |s| && |b| == |s|
    ensures SortRange(s, left, right) == MergeArr(b, left, mid, right)
    ensures RangeLog(s, left, right) == RangeLog(s, left, mid) + RangeLog(a, mid + 1, right) + MergeLog(b, left, mid, right)
  {
  }

  /**
   * The whole log: every step tagged 0 on a full snapshot, and nothing at
   * all for fewer than two elements.
   */
  lemma {:induction false} MergeSortLog(s: seq<int>)
    ensures TaggedIn(MergeSorting(s).steps, |s|, 0, 1)
    ensures |s| < 2 ==> MergeSorting(s).steps == []
  {
    RangeTagged(s, 0, |s| - 1);
  }

  // ---------------------------------------------------------------------
  // The engine

  /** The three loops of merge: write L and R back over a[left..], recording a Compare per pair. */
  method MergeBack(a: array<int>, L: seq<int>, R: seq<int>, left: int, mid: int, steps0: seq<Step>) returns (steps: seq<Step>)
    requires 0 <= left && left + |L| + |R| <= a.Length
    modifies a
    ensures Sorting(a[..], steps) == MergeLoop(old(a[..]), L, R, left, mid, 0, 0, steps0)
  {
    var i, j, k := 0, 0, left;
    steps := steps0;
    while i < |L| && j < |R|
      invariant i <= |L| && j <= |R| && k == left + i + j
      invariant MergeLoop(a[..], L, R, left, mid, i, j, steps) == MergeLoop(old(a[..]), L, R, left, mid, 0, 0, steps0)
    {
      steps := steps + [CompareStep(a[..], left + i, mid + 1 + j)];
      if L[i] <= R[j] {
        a[k] := L[i];
        i := i + 1;
      } else {
        a[k] := R[j];
        j := j + 1;
      }
      k := k + 1;
    }
    while i < |L|
      invariant i <= |L| && j <= |R| && (i < |L| ==> j == |R|) && k == left + i + j
      invariant MergeLoop(a[..], L, R, left, mid, i, j, steps) == MergeLoop(old(a[..]), L, R, left, mid, 0, 0, steps0)
    {
      a[k] := L[i];
      i, k := i + 1, k + 1;
    }
    while j < |R|
      invariant i == |L| && j <= |R| && k == left + i + j
      invariant MergeLoop(a[..], L, R, left, mid, i, j, steps) == MergeLoop(old(a[..]), L, R, left, mid, 0, 0, steps0)
    {
      a[k] := R[j];
      j, k := j + 1, k + 1;
    }
  }

  /** merge(arr, left, mid, right) on the array. */
  method MergeInPlace(a: array<int>, left: int, mid: int, right: int, steps0: seq<Step>) returns (steps: seq<Step>)
    requires 0 <= left <= mid < right < a.Length
    modifies a
    ensures a[..] == MergeArr(old(a[..]), left, mid, right)
    ensures steps == steps0 + MergeLog(old(a[..]), left, mid, right)
  {
    ghost var s0 := a[..];
    var L, R := a[left..mid + 1], a[mid + 1..right + 1];
    var b := BeginStep(a[..]);
    steps := MergeBack(a, L, R, left, mid, steps0 + [b]);
    MergeLoopAppends(s0, L, R, left, mid, 0, 0, steps0 + [b]);
    ghost var c := MergeLoop(s0, L, R, left, mid, 0, 0, []).steps;
    var e := MergedStep(a[..], left, right);
    steps := steps + [e];
    assert steps == (steps0 + [b]) + c + [e];
    ConcatAssoc(steps0 + [b], c, [e]);
    ConcatAssoc(steps0, [b], c + [e]);
    ConcatAssoc([b], c, [e]);
  }

  /** mergeSortRecursive(arr, left, right) on the array. */
  method MergeSortRecursive(a: array<int>, left: int, right: int, steps0: seq<Step>) returns (steps: seq<Step>)
    requires 0 <= left && right < a.Length
    modifies a
    ensures a[..] == SortRange(old(a[..]), left, right)
    ensures steps == steps0 + RangeLog(old(a[..]), left, right)
    decreases right - left, 1
  {
    if left >= right {
      return steps0;
    }
    ghost var s0 := a[..];
    var mid := (left + right) / 2;
    var st2 := SortHalves(a, left, mid, right, steps0);
    ghost var s2 := a[..];
    steps := MergeInPlace(a, left, mid, right, st2);
    RangeStep(s0, s2, a[..], left, mid, right, steps0, st2, steps);
  }

  /** The two recursive calls of mergeSortRecursive: the left half, then the right half. */
  method SortHalves(a: array<int>, left: int, mid: int, right: int, steps0: seq<Step>) returns (steps: seq<Step>)
    requires 0 <= left < right < a.Length && mid == (left + right) / 2
    modifies a
    ensures a[..] == SortRange(SortRange(old(a[..]), left, mid), mid + 1, right)
    ensures steps == steps0 + RangeLog(old(a[..]), left, mid) + RangeLog(SortRange(old(a[..]), left, mid), mid + 1, right)
    decreases right - left, 0
  {
    var st1 := MergeSortRecursive(a, left, mid, steps0);
    steps := MergeSortRecursive(a, mid + 1, right, st1);
  }

  /** Appending three logs one after another appends their concatenation. */
  lemma {:induction false} AppendThree(w: seq<Step>, x: seq<Step>, y: seq<Step>, z: seq<Step>)
    ensures ((w + x) + y) + z == w + (x + y + z)
  {
  }

  /** The two recursive calls and the merge together do what one level of the recursion specifies. */
  lemma {:induction false} RangeStep(s0: seq<int>, s2: seq<int>, s3: seq<int>, left: int, mid: int, right: int,
                  steps0: seq<Step>, st2: seq<Step>, st3: seq<Step>)
    requires 0 <= left < right < |s0| && mid == (left + right) / 2
    requires s2 == SortRange(SortRange(s0, left, mid), mid + 1, right)
    requires st2 == steps0 + RangeLog(s0, left, mid) + RangeLog(SortRange(s0, left, mid), mid + 1, right)
    requires s3 == MergeArr(s2, left, mid, right) && st3 == st2 + MergeLog(s2, left, mid, right)
    ensures s3 == SortRange(s0, left, right) && st3 == steps0 + RangeLog(s0, left, right)
  {
    RangeUnfold(s0, left, mid, right, SortRange(s0, left, mid), s2);
    AppendThree(steps0, RangeLog(s0, left, mid), RangeLog(SortRange(s0, left, mid), mid + 1, right),
                MergeLog(s2, left, mid, right));
  }

  /** Sorts `a` in place and returns the log. */
  method MergeSortWithSteps(a: array<int>) returns (steps: seq<Step>)
    modifies a
    ensures Sorting(a[..], steps) == MergeSorting(old(a[..]))
    ensures Sorted(a[..]) && multiset(a[..]) == multiset(old(a[..]))
  {
    ghost var s0 := a[..];
    steps := MergeSortRecursive(a, 0, a.Length - 1, []);
    assert [] + RangeLog(s0, 0, |s0| - 1) == RangeLog(s0, 0, |s0| - 1);
    MergeSortSorts(s0);
  }
}
