/**
 * Counting sort engine for non-empty arrays of non-negative integers: a
 * frequency table of size max+1, a prefix-sum pass, a right-to-left
 * placement pass into an output buffer, and a copy back. It records a
 * Counted step, an Accumulated step, one Place step per element (each on the
 * unchanged input) and a Final step on the sorted array; all tagged 0.
 *
 * Element s[q] lands at its stable rank: the number of smaller elements plus
 * the number of equal elements before q. Rank, CumCount and Placed
 * describe what the loops compute; the lemmas show the ranks are a
 * bijection onto the positions that agrees with the ascending order.
 */
module CountSort {
  import opened Seqs
  import opened StepLog

  /** The precondition of the engine: something to sort, and nothing negative. */
  ghost predicate Countable(s: seq<int>) {
    |s| > 0 && forall k :: 0 <= k < |s| ==> s[k] >= 0
  }

  /** The largest element (JavaScript's `Math.max(...array)` on a non-empty array). */
  function MaxOf(s: seq<int>): (m: int)
    requires |s| > 0
    ensures (forall k :: 0 <= k < |s| ==> s[k] <= m) && m in s
  {
    if |s| == 1 then s[0]
    else
      var m := MaxOf(s[1..]);
      assert m in s[1..];
      if s[0] >= m then s[0] else m
  }

  /** The number of elements of m at most v, for a multiset of non-negative values: the prefix sums. */
  function CumCount(m: multiset<int>, v: int): nat
    decreases v + 1
  {
    if v < 0 then 0 else CumCount(m, v - 1) + m[v]
  }

  /** The position count sort gives s[q]: the elements smaller than it, then the equal ones before q. */
  function Rank(s: seq<int>, q: int): int
    requires 0 <= q < |s|
  {
    CumCount(multiset(s), s[q] - 1) + multiset(s[..q])[s[q]]
  }

  /** The number of elements of t at most v. */
  function CountLeq(t: seq<int>, v: int): nat {
    if t == [] then 0 else (if t[0] <= v then 1 else 0) + CountLeq(t[1..], v)
  }

  // ---------------------------------------------------------------------
  // Prefix sums count

  /** Counting distributes over concatenation. */
  lemma {:induction false} CountLeqAppend(a: seq<int>, b: seq<int>, v: int)
    ensures CountLeq(a + b, v) == CountLeq(a, v) + CountLeq(b, v)
    decreases |a|
  {
    if a == [] {
      assert a + b == b;
    } else {
      CountLeqAppend(a[1..], b, v);
      assert (a + b)[1..] == a[1..] + b;
    }
  }

  /** Raising the bound from v-1 to v adds the occurrences of v. */
  lemma {:induction false} CountLeqStep(t: seq<int>, v: int)
    ensures CountLeq(t, v) == CountLeq(t, v - 1) + multiset(t)[v]
    decreases |t|
  {
    if t != [] {
      CountLeqStep(t[1..], v);
      assert t == [t[0]] + t[1..];
    }
  }

  /** No non-negative element is at most a negative bound. */
  lemma {:induction false} CountLeqNegative(t: seq<int>, v: int)
    requires v < 0 && forall k :: 0 <= k < |t| ==> t[k] >= 0
    ensures CountLeq(t, v) == 0
    decreases |t|
  {
    if t != [] {
      CountLeqNegative(t[1..], v);
    }
  }

  /** The prefix sum of the frequency table up to v counts the elements at most v. */
  lemma {:induction false} CumCountCounts(t: seq<int>, v: int)
    requires forall k :: 0 <= k < |t| ==> t[k] >= 0
    ensures CumCount(multiset(t), v) == CountLeq(t, v)
    decreases v + 1
  {
    if v < 0 {
      CountLeqNegative(t, v);
    } else {
      CumCountCounts(t, v - 1);
      CountLeqStep(t, v);
    }
  }

  /** Prefix sums never decrease. */
  lemma {:induction false} CumCountMono(m: multiset<int>, v: int, w: int)
    requires v <= w
    ensures CumCount(m, v) <= CumCount(m, w)
    decreases w - v
  {
    if v < w {
      CumCountMono(m, v, w - 1);
    }
  }

  /** A count of elements is at most the length. */
  lemma {:induction false} CountLeqAtMost(t: seq<int>, v: int)
    ensures CountLeq(t, v) <= |t|
    decreases |t|
  {
    if t != [] {
      CountLeqAtMost(t[1..], v);
    }
  }

  /** When every element is at most v they are all counted; when all exceed v none is. */
  lemma {:induction false} CountLeqAllNone(t: seq<int>, v: int)
    ensures (forall k :: 0 <= k < |t| ==> t[k] <= v) ==> CountLeq(t, v) == |t|
    ensures (forall k :: 0 <= k < |t| ==> t[k] > v) ==> CountLeq(t, v) == 0
    decreases |t|
  {
    if t != [] {
      CountLeqAllNone(t[1..], v);
    }
  }

  /**
   * In an ascending sequence the element at p sits inside its value's block:
   * fewer than p+1 elements are smaller than it, and more than p are at most it.
   */
  lemma {:induction false} SortedBlock(r: seq<int>, p: int)
    requires Sorted(r) && 0 <= p < |r| && forall k :: 0 <= k < |r| ==> r[k] >= 0
    ensures CumCount(multiset(r), r[p] - 1) <= p < CumCount(multiset(r), r[p])
  {
    var v := r[p];
    assert r == r[..p] + r[p..];
    assert r == r[..p + 1] + r[p + 1..];
    CountLeqAppend(r[..p], r[p..], v - 1);
    CountLeqAppend(r[..p + 1], r[p + 1..], v);
    CountLeqAtMost(r[..p], v - 1);
    CountLeqAllNone(r[p..], v - 1);
    CountLeqAllNone(r[..p + 1], v);
    CumCountCounts(r, v - 1);
    CumCountCounts(r, v);
  }

  // ---------------------------------------------------------------------
  // The ranks

  /** The rank of s[q] lies inside the block of its value, and so inside [0, n). */
  lemma {:induction false} RankInBlock(s: seq<int>, q: int)
    requires 0 <= q < |s| && forall k :: 0 <= k < |s| ==> s[k] >= 0
    ensures CumCount(multiset(s), s[q] - 1) <= Rank(s, q) < CumCount(multiset(s), s[q]) <= |s|
  {
    var v := s[q];
    assert s == s[..q] + [v] + s[q + 1..];
    assert multiset(s)[v] == multiset(s[..q])[v] + 1 + multiset(s[q + 1..])[v];
    CumCountCounts(s, v);
    CountLeqAtMost(s, v);
  }

  /**
   * Ranks are distinct, and the placement is stable: of two equal elements the
   * earlier one gets the smaller rank; of two different ones, the smaller value.
   */
  lemma {:induction false} RankOrder(s: seq<int>, q1: int, q2: int)
    requires 0 <= q1 < q2 < |s| && forall k :: 0 <= k < |s| ==> s[k] >= 0
    ensures s[q1] == s[q2] ==> Rank(s, q1) < Rank(s, q2)
    ensures s[q1] < s[q2] ==> Rank(s, q1) < Rank(s, q2)
    ensures s[q1] > s[q2] ==> Rank(s, q1) > Rank(s, q2)
  {
    RankInBlock(s, q1);
    RankInBlock(s, q2);
    var m := multiset(s);
    if s[q1] == s[q2] {
      assert s[..q2] == s[..q1] + [s[q1]] + s[q1 + 1..q2];
    } else if s[q1] < s[q2] {
      CumCountMono(m, s[q1], s[q2] - 1);
    } else {
      CumCountMono(m, s[q2], s[q1] - 1);
    }
  }

  /** For every occurrence count k below the total, some occurrence of v has exactly k equal elements before it. */
  lemma {:induction false} OccurrenceAt(s: seq<int>, v: int, k: int) returns (q: int)
    requires 0 <= k < multiset(s)[v]
    ensures 0 <= q < |s| && s[q] == v && multiset(s[..q])[v] == k
    decreases |s|
  {
    var n := |s|;
    assert s == s[..n - 1] + [s[n - 1]];
    assert s[..n - 1] == s[..n - 1][..n - 1];
    if k < multiset(s[..n - 1])[v] {
      q := OccurrenceAt(s[..n - 1], v, k);
      assert s[..n - 1][..q] == s[..q];
    } else {
      q := n - 1;
    }
  }

  /** Every position of [0, n) is the rank of some element, which equals the ascending copy there. */
  lemma {:induction false} RankOnto(s: seq<int>, p: int) returns (q: int)
    requires 0 <= p < |s| && forall k :: 0 <= k < |s| ==> s[k] >= 0
    ensures 0 <= q < |s| && Rank(s, q) == p && s[q] == SortedCopy(s)[p]
  {
    var r := SortedCopy(s);
    var v := r[p];
    BoundBelowPreserved(s, r, -1);
    SortedBlock(r, p);
    var lo := CumCount(multiset(s), v - 1);
    assert lo + multiset(s)[v] == CumCount(multiset(s), v);
    q := OccurrenceAt(s, v, p - lo);
  }

  // ---------------------------------------------------------------------
  // The placement pass

  /** The output buffer once the placement loop has handled positions n-1 down to i+1. */
  function Placed(s: seq<int>, i: int, out: seq<int>): (r: seq<int>)
    requires -1 <= i < |s| && |out| == |s| && forall k :: 0 <= k < |s| ==> s[k] >= 0
    ensures |r| == |s|
    decreases |s| - i
  {
    if i + 1 >= |s| then out
    else
      RankInBlock(s, i + 1);
      Placed(s, i + 1, out)[Rank(s, i + 1) := s[i + 1]]
  }

  /** Once positions above i are placed, the rank of each such q holds s[q]; every other rank is untouched. */
  lemma {:induction false} PlacedWrites(s: seq<int>, i: int, out: seq<int>, q: int)
    requires -1 <= i < |s| && |out| == |s| && forall k :: 0 <= k < |s| ==> s[k] >= 0
    requires 0 <= q < |s|
    ensures 0 <= Rank(s, q) < |s|
    ensures Placed(s, i, out)[Rank(s, q)] == if q > i then s[q] else out[Rank(s, q)]
    decreases |s| - i
  {
    RankInBlock(s, q);
    if i + 1 < |s| {
      RankInBlock(s, i + 1);
      PlacedWrites(s, i + 1, out, q);
      if q > i + 1 {
        RankOrder(s, i + 1, q);
      } else if q < i + 1 {
        RankOrder(s, q, i + 1);
      }
    }
  }

  /** The complete placement pass leaves the ascending copy of the input, whatever the buffer held. */
  lemma {:induction false} PlacedSorts(s: seq<int>, out: seq<int>)
    requires |out| == |s| && forall k :: 0 <= k < |s| ==> s[k] >= 0
    ensures Placed(s, -1, out) == SortedCopy(s)
  {
    var r := Placed(s, -1, out);
    forall p | 0 <= p < |s| ensures r[p] == SortedCopy(s)[p] {
      var q := RankOnto(s, p);
      PlacedWrites(s, -1, out, q);
    }
  }

  // ---------------------------------------------------------------------
  // The log

  /** "Count the occurrences": the input. */
  function CountedStep(s: seq<int>): Step {
    Step(s, Counted, Some(0), [], [])
  }

  /** "Accumulate counts": the input. */
  function AccumulatedStep(s: seq<int>): Step {
    Step(s, Accumulated, Some(0), [], [])
  }

  /**
   * "Place": the unchanged input, highlighting i and the decremented count
   * minus one, i.e. one below the position s[i] was written to.
   */
  function PlaceStep(s: seq<int>, i: int): Step
    requires 0 <= i < |s|
  {
    Step(s, Place, Some(0), [i, Rank(s, i) - 1], [i, Rank(s, i) - 1])
  }

  /** "Final sorted array": the array after the copy back. */
  function FinalStep(t: seq<int>): Step {
    Step(t, Final, Some(0), [], [])
  }

  /** The placement steps for positions n-1 down to i+1, in that order. */
  function PlaceLog(s: seq<int>, i: int): seq<Step>
    requires -1 <= i < |s|
    decreases |s| - i
  {
    if i + 1 >= |s| then [] else PlaceLog(s, i + 1) + [PlaceStep(s, i + 1)]
  }

  /** The whole log of one run. */
  function CountLog(s: seq<int>): seq<Step>
    requires |s| > 0
  {
    [CountedStep(s), AccumulatedStep(s)] + PlaceLog(s, -1) + [FinalStep(SortedCopy(s))]
  }

  /** The placement log has one step per element; the k-th handles position n-1-k. */
  lemma {:induction false} PlaceLogShape(s: seq<int>, i: int)
    requires -1 <= i < |s|
    ensures |PlaceLog(s, i)| == |s| - 1 - i
    ensures forall k :: 0 <= k < |PlaceLog(s, i)| ==> PlaceLog(s, i)[k] == PlaceStep(s, |s| - 1 - k)
    decreases |s| - i
  {
    if i + 1 < |s| {
      var p := PlaceLog(s, i + 1);
      PlaceLogShape(s, i + 1);
      assert PlaceLog(s, i) == p + [PlaceStep(s, i + 1)];
      var q := p + [PlaceStep(s, i + 1)];
      forall k | 0 <= k < |q| ensures q[k] == PlaceStep(s, |s| - 1 - k) {
        if k < |p| {
          assert q[k] == p[k];
        }
      }
    } else {
      assert PlaceLog(s, i) == [];
    }
  }

  /**
   * The log holds exactly n + 3 steps: Counted, Accumulated, one Place per
   * element from the right end to the left, each on the unchanged input, and
   * Final on the ascending array; all tagged 0 with full snapshots.
   */
  lemma {:induction false} CountLogShape(s: seq<int>)
    requires |s| > 0
    ensures var l := CountLog(s);
            && |l| == |s| + 3
            && l[0].kind == Counted && l[1].kind == Accumulated
            && (forall k :: 2 <= k < |s| + 2 ==>
                  l[k] == PlaceStep(s, |s| + 1 - k) && l[k].arrayState == s && l[k].highlight[0] == |s| + 1 - k)
            && l[|s| + 2] == FinalStep(SortedCopy(s))
            && TaggedIn(l, |s|, 0, 1)
  {
    var l := CountLog(s);
    var p := PlaceLog(s, -1);
    PlaceLogShape(s, -1);
    assert l == [CountedStep(s), AccumulatedStep(s)] + p + [FinalStep(SortedCopy(s))];
    forall k | 2 <= k < |s| + 2 ensures l[k] == p[k - 2] {}
    forall k | 0 <= k < |l| ensures |l[k].arrayState| == |s| && l[k].iteration == Some(0) {
      if 2 <= k < |s| + 2 {
        assert l[k] == p[k - 2];
      }
    }
  }

  // ---------------------------------------------------------------------
  // The engine

  /** The first loop: the frequency of every value 0..|count|-1. */
  method Tally(a: array<int>, count: array<int>)
    requires a != count && forall k :: 0 <= k < a.Length ==> 0 <= a[k] < count.Length
    requires forall v :: 0 <= v < count.Length ==> count[v] == 0
    modifies count
    ensures forall v :: 0 <= v < count.Length ==> count[v] == multiset(a[..])[v]
  {
    var i := 0;
    while i < a.Length
      invariant 0 <= i <= a.Length
      invariant forall v :: 0 <= v < count.Length ==> count[v] == multiset(a[..i])[v]
    {
      assert a[..i + 1] == a[..i] + [a[i]];
      count[a[i]] := count[a[i]] + 1;
      i := i + 1;
    }
    assert a[..a.Length] == a[..];
  }

  /** The count table while the second loop stands at i: prefix sums below i, frequencies from i on. */
  function PrefixTable(m: multiset<int>, i: int, len: nat): (r: seq<int>)
    ensures |r| == len
  {
    seq(len, v requires 0 <= v < len => if v < i then CumCount(m, v) else m[v])
  }

  /** One round of the second loop: entry i becomes the prefix sum through i. */
  lemma {:induction false} PrefixTableStep(m: multiset<int>, i: int, len: nat)
    requires 1 <= i < len
    ensures PrefixTable(m, i, len)[i] + PrefixTable(m, i, len)[i - 1] == CumCount(m, i)
    ensures PrefixTable(m, i, len)[i := CumCount(m, i)] == PrefixTable(m, i + 1, len)
  {
  }

  /** The second loop: turns the frequencies into prefix sums. */
  method Accumulate(count: array<int>, ghost m: multiset<int>)
    requires count.Length > 0
    requires forall v :: 0 <= v < count.Length ==> count[v] == m[v]
    modifies count
    ensures forall v :: 0 <= v < count.Length ==> count[v] == CumCount(m, v)
  {
    assert count[..] == PrefixTable(m, 1, count.Length);
    var i := 1;
    while i < count.Length
      invariant 1 <= i <= count.Length
      invariant count[..] == PrefixTable(m, i, count.Length)
    {
      PrefixTableStep(m, i, count.Length);
      count[i] := count[i] + count[i - 1];
      i := i + 1;
    }
    assert forall v :: 0 <= v < count.Length ==> count[..][v] == CumCount(m, v);
  }

  /** The count table while the third loop stands at i: prefix sums less the elements already placed. */
  function Remaining(s: seq<int>, i: int, len: nat): (r: seq<int>)
    requires -1 <= i < |s|
    ensures |r| == len
  {
    seq(len, v requires 0 <= v < len => CumCount(multiset(s), v - 1) + multiset(s[..i + 1])[v])
  }

  /**
   * Placing s[i]: its count is one past its rank, and decrementing it gives
   * the table for the rest of the pass.
   */
  lemma {:induction false} RemainingStep(s: seq<int>, i: int, len: nat)
    requires 0 <= i < |s| && 0 <= s[i] < len
    ensures Remaining(s, i, len)[s[i]] == Rank(s, i) + 1
    ensures Remaining(s, i, len)[s[i] := Rank(s, i)] == Remaining(s, i - 1, len)
  {
    assert s[..i + 1] == s[..i] + [s[i]];
  }

  /** Before the third loop the table holds the prefix sums. */
  lemma {:induction false} RemainingStart(s: seq<int>, c: seq<int>)
    requires forall v :: 0 <= v < |c| ==> c[v] == CumCount(multiset(s), v)
    ensures c == Remaining(s, |s| - 1, |c|)
  {
    assert s[..|s|] == s;
  }

  /** The body of the third loop: places a[i] and decrements its count. */
  method PlaceOne(a: array<int>, count: array<int>, output: array<int>, i: int)
    requires a != output && count != output && a != count
    requires output.Length == a.Length && forall k :: 0 <= k < a.Length ==> 0 <= a[k] < count.Length
    requires 0 <= i < a.Length && count[..] == Remaining(a[..], i, count.Length)
    modifies count, output
    ensures 0 <= Rank(a[..], i) < a.Length
    ensures output[..] == old(output[..])[Rank(a[..], i) := a[i]]
    ensures count[..] == Remaining(a[..], i - 1, count.Length)
  {
    ghost var s := a[..];
    var num := a[i];
    RankInBlock(s, i);
    RemainingStep(s, i, count.Length);
    output[count[num] - 1] := num;
    count[num] := count[num] - 1;
  }

  /**
   * The third loop: from the right end, writes each element one below its
   * value's running count and decrements that count, recording a Place step.
   */
  method PlaceAll(a: array<int>, count: array<int>, output: array<int>, steps0: seq<Step>) returns (steps: seq<Step>)
    requires a != output && count != output && a != count
    requires output.Length == a.Length && forall k :: 0 <= k < a.Length ==> 0 <= a[k] < count.Length
    requires forall v :: 0 <= v < count.Length ==> count[v] == CumCount(multiset(a[..]), v)
    modifies count, output
    ensures output[..] == SortedCopy(a[..])
    ensures steps == steps0 + PlaceLog(a[..], -1)
  {
    ghost var s, out0 := a[..], output[..];
    RemainingStart(s, count[..]);
    steps := steps0;
    var i := a.Length - 1;
    while i >= 0
      invariant -1 <= i < a.Length && a[..] == s
      invariant count[..] == Remaining(s, i, count.Length)
      invariant output[..] == Placed(s, i, out0)
      invariant steps == steps0 + PlaceLog(s, i)
    {
      PlaceOne(a, count, output, i);
      steps := steps + [PlaceStep(a[..], i)];
      i := i - 1;
    }
    PlacedSorts(s, out0);
  }

  /** The fourth loop: copies the output buffer back over the input. */
  method CopyBack(output: array<int>, a: array<int>)
    requires output != a && output.Length == a.Length
    modifies a
    ensures a[..] == output[..]
  {
    var i := 0;
    while i < a.Length
      invariant 0 <= i <= a.Length
      invariant a[..i] == output[..i]
    {
      a[i] := output[i];
      i := i + 1;
    }
    assert a[..] == a[..a.Length];
  }

  /** Sorts a non-empty array of non-negative integers in place and returns the log. */
  method CountSortWithSteps(a: array<int>) returns (steps: seq<Step>)
    requires a.Length > 0 && forall k :: 0 <= k < a.Length ==> a[k] >= 0
    modifies a
    ensures a[..] == SortedCopy(old(a[..]))
    ensures steps == CountLog(old(a[..]))
  {
    ghost var s := a[..];
    var max := MaxOf(a[..]);
    var count := new int[max + 1](_ => 0);
    var output := new int[a.Length](_ => 0);
    Tally(a, count);
    steps := [CountedStep(a[..])];
    Accumulate(count, multiset(a[..]));
    steps := steps + [AccumulatedStep(a[..])];
    steps := PlaceAll(a, count, output, steps);
    CopyBack(output, a);
    steps := steps + [FinalStep(a[..])];
  }
}
