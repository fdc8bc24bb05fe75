/**
 * Bubble sort with early exit, recording a Compare step for every adjacent
 * comparison and a Swap step right after each exchange.
 *
 * The specification functions PassArr/PassSwaps/PassSteps (one pass) and
 * Bubble (the outer loop) describe what the loops compute; the methods are proved equal to them, and the lemmas state what
 * the result and the recorded log mean.
 */
module BubbleSort {
  import opened Seqs
  import opened StepLog

  /** The Compare step recorded for the pair j, j+1 of snapshot s in pass i. */
  function CompareStep(s: seq<int>, i: int, j: int): Step {
    Step(s, Compare, Some(i), [j, j + 1], [])
  }

  /** The Swap step recorded after exchanging j, j+1 of s; the source gives it no iteration tag. */
  function SwapStep(s: seq<int>, j: int): Step
    requires 0 <= j && j + 1 < |s|
  {
    Step(Swapped(s, j, j + 1), Swap, None, [], [j, j + 1])
  }

  /** The array after the comparison of j, j+1: exchanged exactly when out of order. */
  function PairResult(s: seq<int>, j: int): seq<int>
    requires 0 <= j && j + 1 < |s|
  {
    if s[j] > s[j + 1] then Swapped(s, j, j + 1) else s
  }

  /** The steps recorded for the pair j, j+1 of s in pass i. */
  function PairSteps(s: seq<int>, i: int, j: int): seq<Step>
    requires 0 <= j && j + 1 < |s|
  {
    if s[j] > s[j + 1] then [CompareStep(s, i, j), SwapStep(s, j)] else [CompareStep(s, i, j)]
  }

  /** The array after the rest of pass i, from the pair j, j+1 on (the inner loop). */
  function PassArr(s: seq<int>, i: nat, j: nat): (r: seq<int>)
    ensures |r| == |s|
    decreases |s| - j
  {
    if j + 1 + i >= |s| then s else PassArr(PairResult(s, j), i, j + 1)
  }

  /** The number of exchanges the rest of pass i makes. */
  function PassSwaps(s: seq<int>, i: nat, j: nat): nat
    decreases |s| - j
  {
    if j + 1 + i >= |s| then 0
    else (if s[j] > s[j + 1] then 1 else 0) + PassSwaps(PairResult(s, j), i, j + 1)
  }

  /** The steps the rest of pass i records. */
  function PassSteps(s: seq<int>, i: nat, j: nat): seq<Step>
    decreases |s| - j
  {
    if j + 1 + i >= |s| then [] else PairSteps(s, i, j) + PassSteps(PairResult(s, j), i, j + 1)
  }

  /** What the sort leaves: the array, the exchange count of every pass run, and the log. */
  datatype Sorting = Sorting(arr: seq<int>, passSwaps: seq<nat>, steps: seq<Step>)

  /**
   * The outer loop from pass i on, given the exchange counts and the steps
   * recorded so far: it stops after the first pass without an exchange, or
   * when i + 1 reaches n.
   */
  function Bubble(s: seq<int>, i: nat, passSwaps: seq<nat>, steps: seq<Step>): Sorting
    decreases |s| - i
  {
    if i + 1 >= |s| then Sorting(s, passSwaps, steps)
    else
      var w, t := PassSwaps(s, i, 0), PassArr(s, i, 0);
      if w == 0 then Sorting(t, passSwaps + [0], steps + PassSteps(s, i, 0))
      else Bubble(t, i + 1, passSwaps + [w], steps + PassSteps(s, i, 0))
  }

  // ---------------------------------------------------------------------
  // The log grammar

  /** The Compare step at k inspects an adjacent pair j, j+1 inside its snapshot. */
  ghost predicate AdjacentCompare(s: Step) {
    s.kind == Compare && |s.highlight| == 2 && s.highlight[1] == s.highlight[0] + 1
    && 0 <= s.highlight[0] && s.highlight[1] < |s.arrayState|
  }

  /** c is the Compare step of some pass below `passes` on an adjacent pair of an array of length n. */
  ghost predicate CompareOf(c: Step, n: int, passes: int) {
    && AdjacentCompare(c) && |c.arrayState| == n
    && c.iteration.Some? && 0 <= c.iteration.value < passes
    && c == CompareStep(c.arrayState, c.iteration.value, c.highlight[0])
  }

  /**
   * The first entry of a log is a Compare of some pass below `passes`; when its
   * pair is out of order it is immediately followed by the Swap of that pair on
   * the same snapshot.
   */
  ghost predicate HeadOk(steps: seq<Step>, n: int, passes: int)
    requires steps != []
  {
    && CompareOf(steps[0], n, passes)
    && var c, j := steps[0], steps[0].highlight[0];
       (c.arrayState[j] > c.arrayState[j + 1] ==> |steps| > 1 && steps[1] == SwapStep(c.arrayState, j))
  }

  /** The number of steps the first comparison of a log accounts for: 1, or 2 with its Swap. */
  ghost function HeadLen(steps: seq<Step>, n: int, passes: int): nat
    requires steps != [] && HeadOk(steps, n, passes)
  {
    var c, j := steps[0], steps[0].highlight[0];
    if c.arrayState[j] <= c.arrayState[j + 1] then 1 else 2
  }

  /**
   * The bubble sort log: every Compare of an in-order pair stands alone, and every
   * Compare of an out-of-order pair is immediately followed by the Swap of that pair.
   */
  ghost predicate BubbleLog(steps: seq<Step>, n: int, passes: int)
    decreases |steps|
  {
    steps == [] || (HeadOk(steps, n, passes) && BubbleLog(steps[HeadLen(steps, n, passes)..], n, passes))
  }

  /** s has a snapshot of length n and is a Compare tagged with a pass below `passes`, or an untagged Swap. */
  ghost predicate StepShape(s: Step, n: int, passes: int) {
    && |s.arrayState| == n
    && (s.kind == Compare || s.kind == Swap)
    && (s.kind == Compare ==> s.iteration.Some? && 0 <= s.iteration.value < passes)
    && (s.kind == Swap ==> s.iteration == None)
  }

  /** Every step of a well-formed log has the shape of a bubble sort step. */
  lemma {:induction false} BubbleLogShape(steps: seq<Step>, n: int, passes: int)
    requires BubbleLog(steps, n, passes)
    ensures forall k :: 0 <= k < |steps| ==> StepShape(steps[k], n, passes)
    decreases |steps|
  {
    if steps != [] {
      var m := HeadLen(steps, n, passes);
      BubbleLogShape(steps[m..], n, passes);
      forall q | 0 <= q < |steps| ensures StepShape(steps[q], n, passes) {
        if q >= m {
          assert steps[q] == steps[m..][q - m];
        }
      }
    }
  }

  /** A log for fewer passes is a log for more passes. */
  lemma {:induction false} LogMorePasses(steps: seq<Step>, n: int, passes: int, more: int)
    requires BubbleLog(steps, n, passes) && passes <= more
    ensures BubbleLog(steps, n, more)
    decreases |steps|
  {
    if steps != [] {
      LogMorePasses(steps[HeadLen(steps, n, passes)..], n, passes, more);
    }
  }

  /** The head of a log is still the head once more steps follow. */
  lemma {:induction false} HeadAppend(a: seq<Step>, b: seq<Step>, n: int, passes: int)
    requires a != [] && HeadOk(a, n, passes)
    ensures HeadOk(a + b, n, passes) && HeadLen(a + b, n, passes) == HeadLen(a, n, passes)
  {
    assert (a + b)[0] == a[0];
    if |a| > 1 {
      assert (a + b)[1] == a[1];
    }
  }

  /** Two well-formed logs one after the other form a well-formed log. */
  lemma {:induction false} LogAppend(a: seq<Step>, b: seq<Step>, n: int, passes: int)
    requires BubbleLog(a, n, passes) && BubbleLog(b, n, passes)
    ensures BubbleLog(a + b, n, passes)
    decreases |a|
  {
    if a == [] {
      assert a + b == b;
    } else {
      var m := HeadLen(a, n, passes);
      LogAppend(a[m..], b, n, passes);
      HeadAppend(a, b, n, passes);
      assert (a + b)[m..] == a[m..] + b;
    }
  }

  /** The steps of one pair followed by a well-formed log form a well-formed log. */
  lemma {:induction false} PairLog(s: seq<int>, i: int, j: int, rest: seq<Step>, passes: int)
    requires 0 <= j && j + 1 < |s| && 0 <= i < passes
    requires BubbleLog(rest, |s|, passes)
    ensures BubbleLog(PairSteps(s, i, j) + rest, |s|, passes)
  {
    var t := PairSteps(s, i, j) + rest;
    assert CompareOf(t[0], |s|, passes);
    assert HeadOk(t, |s|, passes);
    assert t[HeadLen(t, |s|, passes)..] == rest;
  }

  // ---------------------------------------------------------------------
  // Facts about one pass

  /** Comparing one pair only rearranges the array. */
  lemma {:induction false} PairPermutes(s: seq<int>, j: int)
    requires 0 <= j && j + 1 < |s|
    ensures multiset(PairResult(s, j)) == multiset(s)
  {
    SwappedPermutes(s, j, j + 1);
  }

  /** A pass only rearranges the array. */
  lemma {:induction false} PassPermutes(s: seq<int>, i: nat, j: nat)
    ensures multiset(PassArr(s, i, j)) == multiset(s)
    decreases |s| - j
  {
    if j + 1 + i < |s| {
      PassPermutes(PairResult(s, j), i, j + 1);
      PairPermutes(s, j);
    }
  }

  /**
   * The rest of a pass makes no exchange exactly when every pair it will compare
   * is already in order.
   */
  lemma {:induction false} PassCleanIff(s: seq<int>, i: nat, j: nat)
    ensures PassSwaps(s, i, j) == 0 <==> forall p :: j <= p && p + 1 + i < |s| ==> s[p] <= s[p + 1]
    decreases |s| - j
  {
    if j + 1 + i < |s| && s[j] <= s[j + 1] {
      PassCleanIff(s, i, j + 1);
    }
  }

  /** A pass without an exchange leaves the array alone and records one Compare per pair. */
  lemma {:induction false} PassCleanKeeps(s: seq<int>, i: nat, j: nat)
    requires j + 1 + i <= |s| && PassSwaps(s, i, j) == 0
    ensures PassArr(s, i, j) == s
    ensures |PassSteps(s, i, j)| == |s| - 1 - i - j
    decreases |s| - j
  {
    if j + 1 + i < |s| {
      PassCleanKeeps(s, i, j + 1);
    }
  }

  /**
   * Everything from position m on is in place: in adjacent order, and no smaller
   * than anything before it.
   */
  ghost predicate SettledFrom(s: seq<int>, m: int) {
    && (forall p :: m <= p && 0 <= p && p + 1 < |s| ==> s[p] <= s[p + 1])
    && (0 <= m < |s| ==> forall p :: 0 <= p < m ==> s[p] <= s[m])
  }

  /** Comparing j, j+1 carries the running maximum to j+1 and keeps the settled suffix. */
  lemma {:induction false} PairKeeps(s: seq<int>, j: int, m: int)
    requires 0 <= j && j + 1 < m <= |s|
    requires SettledFrom(s, m) && forall p :: 0 <= p <= j && p < |s| ==> s[p] <= s[j]
    ensures SettledFrom(PairResult(s, j), m)
    ensures forall p :: 0 <= p <= j + 1 && p < |s| ==> PairResult(s, j)[p] <= PairResult(s, j)[j + 1]
  {
    var t := PairResult(s, j);
    forall p | 0 <= p <= j + 1 ensures t[p] <= t[j + 1] {
      if p < j {
        assert t[p] == s[p];
      }
    }
    if m < |s| {
      forall p | 0 <= p < m ensures t[p] <= t[m] {
        if p != j && p != j + 1 {
          assert t[p] == s[p];
        }
      }
    }
  }

  /** When s[m-1] is the maximum of the prefix before the settled suffix from m, the suffix from m-1 is settled. */
  lemma {:induction false} SettleOne(s: seq<int>, m: int)
    requires 0 < m <= |s|
    requires SettledFrom(s, m)
    requires forall p :: 0 <= p <= m - 1 && p < |s| ==> s[p] <= s[m - 1]
    ensures SettledFrom(s, m - 1)
  {
    if m < |s| {
      assert s[m - 1] <= s[m];
    }
  }

  /** Pass i moves the largest element of the unsettled prefix to position n-1-i. */
  lemma {:induction false} PassSettles(s: seq<int>, i: nat, j: nat)
    requires j + 1 + i <= |s|
    requires SettledFrom(s, |s| - i)
    requires forall p :: 0 <= p <= j && p < |s| ==> s[p] <= s[j]
    ensures SettledFrom(PassArr(s, i, j), |s| - i - 1)
    decreases |s| - j
  {
    if j + 1 + i < |s| {
      var t := PairResult(s, j);
      PairKeeps(s, j, |s| - i);
      PassSettles(t, i, j + 1);
      assert PassArr(s, i, j) == PassArr(t, i, j + 1);
    } else {
      SettleOne(s, j + 1);
    }
  }

  /** The steps of a pass form a well-formed log. */
  lemma {:induction false} PassLog(s: seq<int>, i: nat, j: nat, passes: int)
    requires i < passes
    ensures BubbleLog(PassSteps(s, i, j), |s|, passes)
    decreases |s| - j
  {
    if j + 1 + i < |s| {
      var t := PairResult(s, j);
      PassLog(t, i, j + 1, passes);
      PairLog(s, i, j, PassSteps(t, i, j + 1), passes);
    }
  }

  /** Every tagged step of pass i carries tag i, and the rest of the pass from j on records one per pair. */
  lemma {:induction false} PassTags(s: seq<int>, i: nat, j: nat)
    ensures TagsWithin(PassSteps(s, i, j), i, i + 1)
    ensures CountTag(PassSteps(s, i, j), i) == if j + 1 + i >= |s| then 0 else |s| - 1 - i - j
    decreases |s| - j
  {
    if j + 1 + i < |s| {
      var t, pair := PairResult(s, j), PairSteps(s, i, j);
      PassTags(t, i, j + 1);
      PairTags(s, i, j);
      TagsWithinAppend(pair, PassSteps(t, i, j + 1), i, i + 1);
      CountTagAppend(pair, PassSteps(t, i, j + 1), i);
    }
  }

  /** The steps of one pair hold one step tagged i, the Compare. */
  lemma {:induction false} PairTags(s: seq<int>, i: int, j: int)
    requires 0 <= j && j + 1 < |s|
    ensures TagsWithin(PairSteps(s, i, j), i, i + 1) && CountTag(PairSteps(s, i, j), i) == 1
  {
    var pair := PairSteps(s, i, j);
    if s[j] > s[j + 1] {
      assert pair[1..] == [SwapStep(s, j)] && pair[1..][1..] == [];
      assert CountTag(pair[1..], i) == 0;
    } else {
      assert pair[1..] == [];
    }
  }

  /** A pass that compares anything records a last step showing the array it leaves. */
  lemma {:induction false} PassLast(s: seq<int>, i: nat, j: nat)
    requires j + 1 + i < |s|
    ensures |PassSteps(s, i, j)| > 0 && Last(PassSteps(s, i, j)).arrayState == PassArr(s, i, j)
    decreases |s| - j
  {
    var t := PairResult(s, j);
    assert PassSteps(s, i, j) == PairSteps(s, i, j) + PassSteps(t, i, j + 1);
    assert PassArr(s, i, j) == PassArr(t, i, j + 1);
    if j + 2 + i < |s| {
      PassLast(t, i, j + 1);
    }
  }

  // ---------------------------------------------------------------------
  // Facts about the whole sort

  /** The outer loop only rearranges the array. */
  lemma {:induction false} BubblePermutes(s: seq<int>, i: nat, ps: seq<nat>, st: seq<Step>)
    ensures multiset(Bubble(s, i, ps, st).arr) == multiset(s)
    decreases |s| - i
  {
    if i + 1 < |s| {
      PassPermutes(s, i, 0);
      if PassSwaps(s, i, 0) != 0 {
        BubblePermutes(PassArr(s, i, 0), i + 1, ps + [PassSwaps(s, i, 0)], st + PassSteps(s, i, 0));
      }
    }
  }

  /** Once the last i positions are settled, the rest of the outer loop leaves the array sorted. */
  lemma {:induction false} BubbleSorts(s: seq<int>, i: nat, ps: seq<nat>, st: seq<Step>)
    requires SettledFrom(s, |s| - i)
    ensures Sorted(Bubble(s, i, ps, st).arr)
    decreases |s| - i
  {
    var n := |s|;
    if i + 1 < n {
      var t := PassArr(s, i, 0);
      PassSettles(s, i, 0);
      if PassSwaps(s, i, 0) == 0 {
        PassCleanIff(s, i, 0);
        PassCleanKeeps(s, i, 0);
        assert AdjacentInOrder(t) by {
          forall q | 0 <= q < n - 1 ensures t[q] <= t[q + 1] {
            if q + 1 + i < n {
              assert t == s;
            }
          }
        }
        AdjacentInOrderIsSorted(t);
      } else {
        BubbleSorts(t, i + 1, ps + [PassSwaps(s, i, 0)], st + PassSteps(s, i, 0));
      }
    } else {
      assert AdjacentInOrder(s) by {
        if n > 1 {
          assert s[0] <= s[1];
        }
      }
      AdjacentInOrderIsSorted(s);
    }
  }

  /** The outer loop only appends to the exchange counts recorded so far. */
  lemma {:induction false} BubbleKeepsCounts(s: seq<int>, i: nat, ps: seq<nat>, st: seq<Step>)
    ensures |ps| <= |Bubble(s, i, ps, st).passSwaps| && Bubble(s, i, ps, st).passSwaps[..|ps|] == ps
    decreases |s| - i
  {
    if i + 1 < |s| && PassSwaps(s, i, 0) != 0 {
      var ps' := ps + [PassSwaps(s, i, 0)];
      BubbleKeepsCounts(PassArr(s, i, 0), i + 1, ps', st + PassSteps(s, i, 0));
      assert ps'[..|ps|] == ps;
    }
  }

  /**
   * The passes run one after another until one makes no exchange or the pass
   * limit n-1 is reached: every pass but the last exchanged something, and the
   * last one ran clean unless the limit stopped the sort.
   */
  lemma {:induction false} BubbleCount(s: seq<int>, i: nat, ps: seq<nat>, st: seq<Step>)
    ensures i + 1 >= |s| ==> Bubble(s, i, ps, st).passSwaps == ps
    ensures i + 1 < |s| ==> |ps| + 1 <= |Bubble(s, i, ps, st).passSwaps| <= |ps| + |s| - 1 - i
    ensures forall p :: |ps| <= p < |Bubble(s, i, ps, st).passSwaps| - 1 ==> Bubble(s, i, ps, st).passSwaps[p] > 0
    ensures var w := Bubble(s, i, ps, st).passSwaps;
            |ps| < |w| < |ps| + |s| - 1 - i ==> w[|w| - 1] == 0
    decreases |s| - i
  {
    if i + 1 < |s| && PassSwaps(s, i, 0) != 0 {
      var ps' := ps + [PassSwaps(s, i, 0)];
      var t, st' := PassArr(s, i, 0), st + PassSteps(s, i, 0);
      BubbleCount(t, i + 1, ps', st');
      BubbleKeepsCounts(t, i + 1, ps', st');
      assert Bubble(s, i, ps, st) == Bubble(t, i + 1, ps', st');
      assert Bubble(t, i + 1, ps', st').passSwaps[|ps|] == ps'[|ps|];
    }
  }

  /** The steps the outer loop appends keep the log well formed, each Compare tagged by its pass. */
  lemma {:induction false} BubbleLogs(s: seq<int>, i: nat, ps: seq<nat>, st: seq<Step>, passes: int)
    requires BubbleLog(st, |s|, passes)
    requires i + |Bubble(s, i, ps, st).passSwaps| - |ps| <= passes
    ensures BubbleLog(Bubble(s, i, ps, st).steps, |s|, passes)
    decreases |s| - i
  {
    if i + 1 < |s| {
      BubbleCount(s, i, ps, st);
      PassLog(s, i, 0, passes);
      LogAppend(st, PassSteps(s, i, 0), |s|, passes);
      if PassSwaps(s, i, 0) != 0 {
        BubbleLogs(PassArr(s, i, 0), i + 1, ps + [PassSwaps(s, i, 0)], st + PassSteps(s, i, 0), passes);
      }
    }
  }

  /**
   * The outer loop appends the passes in order: tags never decrease along the
   * log, and pass p contributes exactly n-1-p tagged steps, its Compares.
   */
  lemma {:induction false} BubbleTags(s: seq<int>, i: nat, ps: seq<nat>, st: seq<Step>)
    requires |ps| == i && TagsOrdered(st) && TagsWithin(st, 0, i)
    requires forall p :: 0 <= p < i ==> CountTag(st, p) == |s| - 1 - p
    ensures var r := Bubble(s, i, ps, st);
            && TagsOrdered(r.steps) && TagsWithin(r.steps, 0, |r.passSwaps|)
            && forall p :: 0 <= p < |r.passSwaps| ==> CountTag(r.steps, p) == |s| - 1 - p
    decreases |s| - i
  {
    if i + 1 < |s| {
      var pass := PassSteps(s, i, 0);
      var st' := st + pass;
      PassTags(s, i, 0);
      assert TagsOrdered(pass);
      TagsOrderedAppend(st, pass, 0, i, i + 1);
      forall p | 0 <= p < i + 1
        ensures CountTag(st', p) == |s| - 1 - p
      {
        CountTagAppend(st, pass, p);
        if p == i {
          CountTagAbsent(st, i);
        } else {
          CountTagAbsent(pass, p);
        }
      }
      if PassSwaps(s, i, 0) != 0 {
        BubbleTags(PassArr(s, i, 0), i + 1, ps + [PassSwaps(s, i, 0)], st');
      }
    }
  }

  /** The last step of the log shows the array the outer loop leaves. */
  lemma {:induction false} BubbleLast(s: seq<int>, i: nat, ps: seq<nat>, st: seq<Step>)
    requires |st| > 0 ==> Last(st).arrayState == s
    ensures |Bubble(s, i, ps, st).steps| > 0 ==> Last(Bubble(s, i, ps, st).steps).arrayState == Bubble(s, i, ps, st).arr
    decreases |s| - i
  {
    if i + 1 < |s| {
      PassLast(s, i, 0);
      LastAppend(st, PassSteps(s, i, 0));
      if PassSwaps(s, i, 0) != 0 {
        BubbleLast(PassArr(s, i, 0), i + 1, ps + [PassSwaps(s, i, 0)], st + PassSteps(s, i, 0));
      }
    }
  }

  /** Bubble sort's result is a sorted permutation of its input. */
  lemma {:induction false} BubbleSortSorts(s: seq<int>)
    ensures Sorted(Bubble(s, 0, [], []).arr)
    ensures multiset(Bubble(s, 0, [], []).arr) == multiset(s)
  {
    BubblePermutes(s, 0, [], []);
    BubbleSorts(s, 0, [], []);
  }

  /**
   * The log of the whole sort is a well-formed bubble sort log and its last
   * snapshot is the result. Its Compares come pass by pass: the tags never
   * decrease along the log, and pass p has exactly n-1-p steps tagged p, so
   * the steps tagged p are the Compares of pass p and nothing else.
   */
  lemma {:induction false} BubbleSortLog(s: seq<int>)
    ensures var r := Bubble(s, 0, [], []);
            BubbleLog(r.steps, |s|, |r.passSwaps|)
    ensures var r := Bubble(s, 0, [], []);
            |r.steps| > 0 ==> Last(r.steps).arrayState == r.arr
    ensures var r := Bubble(s, 0, [], []);
            && TagsOrdered(r.steps)
            && forall p :: 0 <= p < |r.passSwaps| ==> CountTag(r.steps, p) == |s| - 1 - p
  {
    BubbleLogs(s, 0, [], [], |Bubble(s, 0, [], []).passSwaps|);
    BubbleLast(s, 0, [], []);
    BubbleTags(s, 0, [], []);
  }

  /**
   * Inputs of fewer than two elements run no pass; otherwise between one and
   * n-1 passes run, every pass but the last exchanged something, and the last
   * pass was clean unless the n-1 limit stopped the sort.
   */
  lemma {:induction false} BubbleSortPasses(s: seq<int>)
    ensures |s| < 2 ==> Bubble(s, 0, [], []) == Sorting(s, [], [])
    ensures |s| >= 2 ==> 1 <= |Bubble(s, 0, [], []).passSwaps| <= |s| - 1
    ensures var w := Bubble(s, 0, [], []).passSwaps;
            (forall p :: 0 <= p < |w| - 1 ==> w[p] > 0) && (0 < |w| < |s| - 1 ==> w[|w| - 1] == 0)
  {
    BubbleCount(s, 0, [], []);
  }

  /** On an already sorted input of two or more elements bubble sort makes one clean pass of n-1 comparisons. */
  lemma {:induction false} SortedInputOnePass(s: seq<int>)
    requires Sorted(s) && |s| >= 2
    ensures Bubble(s, 0, [], []).arr == s
    ensures Bubble(s, 0, [], []).passSwaps == [0]
    ensures |Bubble(s, 0, [], []).steps| == |s| - 1
  {
    PassCleanIff(s, 0, 0);
    PassCleanKeeps(s, 0, 0);
  }

  /** An input with an adjacent pair out of order makes the first pass exchange something. */
  lemma {:induction false} UnsortedInputSwaps(s: seq<int>, j: int)
    requires 0 <= j && j + 1 < |s| && s[j] > s[j + 1]
    ensures |Bubble(s, 0, [], []).passSwaps| > 0 && Bubble(s, 0, [], []).passSwaps[0] > 0
  {
    var w := PassSwaps(s, 0, 0);
    assert w != 0 by {
      PassCleanIff(s, 0, 0);
    }
    var r := Bubble(PassArr(s, 0, 0), 1, [] + [w], [] + PassSteps(s, 0, 0));
    assert Bubble(s, 0, [], []) == r;
    BubbleKeepsCounts(PassArr(s, 0, 0), 1, [] + [w], [] + PassSteps(s, 0, 0));
    assert r.passSwaps[0] == r.passSwaps[..1][0];
  }

  // ---------------------------------------------------------------------
  // The engine

  /** Exchanges a[j] and a[j+1] when they are out of order. */
  method CompareAdjacent(a: array<int>, j: int) returns (exchanged: bool)
    requires 0 <= j && j + 1 < a.Length
    modifies a
    ensures exchanged == (old(a[j]) > old(a[j + 1]))
    ensures a[..] == PairResult(old(a[..]), j)
  {
    exchanged := a[j] > a[j + 1];
    if exchanged {
      a[j], a[j + 1] := a[j + 1], a[j];
    }
  }

  /** One outer pass i (the inner `for j` loop): appends its steps and returns its number of exchanges. */
  method BubblePass(a: array<int>, i: nat, steps0: seq<Step>) returns (steps: seq<Step>, swaps: nat)
    modifies a
    ensures a[..] == PassArr(old(a[..]), i, 0)
    ensures swaps == PassSwaps(old(a[..]), i, 0)
    ensures steps == steps0 + PassSteps(old(a[..]), i, 0)
  {
    steps, swaps := steps0, 0;
    var j := 0;
    while j + 1 + i < a.Length
      invariant PassArr(a[..], i, j) == PassArr(old(a[..]), i, 0)
      invariant swaps + PassSwaps(a[..], i, j) == PassSwaps(old(a[..]), i, 0)
      invariant steps + PassSteps(a[..], i, j) == steps0 + PassSteps(old(a[..]), i, 0)
    {
      var s := a[..];
      var exchanged := CompareAdjacent(a, j);
      assert steps + PassSteps(s, i, j) == (steps + PairSteps(s, i, j)) + PassSteps(a[..], i, j + 1);
      steps := steps + PairSteps(s, i, j);
      if exchanged {
        swaps := swaps + 1;
      }
      j := j + 1;
    }
  }

  /**
   * Sorts `a` in place and returns the log together with the number of exchanges
   * of each outer pass (so the outer loop ran |passSwaps| times).
   */
  method BubbleSortWithSteps(a: array<int>) returns (steps: seq<Step>, passSwaps: seq<nat>)
    modifies a
    ensures Sorting(a[..], passSwaps, steps) == Bubble(old(a[..]), 0, [], [])
    ensures Sorted(a[..]) && multiset(a[..]) == multiset(old(a[..]))
  {
    steps, passSwaps := [], [];
    var i := 0;
    while i + 1 < a.Length
      invariant Bubble(a[..], i, passSwaps, steps) == Bubble(old(a[..]), 0, [], [])
    {
      var swaps;
      steps, swaps := BubblePass(a, i, steps);
      passSwaps := passSwaps + [swaps];
      if swaps == 0 {
        break;
      }
      i := i + 1;
    }
    BubbleSortSorts(old(a[..]));
  }
}
