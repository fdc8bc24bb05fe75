/**
 * Insertion sort recording, for every position i from 1 on, a StartInsertion
 * step, one Move step per element shifted right, and a Place step; every step
 * of pass i is tagged with i.
 *
 * ShiftFrom (the inner `while`) and Insertion (the outer `for`) describe what
 * the loops compute; InsertAt and Hole say what one pass does to the array.
 */
module InsertionSort {
  import opened Seqs
  import opened StepLog

  /** The step recorded when pass i picks up the key s[i]. */
  function StartStep(s: seq<int>, i: int): Step {
    Step(s, StartInsertion, Some(i), [i], [])
  }

  /** The step recorded after the element at j was copied to j+1 in pass i. */
  function MoveStep(t: seq<int>, i: int, j: int): Step {
    Step(t, Move, Some(i), [j, j + 1], [j + 1])
  }

  /** The step recorded after the key was dropped at p in pass i. */
  function PlaceStep(t: seq<int>, i: int, p: int): Step {
    Step(t, Place, Some(i), [p], [])
  }

  /** The state of the inner loop: the array, the index j, and the log. */
  datatype Shift = Shift(arr: seq<int>, j: int, steps: seq<Step>)

  /** The inner loop of pass i from index j on: shift right while the element at j is greater than key. */
  function ShiftFrom(t: seq<int>, key: int, i: int, j: int, steps: seq<Step>): (r: Shift)
    requires -1 <= j < |t| - 1
    ensures |r.arr| == |t| && -1 <= r.j <= j
    decreases j + 1
  {
    if j >= 0 && t[j] > key then
      var t' := t[j + 1 := t[j]];
      ShiftFrom(t', key, i, j - 1, steps + [MoveStep(t', i, j)])
    else Shift(t, j, steps)
  }

  /** What the sort leaves: the array and the log. */
  datatype Sorting = Sorting(arr: seq<int>, steps: seq<Step>)

  /** One pass of the outer loop: pick up s[i], shift the greater elements right, drop it in the hole. */
  function InsertPass(s: seq<int>, i: int, steps: seq<Step>): (r: Sorting)
    requires 1 <= i < |s|
    ensures |r.arr| == |s|
  {
    var r := ShiftFrom(s, s[i], i, i - 1, steps + [StartStep(s, i)]);
    var t := r.arr[r.j + 1 := s[i]];
    Sorting(t, r.steps + [PlaceStep(t, i, r.j + 1)])
  }

  /** The outer loop from pass i on, given the steps recorded so far. */
  function Insertion(s: seq<int>, i: int, steps: seq<Step>): Sorting
    requires 1 <= i
    decreases |s| - i
  {
    if i >= |s| then Sorting(s, steps)
    else
      var p := InsertPass(s, i, steps);
      Insertion(p.arr, i + 1, p.steps)
  }

  // ---------------------------------------------------------------------
  // What one pass does to the array

  /**
   * Where the key lands when the scan starts at j: one past the first position,
   * scanning down, whose element is not greater than the key.
   */
  function Hole(s: seq<int>, key: int, j: int): (h: int)
    requires -1 <= j < |s|
    ensures 0 <= h <= j + 1
    decreases j + 1
  {
    if j >= 0 && s[j] > key then Hole(s, key, j - 1) else j + 1
  }

  /**
   * The hole lies at or below j+1, every element between it and j is strictly
   * greater than the key, and the element just below it is not: the key is never
   * moved past an equal element.
   */
  lemma {:induction false} HoleSpec(s: seq<int>, key: int, j: int)
    requires -1 <= j < |s|
    ensures forall k :: Hole(s, key, j) <= k <= j ==> s[k] > key
    ensures Hole(s, key, j) == 0 || s[Hole(s, key, j) - 1] <= key
    decreases j + 1
  {
    if j >= 0 && s[j] > key {
      HoleSpec(s, key, j - 1);
    }
  }

  /** s with s[i] taken out and put back at position h <= i. */
  function InsertAt(s: seq<int>, i: int, h: int): seq<int>
    requires 0 <= h <= i < |s|
  {
    s[..h] + [s[i]] + s[h..i] + s[i + 1..]
  }

  /**
   * The inner loop lands on the hole: started on s with the part s[j+1..i]
   * already shifted one place right, it stops at Hole - 1, and dropping the key
   * there gives InsertAt.
   */
  lemma {:induction false} ShiftLands(t: seq<int>, s: seq<int>, i: int, j: int, st: seq<Step>)
    requires 0 <= i < |s| && -1 <= j < i && |t| == |s|
    requires t[..j + 1] == s[..j + 1] && t[j + 2..] == s[j + 1..i] + s[i + 1..]
    ensures ShiftFrom(t, s[i], i, j, st).arr[Hole(s, s[i], j) := s[i]]
            == s[..Hole(s, s[i], j)] + [s[i]] + s[Hole(s, s[i], j)..i] + s[i + 1..]
    decreases j + 1
  {
    var key := s[i];
    if j >= 0 && t[j] > key {
      assert t[j] == s[j] by {
        assert t[j] == t[..j + 1][j];
      }
      var t' := t[j + 1 := t[j]];
      assert t'[..j] == s[..j] by {
        assert t'[..j] == t[..j + 1][..j];
      }
      assert t'[j + 1..] == s[j..i] + s[i + 1..] by {
        assert t'[j + 1..] == [s[j]] + t[j + 2..];
        assert s[j..i] == [s[j]] + s[j + 1..i];
      }
      ShiftLands(t', s, i, j - 1, st + [MoveStep(t', i, j)]);
    } else {
      ShiftStays(t, s, i, j, st);
    }
  }

  /** The inner loop that does not enter leaves t, and t with the key at j + 1 is the insertion. */
  lemma {:induction false} ShiftStays(t: seq<int>, s: seq<int>, i: int, j: int, st: seq<Step>)
    requires 0 <= i < |s| && -1 <= j < i && |t| == |s|
    requires t[..j + 1] == s[..j + 1] && t[j + 2..] == s[j + 1..i] + s[i + 1..]
    requires !(j >= 0 && t[j] > s[i])
    ensures ShiftFrom(t, s[i], i, j, st).arr[Hole(s, s[i], j) := s[i]]
            == s[..Hole(s, s[i], j)] + [s[i]] + s[Hole(s, s[i], j)..i] + s[i + 1..]
  {
    if j >= 0 {
      assert t[j] == s[j] by {
        assert t[j] == t[..j + 1][j];
      }
    }
    assert Hole(s, s[i], j) == j + 1;
    assert t[j + 1 := s[i]] == t[..j + 1] + [s[i]] + t[j + 2..];
  }

  /** The inner loop stops one below the hole: it only reads the part below j + 1, which still agrees with s. */
  lemma {:induction false} ShiftStops(t: seq<int>, s: seq<int>, i: int, j: int, st: seq<Step>)
    requires 0 <= i < |s| && -1 <= j < i && |t| == |s|
    requires t[..j + 1] == s[..j + 1]
    ensures ShiftFrom(t, s[i], i, j, st).j == Hole(s, s[i], j) - 1
    decreases j + 1
  {
    if j >= 0 {
      assert t[j] == s[j] by {
        assert t[j] == t[..j + 1][j];
      }
      if t[j] > s[i] {
        var t' := t[j + 1 := t[j]];
        assert t'[..j] == s[..j] by {
          assert t'[..j] == t[..j + 1][..j];
        }
        ShiftStops(t', s, i, j - 1, st + [MoveStep(t', i, j)]);
      }
    }
  }

  /** A pass moves s[i] down to the hole and leaves everything else in order. */
  lemma {:induction false} PassInserts(s: seq<int>, i: int, st: seq<Step>)
    requires 1 <= i < |s|
    ensures InsertPass(s, i, st).arr == InsertAt(s, i, Hole(s, s[i], i - 1))
  {
    var st0 := st + [StartStep(s, i)];
    var h := Hole(s, s[i], i - 1);
    assert s[i + 1..] == s[i..i] + s[i + 1..];
    ShiftLands(s, s, i, i - 1, st0);
    ShiftStops(s, s, i, i - 1, st0);
    var r := ShiftFrom(s, s[i], i, i - 1, st0);
    assert r.j + 1 == h;
    assert InsertPass(s, i, st).arr == r.arr[h := s[i]];
  }

  /** Moving an element within the sequence keeps the multiset. */
  lemma {:induction false} InsertAtPermutes(s: seq<int>, i: int, h: int)
    requires 0 <= h <= i < |s|
    ensures multiset(InsertAt(s, i, h)) == multiset(s)
  {
    assert s == s[..h] + s[h..i] + [s[i]] + s[i + 1..];
  }

  /**
   * With s[..i] sorted and h the hole of s[i], the first i+1 elements of
   * InsertAt(s, i, h) are sorted, and the elements after i are untouched.
   */
  lemma {:induction false} InsertAtSorted(s: seq<int>, i: int, h: int)
    requires 0 <= h <= i < |s| && Sorted(s[..i])
    requires forall k :: h <= k < i ==> s[k] > s[i]
    requires h == 0 || s[h - 1] <= s[i]
    ensures Sorted(InsertAt(s, i, h)[..i + 1])
  {
    var r := InsertAt(s, i, h)[..i + 1];
    assert r == s[..h] + [s[i]] + s[h..i];
    forall p, q | 0 <= p < q < |r| ensures r[p] <= r[q] {
      if q < h {
        assert r[p] == s[..i][p] && r[q] == s[..i][q];
      } else if q == h {
        if p < h - 1 {
          assert r[p] == s[..i][p] && s[h - 1] == s[..i][h - 1];
        }
      } else if p < h {
        assert r[p] == s[..i][p] && r[q] == s[..i][q - 1];
        assert s[h - 1] == s[..i][h - 1] && s[q - 1] == s[..i][q - 1];
      } else if p > h {
        assert r[p] == s[..i][p - 1] && r[q] == s[..i][q - 1];
      }
    }
  }

  /** After pass i the prefix up to i is sorted, the rest is untouched, and the multiset is unchanged. */
  lemma {:induction false} PassSortsPrefix(s: seq<int>, i: int, st: seq<Step>)
    requires 1 <= i < |s| && Sorted(s[..i])
    ensures Sorted(InsertPass(s, i, st).arr[..i + 1])
    ensures InsertPass(s, i, st).arr[i + 1..] == s[i + 1..]
    ensures multiset(InsertPass(s, i, st).arr) == multiset(s)
  {
    var h := Hole(s, s[i], i - 1);
    HoleSpec(s, s[i], i - 1);
    PassInserts(s, i, st);
    InsertAtSorted(s, i, h);
    InsertAtPermutes(s, i, h);
    assert InsertAt(s, i, h)[i + 1..] == s[i + 1..];
  }

  /**
   * The key passes only over strictly greater elements and stops above the
   * first element not greater than it: equal elements keep their order.
   */
  lemma {:induction false} PassStable(s: seq<int>, i: int)
    requires 1 <= i < |s|
    ensures forall k :: Hole(s, s[i], i - 1) <= k < i ==> s[k] > s[i]
    ensures Hole(s, s[i], i - 1) == 0 || s[Hole(s, s[i], i - 1) - 1] <= s[i]
  {
    HoleSpec(s, s[i], i - 1);
  }

  // ---------------------------------------------------------------------
  // The steps of one pass

  /** Every step from `from` on is a Move of pass i on a snapshot of length n. */
  ghost predicate MovesFrom(steps: seq<Step>, from: int, i: int, n: int) {
    forall k :: from <= k < |steps| && 0 <= k ==>
      steps[k].kind == Move && steps[k].iteration == Some(i) && |steps[k].arrayState| == n
  }

  /** The inner loop appends one Move step per position it shifts. */
  lemma {:induction false} ShiftSteps(t: seq<int>, key: int, i: int, j: int, st: seq<Step>)
    requires -1 <= j < |t| - 1
    ensures var r := ShiftFrom(t, key, i, j, st);
            && |r.arr| == |t| && -1 <= r.j <= j
            && |r.steps| == |st| + (j - r.j) && r.steps[..|st|] == st
            && MovesFrom(r.steps, |st|, i, |t|)
    decreases j + 1
  {
    if j >= 0 && t[j] > key {
      var t' := t[j + 1 := t[j]];
      var st' := st + [MoveStep(t', i, j)];
      ShiftSteps(t', key, i, j - 1, st');
      var r := ShiftFrom(t', key, i, j - 1, st');
      assert r.steps[..|st|] == r.steps[..|st'|][..|st|];
      assert r.steps[|st|] == r.steps[..|st'|][|st|];
    } else {
      assert st[..|st|] == st;
    }
  }

  /**
   * Pass i records one StartInsertion step, then one Move step per element
   * shifted (i - hole of them), then one Place step; all tagged i, all full
   * snapshots.
   */
  lemma {:induction false} PassLog(s: seq<int>, i: int, st: seq<Step>)
    requires 1 <= i < |s|
    ensures var r, h := InsertPass(s, i, st), Hole(s, s[i], i - 1);
            && |r.steps| == |st| + (i - h) + 2
            && r.steps[..|st|] == st
            && r.steps[|st|] == StartStep(s, i)
            && MovesFrom(r.steps[..|r.steps| - 1], |st| + 1, i, |s|)
            && Last(r.steps).kind == Place && Last(r.steps).iteration == Some(i)
            && |Last(r.steps).arrayState| == |s|
  {
    var st0 := st + [StartStep(s, i)];
    ShiftSteps(s, s[i], i, i - 1, st0);
    assert s[i + 1..] == s[i..i] + s[i + 1..];
    ShiftLands(s, s, i, i - 1, st0);
    ShiftStops(s, s, i, i - 1, st0);
    var r := ShiftFrom(s, s[i], i, i - 1, st0);
    var steps := InsertPass(s, i, st).steps;
    assert steps[..|steps| - 1] == r.steps;
    assert steps[..|st|] == r.steps[..|st0|][..|st|];
    assert steps[|st|] == r.steps[..|st0|][|st|];
  }

  // ---------------------------------------------------------------------
  // The whole sort

  /** The outer loop only rearranges the array. */
  lemma {:induction false} InsertionPermutes(s: seq<int>, i: int, st: seq<Step>)
    requires 1 <= i
    ensures multiset(Insertion(s, i, st).arr) == multiset(s)
    decreases |s| - i
  {
    if i < |s| {
      var p := InsertPass(s, i, st);
      var h := Hole(s, s[i], i - 1);
      HoleSpec(s, s[i], i - 1);
      PassInserts(s, i, st);
      InsertAtPermutes(s, i, h);
      InsertionPermutes(p.arr, i + 1, p.steps);
    }
  }

  /** With the prefix before i sorted, the rest of the outer loop leaves the array sorted. */
  lemma {:induction false} InsertionSorts(s: seq<int>, i: int, st: seq<Step>)
    requires 1 <= i && (i <= |s| ==> Sorted(s[..i])) && (i > |s| ==> s == [])
    ensures Sorted(Insertion(s, i, st).arr)
    decreases |s| - i
  {
    if s == [] {
    } else if i < |s| {
      var p := InsertPass(s, i, st);
      PassSortsPrefix(s, i, st);
      InsertionSorts(p.arr, i + 1, p.steps);
    } else {
      assert s[..i] == s;
    }
  }

  /** Every step the outer loop appends is tagged with a pass 1 <= i < n and holds a full snapshot. */
  lemma {:induction false} InsertionLog(s: seq<int>, i: int, st: seq<Step>)
    requires 1 <= i
    requires forall k :: 0 <= k < |st| ==>
               |st[k].arrayState| == |s| && st[k].iteration.Some? && 1 <= st[k].iteration.value < |s|
    ensures var r := Insertion(s, i, st).steps;
            forall k :: 0 <= k < |r| ==>
              |r[k].arrayState| == |s| && r[k].iteration.Some? && 1 <= r[k].iteration.value < |s|
    decreases |s| - i
  {
    if i < |s| {
      var p := InsertPass(s, i, st);
      PassLog(s, i, st);
      var r := p.steps;
      forall k | 0 <= k < |r|
        ensures |r[k].arrayState| == |s| && r[k].iteration.Some? && 1 <= r[k].iteration.value < |s|
      {
        if k < |st| {
          assert r[k] == r[..|st|][k];
        } else if k == |st| {
          assert r[k] == StartStep(s, i);
        } else if k < |r| - 1 {
          assert r[k] == r[..|r| - 1][k];
        } else {
          assert r[k] == Last(r);
        }
      }
      assert |p.arr| == |s|;
      InsertionLog(p.arr, i + 1, p.steps);
      var whole, rest := Insertion(s, i, st).steps, Insertion(p.arr, i + 1, p.steps).steps;
      assert whole == rest;
      forall k | 0 <= k < |whole|
        ensures |whole[k].arrayState| == |s| && whole[k].iteration.Some? && 1 <= whole[k].iteration.value < |s|
      {
        assert whole[k] == Insertion(p.arr, i + 1, p.steps).steps[k];
      }
    }
  }

  /** Insertion sort's result is a sorted permutation of its input. */
  lemma {:induction false} InsertionSortSorts(s: seq<int>)
    ensures Sorted(Insertion(s, 1, []).arr)
    ensures multiset(Insertion(s, 1, []).arr) == multiset(s)
  {
    if s != [] {
      assert Sorted(s[..1]);
    }
    InsertionSorts(s, 1, []);
    InsertionPermutes(s, 1, []);
  }

  // ---------------------------------------------------------------------
  // The engine

  /** The inner `while` of pass i: shifts the elements greater than key one place right, from i-1 down. */
  method ShiftGreater(a: array<int>, key: int, i: int, steps0: seq<Step>) returns (j: int, steps: seq<Step>)
    requires 1 <= i < a.Length
    modifies a
    ensures Shift(a[..], j, steps) == ShiftFrom(old(a[..]), key, i, i - 1, steps0)
  {
    j, steps := i - 1, steps0;
    while j >= 0 && a[j] > key
      invariant -1 <= j < i
      invariant ShiftFrom(a[..], key, i, j, steps) == ShiftFrom(old(a[..]), key, i, i - 1, steps0)
    {
      a[j + 1] := a[j];
      steps := steps + [MoveStep(a[..], i, j)];
      j := j - 1;
    }
  }

  /** Sorts `a` in place and returns the log. */
  method InsertionSortWithSteps(a: array<int>) returns (steps: seq<Step>)
    modifies a
    ensures Sorting(a[..], steps) == Insertion(old(a[..]), 1, [])
    ensures Sorted(a[..]) && multiset(a[..]) == multiset(old(a[..]))
  {
    steps := [];
    var i := 1;
    while i < a.Length
      invariant 1 <= i
      invariant Insertion(a[..], i, steps) == Insertion(old(a[..]), 1, [])
    {
      ghost var s, steps0 := a[..], steps;
      var key := a[i];
      var j;
      steps := steps + [StartStep(a[..], i)];
      j, steps := ShiftGreater(a, key, i, steps);
      a[j + 1] := key;
      steps := steps + [PlaceStep(a[..], i, j + 1)];
      assert InsertPass(s, i, steps0) == Sorting(a[..], steps);
      i := i + 1;
    }
    InsertionSortSorts(old(a[..]));
  }
}
