/**
 * Facts about integer sequences shared by the sort engines, the classifier
 * and the array generators.
 */
module Seqs {

  /** Every element is at most every later element (non-decreasing). */
  ghost predicate Sorted(s: seq<int>) {
    forall i, j :: 0 <= i < j < |s| ==> s[i] <= s[j]
  }

  /** The slice s[lo..hi] is non-decreasing (indices outside 0..|s| are ignored). */
  ghost predicate SortedBetween(s: seq<int>, lo: int, hi: int) {
    forall i, j :: lo <= i < j < hi && 0 <= i && j < |s| ==> s[i] <= s[j]
  }

  /** Every adjacent pair is in order. */
  ghost predicate AdjacentInOrder(s: seq<int>) {
    forall p :: 0 <= p < |s| - 1 ==> s[p] <= s[p + 1]
  }

  /** Adjacent order is global order: the two definitions of "sorted" agree. */
  lemma {:induction false} AdjacentInOrderIsSorted(s: seq<int>)
    ensures AdjacentInOrder(s) <==> Sorted(s)
    decreases |s|
  {
    if |s| > 1 && AdjacentInOrder(s) {
      AdjacentInOrderIsSorted(s[1..]);
      assert AdjacentInOrder(s[1..]);
      forall i, j | 0 <= i < j < |s| ensures s[i] <= s[j] {
        if i == 0 {
          assert s[1..][0] <= s[1..][j - 1];
        } else {
          assert s[1..][i - 1] <= s[1..][j - 1];
        }
      }
    }
  }

  /** s with the elements at i and j exchanged. */
  function Swapped(s: seq<int>, i: int, j: int): (r: seq<int>)
    requires 0 <= i < |s| && 0 <= j < |s|
    ensures |r| == |s| && r[i] == s[j] && r[j] == s[i]
    ensures forall k :: 0 <= k < |s| && k != i && k != j ==> r[k] == s[k]
  {
    s[i := s[j]][j := s[i]]
  }

  /** Exchanging two elements keeps the multiset. */
  lemma {:induction false} SwappedPermutes(s: seq<int>, i: int, j: int)
    requires 0 <= i < |s| && 0 <= j < |s|
    ensures multiset(Swapped(s, i, j)) == multiset(s)
  {
  }

  /** The suffix from i holds s[i] and the suffix from i + 1. */
  lemma {:induction false} SuffixMultiset(s: seq<int>, i: int)
    requires 0 <= i < |s|
    ensures multiset(s[i..]) == multiset{s[i]} + multiset(s[i + 1..])
  {
    assert s[i..] == [s[i]] + s[i + 1..];
  }

  /** Putting an element no larger than the head in front of a sorted sequence keeps it sorted. */
  lemma {:induction false} PrependSorted(h: int, r: seq<int>)
    requires Sorted(r) && (|r| > 0 ==> h <= r[0])
    ensures Sorted([h] + r)
  {
    var t := [h] + r;
    forall i, j | 0 <= i < j < |t| ensures t[i] <= t[j] {
      if i > 0 {
        assert t[i] == r[i - 1] && t[j] == r[j - 1];
      } else {
        assert t[j] == r[j - 1];
      }
    }
  }

  /** x inserted before the first element of t that is not below it. */
  function Insert(x: int, t: seq<int>): seq<int> {
    if t == [] || x <= t[0] then [x] + t else [t[0]] + Insert(x, t[1..])
  }

  /** Inserting into a sorted sequence gives a sorted sequence with one more x. */
  lemma {:induction false} InsertSorted(x: int, t: seq<int>)
    requires Sorted(t)
    ensures Sorted(Insert(x, t))
    ensures multiset(Insert(x, t)) == multiset(t) + multiset{x}
    ensures |Insert(x, t)| == |t| + 1
    ensures Insert(x, t)[0] == x || (|t| > 0 && Insert(x, t)[0] == t[0])
  {
    if t == [] || x <= t[0] {
      PrependSorted(x, t);
    } else {
      assert Sorted(t[1..]);
      InsertSorted(x, t[1..]);
      PrependSorted(t[0], Insert(x, t[1..]));
      assert t == [t[0]] + t[1..];
    }
  }

  /**
   * The ascending copy of s: what JavaScript's `[...s].sort((a, b) => a - b)`
   * yields for integer elements.
   */
  function SortedCopy(s: seq<int>): (r: seq<int>)
    ensures |r| == |s|
    ensures Sorted(r)
    ensures multiset(r) == multiset(s)
  {
    if s == [] then []
    else
      assert s == [s[0]] + s[1..];
      InsertSorted(s[0], SortedCopy(s[1..]));
      Insert(s[0], SortedCopy(s[1..]))
  }

  /** The elements of s in the opposite order. */
  function Reversed(s: seq<int>): (r: seq<int>)
    ensures |r| == |s|
    ensures forall k :: 0 <= k < |s| ==> r[k] == s[|s| - 1 - k]
  {
    if s == [] then [] else Reversed(s[1..]) + [s[0]]
  }

  /** Reversing a sequence keeps its multiset. */
  lemma {:induction false} ReversedPermutes(s: seq<int>)
    ensures multiset(Reversed(s)) == multiset(s)
  {
    if s != [] {
      ReversedPermutes(s[1..]);
      assert s == [s[0]] + s[1..];
    }
  }

  /** A permutation of a sequence bounded above by x is bounded above by x. */
  lemma {:induction false} BoundAbovePreserved(s: seq<int>, t: seq<int>, x: int)
    requires multiset(s) == multiset(t)
    requires forall k :: 0 <= k < |s| ==> s[k] <= x
    ensures forall k :: 0 <= k < |t| ==> t[k] <= x
  {
    forall k | 0 <= k < |t| ensures t[k] <= x {
      assert t[k] in multiset(t);
      assert t[k] in multiset(s);
      var m :| 0 <= m < |s| && s[m] == t[k];
    }
  }

  /** A permutation of a sequence bounded below by x is bounded below by x. */
  lemma {:induction false} BoundBelowPreserved(s: seq<int>, t: seq<int>, x: int)
    requires multiset(s) == multiset(t)
    requires forall k :: 0 <= k < |s| ==> s[k] > x
    ensures forall k :: 0 <= k < |t| ==> t[k] > x
  {
    forall k | 0 <= k < |t| ensures t[k] > x {
      assert t[k] in multiset(t);
      assert t[k] in multiset(s);
      var m :| 0 <= m < |s| && s[m] == t[k];
    }
  }
}
