/**
 * The array classifier: a list of entries is rejected when empty or when an
 * entry is not a number, and otherwise falls into the first of five classes
 * it meets, in this order: a single element, already sorted (every adjacent
 * pair non-decreasing), reverse sorted (every adjacent pair non-increasing),
 * nearly sorted (no element further from its place in an ascending copy than
 * a tenth of the length, rounded up), or random. Each class comes with fixed
 * advice.
 */
module Analyze {
  import opened Seqs

  /** One parsed entry: a number, or NaN when the text was not one. */
  datatype Entry = NaN | Num(value: int)

  /** The five classes, in the order they are tried. */
  datatype Classification = OneElement | AlreadySorted | ReverseSorted | NearlySorted | Random

  /** The fixed advice shown with each class. */
  datatype Advice = NoSortingRequired | ReverseThenMerge | InsertionOrHeap | QuickOrMerge

  /** The result shown: a rejection, or the class and its advice. */
  datatype Outcome = EmptyInput | InvalidNumber | Analysed(kind: Classification, advice: Advice)

  /** The numbers of an input without NaN. */
  function Values(input: seq<Entry>): (s: seq<int>)
    requires NaN !in input
    ensures |s| == |input| && forall k :: 0 <= k < |s| ==> input[k] == Num(s[k])
  {
    assert forall k :: 0 <= k < |input| ==> input[k] in input && input[k].Num?;
    seq(|input|, k requires 0 <= k < |input| => input[k].value)
  }

  /** The entries of a list of numbers. */
  function Entries(s: seq<int>): (input: seq<Entry>)
    ensures |input| == |s| && forall k :: 0 <= k < |s| ==> input[k] == Num(s[k])
  {
    seq(|s|, k requires 0 <= k < |s| => Num(s[k]))
  }

  /** Every element is at least the one before it (`isSorted`). */
  predicate IsSorted(s: seq<int>) {
    forall i :: 0 < i < |s| ==> s[i - 1] <= s[i]
  }

  /** Every element is at most the one before it (`isReverseSorted`). */
  predicate IsReverseSorted(s: seq<int>) {
    forall i :: 0 < i < |s| ==> s[i - 1] >= s[i]
  }

  /** The first position of x in t, or -1 when x does not occur (`indexOf`). */
  function IndexOf(t: seq<int>, x: int): (r: int)
    ensures -1 <= r < |t|
    ensures r >= 0 ==> t[r] == x && forall k :: 0 <= k < r ==> t[k] != x
    ensures r == -1 <==> x !in t
  {
    if t == [] then -1
    else if t[0] == x then 0
    else
      var r := IndexOf(t[1..], x);
      assert t == [t[0]] + t[1..];
      if r == -1 then -1 else r + 1
  }

  function Abs(x: int): nat {
    if x < 0 then -x else x
  }

  /** How far s[i] sits from the first place its value has in t. */
  function Displacement(s: seq<int>, t: seq<int>, i: int): nat
    requires 0 <= i < |s|
  {
    Abs(IndexOf(t, s[i]) - i)
  }

  /** The largest displacement among the first n elements of s, or 0 for none. */
  function MaxDisplacement(s: seq<int>, t: seq<int>, n: int): nat
    requires 0 <= n <= |s|
  {
    if n == 0 then 0
    else
      var m := MaxDisplacement(s, t, n - 1);
      if Displacement(s, t, n - 1) > m then Displacement(s, t, n - 1) else m
  }

  /** A tenth of n rounded up, for n >= 0 (`Math.ceil(n * 0.1)`, exact for every array length). */
  function CeilTenth(n: nat): (r: nat)
    ensures 10 * r >= n && 10 * (r - 1) < n
  {
    (n + 9) / 10
  }

  /** The nearly-sorted test: no element further than a tenth of the length from its place. */
  predicate IsNearlySorted(s: seq<int>) {
    MaxDisplacement(s, SortedCopy(s), |s|) <= CeilTenth(|s|)
  }

  /** The chain of checks on a valid, non-empty list of numbers. */
  function ClassOf(s: seq<int>): Outcome
    requires |s| > 0
  {
    if |s| == 1 then Analysed(OneElement, NoSortingRequired)
    else if IsSorted(s) then Analysed(AlreadySorted, NoSortingRequired)
    else if IsReverseSorted(s) then Analysed(ReverseSorted, ReverseThenMerge)
    else if IsNearlySorted(s) then Analysed(NearlySorted, InsertionOrHeap)
    else Analysed(Random, QuickOrMerge)
  }

  /** The whole decision: validation first, then the chain of checks. */
  function Classify(input: seq<Entry>): Outcome {
    if |input| == 0 then EmptyInput
    else if NaN in input then InvalidNumber
    else ClassOf(Values(input))
  }

  /** A list of numbers given as entries goes straight to the chain of checks. */
  lemma {:induction false} ClassifyNumbers(s: seq<int>)
    requires |s| > 0
    ensures Classify(Entries(s)) == ClassOf(s)
  {
    var e := Entries(s);
    assert NaN !in e;
    assert Values(e) == s;
  }

  // ---------------------------------------------------------------------
  // What each class means

  /** Empty input and any NaN are rejected before any class is considered; everything else gets one. */
  lemma {:induction false} ClassifyRejects(input: seq<Entry>)
    ensures Classify(input) == EmptyInput <==> |input| == 0
    ensures Classify(input) == InvalidNumber <==> |input| > 0 && exists k :: 0 <= k < |input| && input[k] == NaN
    ensures Classify(input).Analysed? <==> |input| > 0 && forall k :: 0 <= k < |input| ==> input[k] != NaN
  {
  }

  /** One number is always "one element", although it is also sorted. */
  lemma {:induction false} OneElementFirst(x: int)
    ensures IsSorted([x]) && IsReverseSorted([x])
    ensures Classify([Num(x)]) == Analysed(OneElement, NoSortingRequired)
  {
    assert Values([Num(x)]) == [x];
  }

  /** For two or more numbers: "already sorted" exactly when every adjacent pair is in order. */
  lemma {:induction false} SortedClass(s: seq<int>)
    requires |s| > 1
    ensures ClassOf(s).kind == AlreadySorted <==> IsSorted(s)
    ensures IsSorted(s) <==> Sorted(s)
  {
    IsSortedIff(s);
  }

  /** The adjacent-pair check is the same as every element being at most every later one. */
  lemma {:induction false} IsSortedIff(s: seq<int>)
    ensures IsSorted(s) <==> Sorted(s)
  {
    AdjacentInOrderIsSorted(s);
    assert IsSorted(s) <==> AdjacentInOrder(s) by {
      if IsSorted(s) {
        forall p | 0 <= p < |s| - 1 ensures s[p] <= s[p + 1] {
          assert s[(p + 1) - 1] <= s[p + 1];
        }
      }
      if AdjacentInOrder(s) {
        forall i | 0 < i < |s| ensures s[i - 1] <= s[i] {
          assert s[i - 1] <= s[(i - 1) + 1];
        }
      }
    }
  }

  /** All-equal inputs pass the sorted check first, so they never count as reverse sorted. */
  lemma {:induction false} AllEqualIsSorted(s: seq<int>)
    requires |s| > 1 && forall k :: 0 <= k < |s| ==> s[k] == s[0]
    ensures IsReverseSorted(s)
    ensures ClassOf(s) == Analysed(AlreadySorted, NoSortingRequired)
  {
  }

  /** "Reverse sorted" exactly when the sorted check fails and every adjacent pair is non-increasing. */
  lemma {:induction false} ReverseClass(s: seq<int>)
    requires |s| > 1
    ensures ClassOf(s).kind == ReverseSorted <==> !IsSorted(s) && IsReverseSorted(s)
  {
  }

  /** "Nearly sorted" exactly when neither order check holds and the largest displacement is within a tenth. */
  lemma {:induction false} NearlyClass(s: seq<int>)
    requires |s| > 1
    ensures ClassOf(s).kind == NearlySorted
            <==> !IsSorted(s) && !IsReverseSorted(s)
                 && forall i :: 0 <= i < |s| ==> Displacement(s, SortedCopy(s), i) <= CeilTenth(|s|)
  {
    NearlyIff(s);
  }

  /** The maximum of the first n displacements is within b exactly when each of them is. */
  lemma {:induction false} MaxWithin(s: seq<int>, t: seq<int>, n: int, b: nat)
    requires 0 <= n <= |s|
    ensures MaxDisplacement(s, t, n) <= b <==> forall k :: 0 <= k < n ==> Displacement(s, t, k) <= b
  {
    if n > 0 {
      MaxWithin(s, t, n - 1, b);
    }
  }

  /** The maximum of the first n displacements is one of them, or 0 when there are none. */
  lemma {:induction false} MaxAttained(s: seq<int>, t: seq<int>, n: int)
    requires 0 <= n <= |s|
    ensures n == 0 ==> MaxDisplacement(s, t, n) == 0
    ensures n > 0 ==> exists k :: 0 <= k < n && MaxDisplacement(s, t, n) == Displacement(s, t, k)
  {
    if n > 0 && Displacement(s, t, n - 1) <= MaxDisplacement(s, t, n - 1) {
      MaxAttained(s, t, n - 1);
      if n - 1 == 0 {
        assert MaxDisplacement(s, t, n) == Displacement(s, t, 0);
      }
    }
  }

  /** The scan's maximum is within the bound exactly when every single displacement is. */
  lemma {:induction false} NearlyIff(s: seq<int>)
    ensures IsNearlySorted(s) <==> forall i :: 0 <= i < |s| ==> Displacement(s, SortedCopy(s), i) <= CeilTenth(|s|)
  {
    var t := SortedCopy(s);
    MaxWithin(s, t, |s|, CeilTenth(|s|));
    assert IsNearlySorted(s) <==> MaxDisplacement(s, t, |s|) <= CeilTenth(|s|);
  }

  /** Two or more numbers that fail every other test are "random", and only those. */
  lemma {:induction false} RandomClass(s: seq<int>)
    requires |s| > 1
    ensures ClassOf(s).kind == Random <==> !IsSorted(s) && !IsReverseSorted(s) && !IsNearlySorted(s)
  {
  }

  /** Each value is measured against the first place it has in the ascending copy, whatever its rank among equals. */
  lemma {:induction false} DuplicatesMeasuredToFirst(s: seq<int>, i: int)
    requires 0 <= i < |s|
    ensures var t := SortedCopy(s);
            0 <= IndexOf(t, s[i]) && t[IndexOf(t, s[i])] == s[i]
            && forall k :: 0 <= k < IndexOf(t, s[i]) ==> t[k] < s[i]
  {
    var t := SortedCopy(s);
    assert s[i] in multiset(s);
    assert s[i] in t;
    var p := IndexOf(t, s[i]);
    forall k | 0 <= k < p ensures t[k] < s[i] {
      assert t[k] <= t[p];
    }
  }

  /** The best-case generator's arrays (ascending) of two or more numbers are classed as already sorted. */
  lemma {:induction false} BestCaseClass(s: seq<int>)
    requires |s| > 1
    ensures ClassOf(SortedCopy(s)) == Analysed(AlreadySorted, NoSortingRequired)
  {
    var t := SortedCopy(s);
    assert IsSorted(t) by {
      forall i | 0 < i < |t| ensures t[i - 1] <= t[i] {}
    }
  }

  /**
   * The worst-case generator's arrays (descending) of two or more numbers are
   * classed as reverse sorted, unless all the numbers are equal.
   */
  lemma {:induction false} WorstCaseClass(s: seq<int>)
    requires |s| > 1
    ensures var w := Reversed(SortedCopy(s));
            ClassOf(w) == if w[0] == w[|w| - 1] then Analysed(AlreadySorted, NoSortingRequired)
                                    else Analysed(ReverseSorted, ReverseThenMerge)
  {
    var t := SortedCopy(s);
    var w := Reversed(t);
    var n := |w|;
    assert IsReverseSorted(w) by {
      forall i | 0 < i < n ensures w[i - 1] >= w[i] {
        assert t[n - 1 - i] <= t[n - 1 - (i - 1)];
      }
    }
    if w[0] == w[n - 1] {
      forall i | 0 < i < n ensures w[i - 1] <= w[i] {
        assert t[0] <= t[n - 1 - i] <= t[n - 1 - (i - 1)] <= t[n - 1];
      }
    } else {
      assert w[0] > w[n - 1] by {
        assert t[0] <= t[n - 1];
      }
      IsSortedIff(w);
    }
  }

  // ---------------------------------------------------------------------
  // The handler

  /** The nearly-sorted test as the source runs it: one scan keeping the largest displacement so far. */
  method NearlySortedCheck(s: seq<int>) returns (b: bool)
    ensures b == IsNearlySorted(s)
  {
    var sorted := SortedCopy(s);
    var k := 0;
    var i := 0;
    while i < |s|
      invariant 0 <= i <= |s|
      invariant k == MaxDisplacement(s, sorted, i)
    {
      var d := Abs(IndexOf(sorted, s[i]) - i);
      assert d == Displacement(s, sorted, i);
      if d > k {
        k := d;
      }
      i := i + 1;
    }
    b := k <= CeilTenth(|s|);
  }

  /** The Analyze button: validation, then the chain of checks. */
  method AnalyzeClicked(input: seq<Entry>) returns (r: Outcome)
    ensures r == Classify(input)
  {
    if |input| == 0 {
      return EmptyInput;
    }
    if NaN in input {
      return InvalidNumber;
    }
    var s := Values(input);
    if |s| == 1 {
      r := Analysed(OneElement, NoSortingRequired);
    } else if IsSorted(s) {
      r := Analysed(AlreadySorted, NoSortingRequired);
    } else if IsReverseSorted(s) {
      r := Analysed(ReverseSorted, ReverseThenMerge);
    } else {
      var nearly := NearlySortedCheck(s);
      if nearly {
        r := Analysed(NearlySorted, InsertionOrHeap);
      } else {
        r := Analysed(Random, QuickOrMerge);
      }
    }
  }
}
