/**
 * The replay log every sort engine produces: one Step per comparison or
 * mutation, each holding a full copy of the array at that instant.
 */
module StepLog {

  datatype Option<T> = None | Some(value: T) {
    /** The value, or the default when absent (JavaScript's `x || 0` for an absent tag). */
    function GetOr(default: T): T {
      match this
      case Some(v) => v
      case None => default
    }
  }

  /**
   * What a step records. The narration strings of the source are reduced to
   * their kind; each engine uses the kinds named in its module.
   */
  datatype Kind =
    | Compare         // two positions are compared
    | Swap            // two positions were exchanged
    | StartInsertion  // insertion sort picks up the key at position i
    | Move            // insertion sort shifted one element right
    | Place           // insertion sort dropped the key / count sort placed an element
    | AssumeMinimum   // selection sort starts a pass
    | NewMinimum      // selection sort found a smaller candidate
    | NoSwap          // selection sort pass ended without an exchange
    | MergeBegin      // merge sort starts merging two sorted runs
    | Merged          // merge sort finished one merge
    | ChoosePivot     // quick sort picked the last element as pivot
    | MovePivot       // quick sort moved the pivot into its final place
    | Counted         // count sort built the frequency table
    | Accumulated     // count sort turned the table into prefix sums
    | Final           // count sort copied the output back

  /**
   * One recorded instant. `iteration` is None where the source leaves the
   * field out of the record (bubble sort's swap steps).
   */
  datatype Step = Step(
    arrayState: seq<int>,
    kind: Kind,
    iteration: Option<int>,
    highlight: seq<int>,
    swapped: seq<int>)

  /** Every snapshot in steps has length n. */
  ghost predicate Snapshots(steps: seq<Step>, n: int) {
    forall k :: 0 <= k < |steps| ==> |steps[k].arrayState| == n
  }

  /** Every step from index `from` on carries the iteration tag `tag`. */
  ghost predicate TaggedFrom(steps: seq<Step>, from: int, tag: Option<int>) {
    forall k :: from <= k < |steps| && 0 <= k ==> steps[k].iteration == tag
  }

  /** Every step holds a snapshot of length n and an iteration tag in [lo, hi). */
  ghost predicate TaggedIn(steps: seq<Step>, n: int, lo: int, hi: int) {
    forall k :: 0 <= k < |steps| ==>
      |steps[k].arrayState| == n && steps[k].iteration.Some? && lo <= steps[k].iteration.value < hi
  }

  /** Two logs with tags in [lo, hi) concatenate to one. */
  lemma {:induction false} TaggedInAppend(a: seq<Step>, b: seq<Step>, n: int, lo: int, hi: int)
    requires TaggedIn(a, n, lo, hi) && TaggedIn(b, n, lo, hi)
    ensures TaggedIn(a + b, n, lo, hi)
  {
    forall k | 0 <= k < |a + b|
      ensures |(a + b)[k].arrayState| == n && (a + b)[k].iteration.Some?
              && lo <= (a + b)[k].iteration.value < hi
    {
      if k < |a| {
        assert (a + b)[k] == a[k];
      } else {
        assert (a + b)[k] == b[k - |a|];
      }
    }
  }

  /** The number of steps of kind k in a log. */
  function CountKind(steps: seq<Step>, k: Kind): nat {
    if steps == [] then 0
    else (if steps[0].kind == k then 1 else 0) + CountKind(steps[1..], k)
  }

  /** Counting distributes over concatenation. */
  lemma {:induction false} CountKindAppend(a: seq<Step>, b: seq<Step>, k: Kind)
    ensures CountKind(a + b, k) == CountKind(a, k) + CountKind(b, k)
    decreases |a|
  {
    if a == [] {
      assert a + b == b;
    } else {
      CountKindAppend(a[1..], b, k);
      assert (a + b)[1..] == a[1..] + b;
    }
  }

  /** Appending one step counts it when it has the kind. */
  lemma {:induction false} CountKindSnoc(a: seq<Step>, x: Step, k: Kind)
    ensures CountKind(a + [x], k) == CountKind(a, k) + (if x.kind == k then 1 else 0)
  {
    CountKindAppend(a, [x], k);
    assert [x][1..] == [];
  }

  /** The number of steps tagged with iteration t. */
  function CountTag(steps: seq<Step>, t: int): nat {
    if steps == [] then 0
    else (if steps[0].iteration == Some(t) then 1 else 0) + CountTag(steps[1..], t)
  }

  /** Counting a tag distributes over concatenation. */
  lemma {:induction false} CountTagAppend(a: seq<Step>, b: seq<Step>, t: int)
    ensures CountTag(a + b, t) == CountTag(a, t) + CountTag(b, t)
    decreases |a|
  {
    if a == [] {
      assert a + b == b;
    } else {
      CountTagAppend(a[1..], b, t);
      assert (a + b)[1..] == a[1..] + b;
    }
  }

  /** A log in which no step carries tag t counts none. */
  lemma {:induction false} CountTagAbsent(steps: seq<Step>, t: int)
    requires forall k :: 0 <= k < |steps| ==> steps[k].iteration != Some(t)
    ensures CountTag(steps, t) == 0
    decreases |steps|
  {
    if steps != [] {
      assert steps[0].iteration != Some(t);
      CountTagAbsent(steps[1..], t);
    }
  }

  /** Every tagged step has a tag in [lo, hi); untagged steps are allowed. */
  ghost predicate TagsWithin(steps: seq<Step>, lo: int, hi: int) {
    forall k :: 0 <= k < |steps| && steps[k].iteration.Some? ==> lo <= steps[k].iteration.value < hi
  }

  /** Along the log, the tags of tagged steps never decrease. */
  ghost predicate TagsOrdered(steps: seq<Step>) {
    forall a, b :: 0 <= a < b < |steps| && steps[a].iteration.Some? && steps[b].iteration.Some? ==>
      steps[a].iteration.value <= steps[b].iteration.value
  }

  /** An ordered log with tags below m followed by an ordered log with tags from m on is ordered. */
  lemma {:induction false} TagsOrderedAppend(a: seq<Step>, b: seq<Step>, lo: int, m: int, hi: int)
    requires lo <= m <= hi
    requires TagsOrdered(a) && TagsWithin(a, lo, m) && TagsOrdered(b) && TagsWithin(b, m, hi)
    ensures TagsOrdered(a + b) && TagsWithin(a + b, lo, hi)
  {
    var c := a + b;
    forall x, y | 0 <= x < y < |c| && c[x].iteration.Some? && c[y].iteration.Some?
      ensures c[x].iteration.value <= c[y].iteration.value
    {
      if y < |a| {
        assert c[x] == a[x] && c[y] == a[y];
      } else if x >= |a| {
        assert c[x] == b[x - |a|] && c[y] == b[y - |a|];
      } else {
        assert c[x] == a[x] && c[y] == b[y - |a|];
      }
    }
    TagsWithinAppend(a, b, lo, hi);
  }

  /** Two logs with tags in [lo, hi) concatenate to one. */
  lemma {:induction false} TagsWithinAppend(a: seq<Step>, b: seq<Step>, lo: int, hi: int)
    requires TagsWithin(a, lo, hi) && TagsWithin(b, lo, hi)
    ensures TagsWithin(a + b, lo, hi)
  {
    var c := a + b;
    forall k | 0 <= k < |c| && c[k].iteration.Some?
      ensures lo <= c[k].iteration.value < hi
    {
      if k < |a| {
        assert c[k] == a[k];
      } else {
        assert c[k] == b[k - |a|];
      }
    }
  }

  /** Concatenation of logs is associative. */
  lemma {:induction false} ConcatAssoc(a: seq<Step>, b: seq<Step>, c: seq<Step>)
    ensures (a + b) + c == a + (b + c)
  {
  }

  /** The last step of a non-empty log. */
  function Last(steps: seq<Step>): Step
    requires |steps| > 0
  {
    steps[|steps| - 1]
  }

  /** Appending a non-empty log makes its last step the last step. */
  lemma {:induction false} LastAppend(a: seq<Step>, b: seq<Step>)
    requires |b| > 0
    ensures Last(a + b) == Last(b)
  {
  }
}
