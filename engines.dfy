/**
 * The dispatcher of the visualizer: the algorithm chosen in the selector runs
 * on a copy of the current array and yields its step log. The copy is sorted
 * and thrown away; only the log is kept.
 */
module Engines {
  import opened Seqs
  import opened StepLog
  import BubbleSort
  import InsertionSort
  import SelectionSort
  import MergeSort
  import QuickSort
  import CountSort

  /** The six entries of the algorithm selector. */
  datatype Algorithm = Bubble | Insertion | Selection | Merge | Quick | Count

  /** What the chosen engine accepts: count sort needs a non-empty array without negative values. */
  ghost predicate Runnable(alg: Algorithm, s: seq<int>) {
    alg == Count ==> CountSort.Countable(s)
  }

  /** The array the chosen engine leaves behind. */
  function Result(alg: Algorithm, s: seq<int>): seq<int>
    requires Runnable(alg, s)
  {
    match alg
    case Bubble => BubbleSort.Bubble(s, 0, [], []).arr
    case Insertion => InsertionSort.Insertion(s, 1, []).arr
    case Selection => SelectionSort.Selection(s, 0, []).arr
    case Merge => MergeSort.MergeSorting(s).arr
    case Quick => QuickSort.QuickSorting(s).arr
    case Count => SortedCopy(s)
  }

  /** The log the chosen engine records. */
  function Log(alg: Algorithm, s: seq<int>): seq<Step>
    requires Runnable(alg, s)
  {
    match alg
    case Bubble => BubbleSort.Bubble(s, 0, [], []).steps
    case Insertion => InsertionSort.Insertion(s, 1, []).steps
    case Selection => SelectionSort.Selection(s, 0, []).steps
    case Merge => MergeSort.MergeSorting(s).steps
    case Quick => QuickSort.QuickSorting(s).steps
    case Count => CountSort.CountLog(s)
  }

  /** Whichever algorithm is chosen, the array it leaves is the ascending permutation of its input. */
  lemma {:induction false} ResultSorts(alg: Algorithm, s: seq<int>)
    requires Runnable(alg, s)
    ensures Sorted(Result(alg, s)) && multiset(Result(alg, s)) == multiset(s)
  {
    match alg
    case Bubble => BubbleSort.BubbleSortSorts(s);
    case Insertion => InsertionSort.InsertionSortSorts(s);
    case Selection => SelectionSort.SelectionSortSorts(s);
    case Merge => MergeSort.MergeSortSorts(s);
    case Quick => QuickSort.QuickSortSorts(s);
    case Count =>
  }

  /** Every step of every engine holds a full copy of the array: a snapshot as long as the input. */
  lemma {:induction false} LogSnapshots(alg: Algorithm, s: seq<int>)
    requires Runnable(alg, s)
    ensures Snapshots(Log(alg, s), |s|)
  {
    var l := Log(alg, s);
    match alg {
      case Bubble =>
        var r := BubbleSort.Bubble(s, 0, [], []);
        BubbleSort.BubbleSortLog(s);
        BubbleSort.BubbleLogShape(r.steps, |s|, |r.passSwaps|);
        assert forall k :: 0 <= k < |l| ==> BubbleSort.StepShape(l[k], |s|, |r.passSwaps|);
      case Insertion =>
        InsertionSort.InsertionLog(s, 1, []);
        assert l == InsertionSort.Insertion(s, 1, []).steps;
        assert forall k :: 0 <= k < |l| ==> |l[k].arrayState| == |s| && l[k].iteration.Some?;
      case Selection =>
        SelectionSort.SelectionSortLog(s);
      case Merge =>
        MergeSort.MergeSortLog(s);
      case Quick =>
        QuickSort.QuickSortLog(s);
      case Count =>
        CountSort.CountLogShape(s);
    }
  }

  /**
   * Runs the chosen engine on a fresh copy of `current`, as the Start button
   * does with `[...currentArray]`, and returns the log.
   */
  method Run(alg: Algorithm, current: seq<int>) returns (steps: seq<Step>)
    requires Runnable(alg, current)
    ensures steps == Log(alg, current)
  {
    var a := new int[|current|](k requires 0 <= k < |current| => current[k]);
    assert a[..] == current;
    match alg {
      case Bubble =>
        var passSwaps;
        steps, passSwaps := BubbleSort.BubbleSortWithSteps(a);
      case Insertion =>
        steps := InsertionSort.InsertionSortWithSteps(a);
      case Selection =>
        steps := SelectionSort.SelectionSortWithSteps(a);
      case Merge =>
        steps := MergeSort.MergeSortWithSteps(a);
      case Quick =>
        steps := QuickSort.QuickSortWithSteps(a);
      case Count =>
        steps := CountSort.CountSortWithSteps(a);
    }
  }
}
