# AlgoViz sorting visualizer: a Dafny model

AlgoViz is a web page that animates sorting algorithms. The user picks one of six
algorithms (bubble, insertion, selection, merge, quick and count sort) and presses
Start. The chosen engine sorts a copy of the current array and records a log of
steps. Each step holds a snapshot of the array, a kind (compare, swap, place, ...),
an optional iteration tag and the indexes to highlight. A timer then replays the
log one step per tick. The user can pause and resume, step back and forth, and
jump to the first step of the previous or next iteration. The page also has two
small forms:

- an analyser, which classes a comma-separated list of numbers as one element,
  already sorted, reverse sorted, nearly sorted or random, and gives fixed advice
  for each class;
- a recommender, which picks an algorithm name from the array size, the kind of
  data and a priority.

The project models these pieces in these modules:

- `Seqs` (seqs.dfy): sortedness, exchanging two positions, the ascending copy that
  `[...a].sort((a, b) => a - b)` yields, and reversal.
- `StepLog` (steps.dfy): the step record with its kind and optional iteration tag,
  plus counting and tagging predicates over logs.
- `BubbleSort`, `InsertionSort`, `SelectionSort`, `MergeSort`, `QuickSort` and
  `CountSort` (one file each): every engine is an imperative method over an
  `array<int>` that sorts in place and returns its log, as the source does. Each
  method is proved equal to a specification function on sequences, and the lemmas
  beside each function prove:
  - the result is the ascending permutation of the input;
  - the log has the shape the source records: kinds, tags, snapshot lengths and
    counts;
  - algorithm-specific facts, such as the stability of one merge and of one
    insertion pass, the pass structure of bubble sort,
    the number of comparisons of selection sort, and the partition invariant of
    quick sort.
- `Engines` (engines.dfy): the switch of `startVisualization`, which runs the
  chosen engine on a fresh copy of the current array.
- `Playback` (playback.dfy): a `Player` class holding the page's mutable state
  (`currentArray`, the selected algorithm, `steps`, `currentStep`, `isStarted`,
  `isPaused`, and whether the timer runs). It has one method per handler: Start,
  Pause/Resume, the four navigation buttons, the timer tick, the reset, and loading
  a generated array.
- `Analyze` (analyze.dfy): the classifier.
- `Recommend` (recommend.dfy): the decision table.

The timer is modelled as a flag plus a `Tick` method that the environment may call
while the flag is set. Randomness enters only as the array handed to `Load`.

## Model

| member | source | states |
|---|---|---|
| Seqs.SortedCopy | index.js:214-220 | The ascending copy is sorted and a permutation of its input (the sort behind the best- and worst-case generators and the analyser). |
| Seqs.Reversed | index.js:214-216 | The reversed sequence has the same length and holds s[n-1-k] at position k. |
| Seqs.ReversedPermutes | index.js:214-216 | Reversing keeps the multiset. |
| Seqs.Swapped | index.js:361-364 | Exchanging positions i and j swaps those two elements and leaves every other position alone. |
| Seqs.SwappedPermutes | index.js:361-364 | An exchange keeps the multiset of the array. |
| Seqs.AdjacentInOrderIsSorted | analyze.js:21 | Every adjacent pair being in order is the same as every element being at most every later one. |
| StepLog.TaggedInAppend | index.js:352-358 | Two logs whose steps are all tagged within a range and hold full snapshots concatenate into such a log. |
| StepLog.CountKindAppend | index.js:352-358 | The number of steps of a kind in a concatenation is the sum of the counts. |
| StepLog.CountTagAppend | index.js:352-358 | The steps tagged t in two logs appended are those of each log added up. |
| StepLog.TagsOrderedAppend | index.js:345-376 | A log whose tags lie below m, followed by one whose tags lie from m up, has ordered tags if each part has. |
| StepLog.LastAppend | index.js:352-358 | Appending a non-empty log makes its last step the last step of the whole. |
| BubbleSort.CompareAdjacent | index.js:359-364 | Reports an exchange exactly when a[j] > a[j+1], and leaves the array with that pair exchanged in that case only. |
| BubbleSort.BubblePass | index.js:346-376 | One pass of the inner loop leaves the array and appends the steps that the pass function specifies, and returns its number of exchanges. |
| BubbleSort.BubbleSortWithSteps | index.js:337-394 | The array ends equal to the specification's result, sorted and a permutation of the input; the returned log and per-pass exchange counts are the specification's. |
| BubbleSort.PassPermutes | index.js:350-371 | A pass only rearranges the array. |
| BubbleSort.PassCleanIff | index.js:350-375 | A pass makes no exchange exactly when every pair it compares is already in order. |
| BubbleSort.PassSettles | index.js:347-371 | Pass i carries the largest unsettled element to position n-1-i, so the suffix from there is settled. |
| BubbleSort.PassLog | index.js:352-370 | A pass records a well-formed log: each Compare stands alone when its pair is in order, and is followed by the Swap of that pair when it is not. |
| BubbleSort.BubbleSortSorts | index.js:345-376 | Bubble sort's result is sorted and a permutation of its input. |
| BubbleSort.BubbleSortLog | index.js:345-376 | The whole log is well formed and its last snapshot is the result. Tags never decrease along the log, and pass p leaves exactly n-1-p steps tagged p, its Compares. |
| BubbleSort.PairTags | index.js:352-358 | Comparing one pair records exactly one step tagged with the pass, and no other tag. |
| BubbleSort.PassTags | index.js:350-371 | Pass i tags only with i, and tags exactly one step per pair it compares. |
| BubbleSort.BubbleTags | index.js:345-376 | Passes run from the current one onwards keep the tags ordered, and each pass p gets n-1-p tagged steps. |
| BubbleSort.BubbleSortPasses | index.js:345-376 | No pass runs for fewer than two elements. Otherwise between 1 and n-1 passes run, every pass but the last exchanged something, and the last pass was clean unless the n-1 limit stopped the loop. |
| BubbleSort.SortedInputOnePass | index.js:373-375 | A sorted input of two or more elements makes exactly one clean pass of n-1 comparisons. |
| BubbleSort.UnsortedInputSwaps | index.js:359-372 | An input with an adjacent pair out of order makes the first pass exchange something. |
| InsertionSort.HoleSpec | index.js:418-433 | The key lands one past the first element, scanning down, that is not greater than it: everything between is strictly greater. |
| InsertionSort.ShiftGreater | index.js:418-432 | The inner `while` leaves the array, the stopping index and the log that the shift specification gives; ShiftLands and HoleSpec make that the hole. |
| InsertionSort.InsertionSortWithSteps | index.js:397-460 | The array ends equal to the specification's result, sorted and a permutation of the input; the log is the specification's. |
| InsertionSort.PassInserts | index.js:405-441 | A pass moves s[i] down to its hole and shifts the elements in between up by one. |
| InsertionSort.PassSortsPrefix | index.js:405-441 | After pass i the prefix up to i is sorted, the rest is untouched, and the multiset is unchanged. |
| InsertionSort.PassStable | index.js:418-433 | The key moves past strictly greater elements only, so equal elements keep their order. |
| InsertionSort.PassLog | index.js:410-441 | Pass i records StartInsertion, then one Move per shifted element (i minus the hole of them), then Place, all tagged i and all full snapshots. |
| InsertionSort.InsertionLog | index.js:405-442 | Every step of the log is tagged with a pass 1 <= i < n and holds a full snapshot. |
| InsertionSort.InsertionSortSorts | index.js:405-442 | Insertion sort's result is sorted and a permutation of its input. |
| SelectionSort.FindMinimum | index.js:483-503 | The inner `for` returns the index and the log that the scan specification gives for a[i..]; MinIndexSpec makes that index the first minimum. |
| SelectionSort.SelectionSortWithSteps | index.js:463-543 | The array ends equal to the specification's result, sorted and a permutation of the input; the log is the specification's. |
| SelectionSort.MinIndexSpec | index.js:483-503 | The index a pass selects holds the minimum of s[i..], and every element before it from i on is strictly greater. |
| SelectionSort.PassSelects | index.js:505-523 | Pass i exchanges position i with the first minimum of s[i..], and changes nothing when that is i itself. |
| SelectionSort.PassPlacesMin | index.js:471-523 | After pass i, position i holds the minimum of the suffix from i, the prefix is untouched and the multiset is unchanged. |
| SelectionSort.PassLog | index.js:475-523 | Pass i records AssumeMinimum, then its scan, then exactly one Swap or NoSwap step. |
| SelectionSort.PassSteps | index.js:475-523 | Pass i makes n-1-i comparisons, records only steps tagged i, and ends with one Swap or NoSwap. |
| SelectionSort.SelectionCompares | index.js:471-524 | From pass i on, the loop adds (n-1-i) + ... + 1 Compare steps to the log, whatever the data. |
| SelectionSort.SelectionSortLog | index.js:471-524 | Every step is tagged with its pass 0..n-2 and holds a full snapshot, and there are exactly n(n-1)/2 Compare steps. |
| SelectionSort.SelectionSortSorts | index.js:471-524 | Selection sort's result is sorted and a permutation of its input. |
| MergeSort.MergeInPlace | index.js:568-621 | merge(arr, left, mid, right) leaves the array and log that the merge functions specify. |
| MergeSort.MergeBack | index.js:584-611 | The three loops write the merge of what remains of L and R over the array, one Compare per pair consumed. |
| MergeSort.MergeSortRecursive | index.js:555-565 | mergeSortRecursive(arr, left, right) leaves the array and log the recursion specifies. |
| MergeSort.MergeSortWithSteps | index.js:545-642 | The array ends equal to the specification's result, sorted and a permutation of the input; the log is the specification's. |
| MergeSort.MergePermutes | index.js:584-611 | The merge of L and R holds exactly the elements of both. |
| MergeSort.MergeSorted | index.js:584-611 | Merging two sorted runs gives a sorted sequence. |
| MergeSort.MergeStable | index.js:587-598 | Of two equal elements of the merge, the one from the earlier position of L + R comes first, because the left head is taken on ties. |
| MergeSort.OriginsLabel | index.js:584-611 | Every element of the merge comes from a remaining position of L or of R that holds it. |
| MergeSort.ComparesBounds | index.js:584-601 | The comparing loop consumes at least the shorter run and never every element. |
| MergeSort.MergeLoopWrites | index.js:584-611 | The loops write the merge over positions left+i+j onwards and nothing else. |
| MergeSort.MergeArrWrites | index.js:568-621 | One merge writes the merge of its two runs over [left, right] and changes nothing else. |
| MergeSort.MergeLogShape | index.js:576-620 | One merge records a Merge step on the array as it was, one Compare per pair consumed, and a Merged step on the merged array highlighting left and right. |
| MergeSort.MergeArrSorts | index.js:568-621 | Merging two sorted adjacent runs sorts the range they cover and keeps its elements. |
| MergeSort.RangeSorts | index.js:555-565 | Sorting [left, right] sorts that range, keeps its elements and leaves the outside alone. |
| MergeSort.MergeSortSorts | index.js:624 | Merge sort's result is sorted and a permutation of its input. |
| MergeSort.MergeLogTagged | index.js:576-620 | Every step of a merge is tagged 0 and holds a full snapshot. |
| MergeSort.MergeLogCounts | index.js:576-620 | A merge records exactly one Merge and one Merged step. |
| MergeSort.MergeSortLog | index.js:555-624 | Every step is tagged 0 on a full snapshot, and nothing is recorded for fewer than two elements. |
| QuickSort.PartitionRange | index.js:663-714 | partition(arr, low, high) leaves the array and log the partition functions specify and returns the pivot's final index. |
| QuickSort.QuickSortRecursive | index.js:654-660 | quickSortRecursive(arr, low, high) leaves the array and log the recursion specifies. |
| QuickSort.QuickSortWithSteps | index.js:644-735 | The array ends equal to the specification's result, sorted and a permutation of the input; the log is the specification's. |
| QuickSort.ScanSplits | index.js:675-700 | The scan keeps its invariant: [low, i] holds elements not greater than the pivot, and (i, j) only greater ones. |
| QuickSort.PartArrSplits | index.js:663-714 | Partition returns p in [low, high] with the pivot at p, nothing greater than it before p, only greater elements after p, and the range rearranged. |
| QuickSort.PartitionCounts | index.js:667-711 | A partition records one ChoosePivot, high-low Compares, one Swap per element moved to the low part (p-low of them), and one MovePivot. |
| QuickSort.PartitionLast | index.js:702-711 | A partition's last step is a MovePivot holding the partitioned array. |
| QuickSort.QuickArrPermutes | index.js:654-660 | Sorting [low, high] only rearranges that range. |
| QuickSort.QuickArrSorted | index.js:654-660 | Sorting [low, high] leaves that range in ascending order. |
| QuickSort.QuickSortSorts | index.js:717 | Quick sort's result is sorted and a permutation of its input. |
| QuickSort.QuickLogTagged | index.js:654-714 | Every step the recursion appends is tagged 0 and holds a full snapshot. |
| QuickSort.QuickLogLast | index.js:654-714 | A range of two or more elements appends steps, and the last one is a MovePivot whose snapshot is the sorted array. |
| QuickSort.QuickSortLog | index.js:644-735 | Every step is tagged 0 on a full snapshot. There is nothing for fewer than two elements; otherwise the last step is the final MovePivot, showing the sorted result. |
| CountSort.MaxOf | index.js:746 | The maximum is an element of the array and at least every element. |
| CountSort.Tally | index.js:749-756 | The first loop leaves in count[v] the number of occurrences of v. |
| CountSort.Accumulate | index.js:767-769 | The second loop turns the frequencies into prefix sums: count[v] is the number of elements at most v. |
| CountSort.CumCountCounts | index.js:767-769 | The prefix sum up to v counts the elements at most v. |
| CountSort.PlaceOne | index.js:780-793 | Writes a[i] at its rank, which lies in [0, n), and leaves the count table holding the counts still to place. |
| CountSort.PlaceAll | index.js:780-793 | The third loop leaves the ascending copy of the input in the output buffer and appends the placement log. |
| CountSort.CopyBack | index.js:796-798 | The fourth loop copies the output buffer over the input. |
| CountSort.CountSortWithSteps | index.js:737-824 | A non-empty array without negative numbers ends as its ascending copy, and the log is the specification's. |
| CountSort.RankInBlock | index.js:780-793 | The rank count sort gives an element lies inside its value's block of the ascending copy, and so inside [0, n). |
| CountSort.RankOrder | index.js:780-793 | Ranks are distinct and ordered by value, and among equal values by position, so the placement is stable. |
| CountSort.RankOnto | index.js:780-793 | Every position of [0, n) is the rank of some element, which equals the ascending copy there. |
| CountSort.PlacedWrites | index.js:780-793 | Once the positions above i are placed, each rank holds its element and every other position is untouched. |
| CountSort.PlacedSorts | index.js:780-793 | The complete placement leaves the ascending copy of the input, whatever the buffer held. |
| CountSort.PlaceLogShape | index.js:787-792 | The placement log has one Place step per element, and the k-th handles position n-1-k. |
| CountSort.CountLogShape | index.js:758-806 | The log holds exactly n+3 steps: Counted, Accumulated, one Place per element from right to left on the unchanged input, and Final on the ascending array; all tagged 0. |
| Engines.Run | index.js:265-287 | Runs the selected engine on a copy of the current array and returns exactly that engine's log. |
| Engines.ResultSorts | index.js:265-287 | Whichever algorithm is selected, its result is sorted and a permutation of the input. |
| Engines.LogSnapshots | index.js:265-287 | Every step of every engine holds a snapshot as long as the input. |
| Playback.FindIndex | index.js:130 | Returns the first step whose tag is exactly the one sought (an untagged step never matches), or nothing when no step has it. |
| Playback.Player.constructor | index.js:30-34 | The page starts with an empty log, the cursor at 0, nothing started, nothing paused and no timer. |
| Playback.Player.Select | index.js:147-150 | Choosing an algorithm changes only the selection; it is read at the next start. |
| Playback.Player.StartVisualization | index.js:261-317 | Recomputes the log, rewinds to step 0 and, for a non-empty log, starts the timer and marks the run started; the state invariant is kept. |
| Playback.Player.StartClicked | index.js:94-98 | Start does nothing during a run, and otherwise starts the visualization; an empty log leaves the run and timer flags as they were. |
| Playback.Player.PauseClicked | index.js:100-110 | Pausing stops the timer and keeps the cursor; resuming recomputes the log and restarts from step 0, running the timer when the log is not empty. |
| Playback.Player.PrevStep | index.js:114-118 | During a run with a non-empty log the cursor moves back by one, never below 0; otherwise nothing changes. |
| Playback.Player.NextStep | index.js:120-124 | During a run with a non-empty log the cursor moves forward by one, never past the last step; otherwise nothing changes. |
| Playback.Player.JumpIteration | index.js:127-145 | Jumps to the first step tagged with the current iteration plus delta when there is one; the new step carries that tag and no earlier step does. With no run on, an empty log or no such step, the cursor stays. |
| Playback.Player.PrevIteration | index.js:127-135 | Jumps to the first step of the previous iteration when there is one; otherwise nothing changes. |
| Playback.Player.NextIteration | index.js:137-145 | Jumps to the first step of the next iteration when there is one; otherwise nothing changes. |
| Playback.Player.Tick | index.js:302-314 | While there is a step to show and the run is not paused, advances the cursor by one; otherwise stops the timer and ends the run. |
| Playback.Player.Reset | index.js:247-259 | Cursor at 0, not started, not paused and timer stopped, while the log, the array and the selection are kept. |
| Playback.Player.Load | index.js:223-244 | A generated array replaces the current one and the state is reset as by Reset. |
| Analyze.Values | analyze.js:4 | A list of entries without NaN is a list of numbers of the same length, entry for entry. |
| Analyze.Entries | analyze.js:4 | A list of numbers is a list of entries of the same length, entry for entry. |
| Analyze.IndexOf | analyze.js:28 | `indexOf` returns the first position of x, or -1 exactly when x does not occur. |
| Analyze.CeilTenth | analyze.js:32 | A tenth of n rounded up: the least r with 10r >= n. |
| Analyze.AnalyzeClicked | analyze.js:1-60 | The handler's outcome is the classification of its input. |
| Analyze.ClassifyRejects | analyze.js:7-14 | Empty input is rejected, any NaN is rejected, and everything else gets a class. |
| Analyze.ClassifyNumbers | analyze.js:7-14 | A list of numbers goes straight to the chain of checks. |
| Analyze.OneElementFirst | analyze.js:36-38 | One number is always "one element", although it is also sorted both ways. |
| Analyze.SortedClass | analyze.js:39-41 | Two or more numbers are "already sorted" exactly when every adjacent pair is in order, which is the same as being sorted. |
| Analyze.IsSortedIff | analyze.js:21 | The adjacent-pair check holds exactly when every element is at most every later one. |
| Analyze.AllEqualIsSorted | analyze.js:39-44 | All-equal inputs pass the sorted check first and never count as reverse sorted. |
| Analyze.ReverseClass | analyze.js:42-44 | "Reverse sorted" holds exactly when the sorted check fails and every adjacent pair is non-increasing. |
| Analyze.NearlyClass | analyze.js:45-47 | "Nearly sorted" holds exactly when neither order check holds and every element's displacement is within a tenth of the length. |
| Analyze.MaxWithin | analyze.js:26-31 | The largest displacement is within a bound exactly when every single one is. |
| Analyze.MaxAttained | analyze.js:26-31 | The largest displacement is one of the displacements, or 0 when there are none. |
| Analyze.NearlyIff | analyze.js:24-33 | The nearly-sorted test holds exactly when every element's displacement is within a tenth of the length. |
| Analyze.NearlySortedCheck | analyze.js:24-33 | The loop keeping the largest displacement so far answers the nearly-sorted test. |
| Analyze.RandomClass | analyze.js:48-51 | "Random" holds exactly when every other test fails. |
| Analyze.DuplicatesMeasuredToFirst | analyze.js:28 | A repeated value is measured against the first place it has in the ascending copy, whatever its rank among equals. |
| Analyze.BestCaseClass | index.js:218-220 | A best-case array of two or more numbers is classed as already sorted. |
| Analyze.WorstCaseClass | index.js:214-216 | A worst-case array of two or more numbers is classed as reverse sorted, or as already sorted when all its numbers are equal. |
| Recommend.Recommend | recommend.js:10-26 | Each recommendation holds exactly under its own condition, in both directions; no recommendation is given for a large array whose priority is neither stability nor time. |
| Recommend.SmallIgnoresPriority | recommend.js:10-15 | For arrays of at most 10 elements the priority is never consulted. |
| Recommend.LargeIgnoresDataType | recommend.js:16-26 | For larger arrays the data type matters only under the time priority. |
| Recommend.SizeOnlyBySide | recommend.js:3-10 | Only which side of 10 the size is on matters. A size that does not parse counts as large. |

## Left out

- Rendering, the DOM, button enabling and button texts are not modelled. This covers renderArray, displayAlgorithmStep, displayAlgorithmDetails, updateTimelineButtons, the dark-mode toggle and the bar width. The pause button is enabled exactly while a run is on, so `Playback.Player.PauseClicked` requires `isStarted` instead of modelling the disabled flag.
- Timing is not modelled: the interval's delay, the speed slider and `performance.now` are left out. The timer is a flag, and `Tick` is a method that the environment calls.
- The running totals each engine keeps for display are not modelled: swaps, loop runs, comparisons, merges and timings. Only the log and the sorted array are.
- Step descriptions are not modelled. Each step's text is replaced by its kind; the snapshot, the tag and the highlight indexes are kept. The swap indexes are kept where an engine sets them.
- `BubbleSort.BubbleSortWithSteps` returns the number of exchanges of each pass as a second output. The source only counts them in `swapped`; the extra output lets the contract state the pass structure.
- Random array generation (`generateRandomArray`, `generateNearlySortedArray`) is not modelled. A generated array enters as the argument of `Load`. The Generate button, index.js:58-70, leaves the same state as `Load` does.
- `getSelectedAlgorithm` returns one of the six values of the selector. The switch's default branch, which logs an error and returns, is not modelled.
- The analyser's text parsing (`trim`, `split(",")`, `Number`) is not modelled. The input is a list of entries, each a whole number or NaN. Fractions, infinities and -0 are out of scope. An empty text field splits into one empty entry, which `Number` turns into 0, so the page never reaches the empty-input branch. The model keeps that branch for an empty list.
- `Recommend.Recommend`: the size is a parsed whole number or NaN. `parseInt` itself is not modelled.
- `CountSort.CountSortWithSteps` requires a non-empty array without negative numbers. On an empty array the source computes `Math.max()` as -Infinity, and `new Array` throws. On negative numbers it writes to non-index properties of the count array and produces a wrong result. Neither case is modelled.
- `Playback.Player.StartVisualization`: with an empty log the source throws at `steps[0].description` after setting `currentStep` to 0. The model records the log and the cursor and does not start the run.
- `Playback.Player.JumpIteration`: after the last tick the cursor sits one past the end, and reading `steps[currentStep].iteration` throws. The model leaves the state unchanged in that case.
- `MergeSort.MergeSortWithSteps`, `InsertionSort.InsertionSortWithSteps`: the contracts do not state stability of the whole sort. On an array of integers equal elements cannot be told apart, so the model proves it for one merge (`MergeSort.MergeStable`) and one insertion pass (`InsertionSort.PassStable`) only.
- Each engine's console output is not modelled, nor is the algorithm description panel.

## Source and design notes

- `resetVisualizationState` (index.js:247-259) does not clear `steps`, so `Reset` and `Load` keep the old log until the next start.
- Count sort's Place step highlights `count[num] - 1` after the decrement. That is one below the position just written, and it is -1 for the element placed at 0. The model records it as written.
- Quick, merge and count sort tag every step with iteration 0. Each declares its own local `outerLoopRuns` counter and never increments it, so the iteration buttons never find another iteration in their logs.
- Bubble sort's Swap steps carry no iteration tag. The navigation handlers read a missing tag as iteration 0, but `findIndex` with `===` never matches an untagged step.
