/**
 * The recommendation table: from the array size, the kind of data and the
 * priority chosen in the form, one algorithm name, or none at all when a
 * large array comes with a priority the table does not know.
 */
module Recommend {

  /** The parsed size field: a whole number, or NaN when the field does not start with one. */
  datatype Size = NaN | Whole(n: int)

  /** The possible recommendations; None stands for the empty text the handler starts from. */
  datatype Recommendation = Insertion | Bubble | Merge | Quick | Heap | None

  /** `arraySize <= 10`; a NaN size compares false and so counts as large. */
  predicate Small(size: Size) {
    size.Whole? && size.n <= 10
  }

  /** The decision, branch for branch. */
  function Recommend(size: Size, dataType: string, priority: string): (r: Recommendation)
    ensures r == Insertion <==> Small(size) && (dataType == "sorted" || dataType == "nearlySorted")
    ensures r == Bubble <==> Small(size) && dataType != "sorted" && dataType != "nearlySorted"
    ensures r == Merge <==> !Small(size) && priority == "stability"
    ensures r == Quick <==> !Small(size) && priority == "time" && (dataType == "random" || dataType == "reverse")
    ensures r == Heap <==> !Small(size) && priority == "time" && dataType != "random" && dataType != "reverse"
    ensures r == None <==> !Small(size) && priority != "stability" && priority != "time"
  {
    if Small(size) then
      if dataType == "sorted" || dataType == "nearlySorted" then Insertion else Bubble
    else if priority == "stability" then Merge
    else if priority == "time" then
      if dataType == "random" || dataType == "reverse" then Quick else Heap
    else None
  }

  /** For small arrays the priority is never consulted. */
  lemma {:induction false} SmallIgnoresPriority(size: Size, dataType: string, p1: string, p2: string)
    requires Small(size)
    ensures Recommend(size, dataType, p1) == Recommend(size, dataType, p2)
  {
  }

  /** For large arrays the data type matters only under the time priority. */
  lemma {:induction false} LargeIgnoresDataType(size: Size, d1: string, d2: string, priority: string)
    requires !Small(size) && priority != "time"
    ensures Recommend(size, d1, priority) == Recommend(size, d2, priority)
  {
  }

  /** Only the size's side of 10 matters, not its value. */
  lemma {:induction false} SizeOnlyBySide(s1: Size, s2: Size, dataType: string, priority: string)
    requires Small(s1) == Small(s2)
    ensures Recommend(s1, dataType, priority) == Recommend(s2, dataType, priority)
  {
  }
}
