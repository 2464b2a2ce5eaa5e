/** Orderings shared by the sorted structures. */
module Orders {
  /** `xs` never decreases. */
  predicate Ascending(xs: seq<int>)
  {
    forall i, j :: 0 <= i < j < |xs| ==> xs[i] <= xs[j]
  }
}
