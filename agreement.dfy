// The two sorting algorithms side by side: whatever their different routes
// and charges, they leave the same list.

module Agreement {
  import opened Ordering
  import opened Insertion
  import opened Merging

  /** insertion_sort and merge_sort return the same list for every input. */
  lemma SortsAgree(s: seq<int>)
    ensures InsertionSorted(s) == MergeSorted(s)
  {
    InsertionSortedSorted(s);
    InsertionSortedPermutes(s);
    MergeSortedSorted(s);
    MergeSortedPermutes(s);
    SortedPermutationUnique(InsertionSorted(s), MergeSorted(s));
  }
}
