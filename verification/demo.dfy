/**
 The sample array of the demonstration driver, stated as a property of the
 model: whichever of the five routines sorts it, the integer array ends up
 the same.
 */
module Demo {
  import opened Order

  /** Any sorted permutation of {64, 25, 12, 22, 11}, which is what each
      routine's contract promises for the whole array, is [11, 12, 22, 25, 64]. */
  lemma SampleSorted(r: seq<int>)
    requires SortedBy(r, Id)
    requires multiset(r) == multiset([64, 25, 12, 22, 11])
    ensures r == [11, 12, 22, 25, 64]
  {
    SampleOrdered();
    SamplePermutation();
    SortedPermutationUnique(r, [11, 12, 22, 25, 64]);
  }

  /** The expected output is in order. */
  lemma SampleOrdered()
    ensures SortedBy([11, 12, 22, 25, 64], Id)
  {
  }

  /** The expected output holds the sample's elements. */
  lemma SamplePermutation()
    ensures multiset([11, 12, 22, 25, 64]) == multiset([64, 25, 12, 22, 11])
  {
  }
}
