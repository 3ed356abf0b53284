/**
 Selection sort: each position in turn receives the first minimum of the
 unsorted suffix, found with a strict comparison.
 */
module SelectionSort {
  import opened Order

  /** The outer loop's state before position i is filled: a[..i] is sorted,
      no element of it exceeds any element after it, and an input already in
      key order has not been touched. */
  ghost predicate Selected<T>(s: seq<T>, a: seq<T>, key: T -> int, i: int) {
    && 0 <= i <= |a| == |s|
    && multiset(a) == multiset(s)
    && (forall p, q :: 0 <= p < q < |a| && p < i ==> key(a[p]) <= key(a[q]))
    && (SortedBy(s, key) ==> a == s)
  }

  /** The inner loop: the index of the first element with the smallest key in
      a[i..]. Only a strictly smaller key replaces the current candidate. */
  method MinIndex<T>(a: seq<T>, key: T -> int, i: int) returns (minIndex: int)
    requires 0 <= i < |a|
    ensures i <= minIndex < |a|
    ensures forall q :: i <= q < |a| ==> key(a[minIndex]) <= key(a[q])
    ensures forall q :: i <= q < minIndex ==> key(a[minIndex]) < key(a[q])
  {
    minIndex := i;
    var j := i + 1;
    while j < |a|
      invariant i < j <= |a|
      invariant i <= minIndex < j
      invariant forall q :: i <= q < j ==> key(a[minIndex]) <= key(a[q])
      invariant forall q :: i <= q < minIndex ==> key(a[minIndex]) < key(a[q])
    {
      if key(a[j]) < key(a[minIndex]) {
        minIndex := j;
      }
      j := j + 1;
    }
  }

  /** Exchanging the first minimum of a[i..] into position i fills it; when
      the input was already in key order that minimum is a[i] itself. */
  lemma SelectStep<T>(s: seq<T>, a: seq<T>, key: T -> int, i: int, minIndex: int)
    requires Selected(s, a, key, i) && i < |a|
    requires i <= minIndex < |a|
    requires forall q :: i <= q < |a| ==> key(a[minIndex]) <= key(a[q])
    requires forall q :: i <= q < minIndex ==> key(a[minIndex]) < key(a[q])
    ensures Selected(s, Swap(a, minIndex, i), key, i + 1)
  {
    if SortedBy(s, key) && minIndex != i {
      // a[i] would come before the first minimum yet have a larger key
      assert false;
    }
  }

  /** The array contents after sorting `s` in place. Not stable in general,
      but an input that is already in key order is left exactly as it was,
      because the strict comparison never moves the minimum away from the
      front of the suffix. */
  method Sort<T>(s: seq<T>, key: T -> int) returns (r: seq<T>)
    ensures SortedBy(r, key)
    ensures multiset(r) == multiset(s)
    ensures SortedBy(s, key) ==> r == s
    ensures |s| <= 1 ==> r == s
  {
    var a := s;
    var n := |a|;
    var i := 0;
    while i < n - 1
      invariant Selected(s, a, key, i)
    {
      var minIndex := MinIndex(a, key, i);
      SelectStep(s, a, key, i, minIndex);
      a := Swap(a, minIndex, i);
      i := i + 1;
    }
    r := a;
  }
}
