/**
 Top-down merge sort over an inclusive index range, with a merge that copies
 both sorted halves into buffers L and R and takes from L on ties.
 */
module MergeSort {
  import opened Order

  /** What holds after `i` elements of L and `j` elements of R have been
      written out as `merged`, the prefix arr[left .. left + i + j - 1] of
      the merge. */
  ghost predicate Merging<T>(L: seq<T>, R: seq<T>, i: int, j: int, merged: seq<T>, key: T -> int) {
    && 0 <= i <= |L| && 0 <= j <= |R|
    && |merged| == i + j
    && SortedBy(merged, key)
    // nothing written so far exceeds the next candidate of either buffer
    && (forall p :: 0 <= p < |merged| && i < |L| ==> key(merged[p]) <= key(L[i]))
    && (forall p :: 0 <= p < |merged| && j < |R| ==> key(merged[p]) <= key(R[j]))
    // an element of R was only taken ahead of a strictly larger key of L
    && (forall q :: 0 <= q < j && i < |L| ==> key(R[q]) < key(L[i]))
    && Stable(L[..i] + R[..j], merged, key)
  }

  /** Writing out L[i] keeps the merge invariant, provided R's candidate (if
      any) does not have a smaller key: the tie goes to L. */
  lemma TakeLeft<T>(L: seq<T>, R: seq<T>, i: int, j: int, merged: seq<T>, key: T -> int)
    requires SortedBy(L, key) && SortedBy(R, key)
    requires Merging(L, R, i, j, merged, key)
    requires i < |L|
    requires j < |R| ==> key(L[i]) <= key(R[j])
    ensures Merging(L, R, i + 1, j, merged + [L[i]], key)
  {
    var x := L[i];
    var merged' := merged + [x];
    assert L[..i + 1] == L[..i] + [x];
    forall k ensures Filter(merged', key, k) == Filter(L[..i + 1] + R[..j], key, k) {
      FilterConcat(L[..i + 1], R[..j], key, k);
      FilterConcat(L[..i], R[..j], key, k);
      assert Filter(merged', key, k) == Filter(merged, key, k) + Filter([x], key, k);
      if key(x) == k {
        FilterNone(R[..j], key, k);
      }
    }
  }

  /** Writing out R[j] keeps the merge invariant when its key is strictly
      below L's candidate (or L is used up). */
  lemma TakeRight<T>(L: seq<T>, R: seq<T>, i: int, j: int, merged: seq<T>, key: T -> int)
    requires SortedBy(L, key) && SortedBy(R, key)
    requires Merging(L, R, i, j, merged, key)
    requires j < |R|
    requires i < |L| ==> key(R[j]) < key(L[i])
    ensures Merging(L, R, i, j + 1, merged + [R[j]], key)
  {
    var y := R[j];
    var merged' := merged + [y];
    assert L[..i] + R[..j + 1] == (L[..i] + R[..j]) + [y];
    forall k ensures Filter(merged', key, k) == Filter(L[..i] + R[..j + 1], key, k) {
      assert Filter(merged', key, k) == Filter(merged, key, k) + Filter([y], key, k);
    }
  }

  /** The three loops of merge over the buffers: the stable sorted merge of
      two sorted runs, taking from L on equal keys. */
  method MergeRuns<T>(L: seq<T>, R: seq<T>, key: T -> int) returns (merged: seq<T>)
    requires SortedBy(L, key) && SortedBy(R, key)
    ensures |merged| == |L| + |R|
    ensures SortedBy(merged, key)
    ensures Stable(L + R, merged, key)
  {
    var n1, n2 := |L|, |R|;
    var i, j := 0, 0;
    merged := [];
    while i < n1 && j < n2
      invariant Merging(L, R, i, j, merged, key)
      decreases n1 + n2 - i - j
    {
      if key(L[i]) <= key(R[j]) {
        TakeLeft(L, R, i, j, merged, key);
        merged := merged + [L[i]];
        i := i + 1;
      } else {
        TakeRight(L, R, i, j, merged, key);
        merged := merged + [R[j]];
        j := j + 1;
      }
    }
    // copy the remaining elements of L, if any
    while i < n1
      invariant Merging(L, R, i, j, merged, key)
      invariant i < n1 ==> j == n2
    {
      TakeLeft(L, R, i, j, merged, key);
      merged := merged + [L[i]];
      i := i + 1;
    }
    // copy the remaining elements of R, if any
    while j < n2
      invariant Merging(L, R, i, j, merged, key)
      invariant i == n1
    {
      TakeRight(L, R, i, j, merged, key);
      merged := merged + [R[j]];
      j := j + 1;
    }
    MergeEnd(L, R, merged, key);
  }

  /** Once both buffers are used up, the merge is complete. */
  lemma MergeEnd<T>(L: seq<T>, R: seq<T>, merged: seq<T>, key: T -> int)
    requires Merging(L, R, |L|, |R|, merged, key)
    ensures |merged| == |L| + |R|
    ensures SortedBy(merged, key)
    ensures Stable(L + R, merged, key)
  {
    assert L[..|L|] == L && R[..|R|] == R;
  }

  /** merge(arr, left, mid, right): a[left..mid] and a[mid+1..right] (inclusive)
      are each sorted; afterwards a[left..right] is their stable sorted merge
      and nothing outside that range has changed. */
  method Merge<T>(a: seq<T>, key: T -> int, left: int, mid: int, right: int) returns (r: seq<T>)
    requires 0 <= left <= mid + 1 <= right + 1 <= |a|
    requires SortedBy(a[left..mid + 1], key) && SortedBy(a[mid + 1..right + 1], key)
    ensures SortsRange(a, r, left, right + 1, key)
    ensures Stable(a[left..right + 1], r[left..right + 1], key)
  {
    // the buffers L and R hold copies of the two halves
    var L := a[left..mid + 1];
    var R := a[mid + 1..right + 1];
    var merged := MergeRuns(L, R, key);
    assert L + R == a[left..right + 1];
    r := a[..left] + merged + a[right + 1..];
    SpliceBack(a, merged, key, left, right);
  }

  /** Writing the merged run back over a[left..right] completes the merge. */
  lemma SpliceBack<T>(a: seq<T>, merged: seq<T>, key: T -> int, left: int, right: int)
    requires 0 <= left <= right + 1 <= |a|
    requires SortedBy(merged, key) && Stable(a[left..right + 1], merged, key)
    requires |merged| == right + 1 - left
    ensures SortsRange(a, a[..left] + merged + a[right + 1..], left, right + 1, key)
    ensures Stable(a[left..right + 1], (a[..left] + merged + a[right + 1..])[left..right + 1], key)
  {
    var r := a[..left] + merged + a[right + 1..];
    assert r[left..right + 1] == merged;
    StableIsPermutation(a[left..right + 1], merged, key);
  }

  /** mergeSort(arr, left, right): the array contents afterwards. An empty or
      one-element range (left >= right) is left alone; otherwise a[left..right]
      (inclusive) is stably sorted and the rest of the array is unchanged. */
  method Sort<T>(a: seq<T>, key: T -> int, left: int, right: int) returns (r: seq<T>)
    requires left < right ==> 0 <= left && right < |a|
    ensures left >= right ==> r == a
    ensures left < right ==> SortsRange(a, r, left, right + 1, key)
    ensures left < right ==> Stable(a[left..right + 1], r[left..right + 1], key)
    decreases right - left
  {
    if left < right {
      var mid := (left + right) / 2;
      var b := Sort(a, key, left, mid);
      var c := Sort(b, key, mid + 1, right);
      HalvesAfterRecursion(a, b, c, key, left, mid, right);
      r := Merge(c, key, left, mid, right);
      Compose(a, c, r, key, left, right);
    } else {
      r := a;
    }
  }

  /** After the two recursive calls each half of the range is a stable sorted
      copy of the original half, and the outside is untouched. */
  lemma HalvesAfterRecursion<T>(a: seq<T>, b: seq<T>, c: seq<T>, key: T -> int, left: int, mid: int, right: int)
    requires 0 <= left <= mid < right < |a|
    requires left >= mid ==> b == a
    requires left < mid ==> SortsRange(a, b, left, mid + 1, key) && Stable(a[left..mid + 1], b[left..mid + 1], key)
    requires mid + 1 >= right ==> c == b
    requires mid + 1 < right ==> SortsRange(b, c, mid + 1, right + 1, key) && Stable(b[mid + 1..right + 1], c[mid + 1..right + 1], key)
    ensures SameOutside(a, c, left, right + 1)
    ensures SortedBy(c[left..mid + 1], key) && SortedBy(c[mid + 1..right + 1], key)
    ensures Stable(a[left..right + 1], c[left..right + 1], key)
  {
    assert |b| == |a| && |c| == |a|;
    assert c[left..mid + 1] == b[left..mid + 1];
    assert b[mid + 1..right + 1] == a[mid + 1..right + 1];
    assert a[left..right + 1] == a[left..mid + 1] + a[mid + 1..right + 1];
    assert c[left..right + 1] == c[left..mid + 1] + c[mid + 1..right + 1];
    StableConcat(a[left..mid + 1], a[mid + 1..right + 1], c[left..mid + 1], c[mid + 1..right + 1], key);
  }

  /** Chaining the halves' stability with the merge's gives the whole range's. */
  lemma Compose<T>(a: seq<T>, c: seq<T>, r: seq<T>, key: T -> int, left: int, right: int)
    requires 0 <= left <= right < |a|
    requires SameOutside(a, c, left, right + 1)
    requires Stable(a[left..right + 1], c[left..right + 1], key)
    requires SortsRange(c, r, left, right + 1, key)
    requires Stable(c[left..right + 1], r[left..right + 1], key)
    ensures SortsRange(a, r, left, right + 1, key)
    ensures Stable(a[left..right + 1], r[left..right + 1], key)
  {
    StableIsPermutation(a[left..right + 1], r[left..right + 1], key);
  }
}
