/**
 Bubble sort: passes over a shrinking prefix exchange adjacent elements whose
 keys are strictly out of order; a pass without an exchange ends the sort.
 */
module BubbleSort {
  import opened Order

  /** Exchanging two neighbours with different keys keeps every key's
      elements in the same relative order. */
  lemma SwapNeighboursStable<T>(a: seq<T>, j: int, key: T -> int)
    requires 0 <= j && j + 1 < |a|
    requires key(a[j]) != key(a[j + 1])
    ensures Stable(a, Swap(a, j, j + 1), key)
  {
    var b := Swap(a, j, j + 1);
    var x, y := a[j], a[j + 1];
    assert a == a[..j] + [x, y] + a[j + 2..];
    assert b == a[..j] + [y, x] + a[j + 2..];
    forall k ensures Filter(b, key, k) == Filter(a, key, k) {
      FilterConcat(a[..j] + [x, y], a[j + 2..], key, k);
      FilterConcat(a[..j], [x, y], key, k);
      FilterConcat(a[..j] + [y, x], a[j + 2..], key, k);
      FilterConcat(a[..j], [y, x], key, k);
      assert [x, y][..1] == [x];
      assert [y, x][..1] == [y];
      assert Filter([x, y], key, k) == Filter([y, x], key, k);
    }
  }

  /** The inner loop's state after comparing the pairs up to position j of
      the pass over a[..m + 1]: a largest key seen so far sits at j, and no
      exchange has happened exactly while the scanned part is in order. */
  ghost predicate Passing<T>(a: seq<T>, b: seq<T>, key: T -> int, m: int, j: int, swapped: bool) {
    && 0 <= j <= m < |a|
    && SameOutside(a, b, 0, m + 1)
    && Stable(a, b, key) && multiset(b) == multiset(a)
    && (forall p :: 0 <= p <= j ==> key(b[p]) <= key(b[j]))
    && (!swapped ==> b == a && forall p, q :: 0 <= p < q <= j ==> key(a[p]) <= key(a[q]))
    && (SortedBy(a[..m + 1], key) ==> !swapped)
  }

  /** Neighbours out of key order are exchanged, which shows the prefix was
      not sorted. */
  lemma PassSwap<T>(a: seq<T>, b: seq<T>, key: T -> int, m: int, j: int, swapped: bool)
    requires Passing(a, b, key, m, j, swapped) && j < m
    requires key(b[j]) > key(b[j + 1])
    ensures Passing(a, Swap(b, j, j + 1), key, m, j + 1, true)
  {
    assert !SortedBy(a[..m + 1], key) by {
      if !swapped {
        assert a[..m + 1][j] == a[j] && a[..m + 1][j + 1] == a[j + 1];
      }
    }
    SwapNeighboursStable(b, j, key);
  }

  /** Neighbours in key order are left where they are. */
  lemma PassKeep<T>(a: seq<T>, b: seq<T>, key: T -> int, m: int, j: int, swapped: bool)
    requires Passing(a, b, key, m, j, swapped) && j < m
    requires key(b[j]) <= key(b[j + 1])
    ensures Passing(a, b, key, m, j + 1, swapped)
  {
  }

  /** At the end of the pass, no exchange means the prefix was sorted. */
  lemma PassEnd<T>(a: seq<T>, b: seq<T>, key: T -> int, m: int, swapped: bool)
    requires Passing(a, b, key, m, m, swapped)
    ensures SameOutside(a, b, 0, m + 1)
    ensures Stable(a, b, key) && multiset(b) == multiset(a)
    ensures forall p :: 0 <= p <= m ==> key(b[p]) <= key(b[m])
    ensures !swapped <==> SortedBy(a[..m + 1], key)
    ensures !swapped ==> b == a
  {
    if !swapped {
      ghost var prefix := a[..m + 1];
      forall p, q | 0 <= p < q < |prefix|
        ensures key(prefix[p]) <= key(prefix[q])
      {
        assert prefix[p] == a[p] && prefix[q] == a[q];
      }
    }
  }

  /** One pass of the inner loop over a[..m + 1]: it carries a largest key of
      that prefix to position m, and it makes no exchange exactly when the
      prefix is already sorted. */
  method Pass<T>(a: seq<T>, key: T -> int, m: int) returns (b: seq<T>, swapped: bool)
    requires 0 <= m < |a|
    ensures SameOutside(a, b, 0, m + 1)
    ensures Stable(a, b, key) && multiset(b) == multiset(a)
    ensures forall p :: 0 <= p <= m ==> key(b[p]) <= key(b[m])
    ensures !swapped <==> SortedBy(a[..m + 1], key)
    ensures !swapped ==> b == a
  {
    b := a;
    swapped := false;
    var j := 0;
    while j < m
      invariant Passing(a, b, key, m, j, swapped)
    {
      if key(b[j]) > key(b[j + 1]) {
        PassSwap(a, b, key, m, j, swapped);
        b := Swap(b, j, j + 1);
        swapped := true;
      } else {
        PassKeep(a, b, key, m, j, swapped);
      }
      j := j + 1;
    }
    PassEnd(a, b, key, m, swapped);
  }

  /** After a pass over a[..m + 1] the elements from m on are in their final
      places, provided those after m already were: the pass only rearranges
      the prefix, and brings one of its largest keys to m. */
  lemma Settled<T>(a: seq<T>, b: seq<T>, key: T -> int, m: int)
    requires 0 <= m < |a|
    requires forall p, q :: 0 <= p < q < |a| && m < q ==> key(a[p]) <= key(a[q])
    requires SameOutside(a, b, 0, m + 1) && multiset(b) == multiset(a)
    requires forall p :: 0 <= p <= m ==> key(b[p]) <= key(b[m])
    ensures forall p, q :: 0 <= p < q < |b| && m <= q ==> key(b[p]) <= key(b[q])
  {
    RangePermutation(a, b, 0, m + 1);
    forall q | m < q < |a|
      ensures forall p :: 0 <= p < q ==> key(b[p]) <= key(b[q])
    {
      AtMostPreserved(b[..m + 1], a[..m + 1], key, key(a[q]));
    }
  }

  /** The array contents after bubble-sorting `s` in place. */
  method Sort<T>(s: seq<T>, key: T -> int) returns (r: seq<T>)
    ensures SortedBy(r, key)
    ensures Stable(s, r, key)
    ensures multiset(r) == multiset(s)
    ensures SortedBy(s, key) ==> r == s
  {
    var a := s;
    var n := |a|;
    var i := 0;
    while i < n - 1
      invariant 0 <= i <= n
      invariant |a| == n
      invariant multiset(a) == multiset(s) && Stable(s, a, key)
      // the last i elements are in their final places
      invariant forall p, q :: 0 <= p < q < n && n - i <= q ==> key(a[p]) <= key(a[q])
      invariant SortedBy(s, key) ==> a == s
    {
      var b, swapped := Pass(a, key, n - i - 1);
      if !swapped {
        // no exchange in this pass: the whole array is already sorted
        assert SortedBy(a, key);
        break;
      }
      Settled(a, b, key, n - i - 1);
      a := b;
      i := i + 1;
    }
    r := a;
  }
}
