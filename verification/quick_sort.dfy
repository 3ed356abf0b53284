/**
 Quicksort over an inclusive index range with the Lomuto partition: the last
 element of the range is the pivot.
 */
module QuickSort {
  import opened Order

  /** The Lomuto loop's state after scanning a[low..j-1]: arr[low..i] holds
      keys below the pivot's, arr[i+1..j-1] keys at or above it, and the pivot
      still waits at `high`. */
  ghost predicate Scanned<T>(a: seq<T>, arr: seq<T>, key: T -> int, low: int, high: int, i: int, j: int) {
    && 0 <= low <= j <= high < |a|
    && low - 1 <= i < j
    && SameOutside(a, arr, low, high + 1)
    && multiset(arr) == multiset(a)
    && arr[high] == a[high]
    && (forall q :: low <= q <= i ==> key(arr[q]) < key(a[high]))
    && (forall q :: i < q < j ==> key(a[high]) <= key(arr[q]))
  }

  /** An element with a smaller key than the pivot's joins the lower side. */
  lemma ScanSmaller<T>(a: seq<T>, arr: seq<T>, key: T -> int, low: int, high: int, i: int, j: int)
    requires Scanned(a, arr, key, low, high, i, j) && j < high
    requires key(arr[j]) < key(a[high])
    ensures Scanned(a, Swap(arr, i + 1, j), key, low, high, i + 1, j + 1)
  {
  }

  /** An element with a key at least the pivot's stays in the upper side. */
  lemma ScanOther<T>(a: seq<T>, arr: seq<T>, key: T -> int, low: int, high: int, i: int, j: int)
    requires Scanned(a, arr, key, low, high, i, j) && j < high
    requires key(a[high]) <= key(arr[j])
    ensures Scanned(a, arr, key, low, high, i, j + 1)
  {
  }

  /** The loop of partition: scans a[low..high-1] against the pivot a[high],
      moving every element with a smaller key to the front of the range. */
  method Scan<T>(a: seq<T>, key: T -> int, low: int, high: int) returns (arr: seq<T>, i: int)
    requires 0 <= low <= high < |a|
    ensures Scanned(a, arr, key, low, high, i, high)
  {
    var pivot := a[high];
    arr := a;
    i := low - 1;
    var j := low;
    while j < high
      invariant Scanned(a, arr, key, low, high, i, j)
    {
      if key(arr[j]) < key(pivot) {
        ScanSmaller(a, arr, key, low, high, i, j);
        i := i + 1;
        arr := Swap(arr, i, j);
      } else {
        ScanOther(a, arr, key, low, high, i, j);
      }
      j := j + 1;
    }
  }

  /** partition(arr, low, high): returns the pivot's final index p. The pivot
      (the original a[high]) lands at p, every key before it in the range is
      strictly smaller, every key after it is at least as large, and only the
      range a[low..high] (inclusive) is rearranged. */
  method Partition<T>(a: seq<T>, key: T -> int, low: int, high: int) returns (r: seq<T>, p: int)
    requires 0 <= low <= high < |a|
    ensures low <= p <= high
    ensures SameOutside(a, r, low, high + 1)
    ensures multiset(r[low..high + 1]) == multiset(a[low..high + 1])
    ensures r[p] == a[high]
    ensures forall q :: low <= q < p ==> key(r[q]) < key(r[p])
    ensures forall q :: p < q <= high ==> key(r[p]) <= key(r[q])
  {
    var arr, i := Scan(a, key, low, high);
    r, p := Swap(arr, i + 1, high), i + 1;
    PlacePivot(a, arr, r, key, low, i, high);
  }

  /** The final exchange of partition puts the pivot between the two sides. */
  lemma PlacePivot<T>(a: seq<T>, arr: seq<T>, r: seq<T>, key: T -> int, low: int, i: int, high: int)
    requires Scanned(a, arr, key, low, high, i, high)
    requires r == Swap(arr, i + 1, high)
    ensures SameOutside(a, r, low, high + 1)
    ensures multiset(r[low..high + 1]) == multiset(a[low..high + 1])
    ensures r[i + 1] == a[high]
    ensures forall q :: low <= q < i + 1 ==> key(r[q]) < key(r[i + 1])
    ensures forall q :: i + 1 < q <= high ==> key(r[i + 1]) <= key(r[q])
  {
    RangePermutation(a, r, low, high + 1);
  }

  /** quickSort(arr, low, high): the array contents afterwards. An empty or
      one-element range (low >= high) is left alone, which also covers the
      recursive calls on an empty side of the pivot; otherwise a[low..high]
      (inclusive) is sorted and the rest of the array is unchanged. */
  method Sort<T>(a: seq<T>, key: T -> int, low: int, high: int) returns (r: seq<T>)
    requires low < high ==> 0 <= low && high < |a|
    ensures low >= high ==> r == a
    ensures low < high ==> SortsRange(a, r, low, high + 1, key)
    decreases high - low
  {
    if low < high {
      var b, pi := Partition(a, key, low, high);
      var c := Sort(b, key, low, pi - 1);
      r := Sort(c, key, pi + 1, high);
      Assemble(a, b, c, r, key, low, pi, high);
    } else {
      r := a;
    }
  }

  /** Sorting both sides of a partitioned range sorts the whole range. */
  lemma Assemble<T>(a: seq<T>, b: seq<T>, c: seq<T>, r: seq<T>, key: T -> int, low: int, pi: int, high: int)
    requires 0 <= low <= pi <= high < |a|
    requires SameOutside(a, b, low, high + 1)
    requires multiset(b[low..high + 1]) == multiset(a[low..high + 1])
    requires forall q :: low <= q < pi ==> key(b[q]) < key(b[pi])
    requires forall q :: pi < q <= high ==> key(b[pi]) <= key(b[q])
    requires low >= pi - 1 ==> c == b
    requires low < pi - 1 ==> SortsRange(b, c, low, pi, key)
    requires pi + 1 >= high ==> r == c
    requires pi + 1 < high ==> SortsRange(c, r, pi + 1, high + 1, key)
    ensures SortsRange(a, r, low, high + 1, key)
  {
    AssembleSorted(b, c, r, key, low, pi, high);
    AssemblePermutation(a, b, c, r, key, low, pi, high);
  }

  /** The frame and permutation part of `Assemble`: each step only rearranges
      its own part of the range. */
  lemma AssemblePermutation<T>(a: seq<T>, b: seq<T>, c: seq<T>, r: seq<T>, key: T -> int, low: int, pi: int, high: int)
    requires 0 <= low <= pi <= high < |a|
    requires SameOutside(a, b, low, high + 1)
    requires multiset(b[low..high + 1]) == multiset(a[low..high + 1])
    requires low >= pi - 1 ==> c == b
    requires low < pi - 1 ==> SortsRange(b, c, low, pi, key)
    requires pi + 1 >= high ==> r == c
    requires pi + 1 < high ==> SortsRange(c, r, pi + 1, high + 1, key)
    ensures SameOutside(a, r, low, high + 1)
    ensures multiset(r[low..high + 1]) == multiset(a[low..high + 1])
  {
    RangePermutation(a, b, low, high + 1);
    Widen(b, c, key, low, high + 1, low, pi);
    Widen(c, r, key, low, high + 1, pi + 1, high + 1);
    assert SameOutside(a, r, low, high + 1);
    RangePermutation(a, r, low, high + 1);
  }

  /** A recursive call on the sub-range [lo2, hi2) leaves everything outside
      the enclosing range [lo, hi) alone and permutes the whole sequence. */
  lemma Widen<T>(s: seq<T>, t: seq<T>, key: T -> int, lo: int, hi: int, lo2: int, hi2: int)
    requires 0 <= lo <= lo2 && hi2 <= hi <= |s|
    requires lo2 >= hi2 - 1 ==> t == s
    requires lo2 < hi2 - 1 ==> SortsRange(s, t, lo2, hi2, key)
    ensures SameOutside(s, t, lo, hi) && multiset(t) == multiset(s)
  {
    if lo2 < hi2 - 1 {
      RangePermutation(s, t, lo2, hi2);
    }
  }

  /** The order part of `Assemble`: sorted left side, pivot, sorted right side. */
  lemma AssembleSorted<T>(b: seq<T>, c: seq<T>, r: seq<T>, key: T -> int, low: int, pi: int, high: int)
    requires 0 <= low <= pi <= high < |b|
    requires forall q :: low <= q < pi ==> key(b[q]) < key(b[pi])
    requires forall q :: pi < q <= high ==> key(b[pi]) <= key(b[q])
    requires low >= pi - 1 ==> c == b
    requires low < pi - 1 ==> SortsRange(b, c, low, pi, key)
    requires pi + 1 >= high ==> r == c
    requires pi + 1 < high ==> SortsRange(c, r, pi + 1, high + 1, key)
    ensures SortedBy(r[low..high + 1], key)
  {
    var v := key(b[pi]);
    // the left side keeps its keys below v
    ghost var left := b[low..pi];
    assert forall q :: 0 <= q < |left| ==> key(left[q]) <= v - 1;
    AtMostPreserved(c[low..pi], left, key, v - 1);
    assert r[low..pi] == c[low..pi];
    // the right side keeps its keys at or above v
    ghost var right := b[pi + 1..high + 1];
    assert c[pi + 1..high + 1] == right;
    assert forall q :: 0 <= q < |right| ==> v <= key(right[q]);
    AtLeastPreserved(r[pi + 1..high + 1], right, key, v);
    assert r[pi] == b[pi];
    // stitched together, the range is sorted
    forall x, y | low <= x < y <= high
      ensures key(r[x]) <= key(r[y])
    {
      if y < pi {
        assert r[low..pi][x - low] == r[x] && r[low..pi][y - low] == r[y];
      } else if x > pi {
        assert r[pi + 1..high + 1][x - pi - 1] == r[x] && r[pi + 1..high + 1][y - pi - 1] == r[y];
      } else {
        if x < pi {
          assert r[low..pi][x - low] == r[x];
        }
        if y > pi {
          assert r[pi + 1..high + 1][y - pi - 1] == r[y];
        }
      }
    }
    SortedFromIndices(r, low, high + 1, key);
  }
}
