/**
 The ordering vocabulary shared by the five sorting routines.

 Every routine is modelled over elements of a type `T` compared through an
 integer `key`. The integer arrays of the original class are the instance
 `T = int`, `key = Id`; the general form lets stability (the order kept among
 elements with equal keys) be stated and proved.
 */
module Order {

  /** The identity key: the integer arrays are sorted by their own values. */
  function Id(x: int): int { x }

  /** The keys of `s` never decrease from left to right. */
  ghost predicate SortedBy<T>(s: seq<T>, key: T -> int) {
    forall i, j :: 0 <= i < j < |s| ==> key(s[i]) <= key(s[j])
  }

  /** The elements of `s` whose key is `k`, in the order they occur in `s`. */
  ghost function Filter<T>(s: seq<T>, key: T -> int, k: int): seq<T> {
    if |s| == 0 then []
    else Filter(s[..|s| - 1], key, k) + (if key(s[|s| - 1]) == k then [s[|s| - 1]] else [])
  }

  /** `r` holds, for every key, exactly the elements of `s` with that key, in
      the same relative order: a stable rearrangement of `s`. */
  ghost predicate Stable<T>(s: seq<T>, r: seq<T>, key: T -> int) {
    forall k :: Filter(r, key, k) == Filter(s, key, k)
  }

  /** `r` agrees with `s` at every index outside the half-open range [lo, hi). */
  ghost predicate SameOutside<T>(s: seq<T>, r: seq<T>, lo: int, hi: int) {
    && |r| == |s|
    && forall q :: 0 <= q < |s| && !(lo <= q < hi) ==> r[q] == s[q]
  }

  /** `r` is `s` with the range [lo, hi) rearranged into key order and nothing
      outside that range changed. */
  ghost predicate SortsRange<T>(s: seq<T>, r: seq<T>, lo: int, hi: int, key: T -> int) {
    && 0 <= lo <= hi <= |s|
    && SameOutside(s, r, lo, hi)
    && SortedBy(r[lo..hi], key)
    && multiset(r[lo..hi]) == multiset(s[lo..hi])
  }

  /** The three-assignment exchange through a temporary that the routines use. */
  function Swap<T>(s: seq<T>, i: int, j: int): (r: seq<T>)
    requires 0 <= i < |s| && 0 <= j < |s|
    ensures |r| == |s| && r[i] == s[j] && r[j] == s[i]
    ensures forall q :: 0 <= q < |s| && q != i && q != j ==> r[q] == s[q]
    ensures multiset(r) == multiset(s)
  {
    s[i := s[j]][j := s[i]]
  }

  lemma {:induction false} FilterConcat<T>(a: seq<T>, b: seq<T>, key: T -> int, k: int)
    ensures Filter(a + b, key, k) == Filter(a, key, k) + Filter(b, key, k)
    decreases |b|
  {
    if |b| == 0 {
      assert a + b == a;
    } else {
      var b' := b[..|b| - 1];
      assert (a + b)[..|a + b| - 1] == a + b';
      FilterConcat(a, b', key, k);
    }
  }

  /** No element of `s` has key `k`, so nothing is selected. */
  lemma {:induction false} FilterNone<T>(s: seq<T>, key: T -> int, k: int)
    requires forall q :: 0 <= q < |s| ==> key(s[q]) != k
    ensures Filter(s, key, k) == []
    decreases |s|
  {
    if |s| > 0 {
      FilterNone(s[..|s| - 1], key, k);
    }
  }

  /** Every selected element has the selecting key. */
  lemma {:induction false} FilterKeys<T>(s: seq<T>, key: T -> int, k: int)
    ensures forall q :: 0 <= q < |Filter(s, key, k)| ==> key(Filter(s, key, k)[q]) == k
    decreases |s|
  {
    if |s| > 0 {
      FilterKeys(s[..|s| - 1], key, k);
    }
  }

  /** The count of `x` in `s` can be read off the elements sharing its key. */
  lemma {:induction false} CountThroughFilter<T>(s: seq<T>, key: T -> int, x: T)
    ensures multiset(s)[x] == multiset(Filter(s, key, key(x)))[x]
    decreases |s|
  {
    if |s| > 0 {
      var s' := s[..|s| - 1];
      assert s == s' + [s[|s| - 1]];
      CountThroughFilter(s', key, x);
    }
  }

  /** A stable rearrangement is in particular a permutation. */
  lemma StableIsPermutation<T>(s: seq<T>, r: seq<T>, key: T -> int)
    requires Stable(s, r, key)
    ensures multiset(r) == multiset(s)
  {
    forall x ensures multiset(r)[x] == multiset(s)[x] {
      CountThroughFilter(r, key, x);
      CountThroughFilter(s, key, x);
    }
  }

  /** Stability composes over concatenated pieces. */
  lemma StableConcat<T>(s1: seq<T>, s2: seq<T>, r1: seq<T>, r2: seq<T>, key: T -> int)
    requires Stable(s1, r1, key) && Stable(s2, r2, key)
    ensures Stable(s1 + s2, r1 + r2, key)
  {
    forall k ensures Filter(r1 + r2, key, k) == Filter(s1 + s2, key, k) {
      FilterConcat(r1, r2, key, k);
      FilterConcat(s1, s2, key, k);
    }
  }

  /** Removing the last element of `s` removes it from its own key's
      selection and from no other. */
  lemma FilterDropLast<T>(s: seq<T>, key: T -> int, k: int)
    requires |s| > 0
    ensures key(s[|s| - 1]) == k ==> Filter(s, key, k) == Filter(s[..|s| - 1], key, k) + [s[|s| - 1]]
    ensures key(s[|s| - 1]) != k ==> Filter(s, key, k) == Filter(s[..|s| - 1], key, k)
  {
  }

  /** In a sorted sequence no element has a key above the last one. */
  lemma SortedFilterAbove<T>(s: seq<T>, key: T -> int, k: int)
    requires SortedBy(s, key) && |s| > 0 && key(s[|s| - 1]) < k
    ensures Filter(s, key, k) == []
  {
    FilterNone(s, key, k);
  }

  /** Two sorted, stably related non-empty sequences end in the same element. */
  lemma SameLast<T>(a: seq<T>, b: seq<T>, key: T -> int)
    requires SortedBy(a, key) && SortedBy(b, key)
    requires Stable(b, a, key)
    requires |a| > 0 && |b| > 0
    ensures key(a[|a| - 1]) == key(b[|b| - 1]) && a[|a| - 1] == b[|b| - 1]
  {
    var ka, kb := key(a[|a| - 1]), key(b[|b| - 1]);
    FilterDropLast(a, key, ka);
    FilterDropLast(b, key, kb);
    if ka < kb {
      SortedFilterAbove(a, key, kb);
      assert false;
    }
    if kb < ka {
      SortedFilterAbove(b, key, ka);
      assert false;
    }
    var fa, fb := Filter(a, key, ka), Filter(b, key, ka);
    assert fa == fb;
    assert a[|a| - 1] == fa[|fa| - 1] == fb[|fb| - 1] == b[|b| - 1];
  }

  /** Dropping a common last element keeps two sequences stably related. */
  lemma StableDropLast<T>(a: seq<T>, b: seq<T>, key: T -> int)
    requires |a| > 0 && |b| > 0 && a[|a| - 1] == b[|b| - 1]
    requires Stable(b, a, key)
    ensures Stable(b[..|b| - 1], a[..|a| - 1], key)
  {
    var a', b' := a[..|a| - 1], b[..|b| - 1];
    forall k ensures Filter(a', key, k) == Filter(b', key, k) {
      FilterDropLast(a, key, k);
      FilterDropLast(b, key, k);
      assert Filter(a, key, k) == Filter(b, key, k);
      if key(a[|a| - 1]) == k {
        assert Filter(a', key, k) == Filter(a, key, k)[..|Filter(a, key, k)| - 1];
        assert Filter(b', key, k) == Filter(b, key, k)[..|Filter(b, key, k)| - 1];
      }
    }
  }

  /** There is only one stable sorted arrangement of a sequence: two sorted
      sequences holding the same elements of each key, in the same order, are
      equal. Hence every stable sort computes the same result, and a stable
      sort leaves an already sorted sequence unchanged. */
  lemma {:induction false} StableSortUnique<T>(a: seq<T>, b: seq<T>, key: T -> int)
    requires SortedBy(a, key) && SortedBy(b, key)
    requires Stable(b, a, key)
    ensures a == b
    decreases |a| + |b|
  {
    if |a| == 0 && |b| == 0 {
      return;
    }
    if |a| == 0 {
      FilterDropLast(b, key, key(b[|b| - 1]));
      assert false;
    }
    if |b| == 0 {
      FilterDropLast(a, key, key(a[|a| - 1]));
      assert false;
    }
    SameLast(a, b, key);
    var a', b' := a[..|a| - 1], b[..|b| - 1];
    StableDropLast(a, b, key);
    StableSortUnique(a', b', key);
    assert a == a' + [a[|a| - 1]];
    assert b == b' + [b[|b| - 1]];
  }

  /** The multiset of a sequence splits along [lo, hi). */
  lemma MultisetSplit<T>(s: seq<T>, lo: int, hi: int)
    requires 0 <= lo <= hi <= |s|
    ensures multiset(s) == multiset(s[..lo]) + multiset(s[lo..hi]) + multiset(s[hi..])
  {
    assert s == s[..lo] + s[lo..hi] + s[hi..];
  }

  /** Under `SameOutside`, permuting the range is the same as permuting the
      whole sequence. */
  lemma RangePermutation<T>(s: seq<T>, r: seq<T>, lo: int, hi: int)
    requires 0 <= lo <= hi <= |s|
    requires SameOutside(s, r, lo, hi)
    ensures multiset(r[lo..hi]) == multiset(s[lo..hi]) <==> multiset(r) == multiset(s)
  {
    MultisetSplit(s, lo, hi);
    MultisetSplit(r, lo, hi);
    assert r[..lo] == s[..lo];
    assert r[hi..] == s[hi..];
    var outside := multiset(s[..lo]) + multiset(s[hi..]);
    var inR, inS := multiset(r[lo..hi]), multiset(s[lo..hi]);
    assert multiset(s) == outside + inS;
    assert multiset(r) == outside + inR;
    if multiset(r) == multiset(s) {
      forall x ensures inR[x] == inS[x] {
        assert multiset(r)[x] == outside[x] + inR[x];
        assert multiset(s)[x] == outside[x] + inS[x];
      }
    }
  }

  /** Index-wise order on [lo, hi) is order of the slice. */
  lemma SortedFromIndices<T>(s: seq<T>, lo: int, hi: int, key: T -> int)
    requires 0 <= lo <= hi <= |s|
    requires forall x, y :: lo <= x < y < hi ==> key(s[x]) <= key(s[y])
    ensures SortedBy(s[lo..hi], key)
  {
    forall x, y | 0 <= x < y < hi - lo
      ensures key(s[lo..hi][x]) <= key(s[lo..hi][y])
    {
      assert s[lo..hi][x] == s[lo + x] && s[lo..hi][y] == s[lo + y];
    }
  }

  /** A permutation keeps every upper bound on the keys. */
  lemma AtMostPreserved<T>(x: seq<T>, y: seq<T>, key: T -> int, v: int)
    requires multiset(x) == multiset(y)
    requires forall q :: 0 <= q < |y| ==> key(y[q]) <= v
    ensures forall q :: 0 <= q < |x| ==> key(x[q]) <= v
  {
    forall q | 0 <= q < |x| ensures key(x[q]) <= v {
      assert x[q] in multiset(x);
      var q' :| 0 <= q' < |y| && y[q'] == x[q];
    }
  }

  /** A permutation keeps every lower bound on the keys. */
  lemma AtLeastPreserved<T>(x: seq<T>, y: seq<T>, key: T -> int, v: int)
    requires multiset(x) == multiset(y)
    requires forall q :: 0 <= q < |y| ==> v <= key(y[q])
    ensures forall q :: 0 <= q < |x| ==> v <= key(x[q])
  {
    forall q | 0 <= q < |x| ensures v <= key(x[q]) {
      assert x[q] in multiset(x);
      var q' :| 0 <= q' < |y| && y[q'] == x[q];
    }
  }

  /** For integers sorted by value, the elements equal to `k` are just
      `k` repeated as often as it occurs. */
  lemma {:induction false} IntFilterIsRun(s: seq<int>, k: int)
    ensures Filter(s, Id, k) == seq(multiset(s)[k], _ => k)
    decreases |s|
  {
    if |s| > 0 {
      var s' := s[..|s| - 1];
      assert s == s' + [s[|s| - 1]];
      IntFilterIsRun(s', k);
    }
  }

  /** On integers compared by value, every permutation is stable. */
  lemma IntPermutationIsStable(s: seq<int>, r: seq<int>)
    requires multiset(r) == multiset(s)
    ensures Stable(s, r, Id)
  {
    forall k ensures Filter(r, Id, k) == Filter(s, Id, k) {
      IntFilterIsRun(r, k);
      IntFilterIsRun(s, k);
    }
  }

  /** Any two sorted permutations of the same integers are equal: all five
      routines agree on integer arrays, and sorting twice changes nothing. */
  lemma SortedPermutationUnique(a: seq<int>, b: seq<int>)
    requires SortedBy(a, Id) && SortedBy(b, Id)
    requires multiset(a) == multiset(b)
    ensures a == b
  {
    IntPermutationIsStable(b, a);
    StableSortUnique(a, b, Id);
  }
}
