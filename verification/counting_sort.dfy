/**
 Counting sort for non-negative keys: find the largest key, tally each key,
 turn the tallies into running totals, then place the elements from last to
 first into an output buffer, each at the slot just below its key's total.
 */
module CountingSort {
  import opened Order

  /** Number of elements of `s` whose key is below `v`. */
  ghost function Below<T>(s: seq<T>, key: T -> int, v: int): nat {
    if |s| == 0 then 0
    else Below(s[..|s| - 1], key, v) + (if key(s[|s| - 1]) < v then 1 else 0)
  }

  /** The reference result: the elements of key 0, then those of key 1, ...,
      up to key m - 1, each group in its original order. */
  ghost function Grouped<T>(s: seq<T>, key: T -> int, m: int): seq<T>
    decreases m
  {
    if m <= 0 then [] else Grouped(s, key, m - 1) + Filter(s, key, m - 1)
  }

  /** Every key of `s` lies in [0, m). */
  ghost predicate KeysIn<T>(s: seq<T>, key: T -> int, m: int) {
    forall q :: 0 <= q < |s| ==> 0 <= key(s[q]) < m
  }

  // ---------------------------------------------------------------------
  // Facts about Below

  lemma {:induction false} BelowStep<T>(s: seq<T>, key: T -> int, v: int)
    ensures Below(s, key, v + 1) == Below(s, key, v) + |Filter(s, key, v)|
    decreases |s|
  {
    if |s| > 0 {
      BelowStep(s[..|s| - 1], key, v);
    }
  }

  lemma {:induction false} BelowMonotone<T>(s: seq<T>, key: T -> int, v: int, w: int)
    requires v <= w
    ensures Below(s, key, v) <= Below(s, key, w)
    decreases |s|
  {
    if |s| > 0 {
      BelowMonotone(s[..|s| - 1], key, v, w);
    }
  }

  /** With all keys in [0, m), nothing is below 0 and everything is below m. */
  lemma {:induction false} BelowBounds<T>(s: seq<T>, key: T -> int, m: int)
    requires KeysIn(s, key, m)
    ensures Below(s, key, 0) == 0 && Below(s, key, m) == |s|
    decreases |s|
  {
    if |s| > 0 {
      BelowBounds(s[..|s| - 1], key, m);
    }
  }

  /** Every slot p of [0, Below(s, m)) lies in the block of exactly one key. */
  lemma {:induction false} BucketOf<T>(s: seq<T>, key: T -> int, m: int, p: int) returns (v: int)
    requires 0 <= p < Below(s, key, m)
    requires Below(s, key, 0) == 0
    ensures 0 <= v < m && Below(s, key, v) <= p < Below(s, key, v + 1)
    decreases m
  {
    if m <= 0 {
      BelowMonotone(s, key, m, 0);
      assert false;
    }
    if Below(s, key, m - 1) <= p {
      v := m - 1;
    } else {
      v := BucketOf(s, key, m - 1, p);
    }
  }

  // ---------------------------------------------------------------------
  // Facts about Filter over prefixes

  /** Extending a prefix by a[i] extends only the selection for a[i]'s key. */
  lemma FilterExtend<T>(a: seq<T>, key: T -> int, i: int, w: int)
    requires 0 <= i < |a|
    ensures Filter(a[..i + 1], key, w)
      == Filter(a[..i], key, w) + (if key(a[i]) == w then [a[i]] else [])
  {
    assert a[..i + 1][..i] == a[..i];
  }

  /** Within its key's selection, a[i] comes right after the earlier ones. */
  lemma FilterAt<T>(a: seq<T>, key: T -> int, i: int)
    requires 0 <= i < |a|
    ensures |Filter(a[..i], key, key(a[i]))| < |Filter(a, key, key(a[i]))|
    ensures Filter(a, key, key(a[i]))[|Filter(a[..i], key, key(a[i]))|] == a[i]
  {
    var v := key(a[i]);
    FilterExtend(a, key, i, v);
    assert a == a[..i + 1] + a[i + 1..];
    FilterConcat(a[..i + 1], a[i + 1..], key, v);
  }

  /** Selecting again from a selection keeps it or empties it. */
  lemma {:induction false} FilterFilter<T>(s: seq<T>, key: T -> int, v: int, k: int)
    ensures Filter(Filter(s, key, v), key, k) == (if k == v then Filter(s, key, v) else [])
    decreases |s|
  {
    if |s| > 0 {
      var s' := s[..|s| - 1];
      FilterFilter(s', key, v, k);
      var x := s[|s| - 1];
      if key(x) == v {
        FilterConcat(Filter(s', key, v), [x], key, k);
      } else {
        assert Filter(s, key, v) == Filter(s', key, v);
      }
    }
  }

  // ---------------------------------------------------------------------
  // The reference result

  lemma {:induction false} GroupedLength<T>(s: seq<T>, key: T -> int, m: int)
    requires 0 <= m && Below(s, key, 0) == 0
    ensures |Grouped(s, key, m)| == Below(s, key, m)
    decreases m
  {
    if m > 0 {
      GroupedLength(s, key, m - 1);
      BelowStep(s, key, m - 1);
    }
  }

  /** The block of key v starts at Below(s, v) and holds v's elements in order. */
  lemma {:induction false} GroupedAt<T>(s: seq<T>, key: T -> int, m: int, v: int, t: int)
    requires 0 <= v < m && Below(s, key, 0) == 0
    requires 0 <= t < |Filter(s, key, v)|
    ensures Below(s, key, v) + t < |Grouped(s, key, m)|
    ensures Grouped(s, key, m)[Below(s, key, v) + t] == Filter(s, key, v)[t]
    decreases m
  {
    var g', f := Grouped(s, key, m - 1), Filter(s, key, m - 1);
    assert Grouped(s, key, m) == g' + f;
    if v < m - 1 {
      GroupedAt(s, key, m - 1, v, t);
      var idx := Below(s, key, v) + t;
      assert (g' + f)[idx] == g'[idx];
    } else {
      GroupedLength(s, key, m - 1);
      assert (g' + f)[|g'| + t] == f[t];
    }
  }

  /** Every key in the first m groups lies in [0, m). */
  lemma {:induction false} GroupedKeys<T>(s: seq<T>, key: T -> int, m: int)
    ensures KeysIn(Grouped(s, key, m), key, m)
    decreases m
  {
    if m > 0 {
      GroupedKeys(s, key, m - 1);
      FilterKeys(s, key, m - 1);
    }
  }

  /** The groups appear in increasing key order. */
  lemma {:induction false} GroupedSorted<T>(s: seq<T>, key: T -> int, m: int)
    ensures SortedBy(Grouped(s, key, m), key)
    decreases m
  {
    if m > 0 {
      GroupedSorted(s, key, m - 1);
      GroupedKeys(s, key, m - 1);
      FilterKeys(s, key, m - 1);
    }
  }

  /** Each group keeps its elements' relative order. */
  lemma {:induction false} GroupedFilter<T>(s: seq<T>, key: T -> int, m: int, k: int)
    ensures Filter(Grouped(s, key, m), key, k) == (if 0 <= k < m then Filter(s, key, k) else [])
    decreases m
  {
    if m > 0 {
      GroupedFilter(s, key, m - 1, k);
      if k == m - 1 {
        GroupedFilterNew(s, key, m, k);
      } else {
        GroupedFilterOld(s, key, m, k);
      }
    } else {
      assert Grouped(s, key, m) == [];
    }
  }

  /** Adding the group of key m - 1 contributes all of that key's elements. */
  lemma GroupedFilterNew<T>(s: seq<T>, key: T -> int, m: int, k: int)
    requires m > 0 && k == m - 1
    requires Filter(Grouped(s, key, m - 1), key, k) == []
    ensures Filter(Grouped(s, key, m), key, k) == Filter(s, key, k)
  {
    var g', f := Grouped(s, key, m - 1), Filter(s, key, m - 1);
    assert Grouped(s, key, m) == g' + f;
    FilterConcat(g', f, key, k);
    FilterFilter(s, key, m - 1, k);
    assert Filter(g' + f, key, k) == [] + f;
  }

  /** Adding the group of key m - 1 contributes nothing to another key. */
  lemma GroupedFilterOld<T>(s: seq<T>, key: T -> int, m: int, k: int)
    requires m > 0 && k != m - 1
    ensures Filter(Grouped(s, key, m), key, k) == Filter(Grouped(s, key, m - 1), key, k)
  {
    var g', f := Grouped(s, key, m - 1), Filter(s, key, m - 1);
    assert Grouped(s, key, m) == g' + f;
    FilterConcat(g', f, key, k);
    FilterFilter(s, key, m - 1, k);
    assert Filter(g' + f, key, k) == Filter(g', key, k) + [];
  }

  /** When every key is in [0, m), the groups form a stable sorted arrangement. */
  lemma GroupedIsStableSort<T>(s: seq<T>, key: T -> int, m: int)
    requires KeysIn(s, key, m)
    ensures SortedBy(Grouped(s, key, m), key)
    ensures Stable(s, Grouped(s, key, m), key)
  {
    GroupedSorted(s, key, m);
    forall k ensures Filter(Grouped(s, key, m), key, k) == Filter(s, key, k) {
      GroupedFilter(s, key, m, k);
      if !(0 <= k < m) {
        FilterNone(s, key, k);
      }
    }
  }

  // ---------------------------------------------------------------------
  // The phases of countingSort

  /** The first loop: the largest key, which some element has. */
  method MaxKey<T>(a: seq<T>, key: T -> int) returns (max: int)
    requires |a| >= 1
    ensures forall q :: 0 <= q < |a| ==> key(a[q]) <= max
    ensures exists q :: 0 <= q < |a| && key(a[q]) == max
  {
    max := key(a[0]);
    var i := 1;
    while i < |a|
      invariant 1 <= i <= |a|
      invariant forall q :: 0 <= q < i ==> key(a[q]) <= max
      invariant exists q :: 0 <= q < i && key(a[q]) == max
    {
      if key(a[i]) > max {
        max := key(a[i]);
      }
      i := i + 1;
    }
  }

  /** The tally loop: count[v] is the number of elements with key v. */
  method Tally<T>(a: seq<T>, key: T -> int, max: int) returns (count: seq<int>)
    requires 0 <= max && KeysIn(a, key, max + 1)
    ensures |count| == max + 1
    ensures forall v :: 0 <= v <= max ==> count[v] == |Filter(a, key, v)|
  {
    count := seq(max + 1, _ => 0);
    var t := 0;
    while t < |a|
      invariant 0 <= t <= |a|
      invariant |count| == max + 1
      invariant forall v :: 0 <= v <= max ==> count[v] == |Filter(a[..t], key, v)|
    {
      forall v | 0 <= v <= max {
        FilterExtend(a, key, t, v);
      }
      count := count[key(a[t]) := count[key(a[t])] + 1];
      t := t + 1;
    }
    assert a[..|a|] == a;
  }

  /** The prefix-sum loop: afterwards count[v] is the number of elements whose
      key is at most v. */
  method Accumulate<T>(a: seq<T>, key: T -> int, count: seq<int>) returns (c: seq<int>)
    requires |count| >= 1 && KeysIn(a, key, |count|)
    requires forall v :: 0 <= v < |count| ==> count[v] == |Filter(a, key, v)|
    ensures |c| == |count|
    ensures forall v :: 0 <= v < |c| ==> c[v] == Below(a, key, v + 1)
  {
    c := count;
    BelowBounds(a, key, |count|);
    BelowStep(a, key, 0);
    var v := 1;
    while v < |c|
      invariant 1 <= v <= |c| == |count|
      invariant forall w :: 0 <= w < v ==> c[w] == Below(a, key, w + 1)
      invariant forall w :: v <= w < |c| ==> c[w] == count[w]
    {
      BelowStep(a, key, v);
      c := c[v := c[v] + c[v - 1]];
      v := v + 1;
    }
  }

  /** count[v] is where the block of key v ends for the unplaced a[..i]. */
  ghost predicate CountsAt<T>(a: seq<T>, key: T -> int, c: seq<int>, i: int)
    requires -1 <= i < |a|
  {
    forall v :: 0 <= v < |c| ==> c[v] == Below(a, key, v) + |Filter(a[..i + 1], key, v)|
  }

  /** Every slot from count[v] to the end of v's block holds its final element. */
  ghost predicate PlacedFrom<T>(a: seq<T>, key: T -> int, c: seq<int>, output: seq<T>) {
    forall v, p ::
      (0 <= v < |c| && c[v] <= p < Below(a, key, v + 1) && 0 <= p < |output| && p < |Grouped(a, key, |c|)|)
      ==> output[p] == Grouped(a, key, |c|)[p]
  }

  /** The state of the placement loop once a[i+1..] has been placed. */
  ghost predicate Placing<T>(a: seq<T>, key: T -> int, c: seq<int>, output: seq<T>, i: int) {
    && -1 <= i < |a|
    && |output| == |a|
    && CountsAt(a, key, c, i)
    && PlacedFrom(a, key, c, output)
  }

  /** a[i] belongs right after the earlier elements of its key in its key's
      block of the reference result. */
  lemma SlotOf<T>(a: seq<T>, key: T -> int, m: int, i: int)
    requires KeysIn(a, key, m) && 0 <= i < |a|
    ensures var v := key(a[i]);
      var pos := Below(a, key, v) + |Filter(a[..i], key, v)|;
      && |Filter(a[..i + 1], key, v)| == |Filter(a[..i], key, v)| + 1
      && pos < Below(a, key, v + 1) <= |a|
      && pos < |Grouped(a, key, m)|
      && Grouped(a, key, m)[pos] == a[i]
  {
    var v := key(a[i]);
    BelowBounds(a, key, m);
    FilterExtend(a, key, i, v);
    FilterAt(a, key, i);
    BelowStep(a, key, v);
    BelowMonotone(a, key, v + 1, m);
    GroupedAt(a, key, m, v, |Filter(a[..i], key, v)|);
  }

  /** Moving past a[i] lowers only its own key's count. */
  lemma CountsStep<T>(a: seq<T>, key: T -> int, c: seq<int>, i: int)
    requires KeysIn(a, key, |c|) && 0 <= i < |a|
    requires CountsAt(a, key, c, i)
    ensures CountsAt(a, key, c[key(a[i]) := c[key(a[i])] - 1], i - 1)
  {
    forall w | 0 <= w < |c| {
      FilterExtend(a, key, i, w);
    }
  }

  /** Writing a[i] to the slot just below its count extends its key's placed
      part, and touches no other key's placed part. */
  lemma PlacedStep<T>(a: seq<T>, key: T -> int, c: seq<int>, output: seq<T>, i: int)
    requires 0 <= i < |a| && |output| == |a|
    requires 0 <= key(a[i]) < |c|
    requires PlacedFrom(a, key, c, output)
    requires var v := key(a[i]);
      && Below(a, key, v) < c[v] <= |output|
      && c[v] - 1 < |Grouped(a, key, |c|)|
      && Grouped(a, key, |c|)[c[v] - 1] == a[i]
    ensures PlacedFrom(a, key, c[key(a[i]) := c[key(a[i])] - 1], output[c[key(a[i])] - 1 := a[i]])
  {
    var v := key(a[i]);
    var pos := c[v] - 1;
    var c', output' := c[v := pos], output[pos := a[i]];
    var goal := Grouped(a, key, |c|);
    forall w, p | 0 <= w < |c'| && c'[w] <= p < Below(a, key, w + 1) && 0 <= p < |output'| && p < |goal|
      ensures output'[p] == goal[p]
    {
      SlotAfterWrite(c, output, goal, v, a[i], w, p, Below(a, key, w + 1));
    }
  }

  /** One slot after the write: the written slot holds its final element, and
      every other slot of a placed part was placed before. */
  lemma SlotAfterWrite<T>(c: seq<int>, output: seq<T>, goal: seq<T>, v: int, x: T, w: int, p: int, end: int)
    requires 0 <= v < |c| && 0 < c[v] <= |output|
    requires c[v] - 1 < |goal| && goal[c[v] - 1] == x
    requires 0 <= w < |c| && c[v := c[v] - 1][w] <= p < end && 0 <= p < |output| && p < |goal|
    requires c[w] <= p ==> output[p] == goal[p]
    ensures output[c[v] - 1 := x][p] == goal[p]
  {
  }

  /** One step of the placement loop keeps its state, and its write is in
      bounds. */
  lemma PlaceStep<T>(a: seq<T>, key: T -> int, c: seq<int>, output: seq<T>, i: int)
    requires KeysIn(a, key, |c|)
    requires Placing(a, key, c, output, i) && 0 <= i
    ensures 1 <= c[key(a[i])] <= |a|
    ensures Placing(a, key, c[key(a[i]) := c[key(a[i])] - 1],
                    output[c[key(a[i])] - 1 := a[i]], i - 1)
  {
    SlotOf(a, key, |c|, i);
    CountsStep(a, key, c, i);
    PlacedStep(a, key, c, output, i);
  }

  /** Before the placement loop nothing is placed and count[v] ends v's block. */
  lemma PlaceStart<T>(a: seq<T>, key: T -> int, count: seq<int>, output: seq<T>)
    requires KeysIn(a, key, |count|) && |output| == |a|
    requires forall v :: 0 <= v < |count| ==> count[v] == Below(a, key, v + 1)
    ensures Placing(a, key, count, output, |a| - 1)
  {
    forall v | 0 <= v < |count| {
      BelowStep(a, key, v);
    }
    assert a[..|a|] == a;
  }

  /** After the placement loop the blocks of all keys are placed, which covers
      every slot. */
  lemma PlaceEnd<T>(a: seq<T>, key: T -> int, c: seq<int>, output: seq<T>)
    requires KeysIn(a, key, |c|)
    requires Placing(a, key, c, output, -1)
    ensures output == Grouped(a, key, |c|)
  {
    BelowBounds(a, key, |c|);
    GroupedLength(a, key, |c|);
    forall p | 0 <= p < |a|
      ensures output[p] == Grouped(a, key, |c|)[p]
    {
      var v := BucketOf(a, key, |c|, p);
      assert a[..0] == [];
    }
  }

  /** The backward placement loop: the output buffer ends up equal to the
      reference result. */
  method Place<T>(a: seq<T>, key: T -> int, count: seq<int>) returns (output: seq<T>)
    requires KeysIn(a, key, |count|)
    requires forall v :: 0 <= v < |count| ==> count[v] == Below(a, key, v + 1)
    ensures output == Grouped(a, key, |count|)
  {
    // the buffer's initial contents are never read: every slot is written
    output := a;
    var c := count;
    PlaceStart(a, key, c, output);
    var i := |a| - 1;
    while i >= 0
      invariant |c| == |count|
      invariant Placing(a, key, c, output, i)
    {
      PlaceStep(a, key, c, output, i);
      var v := key(a[i]);
      output := output[c[v] - 1 := a[i]];
      c := c[v := c[v] - 1];
      i := i - 1;
    }
    PlaceEnd(a, key, c, output);
  }

  /** countingSort(arr): the array contents afterwards. The input must be
      non-empty (the first element seeds the maximum) and every key
      non-negative (keys index the count table). The result is the stable
      sorted arrangement of the input. */
  method Sort<T>(a: seq<T>, key: T -> int) returns (r: seq<T>)
    requires |a| >= 1
    requires forall q :: 0 <= q < |a| ==> 0 <= key(a[q])
    ensures SortedBy(r, key)
    ensures Stable(a, r, key)
    ensures multiset(r) == multiset(a)
    ensures SortedBy(a, key) ==> r == a
  {
    var max := MaxKey(a, key);
    assert 0 <= key(a[0]) <= max;
    assert KeysIn(a, key, max + 1);
    var count := Tally(a, key, max);
    count := Accumulate(a, key, count);
    var output := Place(a, key, count);
    // the final loop copies the output buffer back into the array
    r := output;
    GroupedIsSortResult(a, key, |count|);
  }

  /** The reference result has every property the sort promises. */
  lemma GroupedIsSortResult<T>(a: seq<T>, key: T -> int, m: int)
    requires KeysIn(a, key, m)
    ensures SortedBy(Grouped(a, key, m), key)
    ensures Stable(a, Grouped(a, key, m), key)
    ensures multiset(Grouped(a, key, m)) == multiset(a)
    ensures SortedBy(a, key) ==> Grouped(a, key, m) == a
  {
    var r := Grouped(a, key, m);
    GroupedIsStableSort(a, key, m);
    StableIsPermutation(a, r, key);
    if SortedBy(a, key) {
      StableSortUnique(r, a, key);
    }
  }

  /** The reference result is the only stable sorted arrangement: whatever a
      stable sort (bubble sort, merge sort, counting sort) produces from a
      sequence with keys in [0, m) is exactly the groups in key order. */
  lemma StableSortIsGrouped<T>(s: seq<T>, r: seq<T>, key: T -> int, m: int)
    requires KeysIn(s, key, m)
    requires SortedBy(r, key) && Stable(s, r, key)
    ensures r == Grouped(s, key, m)
  {
    var g := Grouped(s, key, m);
    GroupedIsStableSort(s, key, m);
    forall k ensures Filter(g, key, k) == Filter(r, key, k) {
    }
    StableSortUnique(g, r, key);
  }
}
