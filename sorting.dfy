/**
 * `Array.prototype.sort` with a comparator, as the dashboard uses it: a stable
 * sort in which an element moves in front of another only when the comparator
 * says the other one is greater (`cmp(other, x) > 0`). It is modelled as
 * insertion sort, first as a function on sequences and then as the in-place
 * array algorithm proved equal to it. For a comparator that orders by a key the
 * result is ordered by that key and stable; for any comparator at all it is a
 * permutation of the input.
 */
module Sorting {

  /** One insertion step: `x` walks left from the end past every element that compares greater. */
  function Insert<T>(x: T, s: seq<T>, cmp: (T, T) -> int): seq<T> {
    if s == [] || cmp(s[|s| - 1], x) <= 0 then s + [x]
    else Insert(x, s[..|s| - 1], cmp) + [s[|s| - 1]]
  }

  function InsertionSort<T>(s: seq<T>, cmp: (T, T) -> int): seq<T> {
    if s == [] then [] else Insert(s[|s| - 1], InsertionSort(s[..|s| - 1], cmp), cmp)
  }

  lemma {:induction false} InsertPermutes<T>(x: T, s: seq<T>, cmp: (T, T) -> int)
    ensures multiset(Insert(x, s, cmp)) == multiset(s) + multiset{x}
  {
    if s != [] && cmp(s[|s| - 1], x) > 0 {
      assert s == s[..|s| - 1] + [s[|s| - 1]];
      InsertPermutes(x, s[..|s| - 1], cmp);
    }
  }

  /** Whatever the comparator, sorting only rearranges. */
  lemma {:induction false} InsertionSortPermutes<T>(s: seq<T>, cmp: (T, T) -> int)
    ensures multiset(InsertionSort(s, cmp)) == multiset(s)
  {
    if s != [] {
      assert s == s[..|s| - 1] + [s[|s| - 1]];
      InsertionSortPermutes(s[..|s| - 1], cmp);
      InsertPermutes(s[|s| - 1], InsertionSort(s[..|s| - 1], cmp), cmp);
    }
  }

  /** On the elements of `s`, the comparator is positive exactly when the first key is the greater. */
  ghost predicate OrdersBy<T>(cmp: (T, T) -> int, key: T -> int, s: seq<T>) {
    forall a, b :: a in s && b in s ==> (cmp(a, b) > 0 <==> key(a) > key(b))
  }

  ghost predicate SortedBy<T>(s: seq<T>, key: T -> int) {
    forall i, j :: 0 <= i < j < |s| ==> key(s[i]) <= key(s[j])
  }

  /** The elements of `s` whose key is `v`, in their order in `s`. */
  function WithKey<T>(s: seq<T>, key: T -> int, v: int): seq<T> {
    if s == [] then []
    else WithKey(s[..|s| - 1], key, v) + (if key(s[|s| - 1]) == v then [s[|s| - 1]] else [])
  }

  /** Two keys that pick out the same elements select the same subsequence. */
  lemma {:induction false} WithKeySameClass<T>(s: seq<T>, key: T -> int, v: int, key': T -> int, v': int)
    requires forall x :: x in s ==> (key(x) == v <==> key'(x) == v')
    ensures WithKey(s, key, v) == WithKey(s, key', v')
  {
    if s != [] {
      assert s[|s| - 1] in s;
      WithKeySameClass(s[..|s| - 1], key, v, key', v');
    }
  }

  lemma OrdersBySmaller<T>(cmp: (T, T) -> int, key: T -> int, s: seq<T>, t: seq<T>)
    requires OrdersBy(cmp, key, s)
    requires forall a :: a in t ==> a in s
    ensures OrdersBy(cmp, key, t)
  {
  }

  lemma SortedElements<T>(s: seq<T>, cmp: (T, T) -> int)
    ensures forall a :: a in InsertionSort(s, cmp) ==> a in s
  {
    InsertionSortPermutes(s, cmp);
    forall a | a in InsertionSort(s, cmp)
      ensures a in s
    {
      assert a in multiset(InsertionSort(s, cmp));
    }
  }

  /** An upper bound on the keys of `s` and of `x` bounds the keys of the insertion. */
  lemma {:induction false} InsertBounded<T>(x: T, s: seq<T>, cmp: (T, T) -> int, key: T -> int, bound: int)
    requires key(x) <= bound
    requires forall k :: 0 <= k < |s| ==> key(s[k]) <= bound
    ensures |Insert(x, s, cmp)| == |s| + 1
    ensures forall k :: 0 <= k < |Insert(x, s, cmp)| ==> key(Insert(x, s, cmp)[k]) <= bound
  {
    if s != [] && cmp(s[|s| - 1], x) > 0 {
      InsertBounded(x, s[..|s| - 1], cmp, key, bound);
    }
  }

  /** Inserting into a sorted sequence keeps it sorted. */
  lemma {:induction false} InsertSorted<T>(x: T, s: seq<T>, cmp: (T, T) -> int, key: T -> int)
    requires SortedBy(s, key)
    requires OrdersBy(cmp, key, s + [x])
    ensures SortedBy(Insert(x, s, cmp), key)
  {
    if s == [] {
    } else if cmp(s[|s| - 1], x) <= 0 {
      var last := s[|s| - 1];
      assert last in s + [x] && x in s + [x];
      assert key(last) <= key(x);
    } else {
      var last := s[|s| - 1];
      var init := s[..|s| - 1];
      assert last in s + [x] && x in s + [x];
      assert key(last) > key(x);
      OrdersBySmaller(cmp, key, s + [x], init + [x]);
      InsertSorted(x, init, cmp, key);
      InsertBounded(x, init, cmp, key, key(last));
      var r := Insert(x, init, cmp);
      assert Insert(x, s, cmp) == r + [last];
    }
  }

  lemma {:induction false} InsertionSortSorted<T>(s: seq<T>, cmp: (T, T) -> int, key: T -> int)
    requires OrdersBy(cmp, key, s)
    ensures SortedBy(InsertionSort(s, cmp), key)
  {
    if s != [] {
      var init := s[..|s| - 1];
      var x := s[|s| - 1];
      OrdersBySmaller(cmp, key, s, init);
      InsertionSortSorted(init, cmp, key);
      SortedElements(init, cmp);
      OrdersBySmaller(cmp, key, s, InsertionSort(init, cmp) + [x]);
      InsertSorted(x, InsertionSort(init, cmp), cmp, key);
    }
  }

  /** Insertion puts `x` after every element with the same key: it only passes greater ones. */
  lemma {:induction false} InsertStable<T>(x: T, s: seq<T>, cmp: (T, T) -> int, key: T -> int, v: int)
    requires OrdersBy(cmp, key, s + [x])
    ensures WithKey(Insert(x, s, cmp), key, v) == WithKey(s + [x], key, v)
  {
    if s != [] && cmp(s[|s| - 1], x) > 0 {
      var last := s[|s| - 1];
      var init := s[..|s| - 1];
      assert last in s + [x] && x in s + [x];
      assert key(last) > key(x);
      OrdersBySmaller(cmp, key, s + [x], init + [x]);
      InsertStable(x, init, cmp, key, v);
      var r := Insert(x, init, cmp);
      assert (r + [last])[..|r|] == r;
      assert (init + [x])[..|init|] == init;
      assert (s + [x])[..|s|] == s;
    }
  }

  /** Stability: the elements sharing any one key keep their input order. */
  lemma {:induction false} InsertionSortStable<T>(s: seq<T>, cmp: (T, T) -> int, key: T -> int, v: int)
    requires OrdersBy(cmp, key, s)
    ensures WithKey(InsertionSort(s, cmp), key, v) == WithKey(s, key, v)
  {
    if s != [] {
      var init := s[..|s| - 1];
      var x := s[|s| - 1];
      OrdersBySmaller(cmp, key, s, init);
      InsertionSortStable(init, cmp, key, v);
      var sorted := InsertionSort(init, cmp);
      SortedElements(init, cmp);
      OrdersBySmaller(cmp, key, s, sorted + [x]);
      InsertStable(x, sorted, cmp, key, v);
      assert (sorted + [x])[..|sorted|] == sorted;
    }
  }

  /** One pass of the in-place sort: moves `a[i]` left into the sorted prefix `a[..i]`. */
  method InsertAt<T>(a: array<T>, i: int, cmp: (T, T) -> int)
    requires 0 <= i < a.Length
    modifies a
    ensures a[..i + 1] == Insert(old(a[i]), old(a[..i]), cmp)
    ensures a[i + 1..] == old(a[i + 1..])
  {
    var x := a[i];
    ghost var sorted := a[..i];
    var j := i;
    while j > 0 && cmp(a[j - 1], x) > 0
      invariant 0 <= j <= i
      invariant forall k :: 0 <= k < j ==> a[k] == sorted[k]
      invariant forall k :: j < k <= i ==> a[k] == sorted[k - 1]
      invariant forall k :: i < k < a.Length ==> a[k] == old(a[k])
      invariant forall k :: j <= k < i ==> cmp(sorted[k], x) > 0
    {
      a[j] := a[j - 1];
      j := j - 1;
    }
    a[j] := x;
    InsertLands(x, sorted, j, cmp);
    Placed(a[..], old(a[..]), sorted, x, i, j);
  }

  /** The array after the shifts, read pointwise, is the prefix with `x` placed at `j`. */
  lemma Placed<T>(now: seq<T>, before: seq<T>, sorted: seq<T>, x: T, i: nat, j: nat)
    requires j <= i < |now| == |before| && |sorted| == i
    requires forall k :: 0 <= k < j ==> now[k] == sorted[k]
    requires now[j] == x
    requires forall k :: j < k <= i ==> now[k] == sorted[k - 1]
    requires forall k :: i < k < |now| ==> now[k] == before[k]
    ensures now[..i + 1] == sorted[..j] + [x] + sorted[j..]
    ensures now[i + 1..] == before[i + 1..]
  {
    var expected := sorted[..j] + [x] + sorted[j..];
    forall k | 0 <= k <= i
      ensures now[k] == expected[k]
    {
      if k < j {
        assert expected[k] == sorted[k];
      } else if k > j {
        assert expected[k] == sorted[k - 1];
      }
    }
  }

  /**
   * Where the insertion step puts `x`: after the prefix `s[..j]` whose last element
   * does not compare greater, and before the tail `s[j..]` whose elements all do.
   */
  lemma {:induction false} InsertLands<T>(x: T, s: seq<T>, j: nat, cmp: (T, T) -> int)
    requires j <= |s| && (j == 0 || cmp(s[j - 1], x) <= 0)
    requires forall k :: j <= k < |s| ==> cmp(s[k], x) > 0
    ensures Insert(x, s, cmp) == s[..j] + [x] + s[j..]
    decreases |s|
  {
    if |s| == j {
      assert s[..j] == s;
    } else {
      var init, last := s[..|s| - 1], s[|s| - 1];
      assert cmp(last, x) > 0;
      assert Insert(x, s, cmp) == Insert(x, init, cmp) + [last];
      assert init[..j] == s[..j];
      InsertLands(x, init, j, cmp);
      assert s[j..] == init[j..] + [last];
      assert s[..j] + [x] + s[j..] == (init[..j] + [x] + init[j..]) + [last];
    }
  }

  /** The in-place sort of `a`, as the source does it on its copied array. */
  method SortInPlace<T>(a: array<T>, cmp: (T, T) -> int)
    modifies a
    ensures a[..] == InsertionSort(old(a[..]), cmp)
  {
    ghost var input := a[..];
    var i := 0;
    while i < a.Length
      invariant 0 <= i <= a.Length
      invariant a[..] == InsertionSort(input[..i], cmp) + input[i..]
    {
      ghost var before := a[..];
      InsertAt(a, i, cmp);
      SortStep(input, i, before, a[..], cmp);
      i := i + 1;
    }
    assert input[..a.Length] == input;
  }

  /** After pass `i`, the first `i + 1` elements are the insertion sort of the first `i + 1` inputs. */
  lemma SortStep<T>(input: seq<T>, i: nat, before: seq<T>, after: seq<T>, cmp: (T, T) -> int)
    requires i < |input| == |before| == |after|
    requires before == InsertionSort(input[..i], cmp) + input[i..]
    requires after[..i + 1] == Insert(before[i], before[..i], cmp)
    requires after[i + 1..] == before[i + 1..]
    ensures after == InsertionSort(input[..i + 1], cmp) + input[i + 1..]
  {
    assert input[..i + 1][..i] == input[..i];
    assert before[..i] == InsertionSort(input[..i], cmp);
    assert before[i] == input[i];
    assert after == after[..i + 1] + after[i + 1..];
  }
}
