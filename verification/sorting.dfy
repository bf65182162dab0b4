/**
 * `slice::sort_by_key`: a stable sort by an integer key.
 *
 * The specification is insertion sort on sequences: `Insert` places an
 * element after every element whose key is not greater, and
 * `InsertionSorted` inserts the elements one by one in their original order.
 * `SortByKey` sorts an array in place and is proved to produce exactly that
 * sequence; the lemmas show the sequence is ordered by key, a permutation of
 * the input, and stable.
 */
module Sorting {

  /** Keys never decrease from left to right. */
  predicate SortedBy<T>(s: seq<T>, key: T -> int) {
    forall i, j :: 0 <= i < j < |s| ==> key(s[i]) <= key(s[j])
  }

  /** `x` placed into `s`: after the last element whose key is not greater than `key(x)`, before the run of greater ones at the end. */
  function Insert<T>(s: seq<T>, x: T, key: T -> int): (r: seq<T>)
    ensures |r| == |s| + 1
  {
    if s == [] || key(s[|s| - 1]) <= key(x) then s + [x]
    else Insert(s[..|s| - 1], x, key) + [s[|s| - 1]]
  }

  /** The elements of `s` inserted one by one, first to last, into an initially empty sequence. */
  function InsertionSorted<T>(s: seq<T>, key: T -> int): (r: seq<T>)
    ensures |r| == |s|
  {
    if s == [] then [] else Insert(InsertionSorted(s[..|s| - 1], key), s[|s| - 1], key)
  }

  /** The elements of `s` whose key is `k`, in their order in `s`. */
  function WithKey<T>(s: seq<T>, key: T -> int, k: int): (r: seq<T>)
    ensures |r| <= |s|
  {
    if s == [] then []
    else WithKey(s[..|s| - 1], key, k) + (if key(s[|s| - 1]) == k then [s[|s| - 1]] else [])
  }

  /** Inserting into a sorted sequence keeps it sorted. */
  lemma {:induction false} InsertKeepsSorted<T>(s: seq<T>, x: T, key: T -> int)
    requires SortedBy(s, key)
    ensures SortedBy(Insert(s, x, key), key)
    decreases |s|
  {
    if s != [] && key(s[|s| - 1]) > key(x) {
      var init := s[..|s| - 1];
      InsertKeepsSorted(init, x, key);
      var r := Insert(init, x, key);
      InsertBounded(init, x, key, key(s[|s| - 1]));
      assert forall i :: 0 <= i < |r| ==> key(r[i]) <= key(s[|s| - 1]);
    }
  }

  /** When `x` and every element of `s` have keys at most `b`, so does every element of the insertion. */
  lemma {:induction false} InsertBounded<T>(s: seq<T>, x: T, key: T -> int, b: int)
    requires key(x) <= b && forall i :: 0 <= i < |s| ==> key(s[i]) <= b
    ensures forall i :: 0 <= i < |Insert(s, x, key)| ==> key(Insert(s, x, key)[i]) <= b
    decreases |s|
  {
    if s != [] && key(s[|s| - 1]) > key(x) {
      InsertBounded(s[..|s| - 1], x, key, b);
    }
  }

  /** Insertion adds exactly one occurrence of `x`. */
  lemma {:induction false} InsertPermutes<T>(s: seq<T>, x: T, key: T -> int)
    ensures multiset(Insert(s, x, key)) == multiset(s) + multiset{x}
    decreases |s|
  {
    if s != [] && key(s[|s| - 1]) > key(x) {
      var init := s[..|s| - 1];
      InsertPermutes(init, x, key);
      assert s == init + [s[|s| - 1]];
    }
  }

  /** Insertion puts `x` behind every element of equal key: the elements of each key keep their order. */
  lemma {:induction false} InsertIsStable<T>(s: seq<T>, x: T, key: T -> int, k: int)
    ensures WithKey(Insert(s, x, key), key, k) == WithKey(s, key, k) + (if key(x) == k then [x] else [])
    decreases |s|
  {
    var tail := if key(x) == k then [x] else [];
    if s == [] || key(s[|s| - 1]) <= key(x) {
      assert (s + [x])[..|s|] == s;
    } else {
      var init := s[..|s| - 1];
      var last := s[|s| - 1];
      InsertIsStable(init, x, key, k);
      var r := Insert(init, x, key);
      assert (r + [last])[..|r|] == r;
      if key(x) == k {
        assert key(last) != k;
      }
    }
  }

  /** The specification's result is ordered by key. */
  lemma {:induction false} InsertionSortedIsSorted<T>(s: seq<T>, key: T -> int)
    ensures SortedBy(InsertionSorted(s, key), key)
    decreases |s|
  {
    if s != [] {
      InsertionSortedIsSorted(s[..|s| - 1], key);
      InsertKeepsSorted(InsertionSorted(s[..|s| - 1], key), s[|s| - 1], key);
    }
  }

  /** The specification's result has the same elements, with the same multiplicities. */
  lemma {:induction false} InsertionSortedPermutes<T>(s: seq<T>, key: T -> int)
    ensures multiset(InsertionSorted(s, key)) == multiset(s)
    decreases |s|
  {
    if s != [] {
      var init := s[..|s| - 1];
      InsertionSortedPermutes(init, key);
      InsertPermutes(InsertionSorted(init, key), s[|s| - 1], key);
      assert s == init + [s[|s| - 1]];
    }
  }

  /** The specification's result is stable: elements of equal key appear in their original order. */
  lemma {:induction false} InsertionSortedIsStable<T>(s: seq<T>, key: T -> int, k: int)
    ensures WithKey(InsertionSorted(s, key), key, k) == WithKey(s, key, k)
    decreases |s|
  {
    if s != [] {
      var init := s[..|s| - 1];
      InsertionSortedIsStable(init, key, k);
      InsertIsStable(InsertionSorted(init, key), s[|s| - 1], key, k);
    }
  }

  /** The elements of a key's filter are elements of the sequence, with that key. */
  lemma {:induction false} WithKeyMembers<T>(s: seq<T>, key: T -> int, k: int, x: T)
    requires x in WithKey(s, key, k)
    ensures x in s && key(x) == k
    decreases |s|
  {
    var init := s[..|s| - 1];
    if x in WithKey(init, key, k) {
      WithKeyMembers(init, key, k, x);
      assert s == init + [s[|s| - 1]];
    }
  }

  /** The last element of a sequence ends its key's filter. */
  lemma WithKeyOfLast<T>(s: seq<T>, key: T -> int)
    requires s != []
    ensures WithKey(s, key, key(s[|s| - 1])) == WithKey(s[..|s| - 1], key, key(s[|s| - 1])) + [s[|s| - 1]]
  {
  }

  /** In a sequence ordered by key, no element has a greater key than the last. */
  lemma LastHasGreatestKey<T>(s: seq<T>, key: T -> int, x: T)
    requires SortedBy(s, key) && x in s
    ensures key(x) <= key(s[|s| - 1])
  {
    var i :| 0 <= i < |s| && s[i] == x;
    if i < |s| - 1 {
      assert key(s[i]) <= key(s[|s| - 1]);
    }
  }

  /** Two sequences ordered by key, with the same filter for every key, end with the same element. */
  lemma SameLast<T>(t: seq<T>, u: seq<T>, key: T -> int)
    requires t != [] && u != [] && SortedBy(t, key) && SortedBy(u, key)
    requires forall k :: WithKey(t, key, k) == WithKey(u, key, k)
    ensures t[|t| - 1] == u[|u| - 1]
  {
    var x, y := t[|t| - 1], u[|u| - 1];
    WithKeyOfLast(t, key);
    WithKeyOfLast(u, key);
    var fx := WithKey(t, key, key(x));
    var fy := WithKey(u, key, key(y));
    assert x in WithKey(u, key, key(x)) by {
      assert x == fx[|fx| - 1];
    }
    WithKeyMembers(u, key, key(x), x);
    LastHasGreatestKey(u, key, x);
    assert y in WithKey(t, key, key(y)) by {
      assert y == fy[|fy| - 1];
    }
    WithKeyMembers(t, key, key(y), y);
    LastHasGreatestKey(t, key, y);
    assert key(x) == key(y);
    assert fx == fy;
  }

  /** Filtering a sequence extended by one element filters the sequence, then that element. */
  lemma WithKeyAppend<T>(s: seq<T>, x: T, key: T -> int, k: int)
    ensures WithKey(s + [x], key, k) == WithKey(s, key, k) + (if key(x) == k then [x] else [])
  {
    assert (s + [x])[..|s|] == s;
  }

  /** Removing the same last element from both keeps every filter equal. */
  lemma DropSameLast<T>(t: seq<T>, u: seq<T>, x: T, key: T -> int, k: int)
    requires WithKey(t + [x], key, k) == WithKey(u + [x], key, k)
    ensures WithKey(t, key, k) == WithKey(u, key, k)
  {
    WithKeyAppend(t, x, key, k);
    WithKeyAppend(u, x, key, k);
    var a, b := WithKey(t, key, k), WithKey(u, key, k);
    if key(x) == k {
      assert (a + [x])[..|a|] == a;
      assert (b + [x])[..|b|] == b;
    }
  }

  /**
   * Sorting by key leaves no choice once the order within each key is fixed:
   * two sequences ordered by key whose elements of each key appear in the
   * same order are equal.
   */
  lemma {:induction false} SortedByKeysIsDetermined<T>(t: seq<T>, u: seq<T>, key: T -> int)
    requires SortedBy(t, key) && SortedBy(u, key)
    requires forall k :: WithKey(t, key, k) == WithKey(u, key, k)
    ensures t == u
    decreases |t| + |u|
  {
    if t == [] && u != [] {
      WithKeyOfLast(u, key);
      assert false;
    } else if t != [] && u == [] {
      WithKeyOfLast(t, key);
      assert false;
    } else if t != [] && u != [] {
      SameLast(t, u, key);
      var tInit, uInit, x := t[..|t| - 1], u[..|u| - 1], t[|t| - 1];
      assert t == tInit + [x] && u == uInit + [x];
      forall k ensures WithKey(tInit, key, k) == WithKey(uInit, key, k) {
        DropSameLast(tInit, uInit, x, key, k);
      }
      SortedByKeysIsDetermined(tInit, uInit, key);
    }
  }

  /**
   * Any stable sort by key gives the insertion-sorted sequence: a sequence
   * ordered by key, holding the elements of each key in their original order,
   * is `InsertionSorted(s, key)`, whatever algorithm produced it.
   */
  lemma StableSortIsInsertionSort<T>(s: seq<T>, t: seq<T>, key: T -> int)
    requires SortedBy(t, key)
    requires forall k :: WithKey(t, key, k) == WithKey(s, key, k)
    ensures t == InsertionSorted(s, key)
  {
    InsertionSortedIsSorted(s, key);
    forall k ensures WithKey(t, key, k) == WithKey(InsertionSorted(s, key), key, k) {
      InsertionSortedIsStable(s, key, k);
    }
    SortedByKeysIsDetermined(t, InsertionSorted(s, key), key);
  }

  /**
   * Where insertion puts `x`: behind the first `j` elements when the element
   * in front of that place has a key at most `key(x)` (or there is none) and
   * every element after it has a greater key.
   */
  lemma {:induction false} InsertPosition<T>(sorted: seq<T>, x: T, key: T -> int, j: nat)
    requires j <= |sorted| && (j == 0 || key(sorted[j - 1]) <= key(x))
    requires forall k :: j <= k < |sorted| ==> key(sorted[k]) > key(x)
    ensures Insert(sorted, x, key) == sorted[..j] + [x] + sorted[j..]
    decreases |sorted|
  {
    if j == |sorted| {
      assert sorted[..j] == sorted && sorted[j..] == [];
    } else {
      var init := sorted[..|sorted| - 1];
      var last := sorted[|sorted| - 1];
      InsertPosition(init, x, key, j);
      assert init[..j] == sorted[..j];
      assert init[j..] + [last] == sorted[j..];
    }
  }

  /** Extending the input by one element inserts it into the sorted prefix. */
  lemma InsertionSortedStep<T>(s: seq<T>, key: T -> int, i: nat)
    requires i < |s|
    ensures InsertionSorted(s[..i + 1], key) == Insert(InsertionSorted(s[..i], key), s[i], key)
  {
    assert s[..i + 1][..i] == s[..i];
  }

  /** Swapping `x` with the element in front of it moves it one place to the left. */
  lemma SwapBack<T>(sorted: seq<T>, x: T, rest: seq<T>, j: nat)
    requires 0 < j <= |sorted|
    ensures (sorted[..j] + [x] + sorted[j..] + rest)[j - 1 := x][j := sorted[j - 1]] ==
            sorted[..j - 1] + [x] + sorted[j - 1..] + rest
  {
    var before := sorted[..j] + [x] + sorted[j..] + rest;
    var after := sorted[..j - 1] + [x] + sorted[j - 1..] + rest;
    assert |before[j - 1 := x][j := sorted[j - 1]]| == |after|;
    forall k | 0 <= k < |after|
      ensures before[j - 1 := x][j := sorted[j - 1]][k] == after[k]
    {
      if k < j - 1 {
        assert after[k] == sorted[k] == before[k];
      } else if j + 1 <= k < |sorted| + 1 {
        assert after[k] == sorted[k - 1] == before[k];
      }
    }
  }

  /**
   * One step of the sort: `a[i]` is swapped left past the elements of greater
   * key before it, so that the first `i + 1` elements become the insertion of
   * the old `a[i]` into the old first `i`. The rest of the array is untouched.
   */
  method InsertAt<T>(a: array<T>, i: nat, key: T -> int)
    requires i < a.Length
    modifies a
    ensures a[..] == Insert(old(a[..i]), old(a[i]), key) + old(a[i + 1..])
  {
    ghost var sorted := a[..i];
    ghost var rest := a[i + 1..];
    var x := a[i];
    var j := i;
    assert sorted[..j] == sorted && sorted[j..] == [];
    assert a[..] == sorted + [x] + rest;
    while j > 0 && key(a[j - 1]) > key(x)
      invariant 0 <= j <= i
      invariant a[..] == sorted[..j] + [x] + sorted[j..] + rest
      invariant forall k :: j <= k < i ==> key(sorted[k]) > key(x)
    {
      SwapBack(sorted, x, rest, j);
      ghost var before := a[..];
      var y := a[j - 1];
      a[j - 1] := x;
      a[j] := y;
      assert a[..] == before[j - 1 := x][j := y];
      j := j - 1;
    }
    InsertPosition(sorted, x, key, j);
  }

  /**
   * `sort_by_key` on the array, by insertion: each element in turn is moved
   * left past the elements of greater key before it. The array ends up
   * holding exactly the insertion-sorted sequence of its old contents.
   */
  method SortByKey<T>(a: array<T>, key: T -> int)
    modifies a
    ensures a[..] == InsertionSorted(old(a[..]), key)
  {
    ghost var input := a[..];
    var i := 0;
    while i < a.Length
      invariant 0 <= i <= a.Length
      invariant a[..i] == InsertionSorted(input[..i], key)
      invariant a[i..] == input[i..]
    {
      assert a[i] == input[i];
      InsertAt(a, i, key);
      InsertionSortedStep(input, key, i);
      i := i + 1;
    }
    assert input[..a.Length] == input;
  }
}
