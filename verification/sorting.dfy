/**
 Ascending sort by a numeric key, standing in for the host language's
 `sorted(..., key=...)`. An insertion sort on sequences; ties keep their
 input order.
 */
module Sorting {

  /** `s` is in ascending order of `key`. */
  ghost predicate SortedBy<T>(s: seq<T>, key: T -> real) {
    forall i, j :: 0 <= i < j < |s| ==> key(s[i]) <= key(s[j])
  }

  /** Inserts `x` into the sorted `s`, before the first element whose key is not below its own. */
  function Insert<T>(x: T, s: seq<T>, key: T -> real): (r: seq<T>)
    requires SortedBy(s, key)
    ensures SortedBy(r, key)
    ensures multiset(r) == multiset(s) + multiset{x}
  {
    if |s| == 0 then [x]
    else if key(x) <= key(s[0]) then
      SortedFront(x, s, key);
      [x] + s
    else
      SortedTail(s, key);
      var t := Insert(x, s[1..], key);
      InsertBehindHead(s[0], s[1..], x, t, key);
      [s[0]] + t
  }

  /** An element no larger than the head of a sorted sequence can go in front of it. */
  lemma SortedFront<T>(x: T, s: seq<T>, key: T -> real)
    requires SortedBy(s, key) && |s| > 0 && key(x) <= key(s[0])
    ensures SortedBy([x] + s, key)
  {
    SortedCons(x, s, key);
  }

  /** The tail of a sorted sequence is sorted and bounded below by the head. */
  lemma SortedTail<T>(s: seq<T>, key: T -> real)
    requires SortedBy(s, key) && |s| > 0
    ensures s == [s[0]] + s[1..]
    ensures SortedBy(s[1..], key)
    ensures forall k :: 0 <= k < |s[1..]| ==> key(s[0]) <= key(s[1..][k])
  {
  }

  /** Putting the head back in front of the tail with `x` inserted keeps order and contents. */
  lemma InsertBehindHead<T>(h: T, rest: seq<T>, x: T, t: seq<T>, key: T -> real)
    requires SortedBy(t, key) && multiset(t) == multiset(rest) + multiset{x}
    requires forall k :: 0 <= k < |rest| ==> key(h) <= key(rest[k])
    requires key(h) < key(x)
    ensures SortedBy([h] + t, key)
    ensures multiset([h] + t) == multiset([h] + rest) + multiset{x}
  {
    LowerBoundOfPermutation(h, t, rest + [x], key);
    SortedCons(h, t, key);
  }

  /** Putting an element no larger than all of a sorted sequence in front keeps it sorted. */
  lemma SortedCons<T>(h: T, t: seq<T>, key: T -> real)
    requires SortedBy(t, key)
    requires forall k :: 0 <= k < |t| ==> key(h) <= key(t[k])
    ensures SortedBy([h] + t, key)
  {
    var r := [h] + t;
    forall i, j | 0 <= i < j < |r|
      ensures key(r[i]) <= key(r[j])
    {
      assert r[j] == t[j - 1];
      if i > 0 {
        assert r[i] == t[i - 1];
      }
    }
  }

  /** Every element of a permutation of `s` keeps the lower bound that holds for all of `s`. */
  lemma LowerBoundOfPermutation<T>(lo: T, t: seq<T>, s: seq<T>, key: T -> real)
    requires multiset(t) == multiset(s)
    requires forall k :: 0 <= k < |s| ==> key(lo) <= key(s[k])
    ensures forall k :: 0 <= k < |t| ==> key(lo) <= key(t[k])
  {
    forall k | 0 <= k < |t|
      ensures key(lo) <= key(t[k])
    {
      assert t[k] in multiset(s);
      var j :| 0 <= j < |s| && s[j] == t[k];
    }
  }

  /** Sorts `s` by `key`: the result is in ascending order and a permutation of `s`. */
  function SortBy<T>(s: seq<T>, key: T -> real): (r: seq<T>)
    ensures SortedBy(r, key)
    ensures multiset(r) == multiset(s)
  {
    if |s| == 0 then []
    else
      assert s == [s[0]] + s[1..];
      Insert(s[0], SortBy(s[1..], key), key)
  }

  /** The elements of `s` whose key is `k`, in their order in `s`. */
  function WithKey<T>(s: seq<T>, key: T -> real, k: real): seq<T> {
    if |s| == 0 then []
    else (if key(s[0]) == k then [s[0]] else []) + WithKey(s[1..], key, k)
  }

  lemma WithKeyCons<T>(h: T, t: seq<T>, key: T -> real, k: real)
    ensures WithKey([h] + t, key, k) == (if key(h) == k then [h] else []) + WithKey(t, key, k)
  {
    assert ([h] + t)[1..] == t;
  }

  /** Two sequences of which one is empty can be swapped in front of a third. */
  lemma SwapEmpty<T>(a: seq<T>, b: seq<T>, c: seq<T>)
    requires a == [] || b == []
    ensures b + (a + c) == a + (b + c)
  {
  }

  /**
   Inserting keeps ties in order: among elements with the same key, `x`
   comes first, followed by those of `s` in their order in `s`.
   */
  lemma {:induction false} InsertWithKey<T>(x: T, s: seq<T>, key: T -> real, k: real)
    requires SortedBy(s, key)
    ensures WithKey(Insert(x, s, key), key, k) == (if key(x) == k then [x] else []) + WithKey(s, key, k)
    decreases |s|
  {
    if |s| == 0 {
    } else if key(x) <= key(s[0]) {
      WithKeyCons(x, s, key, k);
    } else {
      var t := Insert(x, s[1..], key);
      InsertWithKey(x, s[1..], key, k);
      WithKeyCons(s[0], t, key, k);
      var xs: seq<T> := if key(x) == k then [x] else [];
      var hs: seq<T> := if key(s[0]) == k then [s[0]] else [];
      SwapEmpty(xs, hs, WithKey(s[1..], key, k));
    }
  }

  /**
   The sort is stable: for every key, the elements with that key appear in
   the result in the same order as in the input.
   */
  lemma {:induction false} SortByStable<T>(s: seq<T>, key: T -> real, k: real)
    ensures WithKey(SortBy(s, key), key, k) == WithKey(s, key, k)
    decreases |s|
  {
    if |s| > 0 {
      SortByStable(s[1..], key, k);
      InsertWithKey(s[0], SortBy(s[1..], key), key, k);
    }
  }

  /** The sort key of plain numbers. */
  function Identity(x: real): real {
    x
  }

  /** Ascending order of plain numbers. */
  ghost predicate Sorted(s: seq<real>) {
    SortedBy(s, Identity)
  }

  /** The head of a non-empty sorted sequence is its least element. */
  lemma SortedHeadIsMin(s: seq<real>, x: real)
    requires Sorted(s) && x in multiset(s)
    ensures s[0] <= x
  {
    var i :| 0 <= i < |s| && s[i] == x;
    if i > 0 {
      assert Identity(s[0]) <= Identity(s[i]);
    }
  }

  /** Sorted sequences with the same elements are equal: the sorted order is unique. */
  lemma {:induction false} SortedUnique(a: seq<real>, b: seq<real>)
    requires Sorted(a) && Sorted(b)
    requires multiset(a) == multiset(b)
    ensures a == b
    decreases |a|
  {
    if |a| > 0 {
      assert |b| == |multiset(b)| == |a|;
      assert a[0] in multiset(b);
      assert b[0] in multiset(a);
      SortedHeadIsMin(b, a[0]);
      SortedHeadIsMin(a, b[0]);
      assert a[0] == b[0];
      assert a == [a[0]] + a[1..];
      assert b == [b[0]] + b[1..];
      assert multiset(a) == multiset{a[0]} + multiset(a[1..]);
      assert multiset(b) == multiset{b[0]} + multiset(b[1..]);
      assert multiset(a[1..]) == multiset(a) - multiset{a[0]};
      assert multiset(b[1..]) == multiset(b) - multiset{b[0]};
      SortedUnique(a[1..], b[1..]);
    } else {
      assert |b| == |multiset(b)| == 0;
    }
  }

  /** Two sorted sequences are equal exactly when they hold the same elements. */
  lemma SortedEqualIff(a: seq<real>, b: seq<real>)
    requires Sorted(a) && Sorted(b)
    ensures a == b <==> multiset(a) == multiset(b)
  {
    if multiset(a) == multiset(b) {
      SortedUnique(a, b);
    }
  }
}
