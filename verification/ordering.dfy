/**
 * `list.sort(key=...)`: Python's sort is stable, so the result is the
 * permutation of the input that is non-decreasing by key and keeps
 * elements with equal keys in their original order. Keys are integers.
 */
module Ordering {

  ghost predicate SortedByKey<T>(s: seq<T>, key: T -> int) {
    forall i, j :: 0 <= i < j < |s| ==> key(s[i]) <= key(s[j])
  }

  /** No element occurs twice. */
  ghost predicate Distinct<T>(s: seq<T>) {
    forall i, j :: 0 <= i < j < |s| ==> s[i] != s[j]
  }

  /** The elements of `s` whose key is `k`, in their order in `s`. */
  function WithKey<T>(s: seq<T>, key: T -> int, k: int): seq<T> {
    if s == [] then []
    else (if key(s[0]) == k then [s[0]] else []) + WithKey(s[1..], key, k)
  }

  /** Puts `x` in front of the first element whose key is not smaller. */
  function Insert<T>(x: T, s: seq<T>, key: T -> int): (r: seq<T>)
    requires SortedByKey(s, key)
    ensures SortedByKey(r, key)
    ensures multiset(r) == multiset(s) + multiset{x}
  {
    if s == [] || key(x) <= key(s[0]) then [x] + s
    else
      assert s == [s[0]] + s[1..];
      SortedTail(s, key);
      var rest := Insert(x, s[1..], key);
      LowerBoundKept(rest, s[1..], x, key, key(s[0]));
      ConsSorted(s[0], rest, key);
      [s[0]] + rest
  }

  /** A lower bound on the keys of `s` and of `x` bounds every key of a
      sequence holding the same elements as `s` plus `x`. */
  lemma LowerBoundKept<T>(r: seq<T>, s: seq<T>, x: T, key: T -> int, b: int)
    requires multiset(r) == multiset(s) + multiset{x}
    requires b <= key(x)
    requires forall i :: 0 <= i < |s| ==> b <= key(s[i])
    ensures forall i :: 0 <= i < |r| ==> b <= key(r[i])
  {
    forall i | 0 <= i < |r| ensures b <= key(r[i]) {
      assert r[i] in multiset(r);
      if r[i] != x {
        assert r[i] in multiset(s);
      }
    }
  }

  lemma SortedTail<T>(s: seq<T>, key: T -> int)
    requires s != [] && SortedByKey(s, key)
    ensures SortedByKey(s[1..], key)
  {
  }

  lemma ConsSorted<T>(y: T, r: seq<T>, key: T -> int)
    requires SortedByKey(r, key)
    requires forall i :: 0 <= i < |r| ==> key(y) <= key(r[i])
    ensures SortedByKey([y] + r, key)
  {
  }

  /** `sorted(s, key=key)`, as an insertion sort. */
  function SortByKey<T>(s: seq<T>, key: T -> int): (r: seq<T>)
    ensures SortedByKey(r, key)
    ensures multiset(r) == multiset(s)
  {
    if s == [] then []
    else
      assert s == [s[0]] + s[1..];
      Insert(s[0], SortByKey(s[1..], key), key)
  }

  lemma {:induction false} InsertWithKey<T>(x: T, s: seq<T>, key: T -> int, k: int)
    requires SortedByKey(s, key)
    ensures WithKey(Insert(x, s, key), key, k) == (if key(x) == k then [x] else []) + WithKey(s, key, k)
    decreases |s|
  {
    if s == [] || key(x) <= key(s[0]) {
      WithKeyCons(x, s, key, k);
    } else {
      SortedTail(s, key);
      var rest := Insert(x, s[1..], key);
      assert Insert(x, s, key) == [s[0]] + rest;
      InsertWithKey(x, s[1..], key, k);
      WithKeyCons(s[0], rest, key, k);
      WithKeyCons(s[0], s[1..], key, k);
      assert s == [s[0]] + s[1..];
      if key(x) == k {
        assert key(s[0]) != k;
      }
    }
  }

  lemma WithKeyCons<T>(y: T, r: seq<T>, key: T -> int, k: int)
    ensures WithKey([y] + r, key, k) == (if key(y) == k then [y] else []) + WithKey(r, key, k)
  {
    assert ([y] + r)[1..] == r;
  }

  /** The sort is stable: for every key, the elements carrying it keep their order. */
  lemma {:induction false} SortByKeyStable<T>(s: seq<T>, key: T -> int, k: int)
    ensures WithKey(SortByKey(s, key), key, k) == WithKey(s, key, k)
    decreases |s|
  {
    if s != [] {
      SortByKeyStable(s[1..], key, k);
      InsertWithKey(s[0], SortByKey(s[1..], key), key, k);
    }
  }

  lemma WithKeyHead<T>(s: seq<T>, key: T -> int)
    requires s != []
    ensures WithKey(s, key, key(s[0])) != [] && WithKey(s, key, key(s[0]))[0] == s[0]
  {
  }

  lemma WithKeyTail<T>(s: seq<T>, key: T -> int, k: int)
    requires s != []
    ensures WithKey(s[1..], key, k) == if key(s[0]) == k then WithKey(s, key, k)[1..] else WithKey(s, key, k)
  {
  }

  /** Elements kept by `WithKey(s, key, k)` are elements of `s` with key `k`. */
  lemma {:induction false} WithKeyElements<T>(s: seq<T>, key: T -> int, k: int, x: T)
    requires x in WithKey(s, key, k)
    ensures x in s && key(x) == k
    decreases |s|
  {
    if s != [] && (key(s[0]) != k || x != s[0]) {
      WithKeyElements(s[1..], key, k, x);
    }
  }

  /** In a sorted sequence, an element with key `k` bounds the first key. */
  lemma FirstKeyBound<T>(s: seq<T>, key: T -> int, k: int, x: T)
    requires SortedByKey(s, key) && s != []
    requires x in WithKey(s, key, k)
    ensures key(s[0]) <= k
  {
    WithKeyElements(s, key, k, x);
    var i :| 0 <= i < |s| && s[i] == x;
    assert key(s[0]) <= key(s[i]);
  }

  /**
   * A stable sort has only one possible result: two sequences that are both
   * sorted by key and agree, key by key, on the order of the elements carrying
   * that key are equal. So any stable sort by `key` returns `SortByKey(s, key)`.
   */
  lemma {:induction false} StableSortUnique<T>(a: seq<T>, b: seq<T>, key: T -> int)
    requires SortedByKey(a, key) && SortedByKey(b, key)
    requires forall k :: WithKey(a, key, k) == WithKey(b, key, k)
    ensures a == b
    decreases |a|
  {
    if a == [] || b == [] {
      if a != [] { WithKeyHead(a, key); }
      if b != [] { WithKeyHead(b, key); }
    } else {
      SameHead(a, b, key);
      SameTails(a, b, key);
      StableSortUnique(a[1..], b[1..], key);
      assert a == [a[0]] + a[1..] && b == [b[0]] + b[1..];
    }
  }

  /** Two non-empty sorted sequences that agree key by key start alike. */
  lemma SameHead<T>(a: seq<T>, b: seq<T>, key: T -> int)
    requires a != [] && b != []
    requires SortedByKey(a, key) && SortedByKey(b, key)
    requires forall k :: WithKey(a, key, k) == WithKey(b, key, k)
    ensures a[0] == b[0]
  {
    var ka, kb := key(a[0]), key(b[0]);
    WithKeyHead(a, key);
    WithKeyHead(b, key);
    assert WithKey(a, key, kb) == WithKey(b, key, kb);
    assert WithKey(b, key, ka) == WithKey(a, key, ka);
    FirstKeyBound(a, key, kb, b[0]);
    FirstKeyBound(b, key, ka, a[0]);
    assert ka == kb;
  }

  /** Dropping a common first element keeps the key-by-key agreement. */
  lemma SameTails<T>(a: seq<T>, b: seq<T>, key: T -> int)
    requires a != [] && b != [] && a[0] == b[0]
    requires forall k :: WithKey(a, key, k) == WithKey(b, key, k)
    ensures forall k :: WithKey(a[1..], key, k) == WithKey(b[1..], key, k)
  {
    forall k
      ensures WithKey(a[1..], key, k) == WithKey(b[1..], key, k)
    {
      WithKeyTail(a, key, k);
      WithKeyTail(b, key, k);
    }
  }

  /** `SortByKey` is the stable sort: any sequence that is sorted by key and
      keeps, for every key, the input's order of that key's elements is it. */
  lemma SortByKeyIsTheStableSort<T>(s: seq<T>, key: T -> int, r: seq<T>)
    requires SortedByKey(r, key)
    requires forall k :: WithKey(r, key, k) == WithKey(s, key, k)
    ensures r == SortByKey(s, key)
  {
    forall k ensures WithKey(r, key, k) == WithKey(SortByKey(s, key), key, k) {
      SortByKeyStable(s, key, k);
    }
    StableSortUnique(r, SortByKey(s, key), key);
  }

  /** A permutation of a sequence without duplicates has none either. */
  lemma SortByKeyDistinct<T>(s: seq<T>, key: T -> int)
    requires Distinct(s)
    ensures Distinct(SortByKey(s, key))
  {
    var r := SortByKey(s, key);
    forall i, j | 0 <= i < j < |r| ensures r[i] != r[j] {
      if r[i] == r[j] {
        DuplicateCount(r, i, j);
        DistinctCount(s, r[i]);
      }
    }
  }

  lemma DuplicateCount<T>(s: seq<T>, i: nat, j: nat)
    requires i < j < |s| && s[i] == s[j]
    ensures multiset(s)[s[i]] >= 2
  {
    assert s == s[..j] + s[j..];
    assert s[i] in s[..j];
    assert s[j] in s[j..];
    assert multiset(s) == multiset(s[..j]) + multiset(s[j..]);
  }

  lemma {:induction false} DistinctCount<T>(s: seq<T>, x: T)
    requires Distinct(s)
    ensures multiset(s)[x] <= 1
    decreases |s|
  {
    if s != [] {
      assert s == [s[0]] + s[1..];
      DistinctCount(s[1..], x);
      if x == s[0] {
        assert x !in s[1..];
      }
    }
  }
}
