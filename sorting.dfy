/** lodash `sortBy` with a single numeric iteratee: a stable ascending sort.
    Elements with equal keys keep their input order. */
module Sorting {

  /** `s` is in ascending order of `key`. */
  predicate Sorted<T>(s: seq<T>, key: T -> int)
  {
    forall i, j :: 0 <= i < j < |s| ==> key(s[i]) <= key(s[j])
  }

  /** `s` is in strictly ascending order of `key`: no two elements share a key. */
  predicate StrictlySorted<T>(s: seq<T>, key: T -> int)
  {
    forall i, j :: 0 <= i < j < |s| ==> key(s[i]) < key(s[j])
  }

  /** Inserts `x` in front of the first element whose key is not smaller. */
  function Insert<T>(x: T, s: seq<T>, key: T -> int): (r: seq<T>)
    ensures multiset(r) == multiset(s) + multiset{x}
    ensures Sorted(s, key) ==> Sorted(r, key)
  {
    if s == [] || key(x) <= key(s[0]) then [x] + s
    else
      var rest := Insert(x, s[1..], key);
      assert s == [s[0]] + s[1..];
      InsertBehindHead(s[0], x, s[1..], rest, key);
      [s[0]] + rest
  }

  /** When `x` goes behind the head `h`, the head stays in front of the
      sorted remainder. */
  lemma InsertBehindHead<T>(h: T, x: T, t: seq<T>, rest: seq<T>, key: T -> int)
    requires multiset(rest) == multiset(t) + multiset{x}
    requires key(h) < key(x)
    requires Sorted(t, key) ==> Sorted(rest, key)
    ensures Sorted([h] + t, key) ==> Sorted([h] + rest, key)
  {
    if Sorted([h] + t, key) {
      assert forall i :: 0 <= i < |t| ==> t[i] == ([h] + t)[i + 1];
      forall y | y in rest ensures key(h) <= key(y) {
        assert y in multiset(rest);
        if y != x {
          assert y in multiset(t);
          var i :| 0 <= i < |t| && t[i] == y;
          assert ([h] + t)[0] == h && ([h] + t)[i + 1] == y;
        }
      }
      var r := [h] + rest;
      forall i, j | 0 <= i < j < |r| ensures key(r[i]) <= key(r[j]) {
        if i > 0 {
          assert r[i] == rest[i - 1] && r[j] == rest[j - 1];
        } else {
          assert r[j] == rest[j - 1] && r[j] in rest;
        }
      }
    }
  }

  /** `sortBy(s, key)`. */
  function SortBy<T>(s: seq<T>, key: T -> int): (r: seq<T>)
    ensures multiset(r) == multiset(s)
    ensures Sorted(r, key)
  {
    if s == [] then []
    else
      assert s == [s[0]] + s[1..];
      Insert(s[0], SortBy(s[1..], key), key)
  }

  /** The elements of `s` whose key is `v`, in their order in `s`. */
  function WithKey<T>(s: seq<T>, key: T -> int, v: int): (r: seq<T>)
  {
    if s == [] then []
    else (if key(s[0]) == v then [s[0]] else []) + WithKey(s[1..], key, v)
  }

  lemma {:induction false} InsertWithKey<T>(x: T, s: seq<T>, key: T -> int, v: int)
    ensures WithKey(Insert(x, s, key), key, v)
         == (if key(x) == v then [x] else []) + WithKey(s, key, v)
  {
    if s == [] || key(x) <= key(s[0]) {
      WithKeyCons(x, s, key, v);
    } else {
      InsertWithKey(x, s[1..], key, v);
      InsertBehindWithKey(x, s, key, v);
    }
  }

  /** When `x` goes behind the head, the head's contribution comes first. */
  lemma InsertBehindWithKey<T>(x: T, s: seq<T>, key: T -> int, v: int)
    requires s != [] && key(s[0]) < key(x)
    requires WithKey(Insert(x, s[1..], key), key, v) == (if key(x) == v then [x] else []) + WithKey(s[1..], key, v)
    ensures WithKey(Insert(x, s, key), key, v) == (if key(x) == v then [x] else []) + WithKey(s, key, v)
  {
    var rest := Insert(x, s[1..], key);
    assert Insert(x, s, key) == [s[0]] + rest;
    assert s == [s[0]] + s[1..];
    ConsWithKey(s[0], rest, s[1..], if key(x) == v then [x] else [], key, v);
  }

  /** Putting `h` in front of two sequences whose selections differ by a
      prefix `pre` keeps that difference when `h` and `pre` are not both
      selected. */
  lemma ConsWithKey<T>(h: T, rest: seq<T>, t: seq<T>, pre: seq<T>, key: T -> int, v: int)
    requires WithKey(rest, key, v) == pre + WithKey(t, key, v)
    requires key(h) == v ==> pre == []
    ensures WithKey([h] + rest, key, v) == pre + WithKey([h] + t, key, v)
  {
    WithKeyCons(h, rest, key, v);
    WithKeyCons(h, t, key, v);
    if key(h) == v {
      assert pre + ([h] + WithKey(t, key, v)) == [h] + WithKey(rest, key, v);
    }
  }

  lemma WithKeyCons<T>(a: T, r: seq<T>, key: T -> int, v: int)
    ensures WithKey([a] + r, key, v) == (if key(a) == v then [a] else []) + WithKey(r, key, v)
  {
    assert ([a] + r)[1..] == r;
  }

  /** Stability: sorting does not reorder elements that share a key. */
  lemma {:induction false} SortByStable<T>(s: seq<T>, key: T -> int, v: int)
    ensures WithKey(SortBy(s, key), key, v) == WithKey(s, key, v)
  {
    if s != [] {
      SortByStable(s[1..], key, v);
      InsertWithKey(s[0], SortBy(s[1..], key), key, v);
    }
  }

  /** A sorted sequence is left as it is. */
  lemma {:induction false} SortBySorted<T>(s: seq<T>, key: T -> int)
    requires Sorted(s, key)
    ensures SortBy(s, key) == s
  {
    if s != [] {
      assert Sorted(s[1..], key);
      SortBySorted(s[1..], key);
      assert s == [s[0]] + s[1..];
    }
  }

  /** Sorting twice gives the order that sorting once gives. */
  lemma SortByIdempotent<T>(s: seq<T>, key: T -> int)
    ensures SortBy(SortBy(s, key), key) == SortBy(s, key)
  {
    SortBySorted(SortBy(s, key), key);
  }

  /** A sorted permutation of a strictly sorted sequence is that sequence. */
  lemma {:induction false} SortedPermutationUnique<T>(a: seq<T>, b: seq<T>, key: T -> int)
    requires Sorted(a, key) && StrictlySorted(b, key)
    requires multiset(a) == multiset(b)
    ensures a == b
  {
    if a == [] {
      assert |b| == |multiset(b)| == 0;
    } else {
      assert |b| == |multiset(b)| == |multiset(a)| == |a|;
      HeadsAgree(a, b, key);
      TailsPermutation(a, b);
      SortedTail(a, b, key);
      SortedPermutationUnique(a[1..], b[1..], key);
      assert a == [a[0]] + a[1..];
      assert b == [b[0]] + b[1..];
    }
  }

  /** The smallest element of a sorted sequence heads any strictly sorted
      permutation of it. */
  lemma HeadsAgree<T>(a: seq<T>, b: seq<T>, key: T -> int)
    requires Sorted(a, key) && StrictlySorted(b, key)
    requires multiset(a) == multiset(b) && a != [] && b != []
    ensures a[0] == b[0]
  {
    assert a[0] in multiset(b);
    var j :| 0 <= j < |b| && b[j] == a[0];
    assert b[0] in multiset(a);
    var i :| 0 <= i < |a| && a[i] == b[0];
    assert key(a[0]) <= key(a[i]) == key(b[0]);
    assert key(b[0]) <= key(b[j]) == key(a[0]);
    if j != 0 {
      assert false;
    }
  }

  lemma TailsPermutation<T>(a: seq<T>, b: seq<T>)
    requires multiset(a) == multiset(b) && a != [] && b != [] && a[0] == b[0]
    ensures multiset(a[1..]) == multiset(b[1..])
  {
    assert a == [a[0]] + a[1..];
    assert b == [b[0]] + b[1..];
    assert multiset(a) == multiset{a[0]} + multiset(a[1..]);
    assert multiset(b) == multiset{b[0]} + multiset(b[1..]);
    assert multiset(a[1..]) == multiset(a) - multiset{a[0]};
    assert multiset(b[1..]) == multiset(b) - multiset{b[0]};
  }

  lemma SortedTail<T>(a: seq<T>, b: seq<T>, key: T -> int)
    requires Sorted(a, key) && StrictlySorted(b, key) && a != [] && b != []
    ensures Sorted(a[1..], key) && StrictlySorted(b[1..], key)
  {
    forall i, j | 0 <= i < j < |a| - 1 ensures key(a[1..][i]) <= key(a[1..][j]) {
      assert a[1..][i] == a[i + 1] && a[1..][j] == a[j + 1];
    }
    forall i, j | 0 <= i < j < |b| - 1 ensures key(b[1..][i]) < key(b[1..][j]) {
      assert b[1..][i] == b[i + 1] && b[1..][j] == b[j + 1];
    }
  }
}
