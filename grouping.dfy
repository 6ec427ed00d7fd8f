/** The grouping step of the list service: lodash `groupBy` over the fetched
    items, then lodash `sortBy` of the groups by the position of each group's
    first member in the fetched sequence.

    The reference meaning is `Groups`: one group per distinct key, in the order
    in which the keys first occur, each group holding the items with that key
    in fetched order. `groupBy` builds a JavaScript object whose enumeration
    order the model leaves open (`keyOrder`); `GroupByThenSortByRestoresOrder`
    shows that the `sortBy` step yields `Groups` whatever that order is. */
module Grouping {
  import opened Sorting

  /** Some element of `s` has key `k`. */
  predicate HasKey<T, K(==,!new)>(s: seq<T>, key: T -> K, k: K)
  {
    exists i :: 0 <= i < |s| && key(s[i]) == k
  }

  predicate Distinct<K(==,!new)>(ks: seq<K>)
  {
    forall i, j :: 0 <= i < j < |ks| ==> ks[i] != ks[j]
  }

  /** `a` is `b` with some elements deleted (relative order kept). */
  predicate IsSubsequence<T(==)>(a: seq<T>, b: seq<T>)
    decreases |b|
  {
    if a == [] then true
    else if b == [] then false
    else if a[|a| - 1] == b[|b| - 1] then IsSubsequence(a[..|a| - 1], b[..|b| - 1])
    else IsSubsequence(a, b[..|b| - 1])
  }

  /** The group for key `k`: the elements of `s` with that key, in the order of `s`. */
  function Members<T, K(==,!new)>(s: seq<T>, key: T -> K, k: K): (g: seq<T>)
    ensures forall x :: x in g ==> x in s && key(x) == k
    ensures forall i :: 0 <= i < |s| && key(s[i]) == k ==> s[i] in g
  {
    if s == [] then []
    else
      var last := s[|s| - 1];
      assert s == s[..|s| - 1] + [last];
      Members(s[..|s| - 1], key, k) + (if key(last) == k then [last] else [])
  }

  /** The distinct keys of `s`, in the order of their first occurrence. */
  function FirstKeys<T, K(==,!new)>(s: seq<T>, key: T -> K): (ks: seq<K>)
    ensures Distinct(ks)
    ensures forall k :: k in ks <==> HasKey(s, key, k)
  {
    if s == [] then []
    else
      var n := |s| - 1;
      var prev := FirstKeys(s[..n], key);
      var k := key(s[n]);
      assert forall k' :: HasKey(s, key, k') <==> HasKey(s[..n], key, k') || k == k' by {
        forall k' ensures HasKey(s, key, k') <==> HasKey(s[..n], key, k') || k == k' {
          if HasKey(s, key, k') {
            var i :| 0 <= i < |s| && key(s[i]) == k';
            if i < n { assert s[..n][i] == s[i]; }
          }
          if HasKey(s[..n], key, k') {
            var i :| 0 <= i < n && key(s[..n][i]) == k';
            assert s[i] == s[..n][i];
          }
        }
      }
      if k in prev then prev else prev + [k]
  }

  /** Index of the first element of `s` whose key is `k`. */
  function FirstIndexOfKey<T, K(==,!new)>(s: seq<T>, key: T -> K, k: K): (i: nat)
    requires HasKey(s, key, k)
    ensures i < |s| && key(s[i]) == k
    ensures forall j :: 0 <= j < i ==> key(s[j]) != k
  {
    var n := |s| - 1;
    if HasKey(s[..n], key, k) then
      var i := FirstIndexOfKey(s[..n], key, k);
      assert s[i] == s[..n][i];
      assert forall j :: 0 <= j < i ==> s[j] == s[..n][j];
      i
    else
      assert forall j :: 0 <= j < n ==> s[..n][j] == s[j];
      n
  }

  /** `s.indexOf(x)`: the first index holding `x`, or -1. */
  function IndexOf<T(==)>(s: seq<T>, x: T): (i: int)
    ensures -1 <= i < |s|
    ensures i == -1 <==> x !in s
    ensures 0 <= i ==> s[i] == x && forall j :: 0 <= j < i ==> s[j] != x
  {
    if s == [] then -1
    else if s[0] == x then 0
    else
      var r := IndexOf(s[1..], x);
      assert s == [s[0]] + s[1..];
      if r == -1 then -1 else r + 1
  }

  /** `items.indexOf(group[0])`, the iteratee of the service's `sortBy`
      (an empty group reads `undefined`, which no item is). */
  function FirstPosition<T(==)>(items: seq<T>, g: seq<T>): int
  {
    if g == [] then -1 else IndexOf(items, g[0])
  }

  function ByFirstMember<T(==)>(items: seq<T>): seq<T> -> int
  {
    g => FirstPosition(items, g)
  }

  /** The group of each key in `ks`, in the order of `ks`. */
  function GroupsFor<T, K(==,!new)>(s: seq<T>, key: T -> K, ks: seq<K>): seq<seq<T>>
  {
    seq(|ks|, i requires 0 <= i < |ks| => Members(s, key, ks[i]))
  }

  /** Reference meaning of the grouping: groups in first-occurrence order. */
  function Groups<T, K(==,!new)>(s: seq<T>, key: T -> K): seq<seq<T>>
  {
    GroupsFor(s, key, FirstKeys(s, key))
  }

  /** `keyOrder` is an order in which a JavaScript engine may enumerate the
      object `groupBy` returns: each distinct key exactly once. */
  predicate IsEnumerationOrder<T, K(==,!new)>(s: seq<T>, key: T -> K, keyOrder: seq<K>)
  {
    multiset(keyOrder) == multiset(FirstKeys(s, key))
  }

  /** `sortBy(groupBy(items, key), group => items.indexOf(group[0]))`, with the
      object's groups enumerated in `keyOrder`. */
  function GroupAndOrder<T(==), K(==,!new)>(items: seq<T>, key: T -> K, keyOrder: seq<K>): seq<seq<T>>
  {
    SortBy(GroupsFor(items, key, keyOrder), ByFirstMember(items))
  }

  function Flatten<T>(gs: seq<seq<T>>): seq<T>
  {
    if gs == [] then [] else gs[0] + Flatten(gs[1..])
  }

  // ---------------------------------------------------------------------
  // Properties of the reference grouping

  lemma MembersEmpty<T, K(!new)>(s: seq<T>, key: T -> K, k: K)
    ensures Members(s, key, k) == [] <==> !HasKey(s, key, k)
  {
    var g := Members(s, key, k);
    if g != [] {
      assert g[0] in g;
      var i :| 0 <= i < |s| && s[i] == g[0];
    }
  }

  lemma MembersSnoc<T, K(!new)>(s: seq<T>, x: T, key: T -> K, k: K)
    ensures Members(s + [x], key, k) == Members(s, key, k) + (if key(x) == k then [x] else [])
  {
    assert (s + [x])[..|s|] == s;
  }

  /** Every group is non-empty, and there are groups exactly when there are items. */
  lemma GroupsNonEmpty<T, K(!new)>(s: seq<T>, key: T -> K)
    ensures forall i :: 0 <= i < |Groups(s, key)| ==> Groups(s, key)[i] != []
    ensures Groups(s, key) == [] <==> s == []
  {
    var ks := FirstKeys(s, key);
    forall i | 0 <= i < |ks| ensures Groups(s, key)[i] != [] {
      assert ks[i] in ks;
      MembersEmpty(s, key, ks[i]);
    }
    if s != [] {
      assert HasKey(s, key, key(s[0]));
    }
  }

  /** When every item files under the same key (as when `groupBy` is given
      no key and coerces every item to the same string), the fetched items
      form one group, in fetched order. */
  lemma ConstantKeyOneGroup<T, K(!new)>(s: seq<T>, key: T -> K, k: K)
    requires s != [] && forall x :: key(x) == k
    ensures Groups(s, key) == [s]
  {
    var ks := FirstKeys(s, key);
    assert HasKey(s, key, k);
    assert k in ks;
    forall j | 0 <= j < |ks| ensures ks[j] == k {
      assert ks[j] in ks;
    }
    SameKeysNotDistinct(ks, k);
    assert ks == [k];
    MembersAll(s, key, k);
  }

  lemma SameKeysNotDistinct<K(!new)>(ks: seq<K>, k: K)
    requires forall j :: 0 <= j < |ks| ==> ks[j] == k
    ensures Distinct(ks) ==> |ks| <= 1
  {
    if |ks| > 1 {
      assert ks[0] == ks[1];
    }
  }

  lemma {:induction false} MembersAll<T, K(!new)>(s: seq<T>, key: T -> K, k: K)
    requires forall i :: 0 <= i < |s| ==> key(s[i]) == k
    ensures Members(s, key, k) == s
  {
    if s != [] {
      var n := |s| - 1;
      var prev := s[..n];
      assert Members(s, key, k) == Members(prev, key, k) + [s[n]];
      assert forall i :: 0 <= i < n ==> prev[i] == s[i];
      MembersAll(prev, key, k);
      assert s == prev + [s[n]];
    }
  }

  /** Two items share a group exactly when they share a key. */
  lemma GroupsPartitionByKey<T, K(!new)>(s: seq<T>, key: T -> K)
    ensures forall i, j, x, y :: 0 <= i < |Groups(s, key)| && 0 <= j < |Groups(s, key)|
              && x in Groups(s, key)[i] && y in Groups(s, key)[j]
              ==> (key(x) == key(y) <==> i == j)
  {
  }

  /** Each group keeps the fetched order of its members. */
  lemma {:induction false} MembersKeepOrder<T, K(!new)>(s: seq<T>, key: T -> K, k: K)
    ensures IsSubsequence(Members(s, key, k), s)
  {
    if s != [] {
      var n := |s| - 1;
      var prev := Members(s[..n], key, k);
      MembersKeepOrder(s[..n], key, k);
      if key(s[n]) == k {
        assert (prev + [s[n]])[..|prev|] == prev;
      } else if prev != [] {
        var last := prev[|prev| - 1];
        assert last in prev;
        assert key(last) == k;
        assert last != s[n];
        assert s[..|s| - 1] == s[..n];
        assert Members(s, key, k) == prev;
      }
    }
  }

  lemma GroupsKeepOrder<T, K(!new)>(s: seq<T>, key: T -> K)
    ensures forall i :: 0 <= i < |Groups(s, key)| ==> IsSubsequence(Groups(s, key)[i], s)
  {
    var ks := FirstKeys(s, key);
    forall i | 0 <= i < |ks| ensures IsSubsequence(Groups(s, key)[i], s) {
      MembersKeepOrder(s, key, ks[i]);
    }
  }

  lemma {:induction false} FlattenSnoc<T>(gs: seq<seq<T>>, g: seq<T>)
    ensures Flatten(gs + [g]) == Flatten(gs) + g
  {
    if gs == [] {
      assert [g][1..] == [];
    } else {
      assert (gs + [g])[1..] == gs[1..] + [g];
      FlattenSnoc(gs[1..], g);
    }
  }

  lemma GroupsForCons<T, K(!new)>(s: seq<T>, key: T -> K, ks: seq<K>)
    requires ks != []
    ensures GroupsFor(s, key, ks) == [Members(s, key, ks[0])] + GroupsFor(s, key, ks[1..])
  {
  }

  lemma GroupsForConcat<T, K(!new)>(s: seq<T>, key: T -> K, a: seq<K>, b: seq<K>)
    ensures GroupsFor(s, key, a + b) == GroupsFor(s, key, a) + GroupsFor(s, key, b)
  {
  }

  /** Appending `x` to the items adds `x` once to the flattened groups of `ks`
      when its key is among `ks`. */
  lemma {:induction false} FlattenGroupsForSnoc<T, K(!new)>(s: seq<T>, x: T, key: T -> K, ks: seq<K>)
    requires Distinct(ks)
    ensures multiset(Flatten(GroupsFor(s + [x], key, ks)))
         == multiset(Flatten(GroupsFor(s, key, ks))) + (if key(x) in ks then multiset{x} else multiset{})
  {
    if ks != [] {
      assert Distinct(ks[1..]);
      FlattenGroupsForSnoc(s, x, key, ks[1..]);
      FlattenGroupsForSnocStep(s, x, key, ks);
    }
  }

  lemma FlattenGroupsForSnocStep<T, K(!new)>(s: seq<T>, x: T, key: T -> K, ks: seq<K>)
    requires ks != [] && ks[0] !in ks[1..]
    requires multiset(Flatten(GroupsFor(s + [x], key, ks[1..])))
          == multiset(Flatten(GroupsFor(s, key, ks[1..]))) + (if key(x) in ks[1..] then multiset{x} else multiset{})
    ensures multiset(Flatten(GroupsFor(s + [x], key, ks)))
         == multiset(Flatten(GroupsFor(s, key, ks))) + (if key(x) in ks then multiset{x} else multiset{})
  {
    var k, rest := ks[0], ks[1..];
    var extra := if key(x) == k then [x] else [];
    var after, before := GroupsFor(s + [x], key, ks), GroupsFor(s, key, ks);
    GroupsForCons(s + [x], key, ks);
    GroupsForCons(s, key, ks);
    MembersSnoc(s, x, key, k);
    var m := Members(s, key, k);
    assert Flatten(after) == m + extra + Flatten(after[1..]);
    assert Flatten(before) == m + Flatten(before[1..]);
    assert key(x) in ks <==> key(x) == k || key(x) in rest;
    SnocMultiset(m, extra, Flatten(after[1..]), Flatten(before[1..]), x, key(x) in rest, key(x) in ks);
  }

  /** The multiset bookkeeping of `FlattenGroupsForSnocStep`: `x` is counted
      either in the first group (`extra`) or in the later ones, never both. */
  lemma SnocMultiset<T>(m: seq<T>, extra: seq<T>, fa: seq<T>, fb: seq<T>, x: T, inRest: bool, inAll: bool)
    requires multiset(fa) == multiset(fb) + (if inRest then multiset{x} else multiset{})
    requires (extra == [x] && !inRest && inAll) || (extra == [] && inAll == inRest)
    ensures multiset(m + extra + fa) == multiset(m + fb) + (if inAll then multiset{x} else multiset{})
  {
  }

  /** No item is dropped or duplicated: the groups, concatenated, are a
      permutation of the fetched items. */
  lemma {:induction false} GroupsArePermutation<T, K(!new)>(s: seq<T>, key: T -> K)
    ensures multiset(Flatten(Groups(s, key))) == multiset(s)
  {
    if s != [] {
      var n := |s| - 1;
      var x := s[n];
      var prev := s[..n];
      assert s == prev + [x];
      GroupsArePermutation(prev, key);
      var ks := FirstKeys(prev, key);
      FlattenGroupsForSnoc(prev, x, key, ks);
      if key(x) !in ks {
        NewKeyGroup(prev, x, key, ks);
      }
    }
  }

  lemma NewKeyGroup<T, K(!new)>(prev: seq<T>, x: T, key: T -> K, ks: seq<K>)
    requires ks == FirstKeys(prev, key) && key(x) !in ks
    ensures Flatten(Groups(prev + [x], key)) == Flatten(GroupsFor(prev + [x], key, ks)) + [x]
  {
    var s := prev + [x];
    assert s[..|s| - 1] == prev;
    assert FirstKeys(s, key) == ks + [key(x)];
    GroupsForConcat(s, key, ks, [key(x)]);
    MembersSnoc(prev, x, key, key(x));
    MembersEmpty(prev, key, key(x));
    assert Members(s, key, key(x)) == [x];
    assert GroupsFor(s, key, [key(x)]) == [[x]];
    FlattenSnoc(GroupsFor(s, key, ks), [x]);
  }

  /** The first member of the group for `k` is the first item with key `k`. */
  lemma {:induction false} MembersHead<T, K(!new)>(s: seq<T>, key: T -> K, k: K)
    requires HasKey(s, key, k)
    ensures Members(s, key, k) != [] && Members(s, key, k)[0] == s[FirstIndexOfKey(s, key, k)]
  {
    var n := |s| - 1;
    var prev := s[..n];
    var tail := if key(s[n]) == k then [s[n]] else [];
    assert Members(s, key, k) == Members(prev, key, k) + tail;
    if HasKey(prev, key, k) {
      MembersHead(prev, key, k);
      var i := FirstIndexOfKey(prev, key, k);
      assert FirstIndexOfKey(s, key, k) == i;
      assert prev[i] == s[i];
    } else {
      MembersEmpty(prev, key, k);
      assert FirstIndexOfKey(s, key, k) == n;
    }
  }

  lemma IndexOfFirstOfKey<T, K(!new)>(s: seq<T>, key: T -> K, k: K)
    requires HasKey(s, key, k)
    ensures IndexOf(s, s[FirstIndexOfKey(s, key, k)]) == FirstIndexOfKey(s, key, k)
  {
    var m := FirstIndexOfKey(s, key, k);
    var r := IndexOf(s, s[m]);
    assert s[m] in s;
    assert key(s[r]) == k;
  }

  /** Keys are listed in the order of their first occurrence. */
  lemma {:induction false} FirstKeysInOccurrenceOrder<T, K(!new)>(s: seq<T>, key: T -> K)
    ensures forall i, j :: 0 <= i < j < |FirstKeys(s, key)| ==>
              HasKey(s, key, FirstKeys(s, key)[i]) && HasKey(s, key, FirstKeys(s, key)[j]) &&
              FirstIndexOfKey(s, key, FirstKeys(s, key)[i]) < FirstIndexOfKey(s, key, FirstKeys(s, key)[j])
  {
    var ks := FirstKeys(s, key);
    if s != [] {
      var n := |s| - 1;
      var prev := s[..n];
      var pks := FirstKeys(prev, key);
      FirstKeysInOccurrenceOrder(prev, key);
      forall k | HasKey(prev, key, k)
        ensures FirstIndexOfKey(s, key, k) == FirstIndexOfKey(prev, key, k) < n
      {
      }
      forall i, j | 0 <= i < j < |ks|
        ensures HasKey(s, key, ks[i]) && HasKey(s, key, ks[j])
        ensures FirstIndexOfKey(s, key, ks[i]) < FirstIndexOfKey(s, key, ks[j])
      {
        assert ks[i] in ks && ks[j] in ks;
        assert ks[i] in pks;
        if j < |pks| {
          assert ks[j] in pks;
        } else {
          assert ks[j] == key(s[n]) && !HasKey(prev, key, ks[j]);
        }
      }
    }
  }

  /** The groups are ordered by the position of their first member. */
  lemma GroupsInFirstOccurrenceOrder<T, K(!new)>(s: seq<T>, key: T -> K)
    ensures StrictlySorted(Groups(s, key), ByFirstMember(s))
  {
    var ks := FirstKeys(s, key);
    var gs := Groups(s, key);
    FirstKeysInOccurrenceOrder(s, key);
    forall i | 0 <= i < |ks|
      ensures HasKey(s, key, ks[i]) && FirstPosition(s, gs[i]) == FirstIndexOfKey(s, key, ks[i])
    {
      assert ks[i] in ks;
      MembersHead(s, key, ks[i]);
      IndexOfFirstOfKey(s, key, ks[i]);
    }
  }

  /** Whatever order `groupBy`'s object enumerates its groups in, sorting them
      by the position of their first member gives the reference grouping. */
  lemma GroupByThenSortByRestoresOrder<T, K(!new)>(items: seq<T>, key: T -> K, keyOrder: seq<K>)
    requires IsEnumerationOrder(items, key, keyOrder)
    ensures GroupAndOrder(items, key, keyOrder) == Groups(items, key)
  {
    GroupsForPermutation(items, key, keyOrder, FirstKeys(items, key));
    GroupsInFirstOccurrenceOrder(items, key);
    SortedPermutationUnique(GroupAndOrder(items, key, keyOrder), Groups(items, key), ByFirstMember(items));
  }

  /** Permuting the keys permutes their groups. */
  lemma {:induction false} GroupsForPermutation<T, K(!new)>(s: seq<T>, key: T -> K, a: seq<K>, b: seq<K>)
    requires multiset(a) == multiset(b)
    ensures multiset(GroupsFor(s, key, a)) == multiset(GroupsFor(s, key, b))
  {
    if a == [] {
      assert |b| == |multiset(b)| == 0;
    } else {
      var j := MatchFirst(a, b);
      GroupsForPermutation(s, key, a[1..], b[..j] + b[j + 1..]);
      GroupsForPermutationStep(s, key, a, b, j);
    }
  }

  /** The first element of `a` sits at some `j` in its permutation `b`, and
      removing both leaves permutations of each other. */
  lemma MatchFirst<K>(a: seq<K>, b: seq<K>) returns (j: nat)
    requires a != [] && multiset(a) == multiset(b)
    ensures j < |b| && b[j] == a[0]
    ensures multiset(a[1..]) == multiset(b[..j] + b[j + 1..])
  {
    assert a == [a[0]] + a[1..];
    assert a[0] in multiset(b);
    j :| 0 <= j < |b| && b[j] == a[0];
    MultisetRemove(b, j);
    assert multiset(a[1..]) == multiset(a) - multiset{a[0]};
  }

  /** Moving the first key of `a` to position `j` of `b` moves its group. */
  lemma GroupsForPermutationStep<T, K(!new)>(s: seq<T>, key: T -> K, a: seq<K>, b: seq<K>, j: nat)
    requires a != [] && j < |b| && b[j] == a[0]
    requires multiset(GroupsFor(s, key, a[1..])) == multiset(GroupsFor(s, key, b[..j] + b[j + 1..]))
    ensures multiset(GroupsFor(s, key, a)) == multiset(GroupsFor(s, key, b))
  {
    GroupsForCons(s, key, a);
    GroupsForRemove(s, key, b, j);
    var g := Members(s, key, a[0]);
    assert multiset(GroupsFor(s, key, a)) == multiset{g} + multiset(GroupsFor(s, key, a[1..]));
  }

  /** Dropping the key at `j` drops its group from the middle. */
  lemma GroupsForRemove<T, K(!new)>(s: seq<T>, key: T -> K, b: seq<K>, j: nat)
    requires j < |b|
    ensures multiset(GroupsFor(s, key, b))
         == multiset(GroupsFor(s, key, b[..j] + b[j + 1..])) + multiset{Members(s, key, b[j])}
  {
    var front, back := b[..j], b[j + 1..];
    var gf, gb := GroupsFor(s, key, front), GroupsFor(s, key, back);
    var g := Members(s, key, b[j]);
    assert b == front + [b[j]] + back;
    GroupsForConcat(s, key, front, back);
    GroupsForConcat(s, key, front + [b[j]], back);
    GroupsForConcat(s, key, front, [b[j]]);
    assert GroupsFor(s, key, [b[j]]) == [g];
    assert GroupsFor(s, key, b) == gf + [g] + gb;
    MultisetMiddle(gf, g, gb);
  }

  lemma MultisetRemove<T>(b: seq<T>, j: nat)
    requires j < |b|
    ensures multiset(b[..j] + b[j + 1..]) == multiset(b) - multiset{b[j]}
  {
    assert b == b[..j] + [b[j]] + b[j + 1..];
  }

  lemma MultisetMiddle<T>(a: seq<T>, x: T, b: seq<T>)
    ensures multiset(a + [x] + b) == multiset(a + b) + multiset{x}
  {
  }
}
