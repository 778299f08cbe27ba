/** Ordering by an integer key: Firestore's `orderBy(..., 'asc')` and the JavaScript
    `sort((a, b) => key(a) - key(b))` are both modelled by this insertion sort. */
module Sorting {

  ghost predicate SortedBy<T>(s: seq<T>, key: T -> int) {
    forall i, j :: 0 <= i < j < |s| ==> key(s[i]) <= key(s[j])
  }

  ghost predicate StrictlySortedBy<T>(s: seq<T>, key: T -> int) {
    forall i, j :: 0 <= i < j < |s| ==> key(s[i]) < key(s[j])
  }

  /** No two positions of `s` carry the same key. */
  ghost predicate DistinctKeys<T>(s: seq<T>, key: T -> int) {
    forall i, j :: 0 <= i < j < |s| ==> key(s[i]) != key(s[j])
  }

  /** Inserts `x` before the first element of `s` whose key is larger than `x`'s, so after every
      element with an equal key. */
  function InsertBy<T(==)>(s: seq<T>, x: T, key: T -> int): (r: seq<T>)
    ensures |r| == |s| + 1
    ensures multiset(r) == multiset(s) + multiset{x}
    decreases |s|
  {
    if s == [] || key(x) < key(s[0]) then
      [x] + s
    else
      assert s == [s[0]] + s[1..];
      [s[0]] + InsertBy(s[1..], x, key)
  }

  /** Sorts `s` by `key` by inserting its elements one at a time. */
  function SortBy<T(==)>(s: seq<T>, key: T -> int): (r: seq<T>)
    ensures |r| == |s|
    ensures multiset(r) == multiset(s)
    decreases |s|
  {
    if s == [] then []
    else
      assert s == s[..|s| - 1] + [s[|s| - 1]];
      InsertBy(SortBy(s[..|s| - 1], key), s[|s| - 1], key)
  }

  /** Every element of `s` has a key at least `k`: a bound that survives reordering. */
  lemma KeysBelowFromMultiset<T>(s: seq<T>, t: seq<T>, k: int, key: T -> int)
    requires multiset(s) <= multiset(t)
    requires forall j :: 0 <= j < |t| ==> k <= key(t[j])
    ensures forall i :: 0 <= i < |s| ==> k <= key(s[i])
  {
    forall i | 0 <= i < |s| ensures k <= key(s[i]) {
      assert s[i] in multiset(s);
      assert s[i] in t;
      var j :| 0 <= j < |t| && t[j] == s[i];
    }
  }

  /** Inserting into a sorted sequence keeps it sorted. */
  lemma {:induction false} InsertBySorted<T>(s: seq<T>, x: T, key: T -> int)
    requires SortedBy(s, key)
    ensures SortedBy(InsertBy(s, x, key), key)
    decreases |s|
  {
    if s == [] || key(x) < key(s[0]) {
      var r := [x] + s;
      assert InsertBy(s, x, key) == r;
      forall i, j | 0 <= i < j < |r| ensures key(r[i]) <= key(r[j]) {
        assert r[j] == s[j - 1];
        if i > 0 { assert r[i] == s[i - 1]; } else { assert key(s[0]) <= key(s[j - 1]); }
      }
    } else {
      var rest := InsertBy(s[1..], x, key);
      InsertBySorted(s[1..], x, key);
      var bound := s[1..] + [x];
      assert multiset(bound) == multiset(s[1..]) + multiset{x};
      forall j | 0 <= j < |bound| ensures key(s[0]) <= key(bound[j]) {
        if j < |s| - 1 { assert bound[j] == s[j + 1]; }
      }
      KeysBelowFromMultiset(rest, bound, key(s[0]), key);
      var r := [s[0]] + rest;
      assert InsertBy(s, x, key) == r;
      forall i, j | 0 <= i < j < |r| ensures key(r[i]) <= key(r[j]) {
        assert r[j] == rest[j - 1];
        if i > 0 { assert r[i] == rest[i - 1]; }
      }
    }
  }

  /** Inserting a key that differs from every key of a strictly sorted sequence keeps it strictly sorted. */
  lemma {:induction false} InsertByStrictlySorted<T>(s: seq<T>, x: T, key: T -> int)
    requires StrictlySortedBy(s, key)
    requires forall i :: 0 <= i < |s| ==> key(s[i]) != key(x)
    ensures StrictlySortedBy(InsertBy(s, x, key), key)
    decreases |s|
  {
    if s == [] || key(x) < key(s[0]) {
      var r := [x] + s;
      assert InsertBy(s, x, key) == r;
      forall i, j | 0 <= i < j < |r| ensures key(r[i]) < key(r[j]) {
        assert r[j] == s[j - 1];
        if i > 0 {
          assert r[i] == s[i - 1];
        } else {
          assert key(x) != key(s[0]);
          if j > 1 { assert key(s[0]) < key(s[j - 1]); }
        }
      }
    } else {
      var rest := InsertBy(s[1..], x, key);
      InsertByStrictlySorted(s[1..], x, key);
      assert key(s[0]) < key(x);
      var bound := s[1..] + [x];
      assert multiset(bound) == multiset(s[1..]) + multiset{x};
      forall j | 0 <= j < |bound| ensures key(s[0]) + 1 <= key(bound[j]) {
        if j < |s| - 1 { assert bound[j] == s[j + 1]; }
      }
      KeysBelowFromMultiset(rest, bound, key(s[0]) + 1, key);
      var r := [s[0]] + rest;
      assert InsertBy(s, x, key) == r;
      forall i, j | 0 <= i < j < |r| ensures key(r[i]) < key(r[j]) {
        assert r[j] == rest[j - 1];
        if i > 0 { assert r[i] == rest[i - 1]; }
      }
    }
  }

  /** `SortBy` yields a sorted permutation; distinct keys make the order strict. */
  lemma {:induction false} SortBySorted<T>(s: seq<T>, key: T -> int)
    ensures SortedBy(SortBy(s, key), key)
    ensures DistinctKeys(s, key) ==> StrictlySortedBy(SortBy(s, key), key)
    decreases |s|
  {
    if s != [] {
      var init, last := s[..|s| - 1], s[|s| - 1];
      var sorted := SortBy(init, key);
      SortBySorted(init, key);
      InsertBySorted(sorted, last, key);
      if DistinctKeys(s, key) {
        assert DistinctKeys(init, key) by {
          forall i, j | 0 <= i < j < |init| ensures key(init[i]) != key(init[j]) {
            assert init[i] == s[i] && init[j] == s[j];
          }
        }
        forall i | 0 <= i < |sorted| ensures key(sorted[i]) != key(last) {
          assert sorted[i] in multiset(sorted);
          assert sorted[i] in init;
          var k :| 0 <= k < |init| && init[k] == sorted[i];
          assert s[k] == sorted[i];
        }
        InsertByStrictlySorted(sorted, last, key);
      }
    }
  }
  /** `[x]` when `x` has key `k`, otherwise empty. */
  function IfKey<T>(x: T, k: int, key: T -> int): seq<T> {
    if key(x) == k then [x] else []
  }

  /** The elements of `s` whose key is `k`, in their order in `s`. */
  function WithKey<T>(s: seq<T>, k: int, key: T -> int): seq<T>
    decreases |s|
  {
    if s == [] then [] else IfKey(s[0], k, key) + WithKey(s[1..], k, key)
  }

  lemma {:induction false} WithKeyAbsent<T>(s: seq<T>, k: int, key: T -> int)
    requires forall i :: 0 <= i < |s| ==> key(s[i]) != k
    ensures WithKey(s, k, key) == []
    decreases |s|
  {
    if s != [] {
      WithKeyAbsent(s[1..], k, key);
    }
  }

  lemma AppendAssoc<T>(a: seq<T>, b: seq<T>, c: seq<T>)
    ensures a + (b + c) == (a + b) + c
  {
  }

  /** `WithKey` read from the back: the last element comes last. */
  lemma {:induction false} WithKeySnoc<T>(s: seq<T>, k: int, key: T -> int)
    requires s != []
    ensures WithKey(s, k, key) == WithKey(s[..|s| - 1], k, key) + IfKey(s[|s| - 1], k, key)
    decreases |s|
  {
    var init := s[..|s| - 1];
    if |s| == 1 {
      assert s[1..] == [] && init == [];
    } else {
      var tail := s[1..];
      WithKeySnoc(tail, k, key);
      assert tail[..|tail| - 1] == init[1..] && tail[|tail| - 1] == s[|s| - 1];
      assert init[0] == s[0];
      calc {
        WithKey(s, k, key);
        IfKey(s[0], k, key) + WithKey(tail, k, key);
        IfKey(s[0], k, key) + (WithKey(init[1..], k, key) + IfKey(s[|s| - 1], k, key));
        { AppendAssoc(IfKey(s[0], k, key), WithKey(init[1..], k, key), IfKey(s[|s| - 1], k, key)); }
        (IfKey(s[0], k, key) + WithKey(init[1..], k, key)) + IfKey(s[|s| - 1], k, key);
        WithKey(init, k, key) + IfKey(s[|s| - 1], k, key);
      }
    }
  }

  /** Inserting into a sorted sequence places `x` after every element with the same key. */
  lemma {:induction false} InsertByStable<T>(s: seq<T>, x: T, key: T -> int, k: int)
    requires SortedBy(s, key)
    ensures WithKey(InsertBy(s, x, key), k, key) == WithKey(s, k, key) + IfKey(x, k, key)
    decreases |s|
  {
    if s == [] || key(x) < key(s[0]) {
      var r := [x] + s;
      assert InsertBy(s, x, key) == r;
      assert r[0] == x && r[1..] == s;
      assert WithKey(r, k, key) == IfKey(x, k, key) + WithKey(s, k, key);
      if key(x) == k {
        WithKeyAbsent(s, k, key);
        assert WithKey(r, k, key) == [x] + [];
      } else {
        assert WithKey(r, k, key) == [] + WithKey(s, k, key);
      }
    } else {
      var rest := InsertBy(s[1..], x, key);
      assert SortedBy(s[1..], key) by {
        forall i, j | 0 <= i < j < |s| - 1 ensures key(s[1..][i]) <= key(s[1..][j]) {
          assert s[1..][i] == s[i + 1] && s[1..][j] == s[j + 1];
        }
      }
      InsertByStable(s[1..], x, key, k);
      var r := [s[0]] + rest;
      assert InsertBy(s, x, key) == r;
      assert r[0] == s[0] && r[1..] == rest;
      calc {
        WithKey(r, k, key);
        IfKey(s[0], k, key) + WithKey(rest, k, key);
        IfKey(s[0], k, key) + (WithKey(s[1..], k, key) + IfKey(x, k, key));
        { AppendAssoc(IfKey(s[0], k, key), WithKey(s[1..], k, key), IfKey(x, k, key)); }
        (IfKey(s[0], k, key) + WithKey(s[1..], k, key)) + IfKey(x, k, key);
      }
    }
  }

  /** `SortBy` is stable: the elements with any one key keep their input order. */
  lemma {:induction false} SortByStable<T>(s: seq<T>, key: T -> int, k: int)
    ensures WithKey(SortBy(s, key), k, key) == WithKey(s, k, key)
    decreases |s|
  {
    if s != [] {
      var init, last := s[..|s| - 1], s[|s| - 1];
      var sorted := SortBy(init, key);
      assert SortBy(s, key) == InsertBy(sorted, last, key);
      assert SortedBy(sorted, key) by {
        SortBySorted(init, key);
      }
      InsertByStable(sorted, last, key, k);
      SortByStable(init, key, k);
      WithKeySnoc(s, k, key);
    }
  }
}
