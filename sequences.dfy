/**
 * The array operations the stores are built from: `find`, `findIndex` and
 * `filter` with a key comparison, over the store's list of records. A record's
 * key is its `id`, passed in as a function so that tasks and users share one
 * definition.
 */
module Sequences {
  import opened Wrappers

  /** `a` is `b` with some elements dropped and the rest kept in their order. */
  predicate IsSubsequence<T(==)>(a: seq<T>, b: seq<T>)
    decreases |b|
  {
    a == [] ||
    (b != [] &&
     ((a[0] == b[0] && IsSubsequence(a[1..], b[1..])) || IsSubsequence(a, b[1..])))
  }

  /** No object occurs twice. */
  predicate Distinct<T(==)>(s: seq<T>) {
    forall i, j :: 0 <= i < j < |s| ==> s[i] != s[j]
  }

  /** A list of distinct objects that holds `x` and nothing else is exactly `[x]`. */
  lemma DistinctOnly<T>(s: seq<T>, x: T)
    requires Distinct(s) && x in s
    requires forall i :: 0 <= i < |s| ==> s[i] == x
    ensures s == [x]
  {
    var k :| 0 <= k < |s| && s[k] == x;
    assert forall j :: 0 <= j < |s| && s[j] == x ==> j == k;
    assert s[0] == x && s[|s| - 1] == x;
  }

  /** No two elements share a key. */
  predicate KeysDistinct<T>(s: seq<T>, key: T -> int) {
    forall i, j :: 0 <= i < j < |s| ==> key(s[i]) != key(s[j])
  }

  /** Some element has key `k`. */
  predicate HasKey<T>(s: seq<T>, key: T -> int, k: int) {
    exists i :: 0 <= i < |s| && key(s[i]) == k
  }

  /** `Array.prototype.findIndex(x => key(x) === k)`: the first index whose key is `k`, or -1. */
  function FirstIndex<T>(s: seq<T>, key: T -> int, k: int): (r: int)
    ensures -1 <= r < |s|
    ensures r == -1 <==> !HasKey(s, key, k)
    ensures 0 <= r ==> key(s[r]) == k && forall i :: 0 <= i < r ==> key(s[i]) != k
  {
    if s == [] then -1
    else if key(s[0]) == k then 0
    else
      var r := FirstIndex(s[1..], key, k);
      assert forall i :: 1 <= i < |s| ==> s[1..][i - 1] == s[i];
      if r == -1 then -1 else r + 1
  }

  /** `Array.prototype.find(x => key(x) === k)`: the first element whose key is `k`. */
  function Find<T>(s: seq<T>, key: T -> int, k: int): (r: Option<T>)
    ensures r.None? <==> !HasKey(s, key, k)
    ensures r.Some? ==> exists i :: 0 <= i < |s| && s[i] == r.value && key(s[i]) == k &&
                                    forall j :: 0 <= j < i ==> key(s[j]) != k
  {
    var i := FirstIndex(s, key, k);
    if i == -1 then None else Some(s[i])
  }

  /** `Array.prototype.filter(x => key(x) !== k)`: every element whose key is `k` dropped. */
  function RemoveKey<T(==)>(s: seq<T>, key: T -> int, k: int): (r: seq<T>)
    ensures forall i :: 0 <= i < |r| ==> r[i] in s && key(r[i]) != k
    ensures forall i :: 0 <= i < |s| && key(s[i]) != k ==> s[i] in r
    ensures IsSubsequence(r, s)
    ensures |r| <= |s|
    ensures |r| == |s| <==> !HasKey(s, key, k)
  {
    if s == [] then []
    else
      var rest := RemoveKey(s[1..], key, k);
      assert forall i :: 1 <= i < |s| ==> s[1..][i - 1] == s[i];
      if key(s[0]) == k then rest
      else
        assert ([s[0]] + rest)[1..] == rest;
        [s[0]] + rest
  }

  /**
   * Removal keeps every copy of an element whose key is not `k` and no copy of
   * one whose key is: the multiplicities are those of `filter`.
   */
  lemma {:induction false} RemoveKeyCounts<T>(s: seq<T>, key: T -> int, k: int)
    ensures forall x :: multiset(RemoveKey(s, key, k))[x] == if key(x) == k then 0 else multiset(s)[x]
  {
    if s != [] {
      RemoveKeyCounts(s[1..], key, k);
      assert s == [s[0]] + s[1..];
      assert multiset(s) == multiset([s[0]]) + multiset(s[1..]);
      if key(s[0]) != k {
        var rest := RemoveKey(s[1..], key, k);
        assert multiset([s[0]] + rest) == multiset([s[0]]) + multiset(rest);
      }
    }
  }

  /** Nothing is dropped when no element has the key. */
  lemma {:induction false} RemoveKeyAbsent<T>(s: seq<T>, key: T -> int, k: int)
    requires !HasKey(s, key, k)
    ensures RemoveKey(s, key, k) == s
  {
    if s != [] {
      assert !HasKey(s[1..], key, k) by {
        assert forall i :: 1 <= i < |s| ==> s[1..][i - 1] == s[i];
      }
      RemoveKeyAbsent(s[1..], key, k);
    }
  }

  /** Putting an object that is not yet in a distinct list in front keeps it distinct. */
  lemma DistinctCons<T>(x: T, s: seq<T>)
    requires Distinct(s) && x !in s
    ensures Distinct([x] + s)
  {
    var r := [x] + s;
    forall i, j | 0 <= i < j < |r| ensures r[i] != r[j] {
      assert r[j] == s[j - 1];
      if i > 0 {
        assert r[i] == s[i - 1];
      }
    }
  }

  /** Putting an element whose key no element has in front keeps the keys distinct. */
  lemma KeysDistinctCons<T>(x: T, s: seq<T>, key: T -> int)
    requires KeysDistinct(s, key) && forall i :: 0 <= i < |s| ==> key(s[i]) != key(x)
    ensures KeysDistinct([x] + s, key)
  {
    var r := [x] + s;
    forall i, j | 0 <= i < j < |r| ensures key(r[i]) != key(r[j]) {
      assert r[j] == s[j - 1];
      if i > 0 {
        assert r[i] == s[i - 1];
      }
    }
  }

  /** Removal keeps the objects of a list pairwise distinct. */
  lemma {:induction false} RemoveKeyKeepsDistinct<T>(s: seq<T>, key: T -> int, k: int)
    requires Distinct(s)
    ensures Distinct(RemoveKey(s, key, k))
  {
    if s != [] {
      assert forall i :: 1 <= i < |s| ==> s[1..][i - 1] == s[i];
      assert Distinct(s[1..]);
      RemoveKeyKeepsDistinct(s[1..], key, k);
      if key(s[0]) != k {
        assert s[0] !in s[1..];
        DistinctCons(s[0], RemoveKey(s[1..], key, k));
      }
    }
  }

  /** Removal keeps the keys of a list pairwise distinct. */
  lemma {:induction false} RemoveKeyKeepsKeysDistinct<T>(s: seq<T>, key: T -> int, k: int)
    requires KeysDistinct(s, key)
    ensures KeysDistinct(RemoveKey(s, key, k), key)
  {
    if s != [] {
      assert forall i :: 1 <= i < |s| ==> s[1..][i - 1] == s[i];
      assert KeysDistinct(s[1..], key);
      RemoveKeyKeepsKeysDistinct(s[1..], key, k);
      if key(s[0]) != k {
        var rest := RemoveKey(s[1..], key, k);
        forall j | 0 <= j < |rest| ensures key(rest[j]) != key(s[0]) {
          var m :| 0 <= m < |s[1..]| && s[1..][m] == rest[j];
          assert s[m + 1] == rest[j];
        }
        KeysDistinctCons(s[0], rest, key);
      }
    }
  }

  /** With distinct keys, removal by key takes out at most one element. */
  lemma {:induction false} RemoveKeyAtMostOne<T>(s: seq<T>, key: T -> int, k: int)
    requires KeysDistinct(s, key)
    ensures |RemoveKey(s, key, k)| >= |s| - 1
    ensures HasKey(s, key, k) ==> |RemoveKey(s, key, k)| == |s| - 1
  {
    if s != [] {
      assert forall i :: 1 <= i < |s| ==> s[1..][i - 1] == s[i];
      if key(s[0]) == k {
        assert !HasKey(s[1..], key, k);
        RemoveKeyAbsent(s[1..], key, k);
      } else {
        RemoveKeyAtMostOne(s[1..], key, k);
      }
    }
  }
}
