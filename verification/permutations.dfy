/** `np.argsort`: the indices of a key array arranged by ascending key, and
    the fact that the argsort of a permutation is its inverse. */
module Permutations {
  import opened Orders
  import opened Sorting

  /** A bijection of [0, n): n distinct values, all below n. */
  ghost predicate IsPermutation(p: seq<nat>, n: nat) {
    && |p| == n
    && Distinct(p)
    && (forall k :: 0 <= k < |p| ==> p[k] < n)
    && forall x: nat :: x in p <==> x < n
  }

  /** The key of index `i`; indices outside `keys` never occur in an argsort
      and only make the order total. */
  function KeyOf(keys: seq<int>, i: nat): int {
    if i < |keys| then keys[i] else 0
  }

  /** Index `a` sorts before index `b`: smaller key first, equal keys in index
      order. The callers here always have distinct keys, so the tie rule is
      never exercised and numpy's (unstable) default sort agrees with it. */
  predicate KeyLess(keys: seq<int>, a: nat, b: nat) {
    KeyOf(keys, a) < KeyOf(keys, b) || (KeyOf(keys, a) == KeyOf(keys, b) && a < b)
  }

  function KeyOrder(keys: seq<int>): (nat, nat) -> bool {
    (a: nat, b: nat) => KeyLess(keys, a, b)
  }

  lemma KeyOrderIsStrictTotal(keys: seq<int>)
    ensures StrictTotalOrder(KeyOrder(keys))
  {
  }

  /** `np.argsort(keys)`: the indices of `keys` in ascending key order,
      built by inserting the indices 0 .. n-1 one by one. */
  function ArgSort(keys: seq<int>): (p: seq<nat>)
    ensures IsPermutation(p, |keys|)
    ensures StrictlySorted(p, KeyOrder(keys))
    ensures forall j, k :: 0 <= j < k < |p| ==> keys[p[j]] <= keys[p[k]]
  {
    KeyOrderIsStrictTotal(keys);
    var p := Unique(Range(|keys|), KeyOrder(keys));
    SortedIsDistinct(p, KeyOrder(keys));
    assert forall k :: 0 <= k < |p| ==> p[k] in p;
    assert forall j, k :: 0 <= j < k < |p| ==> KeyLess(keys, p[j], p[k]);
    p
  }

  /** A strictly increasing sequence of n values in [0, n) is 0, 1, ..., n-1. */
  lemma {:induction false} IncreasingInRangeIsIdentity(s: seq<int>)
    requires forall i :: 0 <= i < |s| ==> 0 <= s[i] < |s|
    requires forall j, k :: 0 <= j < k < |s| ==> s[j] < s[k]
    ensures forall i :: 0 <= i < |s| ==> s[i] == i
  {
    forall i | 0 <= i < |s| ensures s[i] == i {
      GapBound(s, 0, i);
      GapBound(s, i, |s| - 1);
    }
  }

  lemma {:induction false} GapBound(s: seq<int>, i: nat, j: nat)
    requires i <= j < |s|
    requires forall a, b :: 0 <= a < b < |s| ==> s[a] < s[b]
    ensures s[j] - s[i] >= j - i
    decreases j - i
  {
    if i < j {
      GapBound(s, i, j - 1);
    }
  }

  /** `np.argsort(p)` of a permutation `p` is its inverse, on both sides. */
  lemma ArgSortInvertsPermutation(p: seq<nat>)
    requires IsPermutation(p, |p|)
    ensures var q := ArgSort(p);
      && (forall i :: 0 <= i < |p| ==> p[q[i]] == i)
      && (forall k :: 0 <= k < |p| ==> q[p[k]] == k)
  {
    var q := ArgSort(p);
    var s := seq(|p|, i requires 0 <= i < |p| => p[q[i]]);
    forall j, k | 0 <= j < k < |s| ensures s[j] < s[k] {
      assert KeyLess(p, q[j], q[k]) by {
        assert KeyOrder(p)(q[j], q[k]);
      }
    }
    IncreasingInRangeIsIdentity(s);
    forall k | 0 <= k < |p| ensures q[p[k]] == k {
      assert p[q[p[k]]] == p[k] by {
        assert s[p[k]] == p[k];
      }
    }
  }
}
