/** Sorted, duplicate-free sequences: the model of `np.unique`. */
module Sorting {
  import opened Orders

  ghost predicate StrictlySorted<T>(s: seq<T>, less: (T, T) -> bool) {
    forall j, k :: 0 <= j < k < |s| ==> less(s[j], s[k])
  }

  predicate Distinct<T(==)>(s: seq<T>) {
    forall j, k :: 0 <= j < k < |s| ==> s[j] != s[k]
  }

  lemma SortedIsDistinct<T(!new)>(s: seq<T>, less: (T, T) -> bool)
    requires StrictTotalOrder(less)
    requires StrictlySorted(s, less)
    ensures Distinct(s)
  {
  }

  lemma SortedConcat<T>(a: seq<T>, b: seq<T>, less: (T, T) -> bool)
    requires StrictlySorted(a, less) && StrictlySorted(b, less)
    requires forall x, y :: x in a && y in b ==> less(x, y)
    ensures StrictlySorted(a + b, less)
  {
    forall j, k | 0 <= j < k < |a + b| ensures less((a + b)[j], (a + b)[k]) {
      if j < |a| && |a| <= k {
        assert (a + b)[j] in a && (a + b)[k] in b;
      }
    }
  }

  /** Inserts `x` into the sorted sequence `s`, unless it is already there. */
  function Insert<T(==, !new)>(x: T, s: seq<T>, less: (T, T) -> bool): (r: seq<T>)
    requires StrictTotalOrder(less)
    requires StrictlySorted(s, less)
    ensures StrictlySorted(r, less)
    ensures forall y :: y in r <==> y == x || y in s
    ensures |r| == if x in s then |s| else |s| + 1
  {
    if |s| == 0 then [x]
    else if x == s[0] then s
    else if less(x, s[0]) then [x] + s
    else
      var tail := Insert(x, s[1..], less);
      assert forall k :: 0 <= k < |tail| ==> less(s[0], tail[k]) by {
        forall k | 0 <= k < |tail| ensures less(s[0], tail[k]) {
          assert tail[k] in tail;
          if tail[k] != x {
            var i :| 0 <= i < |s[1..]| && s[1..][i] == tail[k];
            assert s[i + 1] == tail[k];
          }
        }
      }
      [s[0]] + tail
  }

  /** `np.unique`: the distinct values of `xs`, in ascending order. */
  function Unique<T(==, !new)>(xs: seq<T>, less: (T, T) -> bool): (u: seq<T>)
    requires StrictTotalOrder(less)
    ensures StrictlySorted(u, less)
    ensures forall y :: y in u <==> y in xs
    ensures Distinct(xs) ==> |u| == |xs|
  {
    if |xs| == 0 then []
    else Insert(xs[0], Unique(xs[1..], less), less)
  }

  /** Two strictly sorted sequences with the same values are the same
      sequence: the ascending arrangement of a set of values is unique. */
  lemma {:induction false} SortedIsUnique<T(!new)>(p: seq<T>, q: seq<T>, less: (T, T) -> bool)
    requires StrictTotalOrder(less)
    requires StrictlySorted(p, less) && StrictlySorted(q, less)
    requires forall y :: y in p <==> y in q
    ensures p == q
  {
    assert |q| > 0 ==> q[0] in p;
    if |p| > 0 {
      assert p[0] in q;
      assert p[0] == q[0] by {
        var j :| 0 <= j < |q| && q[j] == p[0];
        assert q[0] in p;
        var k :| 0 <= k < |p| && p[k] == q[0];
      }
      forall y ensures y in p[1..] <==> y in q[1..] {
        if y in p[1..] {
          var k :| 1 <= k < |p| && p[k] == y;
          assert y in q;
        }
        if y in q[1..] {
          var k :| 1 <= k < |q| && q[k] == y;
          assert y in p;
        }
      }
      SortedIsUnique(p[1..], q[1..], less);
      assert p == [p[0]] + p[1..] && q == [q[0]] + q[1..];
    }
  }

  /** The position of `e` in `u`; `np.unique(..., return_inverse=True)`
      reports this position for every input value. */
  function IndexOf<T(==)>(u: seq<T>, e: T): (j: nat)
    requires e in u
    ensures j < |u| && u[j] == e
    ensures Distinct(u) ==> forall k :: 0 <= k < |u| && u[k] == e ==> k == j
  {
    if u[0] == e then 0 else 1 + IndexOf(u[1..], e)
  }

  /** The sequence 0, 1, ..., n - 1 (`np.arange(n)`). */
  function Range(n: nat): (r: seq<nat>)
    ensures |r| == n
    ensures forall i :: 0 <= i < n ==> r[i] == i
    ensures forall x: nat :: x in r <==> x < n
    ensures Distinct(r)
  {
    if n == 0 then [] else Range(n - 1) + [n - 1]
  }
}
