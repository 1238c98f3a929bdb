/** The ordering oracle: the permutation between ASE's atom order and the
    grouped (SPHInX) order, and its inverse. */
module Ordering {
  import opened Orders
  import opened Sorting
  import opened Permutations
  import opened Atoms

  /** `np.unique(symbols, return_inverse=True)[1]`: the rank of each atom's
      element among the sorted distinct elements. */
  function Classes(elements: seq<string>): (c: seq<nat>)
    ensures |c| == |elements|
    ensures forall i :: 0 <= i < |c| ==>
      c[i] < |DistinctElements(elements)| && DistinctElements(elements)[c[i]] == elements[i]
  {
    var u := DistinctElements(elements);
    seq(|elements|, i requires 0 <= i < |elements| => IndexOf(u, elements[i]))
  }

  /** Atoms of the same element have the same class, and only they do. */
  lemma SameClassIffSameElement(elements: seq<string>, a: nat, b: nat)
    requires a < |elements| && b < |elements|
    ensures Classes(elements)[a] == Classes(elements)[b] <==> elements[a] == elements[b]
  {
  }

  /** The keys `c[i] * n + i`: with every index below n they compare as the
      pairs (c[i], i) do. */
  function ScaledKeys(c: seq<nat>, n: nat): (keys: seq<int>)
    requires |c| <= n
    ensures |keys| == |c|
    ensures forall x, y :: 0 <= x < |keys| && 0 <= y < |keys| ==>
      (keys[x] < keys[y] <==> c[x] < c[y] || (c[x] == c[y] && x < y))
  {
    var keys := seq(|c|, i requires 0 <= i < |c| => c[i] * n + i);
    forall x, y | 0 <= x < |keys| && 0 <= y < |keys|
      ensures keys[x] < keys[y] <==> c[x] < c[y] || (c[x] == c[y] && x < y)
    {
      KeyComparesAsPair(c[x], c[y], x, y, n);
    }
    keys
  }

  /** The sort key of atom i: `class + i / N` scaled by N, which keeps the
      order of the floating-point ramp in `sphinx_parser/ase.py` while
      staying exact. Keys compare as (class, index) pairs do. */
  function SortKeys(elements: seq<string>): (keys: seq<int>)
    ensures |keys| == |elements|
    ensures var c := Classes(elements);
      forall x, y :: 0 <= x < |keys| && 0 <= y < |keys| ==>
        (keys[x] < keys[y] <==> c[x] < c[y] || (c[x] == c[y] && x < y))
  {
    ScaledKeys(Classes(elements), |elements|)
  }

  lemma {:induction false} MulMonotone(x: nat, y: nat, n: nat)
    requires x <= y
    ensures x * n <= y * n
    decreases y - x
  {
    if x < y {
      MulMonotone(x, y - 1, n);
      assert (y - 1) * n + n == y * n;
    }
  }

  /** With 0 <= a < n, the key `ca * n + a` lies below every key of a later
      class: the ramp never reaches the next class. */
  lemma KeyBelowNextClass(ca: nat, cb: nat, a: nat, b: nat, n: nat)
    requires ca < cb && a < n
    ensures ca * n + a < cb * n + b
  {
    MulMonotone(ca + 1, cb, n);
    assert (ca + 1) * n == ca * n + n;
  }

  /** Keys `cx * n + x` and `cy * n + y` with indices below n compare as the
      pairs (cx, x) and (cy, y) do. */
  lemma KeyComparesAsPair(cx: nat, cy: nat, x: nat, y: nat, n: nat)
    requires x < n && y < n
    ensures cx * n + x < cy * n + y <==> cx < cy || (cx == cy && x < y)
  {
    if cx < cy {
      KeyBelowNextClass(cx, cy, x, y, n);
    } else if cy < cx {
      KeyBelowNextClass(cy, cx, y, x, n);
    }
  }

  /** Atom x sorts before atom y exactly when its class is smaller, or the
      classes agree and x comes first in ASE order. */
  lemma KeyOrderIsClassOrder(elements: seq<string>, x: nat, y: nat)
    requires x < |elements| && y < |elements|
    ensures var c := Classes(elements);
      KeyLess(SortKeys(elements), x, y) <==> c[x] < c[y] || (c[x] == c[y] && x < y)
  {
    var c := Classes(elements);
    var n := |elements|;
    if c[x] < c[y] {
      KeyBelowNextClass(c[x], c[y], x, y, n);
    } else if c[y] < c[x] {
      KeyBelowNextClass(c[y], c[x], y, x, n);
    }
  }

  /** `id_ase_to_spx`: position k of the grouped order holds the ASE index of
      the atom placed there; atoms are grouped by element class and keep
      their original order inside a class. */
  function IdAseToSpx(elements: seq<string>): (p: seq<nat>)
    ensures IsPermutation(p, |elements|)
    ensures |elements| == 1 ==> p == [0]
    ensures forall j, k :: 0 <= j < k < |p| ==>
      var c := Classes(elements);
      c[p[j]] < c[p[k]] || (c[p[j]] == c[p[k]] && p[j] < p[k])
  {
    var p := ArgSort(SortKeys(elements));
    ArgSortGroupsByClass(elements);
    assert |elements| == 1 ==> p[0] in p;
    p
  }

  lemma ArgSortGroupsByClass(elements: seq<string>)
    ensures var p := ArgSort(SortKeys(elements));
      var c := Classes(elements);
      forall j, k :: 0 <= j < k < |p| ==> c[p[j]] < c[p[k]] || (c[p[j]] == c[p[k]] && p[j] < p[k])
  {
    var keys := SortKeys(elements);
    var p := ArgSort(keys);
    forall j, k | 0 <= j < k < |p|
      ensures var c := Classes(elements); c[p[j]] < c[p[k]] || (c[p[j]] == c[p[k]] && p[j] < p[k])
    {
      assert KeyOrder(keys)(p[j], p[k]);
      KeyOrderIsClassOrder(elements, p[j], p[k]);
    }
  }

  /** `id_spx_to_ase`: the argsort of `id_ase_to_spx`, which is its inverse. */
  function IdSpxToAse(elements: seq<string>): (q: seq<nat>)
    ensures IsPermutation(q, |elements|)
    ensures var p := IdAseToSpx(elements);
      && (forall k :: 0 <= k < |p| ==> q[p[k]] == k)
      && (forall i :: 0 <= i < |q| ==> p[q[i]] == i)
  {
    var p := IdAseToSpx(elements);
    ArgSortInvertsPermutation(p);
    ArgSort(p)
  }
}
