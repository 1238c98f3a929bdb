/** The two halves of the module agree: the species groups the encoder
    builds, read one after another, list the atoms in exactly the order
    `id_ase_to_spx` computes. */
module Consistency {
  import opened Orders
  import opened Sorting
  import opened Permutations
  import opened Atoms
  import opened Encoder
  import opened Ordering

  /** The atoms of all groups, group after group (the order in which the
      simulation input lists them). */
  function Flatten(ss: seq<Species>): seq<Atom> {
    if |ss| == 0 then [] else ss[0].atoms + Flatten(ss[1..])
  }

  /** The number of atom groups over all species groups. */
  function AtomCount(ss: seq<Species>): nat {
    if |ss| == 0 then 0 else |ss[0].atoms| + AtomCount(ss[1..])
  }

  lemma {:induction false} AtomCountIsFlattenLength(ss: seq<Species>)
    ensures AtomCount(ss) == |Flatten(ss)|
  {
    if |ss| > 0 {
      AtomCountIsFlattenLength(ss[1..]);
    }
  }

  /** The ASE indices of the atoms of the elements `us`, element after element. */
  function Grouped(elements: seq<string>, us: seq<string>): seq<nat> {
    if |us| == 0 then [] else Members(elements, us[0]) + Grouped(elements, us[1..])
  }

  lemma ListsAtomsConcat(s: Structure, a1: seq<Atom>, i1: seq<nat>, a2: seq<Atom>, i2: seq<nat>)
    requires Indexable(s)
    requires ListsAtoms(s, a1, i1) && ListsAtoms(s, a2, i2)
    ensures ListsAtoms(s, a1 + a2, i1 + i2)
  {
    forall k | 0 <= k < |i1 + i2|
      ensures (i1 + i2)[k] < |s.elements| && (a1 + a2)[k] == AtomOf(s, (i1 + i2)[k])
    {
      if k >= |i1| {
        assert (a1 + a2)[k] == a2[k - |i1|] && (i1 + i2)[k] == i2[k - |i1|];
      }
    }
  }

  lemma {:induction false} FlattenFollowsGrouped(s: Structure, ss: seq<Species>, us: seq<string>)
    requires Indexable(s)
    requires |ss| == |us|
    requires forall j :: 0 <= j < |ss| ==> ss[j].element == us[j] && GroupsItsElement(s, ss[j])
    ensures ListsAtoms(s, Flatten(ss), Grouped(s.elements, us))
  {
    if |ss| > 0 {
      FlattenFollowsGrouped(s, ss[1..], us[1..]);
      assert GroupsItsElement(s, ss[0]);
      ListsAtomsConcat(s, ss[0].atoms, Members(s.elements, us[0]), Flatten(ss[1..]), Grouped(s.elements, us[1..]));
    }
  }

  /** The atoms of the c-th distinct element are the atoms of class c. */
  lemma MembersOfClass(elements: seq<string>, c: nat)
    requires c < |DistinctElements(elements)|
    ensures forall x: nat :: x in Members(elements, DistinctElements(elements)[c]) <==>
      x < |elements| && Classes(elements)[x] == c
  {
    var u := DistinctElements(elements);
    forall x: nat | x < |elements|
      ensures x in Members(elements, u[c]) <==> Classes(elements)[x] == c
    {
      assert u[Classes(elements)[x]] == elements[x];
    }
  }

  /** A block of one class, followed by the blocks of later classes, stays
      in ascending key order. */
  lemma BlockThenLater(elements: seq<string>, c: nat, a: seq<nat>, b: seq<nat>)
    requires forall x: nat :: x in a <==> x < |elements| && Classes(elements)[x] == c
    requires forall j, k :: 0 <= j < k < |a| ==> a[j] < a[k]
    requires forall x: nat :: x in b <==> x < |elements| && Classes(elements)[x] >= c + 1
    requires StrictlySorted(b, KeyOrder(SortKeys(elements)))
    ensures StrictlySorted(a + b, KeyOrder(SortKeys(elements)))
  {
    var cls := Classes(elements);
    var less := KeyOrder(SortKeys(elements));
    forall j, k | 0 <= j < k < |a| ensures less(a[j], a[k]) {
      assert a[j] in a && a[k] in a;
      KeyOrderIsClassOrder(elements, a[j], a[k]);
    }
    forall x, y | x in a && y in b ensures less(x, y) {
      KeyOrderIsClassOrder(elements, x, y);
    }
    SortedConcat(a, b, less);
  }

  /** The indices of the elements from class c on form the atoms of those
      classes, in ascending sort-key order. */
  lemma {:induction false} GroupedIsSorted(elements: seq<string>, c: nat)
    requires c <= |DistinctElements(elements)|
    ensures var g := Grouped(elements, DistinctElements(elements)[c..]);
      && (forall x: nat :: x in g <==> x < |elements| && Classes(elements)[x] >= c)
      && StrictlySorted(g, KeyOrder(SortKeys(elements)))
    decreases |DistinctElements(elements)| - c
  {
    var u := DistinctElements(elements);
    if c == |u| {
      assert u[c..] == [];
    } else {
      assert u[c..][1..] == u[c + 1..];
      GroupedIsSorted(elements, c + 1);
      var a := Members(elements, u[c]);
      var b := Grouped(elements, u[c + 1..]);
      assert Grouped(elements, u[c..]) == a + b;
      MembersOfClass(elements, c);
      BlockThenLater(elements, c, a, b);
    }
  }

  /** The species groups' elements are the distinct elements, in order. */
  lemma SpeciesElements(s: Structure)
    requires Indexable(s)
    ensures var r := SpeciesList(s);
      var u := DistinctElements(s.elements);
      |r| == |u| && forall j :: 0 <= j < |r| ==> r[j].element == u[j]
  {
    assert SpeciesList(s) == GroupsOf(s, DistinctElements(s.elements));
  }

  /** The element-by-element listing of atom indices is the oracle's order. */
  lemma GroupedIsOracleOrder(elements: seq<string>)
    ensures Grouped(elements, DistinctElements(elements)) == IdAseToSpx(elements)
  {
    var u := DistinctElements(elements);
    var keys := SortKeys(elements);
    var p := IdAseToSpx(elements);
    GroupedIsSorted(elements, 0);
    assert u[0..] == u;
    assert StrictlySorted(p, KeyOrder(keys));
    KeyOrderIsStrictTotal(keys);
    SortedIsUnique(Grouped(elements, u), p, KeyOrder(keys));
  }

  /** Reading the species groups one after another gives the atoms in the
      order `id_ase_to_spx` reports: group position k holds ASE atom p[k]. */
  lemma SpeciesFollowOracleOrder(s: Structure)
    requires Indexable(s)
    ensures var atoms := Flatten(SpeciesList(s));
      var p := IdAseToSpx(s.elements);
      |atoms| == |p| && forall k :: 0 <= k < |atoms| ==> atoms[k] == AtomOf(s, p[k])
  {
    var r := SpeciesList(s);
    var u := DistinctElements(s.elements);
    SpeciesElements(s);
    FlattenFollowsGrouped(s, r, u);
    GroupedIsOracleOrder(s.elements);
    assert ListsAtoms(s, Flatten(r), IdAseToSpx(s.elements));
  }

  /** The group sizes add up to the number of atoms. */
  lemma SpeciesCountAtoms(s: Structure)
    requires Indexable(s)
    ensures AtomCount(SpeciesList(s)) == |s.elements|
  {
    SpeciesFollowOracleOrder(s);
    AtomCountIsFlattenLength(SpeciesList(s));
  }

  /** Group `sp` holds the atom group of atom `i`, at the position of `i`
      among the atoms of the group's element. */
  ghost predicate HoldsAtom(s: Structure, sp: Species, i: nat)
    requires Indexable(s) && i < |s.elements|
  {
    exists k :: 0 <= k < |sp.atoms| && k < |Members(s.elements, sp.element)| &&
      Members(s.elements, sp.element)[k] == i && sp.atoms[k] == AtomOf(s, i)
  }

  /** A group that lists its element's atoms lists every atom of that
      element, at the atom's position among the element's members. */
  lemma GroupListsAtom(s: Structure, sp: Species, i: nat)
    requires Indexable(s) && i < |s.elements| && s.elements[i] == sp.element
    requires GroupsItsElement(s, sp)
    ensures HoldsAtom(s, sp, i)
  {
    var m := Members(s.elements, sp.element);
    assert i in m;
    var k :| 0 <= k < |m| && m[k] == i;
    assert sp.atoms[k] == AtomOf(s, i);
  }

  /** Groups in strictly ascending element order, each listing its
      element's atoms and covering every element present, hold each atom in
      exactly one group. */
  lemma PartitionOfGroups(s: Structure, r: seq<Species>, i: nat)
    requires Indexable(s) && i < |s.elements|
    requires forall j, k :: 0 <= j < k < |r| ==> LexLess(r[j].element, r[k].element)
    requires s.elements[i] in s.elements ==> exists j :: 0 <= j < |r| && r[j].element == s.elements[i]
    requires forall j :: 0 <= j < |r| ==> GroupsItsElement(s, r[j])
    ensures exists j :: 0 <= j < |r| && r[j].element == s.elements[i]
    ensures forall j :: 0 <= j < |r| && r[j].element == s.elements[i] ==> HoldsAtom(s, r[j], i)
    ensures forall j, k :: 0 <= j < |r| && 0 <= k < |r| && r[j].element == s.elements[i] && r[k].element == s.elements[i] ==> j == k
  {
    var e := s.elements[i];
    assert e in s.elements;
    forall j | 0 <= j < |r| && r[j].element == e
      ensures HoldsAtom(s, r[j], i)
    {
      GroupListsAtom(s, r[j], i);
    }
    LexIrreflexive(e);
  }

  /** Every atom's element has exactly one group, and that group lists it. */
  lemma SpeciesPartitionAtoms(s: Structure, i: nat)
    requires Indexable(s) && i < |s.elements|
    ensures var r := SpeciesList(s);
      && (exists j :: 0 <= j < |r| && r[j].element == s.elements[i])
      && (forall j :: 0 <= j < |r| && r[j].element == s.elements[i] ==> HoldsAtom(s, r[j], i))
      && (forall j, k :: 0 <= j < |r| && 0 <= k < |r| && r[j].element == s.elements[i] && r[k].element == s.elements[i] ==> j == k)
  {
    PartitionOfGroups(s, SpeciesList(s), i);
  }
}
