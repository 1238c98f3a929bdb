/** A worked structure: two iron atoms with moment 1.0 and one oxygen atom
    with moment 0.0 between them, in the ASE order Fe, O, Fe. Positions,
    cell and movable flags are left arbitrary. */
module Scenarios {
  import opened Wrappers
  import opened Orders
  import opened Sorting
  import opened Permutations
  import opened Atoms
  import opened Encoder
  import opened Ordering
  import opened Consistency

  predicate IsFeOFe(s: Structure) {
    && s.elements == ["Fe", "O", "Fe"]
    && s.spins == [1.0, 0.0, 1.0]
    && |s.positions| == 3
    && |s.movable| == 3
  }

  /** An increasing index sequence is determined by the indices it holds. */
  lemma IncreasingIsDetermined(xs: seq<nat>, ys: seq<nat>)
    requires forall j, k :: 0 <= j < k < |xs| ==> xs[j] < xs[k]
    requires forall j, k :: 0 <= j < k < |ys| ==> ys[j] < ys[k]
    requires forall x :: x in xs <==> x in ys
    ensures xs == ys
  {
    NatLessIsStrictTotal();
    SortedIsUnique(xs, ys, NatLess);
  }

  lemma FeOFeElements(el: seq<string>)
    requires el == ["Fe", "O", "Fe"]
    ensures DistinctElements(el) == ["Fe", "O"]
  {
    var u := DistinctElements(el);
    assert LexLess("Fe", "O");
    LexLessIsStrictTotal();
    SortedIsUnique(u, ["Fe", "O"], LexLess);
  }

  lemma FeOFeKeys(el: seq<string>)
    requires el == ["Fe", "O", "Fe"]
    ensures Classes(el) == [0, 1, 0]
    ensures SortKeys(el) == [0, 4, 2]
  {
    var c := Classes(el);
    FeOFeElements(el);
    assert c[0] == 0 && c[1] == 1 && c[2] == 0;
  }

  /** The grouped order lists atom 0, then atom 2 (the irons), then atom 1;
      the inverse maps back the same way. */
  lemma FeOFeOrder(el: seq<string>)
    requires el == ["Fe", "O", "Fe"]
    ensures IdAseToSpx(el) == [0, 2, 1]
  {
    var p := IdAseToSpx(el);
    var keys := SortKeys(el);
    FeOFeKeys(el);
    var expected: seq<nat> := [0, 2, 1];
    assert StrictlySorted(expected, KeyOrder(keys)) by {
      assert KeyOrder(keys)(0, 2) && KeyOrder(keys)(2, 1) && KeyOrder(keys)(0, 1);
    }
    assert forall x: nat :: x in p <==> x in expected;
    KeyOrderIsStrictTotal(keys);
    SortedIsUnique(p, expected, KeyOrder(keys));
  }

  lemma FeOFeInverse(el: seq<string>)
    requires el == ["Fe", "O", "Fe"]
    ensures IdSpxToAse(el) == [0, 2, 1]
  {
    FeOFeOrder(el);
    var q := IdSpxToAse(el);
    assert q[0] == 0 && q[2] == 1 && q[1] == 2;
  }

  lemma FeOFeMembers(el: seq<string>)
    requires el == ["Fe", "O", "Fe"]
    ensures Members(el, "Fe") == [0, 2]
    ensures Members(el, "O") == [1]
  {
    var fe := Members(el, "Fe");
    var o := Members(el, "O");
    assert forall x :: x in fe <==> x in [0, 2];
    IncreasingIsDetermined(fe, [0, 2]);
    assert forall x :: x in o <==> x in [1];
    IncreasingIsDetermined(o, [1]);
  }

  /** Two species groups: Fe with atoms 0 and 2, O with atom 1. */
  lemma FeOFeSpecies(s: Structure)
    requires IsFeOFe(s)
    ensures var r := SpeciesList(s);
      && |r| == 2
      && r[0].element == "Fe" && |r[0].atoms| == 2
      && r[0].atoms[0] == AtomOf(s, 0) && r[0].atoms[1] == AtomOf(s, 2)
      && r[1].element == "O" && |r[1].atoms| == 1 && r[1].atoms[0] == AtomOf(s, 1)
  {
    var r := SpeciesList(s);
    assert |r| == 2 && r[0].element == "Fe" && r[1].element == "O" by {
      FeOFeElements(s.elements);
      SpeciesElements(s);
    }
    FeOFeMembers(s.elements);
    assert GroupsItsElement(s, r[0]);
    assert GroupsItsElement(s, r[1]);
  }

  /** Two spin declarations, for moment 0.0 and then 1.0. */
  lemma FeOFeSpins(spins: seq<real>)
    requires spins == [1.0, 0.0, 1.0]
    ensures var d := SpinList(spins);
      |d| == 2 && d[0].spin == 0.0 && d[1].spin == 1.0
  {
    var d := SpinList(spins);
    assert 0.0 in spins && 1.0 in spins;
    var j0 :| 0 <= j0 < |d| && d[j0].spin == 0.0;
    var j1 :| 0 <= j1 < |d| && d[j1].spin == 1.0;
    assert forall j :: 0 <= j < |d| ==> d[j].spin == 0.0 || d[j].spin == 1.0;
    assert j0 < j1;
  }

  /** Without symmetry the structure group carries the identity override. */
  lemma FeOFeEncoding(s: Structure)
    requires IsFeOFe(s)
    ensures GetStructureGroup(s, false)
      == Ok(Encoded(StructureGroup(s.cell, SpeciesList(s), Some(Symmetry(Identity))), SpinList(s.spins)))
  {
    assert Aligned(s);
  }

  /** The two iron atoms share one label, which has exactly one declaration. */
  lemma FeOFeSharedLabel(s: Structure)
    requires IsFeOFe(s)
    ensures var r := SpeciesList(s);
      && |r| > 0 && |r[0].atoms| > 1
      && r[0].atoms[0].spinLabel == SpinLabel(1.0) && r[0].atoms[1].spinLabel == SpinLabel(1.0)
    ensures DeclaredOnce(SpinList(s.spins), SpinLabel(1.0))
  {
    FeOFeSpecies(s);
    assert AtomOf(s, 0).spinLabel == SpinLabel(s.spins[0]);
    assert AtomOf(s, 2).spinLabel == SpinLabel(s.spins[2]);
    SpinListDeclaresOnce(s.spins, 1.0);
  }

  /** `sphinx_parser/ase.py` as written raises NameError on this structure, where the
      intended encoder returns a result. */
  lemma FeOFeAsWrittenRaises(s: Structure)
    requires IsFeOFe(s)
    ensures GetStructureGroupAsWritten(s, true) == Err(NameError("labels"))
    ensures GetStructureGroup(s, true).Ok?
  {
  }
}
