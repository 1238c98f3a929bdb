/** The structure encoder: grouping atoms into species, listing the spin
    declarations, and assembling the `structure` group. */
module Encoder {
  import opened Wrappers
  import opened Orders
  import opened Sorting
  import opened Atoms

  /** `elements == e`: the boolean mask of the atoms of one element. */
  function Mask(elements: seq<string>, e: string): (m: seq<bool>)
    ensures |m| == |elements|
    ensures forall i :: 0 <= i < |m| ==> (m[i] <==> elements[i] == e)
  {
    seq(|elements|, i requires 0 <= i < |elements| => elements[i] == e)
  }

  /** The positions a boolean mask selects, in increasing order: the index
      view of numpy's `xs[mask]`. */
  function MaskIndices(mask: seq<bool>): (r: seq<nat>)
    ensures forall k :: 0 <= k < |r| ==> r[k] < |mask| && mask[r[k]]
    ensures forall j, k :: 0 <= j < k < |r| ==> r[j] < r[k]
    ensures forall i: nat :: i in r <==> i < |mask| && mask[i]
  {
    if |mask| == 0 then []
    else
      var n := |mask| - 1;
      var r := MaskIndices(mask[..n]) + (if mask[n] then [n] else []);
      assert forall i: nat :: i < n ==> mask[..n][i] == mask[i];
      r
  }

  /** numpy boolean-mask indexing `xs[mask]`: the selected entries, in order. */
  function Select<T>(xs: seq<T>, mask: seq<bool>): (r: seq<T>)
    requires |xs| == |mask|
    ensures |r| == |MaskIndices(mask)|
    ensures forall k :: 0 <= k < |r| ==> r[k] == xs[MaskIndices(mask)[k]]
  {
    if |mask| == 0 then []
    else
      var n := |mask| - 1;
      var before := MaskIndices(mask[..n]);
      var prev := Select(xs[..n], mask[..n]);
      assert MaskIndices(mask) == before + (if mask[n] then [n] else []);
      assert forall k :: 0 <= k < |prev| ==> prev[k] == xs[before[k]] by {
        forall k | 0 <= k < |prev| ensures prev[k] == xs[before[k]] {
          assert prev[k] == xs[..n][before[k]];
        }
      }
      prev + (if mask[n] then [xs[n]] else [])
  }

  /** `_get_atom_list`: one atom group per atom the mask selects, in the
      original order. */
  function AtomList(positions: seq<Vec3>, spins: seq<real>, movable: seq<Flags>, mask: seq<bool>): (r: seq<Atom>)
    requires |positions| == |mask| && |spins| == |mask| && |movable| == |mask|
    ensures |r| == |MaskIndices(mask)|
    ensures forall k :: 0 <= k < |r| ==>
      var i := MaskIndices(mask)[k];
      r[k] == MakeAtom(positions[i], spins[i], movable[i])
  {
    var ps := Select(positions, mask);
    var ms := Select(spins, mask);
    var fs := Select(movable, mask);
    seq(|ps|, k requires 0 <= k < |ps| => MakeAtom(ps[k], ms[k], fs[k]))
  }

  /** The indices of the atoms of element `e`, in increasing order. */
  function Members(elements: seq<string>, e: string): (r: seq<nat>)
    ensures forall k :: 0 <= k < |r| ==> r[k] < |elements| && elements[r[k]] == e
    ensures forall j, k :: 0 <= j < k < |r| ==> r[j] < r[k]
    ensures forall i: nat :: i in r <==> i < |elements| && elements[i] == e
  {
    MaskIndices(Mask(elements, e))
  }

  /** `atoms` are the atom groups of the atoms `idx`, position by position. */
  ghost predicate ListsAtoms(s: Structure, atoms: seq<Atom>, idx: seq<nat>)
    requires Indexable(s)
  {
    && |atoms| == |idx|
    && forall k :: 0 <= k < |idx| ==> idx[k] < |s.elements| && atoms[k] == AtomOf(s, idx[k])
  }

  /** The atoms of group `sp` are exactly the atoms of its element, in their
      original order. */
  ghost predicate GroupsItsElement(s: Structure, sp: Species)
    requires Indexable(s)
  {
    ListsAtoms(s, sp.atoms, Members(s.elements, sp.element))
  }

  /** The species group of element `e` (lines 45-49). */
  function GroupOf(s: Structure, e: string): (sp: Species)
    requires Indexable(s) && e in s.elements
    ensures sp.element == e
    ensures GroupsItsElement(s, sp)
  {
    Species(e, AtomList(s.positions, s.spins, s.movable, Mask(s.elements, e)))
  }

  /** The groups of the elements `us`, one per element, in that order. */
  function GroupsOf(s: Structure, us: seq<string>): (r: seq<Species>)
    requires Indexable(s) && forall e :: e in us ==> e in s.elements
    ensures |r| == |us|
    ensures forall j :: 0 <= j < |r| ==> r[j].element == us[j] && GroupsItsElement(s, r[j])
  {
    seq(|us|, j requires 0 <= j < |us| => assert us[j] in us; GroupOf(s, us[j]))
  }

  /** Groups named after the distinct elements, in order, come in ascending
      element order and cover exactly the elements present. */
  lemma GroupsOfDistinct(elements: seq<string>, r: seq<Species>)
    requires |r| == |DistinctElements(elements)|
    requires forall j :: 0 <= j < |r| ==> r[j].element == DistinctElements(elements)[j]
    ensures forall j, k :: 0 <= j < k < |r| ==> LexLess(r[j].element, r[k].element)
    ensures forall e :: e in elements <==> exists j :: 0 <= j < |r| && r[j].element == e
  {
    var u := DistinctElements(elements);
    assert StrictlySorted(u, LexLess);
    forall e | e in elements ensures exists j :: 0 <= j < |r| && r[j].element == e {
      assert e in u;
      var j :| 0 <= j < |u| && u[j] == e;
      assert r[j].element == e;
    }
    forall e | (exists j :: 0 <= j < |r| && r[j].element == e) ensures e in elements {
      var j :| 0 <= j < |r| && r[j].element == e;
      assert u[j] in u;
    }
  }

  /** `_get_species_list`: one species group per distinct element, in
      ascending element order, each holding that element's atoms. */
  function SpeciesList(s: Structure): (r: seq<Species>)
    requires Indexable(s)
    ensures forall j, k :: 0 <= j < k < |r| ==> LexLess(r[j].element, r[k].element)
    ensures forall e :: e in s.elements <==> exists j :: 0 <= j < |r| && r[j].element == e
    ensures forall j :: 0 <= j < |r| ==> GroupsItsElement(s, r[j])
  {
    var r := GroupsOf(s, DistinctElements(s.elements));
    GroupsOfDistinct(s.elements, r);
    r
  }

  /** `_get_spin_list`: one declaration per distinct moment, in ascending
      order of the moment, each carrying the label atoms of that moment get. */
  function SpinList(spins: seq<real>): (r: seq<AtomicSpin>)
    ensures forall j, k :: 0 <= j < k < |r| ==> r[j].spin < r[k].spin
    ensures forall j :: 0 <= j < |r| ==> r[j].spin in spins && r[j].spinLabel == GetSpinLabel(r[j].spin)
    ensures forall m :: m in spins ==> exists j :: 0 <= j < |r| && r[j].spin == m
  {
    RealLessIsStrictTotal();
    var u := Unique(spins, RealLess);
    var r := seq(|u|, j requires 0 <= j < |u| => AtomicSpin(GetSpinLabel(u[j]), u[j]));
    assert forall j :: 0 <= j < |u| ==> r[j].spin == u[j];
    assert forall m :: m in u ==> exists j :: 0 <= j < |u| && u[j] == m;
    r
  }

  /** Exactly one declaration of `decls` carries label `l`. */
  ghost predicate DeclaredOnce(decls: seq<AtomicSpin>, l: SpinLabel) {
    && (exists j :: 0 <= j < |decls| && decls[j].spinLabel == l)
    && (forall j, k :: 0 <= j < |decls| && 0 <= k < |decls| && decls[j].spinLabel == l && decls[k].spinLabel == l ==> j == k)
  }

  /** Every moment present has exactly one declaration with its label. */
  lemma {:induction false} SpinListDeclaresOnce(spins: seq<real>, m: real)
    requires m in spins
    ensures DeclaredOnce(SpinList(spins), GetSpinLabel(m))
  {
    var r := SpinList(spins);
    var j :| 0 <= j < |r| && r[j].spin == m;
    assert r[j].spinLabel == GetSpinLabel(m);
    forall a, b | 0 <= a < |r| && 0 <= b < |r| && r[a].spinLabel == GetSpinLabel(m) && r[b].spinLabel == GetSpinLabel(m)
      ensures a == b
    {
      assert r[a].spin == m && r[b].spin == m;
    }
  }

  /** The result of `get_structure_group`: the structure group and the spin
      declarations for the initial guess. */
  datatype Encoded = Encoded(structure: StructureGroup, spinList: seq<AtomicSpin>)

  /** The symmetry entry: the identity operator when symmetry is not used. */
  function SymmetryEntry(useSymmetry: bool): (r: Option<Symmetry>)
    ensures r.Some? <==> !useSymmetry
    ensures r.Some? ==> r.value.operator == Identity
  {
    if useSymmetry then None else Some(Symmetry(Identity))
  }

  /** `get_structure_group` with the spin list built from the magnetic
      moments, which is what the function is evidently meant to do. */
  function GetStructureGroup(s: Structure, useSymmetry: bool): (r: Result<Encoded>)
    ensures r.Err? <==> !Indexable(s)
    ensures r.Err? ==> r.error == IndexError
    ensures r.Ok? ==>
      var g := r.value.structure;
      && g.cell == s.cell
      && g.species == SpeciesList(s)
      && (g.symmetry.Some? <==> !useSymmetry)
      && (g.symmetry.Some? ==> g.symmetry.value.operator == Identity)
    ensures r.Ok? ==> r.value.spinList == SpinList(s.spins)
    ensures r.Ok? ==> forall j, k :: 0 <= j < |r.value.structure.species| && 0 <= k < |r.value.structure.species[j].atoms| ==>
      DeclaredOnce(r.value.spinList, r.value.structure.species[j].atoms[k].spinLabel)
  {
    if !Indexable(s) then Err(IndexError)
    else
      var species := SpeciesList(s);
      var spins := SpinList(s.spins);
      assert forall j, k :: 0 <= j < |species| && 0 <= k < |species[j].atoms| ==>
        DeclaredOnce(spins, species[j].atoms[k].spinLabel) by {
        forall j, k | 0 <= j < |species| && 0 <= k < |species[j].atoms|
          ensures DeclaredOnce(spins, species[j].atoms[k].spinLabel)
        {
          assert GroupsItsElement(s, species[j]);
          var i := Members(s.elements, species[j].element)[k];
          assert species[j].atoms[k] == AtomOf(s, i);
          SpinListDeclaresOnce(s.spins, s.spins[i]);
        }
      }
      Ok(Encoded(StructureGroup(s.cell, species, SymmetryEntry(useSymmetry)), spins))
  }

  /** `get_structure_group` as written: after building the structure group it
      calls `_get_spin_list(labels)`, and `labels` is bound nowhere, so every
      call that gets that far raises NameError. */
  function GetStructureGroupAsWritten(s: Structure, useSymmetry: bool): (r: Result<Encoded>)
    ensures r.Err?
    ensures r.error == IndexError <==> !Indexable(s)
    ensures Indexable(s) ==> r.error == NameError("labels")
  {
    if !Indexable(s) then Err(IndexError)
    else
      var _ := StructureGroup(s.cell, SpeciesList(s), SymmetryEntry(useSymmetry));
      Err(NameError("labels"))
  }
}
