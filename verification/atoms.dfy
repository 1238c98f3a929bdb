/** The structure snapshot the encoder reads, the records it builds for one
    atom, and the per-atom encoders (movability and spin label). */
module Atoms {
  import opened Wrappers
  import opened Orders
  import opened Sorting

  /** A cartesian 3-vector; the encoder never inspects its components. */
  datatype Vec3 = Vec3(x: real, y: real, z: real)

  /** A 3x3 matrix given by its rows (the cell, a symmetry operator). */
  datatype Matrix3 = Matrix3(r0: Vec3, r1: Vec3, r2: Vec3)

  /** `np.eye(3).tolist()`, the operator of the symmetry override. */
  const Identity: Matrix3 :=
    Matrix3(Vec3(1.0, 0.0, 0.0), Vec3(0.0, 1.0, 0.0), Vec3(0.0, 0.0, 1.0))

  /** One atom's per-axis "may move" flags (one row of the inverted
      constraint array). */
  datatype Flags = Flags(x: bool, y: bool, z: bool)

  /** The movability keys of an atom group: either the single key `movable`
      or all three of `movableX`, `movableY`, `movableZ`. */
  datatype Movability =
    | Uniform(movable: bool)
    | PerAxis(movableX: bool, movableY: bool, movableZ: bool)

  /** The label `"spin_" + str(m)` of an atom with magnetic moment `m`. The
      rendering of the float is not modelled; the tag keeps the moment, so
      equal labels mean equal moments. */
  datatype SpinLabel = SpinLabel(moment: real)

  /** The `atom` group: coordinates, label and movability keys (`label` is
      a Dafny keyword, hence `spinLabel`). */
  datatype Atom = Atom(coords: Vec3, spinLabel: SpinLabel, mov: Movability)

  /** The `species` group: an element and its atoms. */
  datatype Species = Species(element: string, atoms: seq<Atom>)

  /** One `initialGuess.rho.atomicSpin` group: a label and its moment. */
  datatype AtomicSpin = AtomicSpin(spinLabel: SpinLabel, spin: real)

  /** The `structure.symmetry` group with its single `operator.S`. */
  datatype Symmetry = Symmetry(operator: Matrix3)

  /** The `structure` group; `symmetry` is absent when not supplied. */
  datatype StructureGroup =
    StructureGroup(cell: Matrix3, species: seq<Species>, symmetry: Option<Symmetry>)

  /** What the encoder reads from an ASE `Atoms` object: the cell and the
      positions (already in the target length unit), the chemical symbols,
      the initial magnetic moments and the per-atom movable flags. */
  datatype Structure = Structure(
    cell: Matrix3,
    positions: seq<Vec3>,
    elements: seq<string>,
    spins: seq<real>,
    movable: seq<Flags>)

  /** All per-atom arrays have one entry per chemical symbol. */
  predicate Aligned(s: Structure) {
    |s.positions| == |s.elements| && |s.spins| == |s.elements| && |s.movable| == |s.elements|
  }

  /** The boolean-mask indexing of the per-atom arrays succeeds: numpy only
      indexes them when there is at least one element to group by. */
  predicate Indexable(s: Structure) {
    |s.elements| == 0 || Aligned(s)
  }

  /** `_get_spin_label`. */
  function GetSpinLabel(m: real): (l: SpinLabel)
    ensures l.moment == m
  {
    SpinLabel(m)
  }

  /** `_get_movable`: a single `movable` key when the three flags agree, the
      three per-axis keys otherwise. */
  function GetMovable(f: Flags): (m: Movability)
    ensures (f.x && f.y && f.z) <==> m == Uniform(true)
    ensures (!f.x && !f.y && !f.z) <==> m == Uniform(false)
    ensures m.PerAxis? <==> (f.x || f.y || f.z) && !(f.x && f.y && f.z)
    ensures m.PerAxis? ==> m.movableX == f.x && m.movableY == f.y && m.movableZ == f.z
  {
    if f.x && f.y && f.z then Uniform(true)
    else if f.x || f.y || f.z then PerAxis(f.x, f.y, f.z)
    else Uniform(false)
  }

  /** How a consumer reads a descriptor back: the movable flag of each axis. */
  function AllowedAxes(m: Movability): Flags {
    match m
    case Uniform(b) => Flags(b, b, b)
    case PerAxis(x, y, z) => Flags(x, y, z)
  }

  /** The descriptor loses nothing: reading it back gives the input flags. */
  lemma MovableRoundTrip(f: Flags)
    ensures AllowedAxes(GetMovable(f)) == f
  {
  }

  /** The atom group built for one selected atom (lines 33-38). */
  function MakeAtom(position: Vec3, spin: real, flags: Flags): (a: Atom)
    ensures a.coords == position
    ensures a.spinLabel == GetSpinLabel(spin) && a.spinLabel.moment == spin
    ensures a.mov == GetMovable(flags)
    ensures AllowedAxes(a.mov) == flags
  {
    Atom(position, GetSpinLabel(spin), GetMovable(flags))
  }

  /** The atom group of atom `i` of the structure. */
  function AtomOf(s: Structure, i: nat): Atom
    requires Indexable(s) && i < |s.elements|
  {
    MakeAtom(s.positions[i], s.spins[i], s.movable[i])
  }

  /** `np.unique(elements)`: the distinct chemical symbols, sorted. */
  function DistinctElements(elements: seq<string>): (u: seq<string>)
    ensures StrictlySorted(u, LexLess)
    ensures Distinct(u)
    ensures forall e :: e in u <==> e in elements
  {
    LexLessIsStrictTotal();
    var u := Unique(elements, LexLess);
    SortedIsDistinct(u, LexLess);
    u
  }
}
