# sphinx_parser.ase in Dafny

A model of `sphinx_parser/ase.py`, the bridge between an ASE `Atoms`
structure and the SPHInX input document. The module does two things:

- **Structure encoding.** It groups the atoms by chemical element into
  `species` groups. Each group lists its atoms in their original order. Each
  atom group carries coordinates, a spin label derived from the atom's
  magnetic moment, and movability keys (`movable`, or
  `movableX`/`movableY`/`movableZ`). It also lists one `atomicSpin`
  declaration per distinct moment. When symmetry is switched off, it adds an
  identity `symmetry.operator`.
- **The ordering oracle.** `id_ase_to_spx` gives the permutation from ASE's
  atom order to the grouped SPHInX order. `id_spx_to_ase` gives its inverse.

Modules (one file each):

| module | file | what it holds |
|---|---|---|
| `Wrappers` | wrappers.dfy | `Option`, `Result` and the errors the encoder raises |
| `Orders` | orders.dfy | Python's string order (`LexLess`) and the numeric order, each proved a strict total order |
| `Sorting` | sorting.dfy | `np.unique` (`Unique`), and the lemma that a set of values has only one strictly sorted arrangement |
| `Permutations` | permutations.dfy | `np.argsort` (`ArgSort`), and the lemma that the argsort of a permutation is its inverse |
| `Atoms` | atoms.dfy | the records (`Atom`, `Species`, `AtomicSpin`, `StructureGroup`, `Structure`), `_get_movable`, `_get_spin_label` |
| `Encoder` | encoder.dfy | mask selection, `_get_atom_list`, `_get_species_list`, `_get_spin_list`, `get_structure_group` |
| `Ordering` | ordering.dfy | `id_ase_to_spx`, `id_spx_to_ase` |
| `Consistency` | consistency.dfy | the species layout agrees with the oracle's permutation; the groups partition the atoms |
| `Scenarios` | scenarios.dfy | a worked Fe, O, Fe structure |

Modelling choices:

- **Element order.** Element symbols are strings compared by `Orders.LexLess`.
  This is lexicographic on code points, and a proper prefix comes first. It is
  the order `np.unique` uses on a string array.
- **Moments.** Magnetic moments are `real` and compared numerically.
- **Spin label.** The label `"spin_" + str(m)` is the tag `SpinLabel(m)`. It
  keeps the one property the encoder relies on: equal labels exactly when the
  moments are equal. Python's signed zero breaks that property; see
  `Encoder.GetStructureGroup` under "## Left out".
- **Oracle sort key.** `id_ase_to_spx` adds the float ramp `i / N` to each
  class index. The model sorts on the integer key `class * N + i` instead. In
  exact arithmetic this is the same order, since it is the float key scaled by
  `N`. `Ordering.KeyOrderIsClassOrder` proves that this key orders by class
  first and then by index.
- **Mask indexing errors.** numpy raises `IndexError` when a boolean mask and
  the array it indexes differ in length. That only happens once the species
  loop runs, that is, when there is at least one element. `Atoms.Indexable`
  states exactly this condition.

## Model

| member | source | states |
|---|---|---|
| `Atoms.GetMovable` | sphinx_parser/ase.py:17-23 | all three flags true gives exactly `movable: true`, all false gives exactly `movable: false`, and in every other case the three per-axis keys are present carrying the input flags in x, y, z order |
| `Atoms.MovableRoundTrip` | sphinx_parser/ase.py:17-23 | reading a descriptor back (one flag for all axes, or one per axis) recovers the input flags: the encoding loses nothing |
| `Atoms.GetSpinLabel` | sphinx_parser/ase.py:14-15 | the label determines the moment it was made from |
| `Atoms.MakeAtom` | sphinx_parser/ase.py:33-38 | an atom group has the atom's coordinates, exactly the label of its moment, and exactly the movability keys `_get_movable` gives for its flags (so the compact `movable` key whenever the flags agree), which read back as those flags |
| `Atoms.DistinctElements` | sphinx_parser/ase.py:44 | `np.unique(elements)` is strictly ascending in string order, has no duplicates, and holds exactly the elements present |
| `Orders.LexLessIsStrictTotal` | sphinx_parser/ase.py:44 | the string order numpy sorts the element symbols by is irreflexive, transitive and total |
| `Sorting.Unique` | sphinx_parser/ase.py:58 | `np.unique` returns the distinct values in strictly ascending order, and keeps every value when the input has no duplicates |
| `Sorting.SortedIsUnique` | sphinx_parser/ase.py:44 | two strictly ascending sequences with the same values are equal, so `np.unique`'s result is determined by the set of values |
| `Encoder.Mask` | sphinx_parser/ase.py:45 | `elements == elm_species` is true at exactly the atoms of that element, one entry per atom |
| `Encoder.Select` | sphinx_parser/ase.py:29-31 | `xs[mask]` holds, in order, the entries at exactly the positions where the mask is true |
| `Encoder.MaskIndices` | sphinx_parser/ase.py:29-31 | the selected positions are strictly increasing, and a position is selected exactly when the mask is true there |
| `Encoder.AtomList` | sphinx_parser/ase.py:26-39 | one atom group per selected atom, in increasing original index order; group k is built from the k-th selected atom's position, moment and flags |
| `Encoder.GroupOf` | sphinx_parser/ase.py:45-49 | the group of element e is named e and lists exactly the atoms whose symbol is e, in their original order |
| `Encoder.GroupsOfDistinct` | sphinx_parser/ase.py:44-49 | groups taken in `np.unique` order have strictly ascending element names and cover exactly the elements present |
| `Encoder.SpeciesList` | sphinx_parser/ase.py:42-50 | groups come in strictly ascending element order, so no element appears twice; an element has a group exactly when some atom has it; each group lists exactly its element's atoms in original order |
| `Encoder.SpinList` | sphinx_parser/ase.py:53-59 | one declaration per distinct moment, in strictly ascending moment order; every moment present is declared, and nothing else is; each declaration's label is the label of its moment |
| `Encoder.SpinListDeclaresOnce` | sphinx_parser/ase.py:53-59 | the label of any moment present has exactly one declaration |
| `Encoder.SymmetryEntry` | sphinx_parser/ase.py:78-82 | the symmetry entry is present exactly when symmetry is not used, and then holds the 3x3 identity operator |
| `Encoder.GetStructureGroup` | sphinx_parser/ase.py:62-87 | the intended encoder: it fails with IndexError exactly when mask indexing fails; otherwise it keeps the cell, uses the species list, has a symmetry entry exactly when symmetry is off, lists the spin declarations of the structure's moments, and every atom's label has exactly one spin declaration |
| `Encoder.GetStructureGroupAsWritten` | sphinx_parser/ase.py:62-87 | the encoder as written never returns a result: it fails with IndexError when mask indexing fails and with NameError for `labels` otherwise |
| `Ordering.Classes` | sphinx_parser/ase.py:101 | each atom's class is the position of its element among the sorted distinct elements |
| `Ordering.SortKeys` | sphinx_parser/ase.py:101-103 | the exact stand-in for `class + i / N`: one key per atom, and key x is below key y exactly when x's class is smaller, or the classes agree and x comes first |
| `Ordering.KeyOrderIsClassOrder` | sphinx_parser/ase.py:101-103 | atom x sorts before atom y on the ramped key exactly when x's class is smaller, or the classes are equal and x comes first; the ramp never reaches the next class |
| `Ordering.ArgSortGroupsByClass` | sphinx_parser/ase.py:101-104 | along the argsort of the ramped keys, classes never decrease, and within a class ASE indices increase |
| `Ordering.IdAseToSpx` | sphinx_parser/ase.py:90-104 | the result is a permutation of [0, N) that orders atoms by element class and keeps ASE order inside a class; it is `[0]` for one atom and empty for none |
| `Ordering.IdSpxToAse` | sphinx_parser/ase.py:107-117 | the result is a permutation of [0, N) and the inverse of `id_ase_to_spx` on both sides: q[p[k]] = k and p[q[i]] = i |
| `Permutations.ArgSort` | sphinx_parser/ase.py:104 | `np.argsort` returns a permutation of the indices along which the keys never decrease |
| `Permutations.ArgSortInvertsPermutation` | sphinx_parser/ase.py:117 | the argsort of a permutation is its inverse on both sides |
| `Consistency.GroupedIsOracleOrder` | sphinx_parser/ase.py:101-104 | listing the indices of each distinct element in turn gives exactly the permutation `id_ase_to_spx` computes |
| `Consistency.SpeciesFollowOracleOrder` | sphinx_parser/ase.py:101-104 | the species groups' atoms (lines 42-50), read group after group, are the atoms in `id_ase_to_spx` order: position k holds ASE atom p[k] |
| `Consistency.SpeciesCountAtoms` | sphinx_parser/ase.py:42-50 | the species groups' sizes add up to the number of atoms |
| `Consistency.PartitionOfGroups` | sphinx_parser/ase.py:42-50 | any groups in strictly ascending element order that cover every element present and each list their element's atoms hold every atom in exactly one group, at its position among its element's atoms |
| `Consistency.SpeciesPartitionAtoms` | sphinx_parser/ase.py:42-50 | every atom's element has exactly one group, and that group holds the atom's own atom group at the atom's position among its element's atoms |
| `Scenarios.FeOFeOrder` | sphinx_parser/ase.py:101-104 | for the symbols Fe, O, Fe the grouped order is atoms 0, 2, 1 |
| `Scenarios.FeOFeInverse` | sphinx_parser/ase.py:117 | for the symbols Fe, O, Fe the inverse permutation is 0, 2, 1 |
| `Scenarios.FeOFeSpecies` | sphinx_parser/ase.py:42-50 | Fe, O, Fe gives two groups: Fe with atoms 0 and 2, then O with atom 1 |
| `Scenarios.FeOFeSpins` | sphinx_parser/ase.py:53-59 | the moments 1.0, 0.0, 1.0 give two declarations, for 0.0 and then 1.0 |
| `Scenarios.FeOFeSharedLabel` | sphinx_parser/ase.py:14-15 | the two iron atoms carry the same label, and that label has exactly one declaration |
| `Scenarios.FeOFeEncoding` | sphinx_parser/ase.py:78-84 | with symmetry off, the structure group for Fe, O, Fe holds the identity symmetry override |
| `Scenarios.FeOFeAsWrittenRaises` | sphinx_parser/ase.py:86 | on Fe, O, Fe the code as written raises NameError, while the intended encoder returns a result |

## Left out

- `_to_angstrom` (sphinx_parser/ase.py:7-11) is floating-point scaling by a scipy constant. Cell and positions are taken as already converted, and coordinates are opaque values. Despite its name, the helper divides by the Bohr radius expressed in Ångström. It therefore converts Ångström to Bohr.
- `_handle_ase_constraints` and the ASE accessors (sphinx_parser/ase.py:4, 74-76) are calls into ASE. The structure's symbols, moments, positions and already-inverted movable flags are inputs.
- Atoms.GetSpinLabel: the text of `f"spin_{spin}"` is not modelled, only that distinct moments give distinct labels. Python's float formatting is not part of this model. So the float cases of `-0.0` against `0.0` are not modelled: they compare equal but render differently. Neither is NaN.
- Ordering.SortKeys: the float ramp `i / N` is replaced by the exact key `class * N + i`. Loss of precision in the ramp for very large N is not modelled.
- Encoder.GetStructureGroup: its promise that every atom's label has exactly one declaration rests on labels being equal exactly when moments are equal. In Python `-0.0 == 0.0`, so `np.unique` keeps one of them, but `spin_-0.0` and `spin_0.0` differ. For the moments `[0.0, -0.0]` one of the two atom labels would get no declaration; the model's real moments have no signed zero, so this case is not modelled.
- Permutations.ArgSort breaks key ties by index. numpy's default argsort does not promise that, but both calls here have distinct keys, so ties never arise.
- Orders.LexLess compares code points as Python does. numpy's trimming of trailing NUL characters in fixed-width string arrays is not modelled.
- stinx/input.py is not part of this model. Every `create` there passes its arguments to `stinx.toolkit.fill_values`, which is not visible. The record fields follow its argument names. The absent `symmetry` is modelled as `None` in an `Option`, on the reading that `fill_values` drops unset arguments.
- Mismatched per-atom array lengths follow the code, which raises IndexError from numpy mask indexing. A general schema node builder is not in `sphinx_parser/ase.py` and is not modelled.
- Non-collinear magnetic moments (an N x 3 moment array, which `np.unique` would flatten) are not modelled: each atom has one real moment.
- Serialisation of the document to text is outside the module.

## Findings

| source | as written | input that shows it | evidently intended | confidence | as-written member | corrected member |
|---|---|---|---|---|---|---|
| sphinx_parser/ase.py:86 | `spin_list = _get_spin_list(labels)`, but `labels` is bound nowhere in the function or module | any structure, e.g. the symbols Fe, O, Fe with moments 1.0, 0.0, 1.0: the call raises NameError after building the structure group | `_get_spin_list(spins)`: one declaration per distinct initial magnetic moment | high; not executed | `Encoder.GetStructureGroupAsWritten` (with `Scenarios.FeOFeAsWrittenRaises`) | `Encoder.GetStructureGroup` |
