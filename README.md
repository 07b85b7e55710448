# bcgraph molecule-to-graph engine in Dafny

This project models the generic graph-construction core of `bcgraph`. The core turns a
molecule into four collections:

- `node_pos`: one 3D position per atom;
- `node_attr`: one attribute row per atom;
- `edge_index`: one `[begin, end]` pair per bond;
- `edge_attr`: one attribute row per bond.

A synthetic master node can be added. It is joined to every atom.

Atoms and bonds are abstract type parameters. Every feature is a total extractor function
paired with a value domain. The domain is either numeric or an ordered tuple of categorical
values.

Modules:

- `Outcomes` (`outcomes.dfy`): `Option`, `Result`, the abort reasons (`Error`) and the warnings the logger receives.
- `Encoding` (`encoding.dfy`): `one_hot_encode` and `tuple.index`.
- `Conformers` (`conformer.dfy`): positions, the molecule record and `check_conformer`.
- `Features` (`features.dfy`): the feature descriptor and the encoding of one feature value.
  It also holds the row of one atom or bond. The inner feature loop is the method `EncodeRow`.
- `RDKit` and `Catalogue` (`catalogue.dfy`): the enumerations that `RDKitAtomFeatures` and
  `RDKitBondFeatures` list, and the domain each catalogue feature records.
- `GenericGraph` (`graph.dfy`): `Assemble` specifies `convert_mol_to_generic_graph`.
  `ConvertMolToGenericGraph` is the method with the atom and bond loops, proved equal to it.
  Master-node augmentation is here too.
- `GraphProperties` (`graph_properties.dfy`): what the conversion guarantees.

Design choices:

- Each row entry is either `Raw(v)` or `Code(n)`. `Raw(v)` is a numeric feature value appended
  as it is. `Code(n)` is a one-hot slot, a domain index or a master-node flag.
- Aborts are `Err` results:
  - `ConformerSizeMismatch` models the failing `assert`;
  - `ValueNotInDomain` models `tuple.index` raising in index mode.
- Warnings are returned as an ordered log: the conformer warnings first, then the
  unknown one-hot values of each atom, then those of each bond.

## Model

| member | source | states |
|---|---|---|
| `Encoding.FirstIndex` | bcgraph/utils/encoding.py:21 | the index of a present value is in range, holds the value, and no earlier slot holds it (first occurrence) |
| `Encoding.IndexOf` | bcgraph/utils/encoding.py:20-22 | the linear search finds the first occurrence, and fails (ValueError) exactly when the value is absent |
| `Encoding.OneHot` | bcgraph/utils/encoding.py:19-21 | width equals the number of possible values; every entry is 0 or 1; an entry is 1 iff its slot is the first one holding the value |
| `Encoding.OneHotEncode` | bcgraph/utils/encoding.py:14-28 | the zero-filled array with the found slot set equals `OneHot`; a warning is reported iff the value is absent, and no error escapes |
| `Encoding.OneHotSum` | bcgraph/utils/encoding.py:19-21 | the entries sum to 1 when the value is possible and to 0 otherwise |
| `Encoding.OneHotAtFirstIndex` | bcgraph/utils/encoding.py:19-21 | the 1 sits at the index `tuple.index` returns and every other entry is 0, so one-hot and index modes agree |
| `Encoding.OneHotAbsent` | bcgraph/utils/encoding.py:22-26 | an absent value yields the all-zero vector of full width |
| `Conformers.AnyNonZero` | bcgraph/utils/mol.py:221 | numpy `any` on floats holds iff some entry is nonzero |
| `Conformers.All` | bcgraph/utils/mol.py:224 | numpy `all` holds iff every entry is true |
| `Conformers.CheckConformer` | bcgraph/utils/mol.py:212-230 | the verdict is true iff the atom count equals the position count, whatever the geometry; the "no Z" warning fires iff every Z is 0; the "invalid coordinates" warning fires iff some position is the origin |
| `Conformers.CheckConformerAsWritten` | bcgraph/utils/mol.py:230 | as written, the verdict compares the atom count with the molecule's own conformer, not the argument, and fails without one |
| `Conformers.CheckConformerAsWrittenAcceptsMismatch` | bcgraph/utils/mol.py:229-230 | a one-atom molecule and an empty conformer pass the as-written check but fail the corrected one |
| `Features.Encode` | bcgraph/utils/mol.py:271-282 | a numeric feature contributes its value as one column; a one-hot block has one column per domain value, with 1 only at the first match; in index mode the single column is the first index holding the value (`FirstIndex`, what `tuple.index` returns), so `domain[k] == value`; a warning is logged iff the value is outside its domain in one-hot mode |
| `Features.EncodeAsWritten` | bcgraph/utils/mol.py:273-282 | as written, only categorical features can produce columns |
| `Features.NumericFeatureFailsAsWritten` | bcgraph/utils/mol.py:273 | as written, every numeric feature aborts (`len(int)` in one-hot mode, `int.index` in index mode) while the documented behaviour appends one scalar |
| `Features.CategoricalAgreesAsWritten` | bcgraph/utils/mol.py:275-282 | on categorical features the code as written and the corrected encoding agree, including the ValueError in index mode |
| `Features.Row` | bcgraph/utils/mol.py:260-286 | a row's width is the sum of its features' widths |
| `Features.RowSegment` | bcgraph/utils/mol.py:262-282 | feature `j` fills exactly the columns after the widths of features `0..j-1`, with its own contribution: rows concatenate contributions in descriptor order |
| `Features.Rows` | bcgraph/utils/mol.py:257-286 | one row per item, and every row has the same width |
| `Features.EncodeRow` | bcgraph/utils/mol.py:260-283 | the feature loop succeeds iff every value can be encoded, and then yields `Row` |
| `Catalogue.AtomDomain` | bcgraph/utils/mol.py:38-125 | exactly chiral tag (4 values) and hybridization (8 values) are categorical, and their tuples have no duplicates |
| `Catalogue.BondDomain` | bcgraph/utils/mol.py:132-209 | exactly bond direction (7), bond type (22) and stereo (6) are categorical, and their tuples have no duplicates |
| `GenericGraph.MasterFlagRow` | bcgraph/utils/mol.py:331-332 | the master row has the requested width, all zeros except a trailing 1 |
| `GenericGraph.AddMasterNode` | bcgraph/utils/mol.py:322-342 | augmentation keeps positions, rows and edges in place and adds a trailing 0 to each row; it appends the origin position, a master row of width+1 ending in 1, the edges `(i, N)` in atom order, and their flag rows |
| `GenericGraph.AddMasterNodeAsWritten` | bcgraph/utils/mol.py:322-342 | as written, augmentation fails iff there are no node rows or no edge rows |
| `GenericGraph.Assemble` | bcgraph/utils/mol.py:233-343 | the conversion succeeds iff the conformer (if any) has one position per atom and every value can be encoded; its only aborts are the size mismatch and `tuple.index`'s ValueError; on success `len(node_pos) == len(node_attr) == N(+1)` and `len(edge_index) == len(edge_attr) == M(+N)`. Contents and order are stated by `AssembleFails`, `AssembleShape`, `AssembleOrder` and `AssembleMasterNode` |
| `GenericGraph.EncodeAtoms` | bcgraph/utils/mol.py:257-286 | the atom loop yields one row per atom, in atom order, with the warnings in order, or fails iff some atom value cannot be indexed |
| `GenericGraph.EncodeBonds` | bcgraph/utils/mol.py:290-319 | the bond loop yields one `[begin, end]` pair and one row per bond, in bond order, or fails iff some bond value cannot be indexed |
| `GenericGraph.ConvertMolToGenericGraph` | bcgraph/utils/mol.py:233-343 | the method returns exactly `Assemble`'s result, abort or graph and log |
| `GraphProperties.AssembleFails` | bcgraph/utils/mol.py:250-314 | the conversion aborts only on a conformer/atom-count mismatch or on a value outside its domain in index mode; in one-hot mode only the conformer can make it abort |
| `GraphProperties.AssembleShape` | bcgraph/utils/mol.py:249-342 | `len(node_pos) == len(node_attr) == N(+1)` and `len(edge_index) == len(edge_attr) == M(+N)`; every node or edge row has the descriptor-sum width (+1 with a master node) |
| `GraphProperties.AssembleOrder` | bcgraph/utils/mol.py:249-319 | atom `i`'s row and position, and bond `j`'s row and `[begin, end]` pair, sit at index `i`/`j`, not re-sorted; positions come from the conformer, or are zero triples |
| `GraphProperties.AssembleMasterNode` | bcgraph/utils/mol.py:322-342 | master node `N` is at the origin with row `0…0 1`; edge `M+i` is `(i, N)` with row `0…0 1` of bond width + 1 |
| `GraphProperties.NodeFeatureSegment` | bcgraph/utils/mol.py:257-286 | in atom `i`'s final row, feature `j`'s columns hold exactly that feature's encoding of the atom |
| `GraphProperties.EdgeFeatureSegment` | bcgraph/utils/mol.py:290-319 | in bond `k`'s final row, feature `j`'s columns hold exactly that feature's encoding of the bond |
| `GraphProperties.IndexModeDecodes` | bcgraph/utils/mol.py:279-282 | in index mode the stored code `k` of a categorical atom feature satisfies `domain[k] == value` |
| `GraphProperties.RowLogIncludes` | bcgraph/utils/encoding.py:22-26 | a warning logged for one feature appears in its row's log |
| `GraphProperties.RowsLogIncludes` | bcgraph/utils/mol.py:258-286 | a warning logged for one item appears in the log of all items |
| `GraphProperties.UnknownAtomValue` | bcgraph/utils/encoding.py:19-26 | a one-hot atom value outside its domain does not abort: its block is all zeros and the value is in the returned log |
| `GraphProperties.NoBondMolecule` | bcgraph/utils/mol.py:335-342 | without bonds: no edges without a master node; with one, exactly `(i, N)` for every atom with flag rows; the code as written aborts on such a molecule |
| `GraphProperties.MasterNodeAgreesAsWritten` | bcgraph/utils/mol.py:330-342 | with at least one atom and one bond, the as-written and corrected augmentations agree |
| `GraphProperties.CatalogueExample` | bcgraph/utils/mol.py:67-176 | aromaticity + hybridization over 3 atoms and bond type over 2 bonds give 4 node rows of width 10 and 5 edges with rows of width 23 |

## Findings

| source | as written | input that shows it | evidently intended | confidence | as-written member | corrected member |
|---|---|---|---|---|---|---|
| bcgraph/utils/mol.py:273 | `type(returned_dtype) in (int, float, bool)` tests the type of the class object, which is `type`, so no feature counts as numeric; numeric features reach `len(int)` (encoding.py:19) or `int.index` | any numeric catalogue feature, e.g. `RDKitAtomFeatures.atomic_number`, on any atom | a numeric feature appends its value as one column (mol.py:29-34, 271-274) | high, not executed | `Features.NumericFeatureFailsAsWritten` | `Features.Encode` |
| bcgraph/utils/mol.py:230 | the size check reads `mol.GetConformer()`, not the `conformer` argument | a one-atom molecule whose own conformer has one position, passed a conformer with no positions | compare the atom count with the conformer argument | high, not executed | `Conformers.CheckConformerAsWrittenAcceptsMismatch` | `Conformers.CheckConformer` |
| bcgraph/utils/mol.py:339 | the master-edge width is taken from `edge_attr[0]` (and the master-node width from `node_attr[0]` at line 331), which raises IndexError when there are no bonds (no atoms) | a single heavy atom with implicit hydrogens (methane without explicit H): one atom, zero bonds, `master_node=True` | master rows as wide as the descriptor sum plus one, and one master edge per atom | high, not executed | `GraphProperties.NoBondMolecule` | `GenericGraph.AddMasterNode` |

Notes on the corrected behaviour:

- `Features.Encode`, `Conformers.CheckConformer` and `GenericGraph.AddMasterNode` are the
  definitions `Assemble` uses.
- In `AddMasterNode`, the master-row widths are the descriptor widths plus one. Whenever a
  first row exists, this equals the width the code reads from it.
- With no bonds, the master-edge rows get the bond-descriptor width plus one, so that every
  edge row of a graph has the same width. A width of 1 would be the other choice; the model
  does not use it.

## Left out

- Tensor conversion (`torch.FloatTensor`/`LongTensor`, mol.py:344-347): the outputs are
  sequences. Numeric values stay `Raw(v)` and are not cast to float.
- Logging: `_LOGGER.warning` calls become entries of the returned log.
- Warnings logged before a fatal abort: the abort returns no log, so they are not returned.
- RDKit itself: atoms, bonds and extractors are type parameters and total functions.
  The `RDKit` enumerations list only the members the catalogue tuples name, plus
  `OtherEnum` for any member they do not name.
- Float coordinates: coordinates are `real` and are compared only with zero. NaN and
  signed zeros are not modelled.
- Aliasing: the source shares one master-edge row list between all master edges. It is never
  mutated afterwards, so the model uses equal values.
- The Python exception types: each becomes an `Error` constructor.
- `Conformers.CheckConformerAsWritten`: when the molecule has no conformer of its own,
  RDKit's exception is modelled as `Err(BadConformerId)`. Its message and type are not.
- The DGL and PyG adapters, the random-molecule sampler and the `__init__.py` re-exports
  are not part of this model. They are glue around a foreign graph library, a stub, or
  random sampling from an SDF file.
