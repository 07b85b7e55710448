/** What the conversion guarantees: failure cases, shapes, row contents in atom, bond and
    descriptor order, the master node, and the warnings for unknown values. */
module GraphProperties {
  import opened Outcomes
  import opened Encoding
  import opened Features
  import opened Conformers
  import opened GenericGraph
  import Catalogue
  import RDKit

  /** Some feature value of some item cannot be encoded: index mode, and outside the domain. */
  ghost predicate SomeValueUnindexable<X, V>(fs: seq<Feature<X, V>>, xs: seq<X>, oneHot: bool)
  {
    exists i, j :: 0 <= i < |xs| && 0 <= j < |fs| && !EncodableValue(fs[j].domain, fs[j].extract(xs[i]), oneHot)
  }

  /** The conversion aborts exactly on a conformer whose size differs from the atom count, or
      on a value outside its domain in index mode; in one-hot mode only the conformer can
      make it abort. */
  lemma {:induction false} AssembleFails<A, B, V>(mol: Mol<A, B>, conformer: Option<seq<Point>>,
                                                       atomFeatures: seq<Feature<A, V>>, bondFeatures: seq<Feature<B, V>>,
                                                       oneHot: bool, masterNode: bool)
    ensures var r := Assemble(mol, conformer, atomFeatures, bondFeatures, oneHot, masterNode);
            && (r == Err(ConformerSizeMismatch) <==> conformer.Some? && |conformer.value| != |mol.atoms|)
            && (r == Err(ValueNotInDomain) <==>
                  (conformer.None? || |conformer.value| == |mol.atoms|) &&
                  (SomeValueUnindexable(atomFeatures, mol.atoms, oneHot) || SomeValueUnindexable(bondFeatures, mol.bonds, oneHot)))
            && (r.Err? ==> r.error == ConformerSizeMismatch || r.error == ValueNotInDomain)
            && (oneHot ==> (r.Ok? <==> conformer.None? || |conformer.value| == |mol.atoms|))
  {
  }

  /** Node and position counts agree, as do edge index and edge row counts, and every node
      row (every edge row) has the width the atom (bond) descriptors add up to, plus the
      master-node column when there is one. */
  lemma AssembleShape<A, B, V>(mol: Mol<A, B>, conformer: Option<seq<Point>>,
                                   atomFeatures: seq<Feature<A, V>>, bondFeatures: seq<Feature<B, V>>,
                                   oneHot: bool, masterNode: bool)
    requires Assemble(mol, conformer, atomFeatures, bondFeatures, oneHot, masterNode).Ok?
    ensures var g := Assemble(mol, conformer, atomFeatures, bondFeatures, oneHot, masterNode).value.graph;
            var n, m := |mol.atoms|, |mol.bonds|;
            var flag := if masterNode then 1 else 0;
            && |g.nodePos| == |g.nodeAttr| == n + flag
            && |g.edgeIndex| == |g.edgeAttr| == m + flag * n
            && (forall i :: 0 <= i < |g.nodeAttr| ==> |g.nodeAttr[i]| == RowWidth(atomFeatures, oneHot) + flag)
            && (forall j :: 0 <= j < |g.edgeAttr| ==> |g.edgeAttr[j]| == RowWidth(bondFeatures, oneHot) + flag)
  {
  }

  /** Atom `i`'s row, bond `j`'s row and bond `j`'s index pair sit at positions `i` and `j`,
      unchanged except for the master-node column; positions come from the conformer, or are
      zero triples without one. */
  lemma AssembleOrder<A, B, V>(mol: Mol<A, B>, conformer: Option<seq<Point>>,
                                   atomFeatures: seq<Feature<A, V>>, bondFeatures: seq<Feature<B, V>>,
                                   oneHot: bool, masterNode: bool)
    requires Assemble(mol, conformer, atomFeatures, bondFeatures, oneHot, masterNode).Ok?
    ensures var g := Assemble(mol, conformer, atomFeatures, bondFeatures, oneHot, masterNode).value.graph;
            var tail: seq<Entry<V>> := if masterNode then [Code(0)] else [];
            && AllEncodable(atomFeatures, mol.atoms, oneHot) && AllEncodable(bondFeatures, mol.bonds, oneHot)
            && (forall i :: 0 <= i < |mol.atoms| ==>
                  g.nodeAttr[i] == Row(atomFeatures, mol.atoms[i], oneHot).entries + tail
                  && g.nodePos[i] == (if conformer.Some? then conformer.value[i] else Origin))
            && (forall j :: 0 <= j < |mol.bonds| ==>
                  g.edgeAttr[j] == Row(bondFeatures, mol.bonds[j], oneHot).entries + tail
                  && g.edgeIndex[j] == (mol.beginAtomIdx(mol.bonds[j]), mol.endAtomIdx(mol.bonds[j])))
  {
  }

  /** With a master node, node `n` (the atom count) sits at the origin with the flag row, and
      after the bond edges come the edges `(i, n)` for every atom `i`, in order, each with the
      flag row of the bond-row width plus one. */
  lemma AssembleMasterNode<A, B, V>(mol: Mol<A, B>, conformer: Option<seq<Point>>,
                                        atomFeatures: seq<Feature<A, V>>, bondFeatures: seq<Feature<B, V>>, oneHot: bool)
    requires Assemble(mol, conformer, atomFeatures, bondFeatures, oneHot, true).Ok?
    ensures var g := Assemble(mol, conformer, atomFeatures, bondFeatures, oneHot, true).value.graph;
            var n, m := |mol.atoms|, |mol.bonds|;
            var w, u := RowWidth(atomFeatures, oneHot), RowWidth(bondFeatures, oneHot);
            && g.nodePos[n] == Origin
            && g.nodeAttr[n] == seq(w, _ => Code(0)) + [Code(1)]
            && (forall i :: 0 <= i < n ==>
                  g.edgeIndex[m + i] == (i, n) && g.edgeAttr[m + i] == seq(u, _ => Code(0)) + [Code(1)])
  {
    var g := BaseGraph(mol, conformer, atomFeatures, bondFeatures, oneHot);
    var w, u := RowWidth(atomFeatures, oneHot), RowWidth(bondFeatures, oneHot);
    assert Assemble(mol, conformer, atomFeatures, bondFeatures, oneHot, true).value.graph == AddMasterNode(g, w, u);
    FlagRowShape<V>(w);
    FlagRowShape<V>(u);
  }

  /** The flag row of width `w + 1` is `w` zeros followed by a 1. */
  lemma FlagRowShape<V>(w: nat)
    ensures MasterFlagRow<V>(w + 1) == seq(w, _ => Code(0)) + [Code(1)]
  {
  }

  /** Within atom `i`'s row, feature `j` fills the columns after the widths of the features
      before it, with exactly that feature's encoding of the atom. */
  lemma NodeFeatureSegment<A, B, V>(mol: Mol<A, B>, conformer: Option<seq<Point>>,
                                        atomFeatures: seq<Feature<A, V>>, bondFeatures: seq<Feature<B, V>>,
                                        oneHot: bool, masterNode: bool, i: nat, j: nat)
    requires Assemble(mol, conformer, atomFeatures, bondFeatures, oneHot, masterNode).Ok?
    requires i < |mol.atoms| && j < |atomFeatures|
    ensures var row := Assemble(mol, conformer, atomFeatures, bondFeatures, oneHot, masterNode).value.graph.nodeAttr[i];
            var f, lo := atomFeatures[j], RowWidth(atomFeatures[..j], oneHot);
            && EncodableValue(f.domain, f.extract(mol.atoms[i]), oneHot)
            && lo + Width(f.domain, oneHot) <= |row|
            && row[lo .. lo + Width(f.domain, oneHot)] == Encode(f.domain, f.extract(mol.atoms[i]), oneHot).entries
  {
    AssembleOrder(mol, conformer, atomFeatures, bondFeatures, oneHot, masterNode);
    var row := Assemble(mol, conformer, atomFeatures, bondFeatures, oneHot, masterNode).value.graph.nodeAttr[i];
    var entries := Row(atomFeatures, mol.atoms[i], oneHot).entries;
    var tail: seq<Entry<V>> := if masterNode then [Code(0)] else [];
    assert row == entries + tail;
    RowSegment(atomFeatures, mol.atoms[i], oneHot, j);
    var lo := RowWidth(atomFeatures[..j], oneHot);
    SliceInLeft(entries, tail, lo, lo + Width(atomFeatures[j].domain, oneHot));
  }

  /** Within bond `k`'s row, feature `j` fills the columns after the widths of the features
      before it, with exactly that feature's encoding of the bond. */
  lemma EdgeFeatureSegment<A, B, V>(mol: Mol<A, B>, conformer: Option<seq<Point>>,
                                        atomFeatures: seq<Feature<A, V>>, bondFeatures: seq<Feature<B, V>>,
                                        oneHot: bool, masterNode: bool, k: nat, j: nat)
    requires Assemble(mol, conformer, atomFeatures, bondFeatures, oneHot, masterNode).Ok?
    requires k < |mol.bonds| && j < |bondFeatures|
    ensures var row := Assemble(mol, conformer, atomFeatures, bondFeatures, oneHot, masterNode).value.graph.edgeAttr[k];
            var f, lo := bondFeatures[j], RowWidth(bondFeatures[..j], oneHot);
            && EncodableValue(f.domain, f.extract(mol.bonds[k]), oneHot)
            && lo + Width(f.domain, oneHot) <= |row|
            && row[lo .. lo + Width(f.domain, oneHot)] == Encode(f.domain, f.extract(mol.bonds[k]), oneHot).entries
  {
    AssembleOrder(mol, conformer, atomFeatures, bondFeatures, oneHot, masterNode);
    var row := Assemble(mol, conformer, atomFeatures, bondFeatures, oneHot, masterNode).value.graph.edgeAttr[k];
    var entries := Row(bondFeatures, mol.bonds[k], oneHot).entries;
    var tail: seq<Entry<V>> := if masterNode then [Code(0)] else [];
    assert row == entries + tail;
    RowSegment(bondFeatures, mol.bonds[k], oneHot, j);
    var lo := RowWidth(bondFeatures[..j], oneHot);
    SliceInLeft(entries, tail, lo, lo + Width(bondFeatures[j].domain, oneHot));
  }

  /** Index mode round-trips: the code stored for a categorical atom feature indexes its
      domain at the atom's value. */
  lemma IndexModeDecodes<A, B, V>(mol: Mol<A, B>, conformer: Option<seq<Point>>,
                                      atomFeatures: seq<Feature<A, V>>, bondFeatures: seq<Feature<B, V>>,
                                      masterNode: bool, i: nat, j: nat)
    requires Assemble(mol, conformer, atomFeatures, bondFeatures, false, masterNode).Ok?
    requires i < |mol.atoms| && j < |atomFeatures| && atomFeatures[j].domain.Categorical?
    ensures var row := Assemble(mol, conformer, atomFeatures, bondFeatures, false, masterNode).value.graph.nodeAttr[i];
            var f, lo := atomFeatures[j], RowWidth(atomFeatures[..j], false);
            && lo < |row| && row[lo].Code?
            && 0 <= row[lo].n < |f.domain.values| && f.domain.values[row[lo].n] == f.extract(mol.atoms[i])
  {
    NodeFeatureSegment(mol, conformer, atomFeatures, bondFeatures, false, masterNode, i, j);
    var lo := RowWidth(atomFeatures[..j], false);
    var row := Assemble(mol, conformer, atomFeatures, bondFeatures, false, masterNode).value.graph.nodeAttr[i];
    assert row[lo] == row[lo .. lo + 1][0];
  }

  /** Every warning a feature logs while encoding an item appears in the item's row log. */
  lemma {:induction false} RowLogIncludes<X, V>(fs: seq<Feature<X, V>>, x: X, oneHot: bool, j: nat)
    requires Encodable(fs, x, oneHot) && j < |fs|
    ensures forall w :: w in Encode(fs[j].domain, fs[j].extract(x), oneHot).log ==> w in Row(fs, x, oneHot).log
    decreases |fs|
  {
    var n := |fs| - 1;
    var init := fs[..n];
    assert Encodable(init, x, oneHot);
    if j < n {
      RowLogIncludes(init, x, oneHot, j);
      assert init[j] == fs[j];
    }
  }

  /** Every warning logged for item `k` appears in the log of all items. */
  lemma {:induction false} RowsLogIncludes<X, V>(fs: seq<Feature<X, V>>, xs: seq<X>, oneHot: bool, k: nat)
    requires AllEncodable(fs, xs, oneHot) && k < |xs|
    ensures forall w :: w in Row(fs, xs[k], oneHot).log ==> w in RowsLog(fs, xs, oneHot)
    decreases |xs|
  {
    var n := |xs| - 1;
    var init := xs[..n];
    assert AllEncodable(fs, init, oneHot);
    if k < n {
      RowsLogIncludes(fs, init, oneHot, k);
      assert init[k] == xs[k];
    }
  }

  /** A slice equal to a block of zeros has zeros at each of its columns. */
  lemma ZeroBlock<V>(row: seq<Entry<V>>, lo: nat, hi: nat)
    requires lo <= hi <= |row| && row[lo..hi] == seq(hi - lo, _ => Code(0))
    ensures forall c :: lo <= c < hi ==> row[c] == Code(0)
  {
    forall c | lo <= c < hi ensures row[c] == Code(0) {
      assert row[c] == row[lo..hi][c - lo];
    }
  }

  /** A warning logged while encoding atom `i` is in the returned log. */
  lemma AtomWarningReturned<A, B, V>(mol: Mol<A, B>, conformer: Option<seq<Point>>,
                                         atomFeatures: seq<Feature<A, V>>, bondFeatures: seq<Feature<B, V>>,
                                         oneHot: bool, masterNode: bool, i: nat, w: Warning<V>)
    requires Assemble(mol, conformer, atomFeatures, bondFeatures, oneHot, masterNode).Ok?
    requires i < |mol.atoms|
    requires AllEncodable(atomFeatures, mol.atoms, oneHot)
    requires w in Row(atomFeatures, mol.atoms[i], oneHot).log
    ensures w in Assemble(mol, conformer, atomFeatures, bondFeatures, oneHot, masterNode).value.log
  {
    RowsLogIncludes(atomFeatures, mol.atoms, oneHot, i);
  }

  /** An atom value outside its categorical domain in one-hot mode does not abort: its block
      of the row is all zeros, and the returned log records the value with its domain. */
  lemma UnknownAtomValue<A, B, V>(mol: Mol<A, B>, conformer: Option<seq<Point>>,
                                      atomFeatures: seq<Feature<A, V>>, bondFeatures: seq<Feature<B, V>>,
                                      masterNode: bool, i: nat, j: nat)
    requires conformer.None? || |conformer.value| == |mol.atoms|
    requires i < |mol.atoms| && j < |atomFeatures| && atomFeatures[j].domain.Categorical?
    requires atomFeatures[j].extract(mol.atoms[i]) !in atomFeatures[j].domain.values
    ensures var r := Assemble(mol, conformer, atomFeatures, bondFeatures, true, masterNode);
            var f, lo := atomFeatures[j], RowWidth(atomFeatures[..j], true);
            && r.Ok?
            && UnknownValue(f.extract(mol.atoms[i]), f.domain.values) in r.value.log
            && lo + |f.domain.values| <= |r.value.graph.nodeAttr[i]|
            && forall c :: lo <= c < lo + |f.domain.values| ==> r.value.graph.nodeAttr[i][c] == Code(0)
  {
    AssembleFails(mol, conformer, atomFeatures, bondFeatures, true, masterNode);
    var f := atomFeatures[j];
    var v := f.extract(mol.atoms[i]);
    var lo, hi := RowWidth(atomFeatures[..j], true), RowWidth(atomFeatures[..j], true) + |f.domain.values|;
    NodeFeatureSegment(mol, conformer, atomFeatures, bondFeatures, true, masterNode, i, j);
    AbsentBlock(f.domain.values, v);
    var row := Assemble(mol, conformer, atomFeatures, bondFeatures, true, masterNode).value.graph.nodeAttr[i];
    ZeroBlock(row, lo, hi);
    RowLogIncludes(atomFeatures, mol.atoms[i], true, j);
    AtomWarningReturned(mol, conformer, atomFeatures, bondFeatures, true, masterNode, i, UnknownValue(v, f.domain.values));
  }

  /** A molecule without bonds: without a master node there are no edges; with one, the
      edges are exactly `(i, n)` for every atom, each with the bond-row width plus one. The
      code as written aborts on such a molecule instead, however many atoms it has. */
  lemma NoBondMolecule<A, B, V>(mol: Mol<A, B>, conformer: Option<seq<Point>>,
                                    atomFeatures: seq<Feature<A, V>>, bondFeatures: seq<Feature<B, V>>,
                                    oneHot: bool, masterNode: bool)
    requires |mol.bonds| == 0
    requires Assemble(mol, conformer, atomFeatures, bondFeatures, oneHot, masterNode).Ok?
    ensures var g := Assemble(mol, conformer, atomFeatures, bondFeatures, oneHot, masterNode).value.graph;
            var n := |mol.atoms|;
            && (!masterNode ==> g.edgeIndex == [] && g.edgeAttr == [])
            && (masterNode ==>
                  && g.edgeIndex == MasterEdges(n) && |g.edgeAttr| == n
                  && forall i :: 0 <= i < n ==> g.edgeAttr[i] == seq(RowWidth(bondFeatures, oneHot), _ => Code(0)) + [Code(1)])
            && AllEncodable(atomFeatures, mol.atoms, oneHot) && AllEncodable(bondFeatures, mol.bonds, oneHot)
            && AddMasterNodeAsWritten(BaseGraph(mol, conformer, atomFeatures, bondFeatures, oneHot)) == Err(EmptyRows)
  {
    AssembleShape(mol, conformer, atomFeatures, bondFeatures, oneHot, masterNode);
    if masterNode {
      AssembleMasterNode(mol, conformer, atomFeatures, bondFeatures, oneHot);
    }
  }

  /** Whenever there is at least one atom and one bond, master-node augmentation as written
      and the corrected one agree. */
  lemma MasterNodeAgreesAsWritten<A, B, V>(mol: Mol<A, B>, conformer: Option<seq<Point>>,
                                               atomFeatures: seq<Feature<A, V>>, bondFeatures: seq<Feature<B, V>>, oneHot: bool)
    requires |mol.atoms| > 0 && |mol.bonds| > 0
    requires AllEncodable(atomFeatures, mol.atoms, oneHot) && AllEncodable(bondFeatures, mol.bonds, oneHot)
    ensures var g := BaseGraph(mol, conformer, atomFeatures, bondFeatures, oneHot);
            AddMasterNodeAsWritten(g) == Ok(AddMasterNode(g, RowWidth(atomFeatures, oneHot), RowWidth(bondFeatures, oneHot)))
  {
    var g := BaseGraph(mol, conformer, atomFeatures, bondFeatures, oneHot);
    var w, u := RowWidth(atomFeatures, oneHot), RowWidth(bondFeatures, oneHot);
    assert |WithFlagColumn(g.nodeAttr)[0]| == w + 1;
    assert |WithFlagColumn(g.edgeAttr)[0]| == u + 1;
  }

  /** The row widths of the catalogue example: 1 + 8 columns per atom, 22 per bond. */
  lemma CatalogueWidths<A, B>(isAromatic: A -> RDKit.Value, hybridization: A -> RDKit.Value, bondType: B -> RDKit.Value)
    ensures RowWidth([Catalogue.AtomFeature(Catalogue.AtomFeatureName.IsAromatic, isAromatic),
                      Catalogue.AtomFeature(Catalogue.Hybridization, hybridization)], true) == 9
    ensures RowWidth([Catalogue.BondFeature(Catalogue.BondType, bondType)], true) == 22
  {
    var aromatic := Catalogue.AtomFeature(Catalogue.AtomFeatureName.IsAromatic, isAromatic);
    var hybrid := Catalogue.AtomFeature(Catalogue.Hybridization, hybridization);
    var bond := Catalogue.BondFeature(Catalogue.BondType, bondType);
    assert Width(aromatic.domain, true) == 1;
    assert |hybrid.domain.values| == 8;
    assert |bond.domain.values| == 22;
    assert [aromatic, hybrid][..1] == [aromatic];
    assert [aromatic][..0] == [] && [bond][..0] == [];
    assert RowWidth([aromatic], true) == 1;
    assert RowWidth([aromatic, hybrid], true) == RowWidth([aromatic], true) + 8;
  }

  /** Three atoms described by aromaticity and hybridization, two bonds described by bond
      type, no conformer, one-hot mode and a master node: 4 node rows of width 1 + 8 + 1,
      5 edges (2 bonds and 3 master edges) with rows of width 22 + 1. */
  lemma CatalogueExample<A, B>(atoms: seq<A>, bonds: seq<B>, beginAtomIdx: B -> nat, endAtomIdx: B -> nat,
                               isAromatic: A -> RDKit.Value, hybridization: A -> RDKit.Value, bondType: B -> RDKit.Value)
    requires |atoms| == 3 && |bonds| == 2
    ensures var mol := Mol(atoms, bonds, beginAtomIdx, endAtomIdx, None);
            var atomFeatures := [Catalogue.AtomFeature(Catalogue.AtomFeatureName.IsAromatic, isAromatic),
                                 Catalogue.AtomFeature(Catalogue.Hybridization, hybridization)];
            var bondFeatures := [Catalogue.BondFeature(Catalogue.BondType, bondType)];
            var r := Assemble(mol, None, atomFeatures, bondFeatures, true, true);
            && r.Ok?
            && |r.value.graph.nodePos| == |r.value.graph.nodeAttr| == 4
            && (forall i :: 0 <= i < 4 ==> |r.value.graph.nodeAttr[i]| == 10)
            && |r.value.graph.edgeIndex| == |r.value.graph.edgeAttr| == 5
            && (forall j :: 0 <= j < 5 ==> |r.value.graph.edgeAttr[j]| == 23)
  {
    var mol := Mol(atoms, bonds, beginAtomIdx, endAtomIdx, None);
    var atomFeatures := [Catalogue.AtomFeature(Catalogue.AtomFeatureName.IsAromatic, isAromatic),
                         Catalogue.AtomFeature(Catalogue.Hybridization, hybridization)];
    var bondFeatures := [Catalogue.BondFeature(Catalogue.BondType, bondType)];
    AssembleFails(mol, None, atomFeatures, bondFeatures, true, true);
    AssembleShape(mol, None, atomFeatures, bondFeatures, true, true);
    CatalogueWidths(isAromatic, hybridization, bondType);
  }
}
