/** Conversion of a molecule into the generic graph: node positions, node attributes,
    the edge index and edge attributes, with an optional master node. */
module GenericGraph {
  import opened Outcomes
  import opened Features
  import opened Conformers

  /** The four collections the conversion returns. */
  datatype Graph<V> = Graph(
    nodePos: seq<Point>,
    nodeAttr: seq<seq<Entry<V>>>,
    edgeIndex: seq<(nat, nat)>,
    edgeAttr: seq<seq<Entry<V>>>)

  /** A successful conversion: the graph and the warnings logged while building it. */
  datatype Output<V> = Output(graph: Graph<V>, log: seq<Warning<V>>)

  /** `[0.] * width` with its last slot set to `1.`: the attribute row of the master node
      and of every edge to it. */
  function MasterFlagRow<V>(width: nat): (row: seq<Entry<V>>)
    requires width >= 1
    ensures |row| == width && row[width - 1] == Code(1)
    ensures forall i :: 0 <= i < width - 1 ==> row[i] == Code(0)
  {
    seq(width, _ => Code(0))[width - 1 := Code(1)]
  }

  /** Every row extended with one trailing `0.`. */
  function WithFlagColumn<V>(rows: seq<seq<Entry<V>>>): seq<seq<Entry<V>>>
  {
    seq(|rows|, i requires 0 <= i < |rows| => rows[i] + [Code(0)])
  }

  /** The edges `(i, n)` joining atoms `0 .. n-1` to the master node `n`, in atom order. */
  function MasterEdges(n: nat): seq<(nat, nat)>
  {
    seq(n, i => (i, n))
  }

  /** Master-node augmentation, with the widths of the atom and bond rows taken from their
      descriptors, so that it is defined when there are no atoms or no bonds. It keeps every
      original position, row and edge in place, extends each row by a trailing 0, and appends
      the master node at the origin, its flag row and the edges from every atom to it. */
  function AddMasterNode<V>(g: Graph<V>, nodeWidth: nat, edgeWidth: nat): (h: Graph<V>)
    ensures var n := |g.nodePos|;
            && |h.nodePos| == n + 1 && h.nodePos[..n] == g.nodePos && h.nodePos[n] == Origin
            && |h.nodeAttr| == |g.nodeAttr| + 1
            && (forall i :: 0 <= i < |g.nodeAttr| ==> h.nodeAttr[i] == g.nodeAttr[i] + [Code(0)])
            && |h.nodeAttr[|g.nodeAttr|]| == nodeWidth + 1
            && h.nodeAttr[|g.nodeAttr|][nodeWidth] == Code(1)
            && (forall c :: 0 <= c < nodeWidth ==> h.nodeAttr[|g.nodeAttr|][c] == Code(0))
            && |h.edgeIndex| == |g.edgeIndex| + n && h.edgeIndex[..|g.edgeIndex|] == g.edgeIndex
            && (forall i :: 0 <= i < n ==> h.edgeIndex[|g.edgeIndex| + i] == (i, n))
            && |h.edgeAttr| == |g.edgeAttr| + n
            && (forall j :: 0 <= j < |g.edgeAttr| ==> h.edgeAttr[j] == g.edgeAttr[j] + [Code(0)])
            && var masterEdgeAttr := h.edgeAttr[|g.edgeAttr|..];
               forall i :: 0 <= i < n ==>
                 |masterEdgeAttr[i]| == edgeWidth + 1 && masterEdgeAttr[i][edgeWidth] == Code(1)
                 && forall c :: 0 <= c < edgeWidth ==> masterEdgeAttr[i][c] == Code(0)
  {
    var n := |g.nodePos|;
    Graph(
      g.nodePos + [Origin],
      WithFlagColumn(g.nodeAttr) + [MasterFlagRow(nodeWidth + 1)],
      g.edgeIndex + MasterEdges(n),
      WithFlagColumn(g.edgeAttr) + seq(n, _ => MasterFlagRow(edgeWidth + 1)))
  }

  /** Master-node augmentation as written: the master rows take their width from the first
      extended node row and the first extended edge row, which do not exist without atoms
      or without bonds. */
  function AddMasterNodeAsWritten<V>(g: Graph<V>): (r: Result<Graph<V>>)
    ensures r.Err? <==> |g.nodeAttr| == 0 || |g.edgeAttr| == 0
  {
    var masterIndex := |g.nodePos|;
    var nodePos := g.nodePos + [Origin];
    var nodeAttr := WithFlagColumn(g.nodeAttr);
    if |nodeAttr| == 0 then Err(EmptyRows)
    else
      var masterNodeAttr := seq(|nodeAttr[0]|, _ => Code(0))[|nodeAttr[0]| - 1 := Code(1)];
      var edgeIndex := g.edgeIndex + MasterEdges(masterIndex);
      var edgeAttr := WithFlagColumn(g.edgeAttr);
      if |edgeAttr| == 0 then Err(EmptyRows)
      else
        var masterEdgeAttr := seq(|edgeAttr[0]|, _ => Code(0))[|edgeAttr[0]| - 1 := Code(1)];
        Ok(Graph(nodePos, nodeAttr + [masterNodeAttr], edgeIndex, edgeAttr + seq(masterIndex, _ => masterEdgeAttr)))
  }

  /** Positions from the conformer, or one zero triple per atom without one. */
  function NodePositions<A>(atoms: seq<A>, conformer: Option<seq<Point>>): seq<Point>
  {
    match conformer
    case Some(positions) => positions
    case None => seq(|atoms|, _ => Origin)
  }

  /** One `[begin, end]` pair per bond, in bond order, as the bond stores its endpoints. */
  function EdgeIndex<A, B>(mol: Mol<A, B>): seq<(nat, nat)>
  {
    seq(|mol.bonds|, j requires 0 <= j < |mol.bonds| => (mol.beginAtomIdx(mol.bonds[j]), mol.endAtomIdx(mol.bonds[j])))
  }

  function ConformerLog<V>(report: ConformerReport): seq<Warning<V>>
  {
    (if report.warnsNoZ then [NoZCoordinates] else []) + (if report.warnsInvalid then [InvalidCoordinates] else [])
  }

  /** The graph before master-node augmentation. */
  function BaseGraph<A, B, V(==)>(mol: Mol<A, B>, conformer: Option<seq<Point>>,
                                  atomFeatures: seq<Feature<A, V>>, bondFeatures: seq<Feature<B, V>>, oneHot: bool): Graph<V>
    requires AllEncodable(atomFeatures, mol.atoms, oneHot) && AllEncodable(bondFeatures, mol.bonds, oneHot)
  {
    Graph(NodePositions(mol.atoms, conformer), Rows(atomFeatures, mol.atoms, oneHot),
          EdgeIndex(mol), Rows(bondFeatures, mol.bonds, oneHot))
  }

  /** What `convert_mol_to_generic_graph` computes: abort on a conformer of the wrong size or
      on a value `tuple.index` cannot find, otherwise the graph and the warnings logged. */
  function Assemble<A, B, V(==)>(mol: Mol<A, B>, conformer: Option<seq<Point>>,
                                 atomFeatures: seq<Feature<A, V>>, bondFeatures: seq<Feature<B, V>>,
                                 oneHot: bool, masterNode: bool): (r: Result<Output<V>>)
    ensures r.Ok? <==> (conformer.None? || |conformer.value| == |mol.atoms|)
                       && AllEncodable(atomFeatures, mol.atoms, oneHot) && AllEncodable(bondFeatures, mol.bonds, oneHot)
    ensures r.Err? ==> r.error == ConformerSizeMismatch || r.error == ValueNotInDomain
    ensures r.Ok? ==>
              var g, n, m := r.value.graph, |mol.atoms|, |mol.bonds|;
              var flag := if masterNode then 1 else 0;
              |g.nodePos| == |g.nodeAttr| == n + flag && |g.edgeIndex| == |g.edgeAttr| == m + flag * n
  {
    if conformer.Some? && !CheckConformer(|mol.atoms|, conformer.value).sameSize then Err(ConformerSizeMismatch)
    else if !AllEncodable(atomFeatures, mol.atoms, oneHot) || !AllEncodable(bondFeatures, mol.bonds, oneHot) then
      Err(ValueNotInDomain)
    else
      var g := BaseGraph(mol, conformer, atomFeatures, bondFeatures, oneHot);
      var log := (if conformer.Some? then ConformerLog(CheckConformer(|mol.atoms|, conformer.value)) else [])
                 + RowsLog(atomFeatures, mol.atoms, oneHot) + RowsLog(bondFeatures, mol.bonds, oneHot);
      Ok(Output(if masterNode then AddMasterNode(g, RowWidth(atomFeatures, oneHot), RowWidth(bondFeatures, oneHot)) else g,
                log))
  }

  lemma RowsStep<X, V>(fs: seq<Feature<X, V>>, xs: seq<X>, i: nat, oneHot: bool)
    requires i < |xs| && AllEncodable(fs, xs[..i], oneHot) && Encodable(fs, xs[i], oneHot)
    ensures AllEncodable(fs, xs[..i + 1], oneHot)
    ensures Rows(fs, xs[..i + 1], oneHot) == Rows(fs, xs[..i], oneHot) + [Row(fs, xs[i], oneHot).entries]
    ensures RowsLog(fs, xs[..i + 1], oneHot) == RowsLog(fs, xs[..i], oneHot) + Row(fs, xs[i], oneHot).log
  {
    var pre, ext := xs[..i], xs[..i + 1];
    assert ext[..i] == pre && ext[i] == xs[i];
    assert AllEncodable(fs, ext, oneHot) by {
      forall k | 0 <= k < |ext| ensures Encodable(fs, ext[k], oneHot) {
        if k < i { assert ext[k] == pre[k]; }
      }
    }
    var rows := Rows(fs, ext, oneHot);
    assert |rows| == |pre| + 1;
    forall k | 0 <= k < |ext| ensures rows[k] == (Rows(fs, pre, oneHot) + [Row(fs, xs[i], oneHot).entries])[k] {
      if k < i { assert ext[k] == pre[k]; }
    }
  }

  lemma EdgeIndexStep<A, B>(mol: Mol<A, B>, j: nat)
    requires j < |mol.bonds|
    ensures EdgeIndex(mol)[..j + 1] == EdgeIndex(mol)[..j] + [(mol.beginAtomIdx(mol.bonds[j]), mol.endAtomIdx(mol.bonds[j]))]
  {
  }

  /** The loop over the atoms: one attribute row per atom, in atom order, or `None` where
      `tuple.index` raises. */
  method EncodeAtoms<A, V(==)>(atoms: seq<A>, atomFeatures: seq<Feature<A, V>>, oneHot: bool)
    returns (r: Option<(seq<seq<Entry<V>>>, seq<Warning<V>>)>)
    ensures r.Some? <==> AllEncodable(atomFeatures, atoms, oneHot)
    ensures r.Some? ==> r.value == (Rows(atomFeatures, atoms, oneHot), RowsLog(atomFeatures, atoms, oneHot))
  {
    var nodeAttr: seq<seq<Entry<V>>> := [];
    var log: seq<Warning<V>> := [];
    for i := 0 to |atoms|
      invariant AllEncodable(atomFeatures, atoms[..i], oneHot)
      invariant nodeAttr == Rows(atomFeatures, atoms[..i], oneHot)
      invariant log == RowsLog(atomFeatures, atoms[..i], oneHot)
    {
      var row := EncodeRow(atomFeatures, atoms[i], oneHot);
      if row.None? {
        return None;
      }
      RowsStep(atomFeatures, atoms, i, oneHot);
      nodeAttr := nodeAttr + [row.value.entries];
      log := log + row.value.log;
    }
    assert atoms[..|atoms|] == atoms;
    return Some((nodeAttr, log));
  }

  /** The loop over the bonds: one `[begin, end]` pair and one attribute row per bond, in
      bond order, or `None` where `tuple.index` raises. */
  method EncodeBonds<A, B, V(==)>(mol: Mol<A, B>, bondFeatures: seq<Feature<B, V>>, oneHot: bool)
    returns (r: Option<(seq<(nat, nat)>, seq<seq<Entry<V>>>, seq<Warning<V>>)>)
    ensures r.Some? <==> AllEncodable(bondFeatures, mol.bonds, oneHot)
    ensures r.Some? ==> r.value == (EdgeIndex(mol), Rows(bondFeatures, mol.bonds, oneHot), RowsLog(bondFeatures, mol.bonds, oneHot))
  {
    var edgeIndex: seq<(nat, nat)> := [];
    var edgeAttr: seq<seq<Entry<V>>> := [];
    var log: seq<Warning<V>> := [];
    for j := 0 to |mol.bonds|
      invariant AllEncodable(bondFeatures, mol.bonds[..j], oneHot)
      invariant edgeIndex == EdgeIndex(mol)[..j]
      invariant edgeAttr == Rows(bondFeatures, mol.bonds[..j], oneHot)
      invariant log == RowsLog(bondFeatures, mol.bonds[..j], oneHot)
    {
      var bond := mol.bonds[j];
      var row := EncodeRow(bondFeatures, bond, oneHot);
      if row.None? {
        return None;
      }
      RowsStep(bondFeatures, mol.bonds, j, oneHot);
      EdgeIndexStep(mol, j);
      edgeIndex := edgeIndex + [(mol.beginAtomIdx(bond), mol.endAtomIdx(bond))];
      edgeAttr := edgeAttr + [row.value.entries];
      log := log + row.value.log;
    }
    assert mol.bonds[..|mol.bonds|] == mol.bonds;
    assert EdgeIndex(mol)[..|mol.bonds|] == EdgeIndex(mol);
    return Some((edgeIndex, edgeAttr, log));
  }

  /** `convert_mol_to_generic_graph`: positions, then the atom rows, then the bond pairs and
      rows, then the master node. */
  method ConvertMolToGenericGraph<A, B, V(==)>(mol: Mol<A, B>, conformer: Option<seq<Point>>,
                                               atomFeatures: seq<Feature<A, V>>, bondFeatures: seq<Feature<B, V>>,
                                               oneHot: bool, masterNode: bool)
    returns (r: Result<Output<V>>)
    ensures r == Assemble(mol, conformer, atomFeatures, bondFeatures, oneHot, masterNode)
  {
    var log: seq<Warning<V>> := [];
    var nodePos: seq<Point>;
    if conformer.Some? {
      var report := CheckConformer(|mol.atoms|, conformer.value);
      log := ConformerLog(report);
      if !report.sameSize {
        return Err(ConformerSizeMismatch);
      }
      nodePos := conformer.value;
    } else {
      nodePos := seq(|mol.atoms|, _ => Origin);
    }

    var atoms := EncodeAtoms(mol.atoms, atomFeatures, oneHot);
    if atoms.None? {
      return Err(ValueNotInDomain);
    }
    var (nodeAttr, atomLog) := atoms.value;

    var bonds := EncodeBonds(mol, bondFeatures, oneHot);
    if bonds.None? {
      return Err(ValueNotInDomain);
    }
    var (edgeIndex, edgeAttr, bondLog) := bonds.value;

    var g := Graph(nodePos, nodeAttr, edgeIndex, edgeAttr);
    if masterNode {
      g := AddMasterNode(g, RowWidth(atomFeatures, oneHot), RowWidth(bondFeatures, oneHot));
    }
    r := Ok(Output(g, log + atomLog + bondLog));
  }
}
