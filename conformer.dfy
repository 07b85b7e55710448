/** Molecules, conformers and the conformer check that precedes graph construction. */
module Conformers {
  import opened Outcomes

  /** A 3D atom position. Only comparisons with zero are ever made on its coordinates. */
  datatype Point = Point(x: real, y: real, z: real)

  const Origin: Point := Point(0.0, 0.0, 0.0)

  /** A molecule as the graph builder sees it: atoms and bonds in their stored order, the
      endpoint accessors of a bond, and the conformer the molecule itself carries, if any. */
  datatype Mol<A, !B> = Mol(
    atoms: seq<A>,
    bonds: seq<B>,
    beginAtomIdx: B -> nat,
    endAtomIdx: B -> nat,
    defaultConformer: Option<seq<Point>>)

  /** numpy's `any` over a vector of floats. */
  function AnyNonZero(s: seq<real>): (r: bool)
    ensures r <==> exists i :: 0 <= i < |s| && s[i] != 0.0
  {
    if s == [] then false else s[0] != 0.0 || AnyNonZero(s[1..])
  }

  /** numpy's `all` over a vector of booleans. */
  function All(s: seq<bool>): (r: bool)
    ensures r <==> forall i :: 0 <= i < |s| ==> s[i]
  {
    if s == [] then true else s[0] && All(s[1..])
  }

  function Coordinates(p: Point): seq<real>
  {
    [p.x, p.y, p.z]
  }

  /** The Z column `positions[:, 2]`. */
  function ZColumn(positions: seq<Point>): seq<real>
  {
    seq(|positions|, i requires 0 <= i < |positions| => positions[i].z)
  }

  /** What `check_conformer` returns, together with the two warnings it may log. */
  datatype ConformerReport = ConformerReport(sameSize: bool, warnsNoZ: bool, warnsInvalid: bool)

  /** The conformer check, comparing the atom count with the conformer it is given.
      The two warnings are computed through numpy's `any`/`all`; the contract restates
      them as plain statements about the positions, and the verdict depends on the counts only. */
  function CheckConformer(atomCount: nat, positions: seq<Point>): (r: ConformerReport)
    ensures r.sameSize <==> atomCount == |positions|
    ensures r.warnsNoZ <==> forall i :: 0 <= i < |positions| ==> positions[i].z == 0.0
    ensures r.warnsInvalid <==> exists i :: 0 <= i < |positions| && positions[i] == Origin
  {
    var zs := ZColumn(positions);
    var noZ := !AnyNonZero(zs);
    assert forall i :: 0 <= i < |positions| ==> zs[i] == positions[i].z;
    var valid := seq(|positions|, i requires 0 <= i < |positions| => AnyNonZero(Coordinates(positions[i])));
    assert forall i :: 0 <= i < |positions| ==> (!valid[i] <==> positions[i] == Origin) by {
      forall i | 0 <= i < |positions| ensures !valid[i] <==> positions[i] == Origin {
        var c := Coordinates(positions[i]);
        assert c[0] == positions[i].x && c[1] == positions[i].y && c[2] == positions[i].z;
      }
    }
    ConformerReport(atomCount == |positions|, noZ, !All(valid))
  }

  /** The check as written: the warnings come from the conformer argument, but the size
      comparison reads the molecule's own conformer, and fails when the molecule has none. */
  function CheckConformerAsWritten<A, B>(mol: Mol<A, B>, positions: seq<Point>): (r: Result<ConformerReport>)
    ensures r.Ok? <==> mol.defaultConformer.Some?
    ensures r.Ok? ==> (r.value.sameSize <==> |mol.atoms| == |mol.defaultConformer.value|)
  {
    var report := CheckConformer(|mol.atoms|, positions);
    match mol.defaultConformer
    case None => Err(BadConformerId)
    case Some(own) => Ok(ConformerReport(|mol.atoms| == |own|, report.warnsNoZ, report.warnsInvalid))
  }

  /** A one-atom molecule carrying its own one-position conformer, checked against an empty
      conformer argument: the check as written accepts it, the corrected check rejects it. */
  lemma CheckConformerAsWrittenAcceptsMismatch()
    ensures var mol := Mol([0], [], (b: int) => 0, (b: int) => 0, Some([Point(1.0, 1.0, 1.0)]));
            var r := CheckConformerAsWritten(mol, []);
            r.Ok? && r.value.sameSize && !CheckConformer(|mol.atoms|, []).sameSize
  {
  }
}
