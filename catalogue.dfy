/** The RDKit enumerations the feature catalogue lists, and the values extractors return. */
module RDKit {

  datatype ChiralType = CHI_UNSPECIFIED | CHI_TETRAHEDRAL_CW | CHI_TETRAHEDRAL_CCW | CHI_OTHER

  datatype HybridizationType = UNSPECIFIED | S | SP | SP2 | SP3 | SP3D | SP3D2 | OTHER

  datatype BondDir = NONE | BEGINWEDGE | BEGINDASH | ENDDOWNRIGHT | ENDUPRIGHT | EITHERDOUBLE | UNKNOWN

  datatype BondType =
    | UNSPECIFIED | SINGLE | DOUBLE | TRIPLE | QUADRUPLE | QUINTUPLE | HEXTUPLE
    | ONEANDAHALF | TWOANDAHALF | THREEANDAHALF | FOURANDAHALF | FIVEANDAHALF
    | AROMATIC | IONIC | HYDROGEN | THREECENTER
    | DATIVEONE | DATIVE | DATIVEL | DATIVER | OTHER | ZERO

  datatype BondStereo = STEREONONE | STEREOANY | STEREOZ | STEREOE | STEREOCIS | STEREOTRANS

  /** Whatever an extractor may return. `OtherEnum` stands for an enumeration member that
      no catalogue tuple lists, such as a chirality tag added by a later RDKit release. */
  datatype Value =
    | IntValue(i: int)
    | FloatValue(x: real)
    | BoolValue(b: bool)
    | ChiralValue(chiral: ChiralType)
    | HybridizationValue(hybridization: HybridizationType)
    | BondDirValue(dir: BondDir)
    | BondTypeValue(bondType: BondType)
    | BondStereoValue(stereo: BondStereo)
    | OtherEnum(name: string)
}

/** The fixed catalogues of atom and bond features: each name paired with its domain. */
module Catalogue {
  import RDKit
  import opened Features

  datatype AtomFeatureName =
    | AtomicNumber | ChiralTag | Degree | ExplicitValence | FormalCharge | Hybridization
    | ImplicitValence | IsAromatic | IsInRing | Mass | NoImplicit | NumExplicitHs
    | NumImplicitHs | NumRadicalElectrons | TotalDegree | TotalNumHs | TotalValence

  datatype BondFeatureName =
    | BondDir | BondType | BondTypeAsDouble | IsAromatic | IsConjugated | IsInRing
    | Stereo | ValenceContrib

  const ChiralTypes: seq<RDKit.Value> := [
    RDKit.ChiralValue(RDKit.CHI_UNSPECIFIED),
    RDKit.ChiralValue(RDKit.CHI_TETRAHEDRAL_CW),
    RDKit.ChiralValue(RDKit.CHI_TETRAHEDRAL_CCW),
    RDKit.ChiralValue(RDKit.CHI_OTHER)]

  const HybridizationTypes: seq<RDKit.Value> := [
    RDKit.HybridizationValue(RDKit.HybridizationType.UNSPECIFIED),
    RDKit.HybridizationValue(RDKit.S),
    RDKit.HybridizationValue(RDKit.SP),
    RDKit.HybridizationValue(RDKit.SP2),
    RDKit.HybridizationValue(RDKit.SP3),
    RDKit.HybridizationValue(RDKit.SP3D),
    RDKit.HybridizationValue(RDKit.SP3D2),
    RDKit.HybridizationValue(RDKit.HybridizationType.OTHER)]

  const BondDirs: seq<RDKit.Value> := [
    RDKit.BondDirValue(RDKit.NONE),
    RDKit.BondDirValue(RDKit.BEGINWEDGE),
    RDKit.BondDirValue(RDKit.BEGINDASH),
    RDKit.BondDirValue(RDKit.ENDDOWNRIGHT),
    RDKit.BondDirValue(RDKit.ENDUPRIGHT),
    RDKit.BondDirValue(RDKit.EITHERDOUBLE),
    RDKit.BondDirValue(RDKit.UNKNOWN)]

  const BondTypes: seq<RDKit.Value> := [
    RDKit.BondTypeValue(RDKit.BondType.UNSPECIFIED),
    RDKit.BondTypeValue(RDKit.SINGLE),
    RDKit.BondTypeValue(RDKit.DOUBLE),
    RDKit.BondTypeValue(RDKit.TRIPLE),
    RDKit.BondTypeValue(RDKit.QUADRUPLE),
    RDKit.BondTypeValue(RDKit.QUINTUPLE),
    RDKit.BondTypeValue(RDKit.HEXTUPLE),
    RDKit.BondTypeValue(RDKit.ONEANDAHALF),
    RDKit.BondTypeValue(RDKit.TWOANDAHALF),
    RDKit.BondTypeValue(RDKit.THREEANDAHALF),
    RDKit.BondTypeValue(RDKit.FOURANDAHALF),
    RDKit.BondTypeValue(RDKit.FIVEANDAHALF),
    RDKit.BondTypeValue(RDKit.AROMATIC),
    RDKit.BondTypeValue(RDKit.IONIC),
    RDKit.BondTypeValue(RDKit.HYDROGEN),
    RDKit.BondTypeValue(RDKit.THREECENTER),
    RDKit.BondTypeValue(RDKit.DATIVEONE),
    RDKit.BondTypeValue(RDKit.DATIVE),
    RDKit.BondTypeValue(RDKit.DATIVEL),
    RDKit.BondTypeValue(RDKit.DATIVER),
    RDKit.BondTypeValue(RDKit.BondType.OTHER),
    RDKit.BondTypeValue(RDKit.ZERO)]

  const BondStereos: seq<RDKit.Value> := [
    RDKit.BondStereoValue(RDKit.STEREONONE),
    RDKit.BondStereoValue(RDKit.STEREOANY),
    RDKit.BondStereoValue(RDKit.STEREOZ),
    RDKit.BondStereoValue(RDKit.STEREOE),
    RDKit.BondStereoValue(RDKit.STEREOCIS),
    RDKit.BondStereoValue(RDKit.STEREOTRANS)]

  predicate Distinct<V(==)>(s: seq<V>)
  {
    forall i, j :: 0 <= i < j < |s| ==> s[i] != s[j]
  }

  /** The domain `RDKitAtomFeatures` records for each atom feature. Exactly the chiral tag and
      the hybridization are categorical, with 4 and 8 values, and no tuple repeats a value. */
  function AtomDomain(name: AtomFeatureName): (d: Domain<RDKit.Value>)
    ensures d.Categorical? <==> name == ChiralTag || name == Hybridization
    ensures d.Categorical? ==> Distinct(d.values)
    ensures name == ChiralTag ==> |d.values| == 4
    ensures name == Hybridization ==> |d.values| == 8
  {
    match name
    case AtomicNumber => Numeric(Int)
    case ChiralTag => Categorical(ChiralTypes)
    case Degree => Numeric(Int)
    case ExplicitValence => Numeric(Int)
    case FormalCharge => Numeric(Int)
    case Hybridization => Categorical(HybridizationTypes)
    case ImplicitValence => Numeric(Int)
    case IsAromatic => Numeric(Bool)
    case IsInRing => Numeric(Bool)
    case Mass => Numeric(Float)
    case NoImplicit => Numeric(Bool)
    case NumExplicitHs => Numeric(Int)
    case NumImplicitHs => Numeric(Int)
    case NumRadicalElectrons => Numeric(Int)
    case TotalDegree => Numeric(Int)
    case TotalNumHs => Numeric(Int)
    case TotalValence => Numeric(Int)
  }

  /** The domain `RDKitBondFeatures` records for each bond feature. Exactly the direction, the
      type and the stereo are categorical, with 7, 22 and 6 values, none repeated. */
  function BondDomain(name: BondFeatureName): (d: Domain<RDKit.Value>)
    ensures d.Categorical? <==> name == BondDir || name == BondType || name == Stereo
    ensures d.Categorical? ==> Distinct(d.values)
    ensures name == BondDir ==> |d.values| == 7
    ensures name == BondType ==> |d.values| == 22
    ensures name == Stereo ==> |d.values| == 6
  {
    match name
    case BondDir => Categorical(BondDirs)
    case BondType => Categorical(BondTypes)
    case BondTypeAsDouble => Numeric(Float)
    case IsAromatic => Numeric(Bool)
    case IsConjugated => Numeric(Bool)
    case IsInRing => Numeric(Bool)
    case Stereo => Categorical(BondStereos)
    case ValenceContrib => Numeric(Float)
  }

  /** A catalogue atom feature, given the RDKit accessor that computes it. */
  function AtomFeature<A>(name: AtomFeatureName, rdkitFunction: A -> RDKit.Value): Feature<A, RDKit.Value>
  {
    Feature(rdkitFunction, AtomDomain(name))
  }

  /** A catalogue bond feature, given the RDKit accessor that computes it. */
  function BondFeature<B>(name: BondFeatureName, rdkitFunction: B -> RDKit.Value): Feature<B, RDKit.Value>
  {
    Feature(rdkitFunction, BondDomain(name))
  }
}
