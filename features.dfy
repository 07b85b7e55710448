/** Feature descriptors and the encoding of one atom's or one bond's attribute row. */
module Features {
  import opened Outcomes
  import opened Encoding

  datatype NumericKind = Int | Float | Bool

  /** The value domain of a feature, in place of the overloaded `returned_dtype` field:
      either a numeric type, or the ordered tuple of every value the extractor may return. */
  datatype Domain<V> = Numeric(kind: NumericKind) | Categorical(values: seq<V>)

  /** An `RDKitFeature`: an extractor applied to an atom or a bond, and its domain. */
  datatype Feature<!X, V> = Feature(extract: X -> V, domain: Domain<V>)

  /** One column of an attribute row: a numeric feature value appended as it is, or an
      integer code (a one-hot slot, a domain index, or a master-node flag). */
  datatype Entry<V> = Raw(value: V) | Code(n: int)

  /** The columns one feature (or one row) contributes, and the warnings it logged. */
  datatype Encoded<V> = Encoded(entries: seq<Entry<V>>, log: seq<Warning<V>>)

  /** How many columns a feature of domain `d` contributes. */
  function Width<V>(d: Domain<V>, oneHot: bool): nat
  {
    match d
    case Numeric(_) => 1
    case Categorical(values) => if oneHot then |values| else 1
  }

  /** False exactly when encoding would raise: index mode on a value outside the domain. */
  predicate EncodableValue<V(==)>(d: Domain<V>, v: V, oneHot: bool)
  {
    d.Numeric? || oneHot || v in d.values
  }

  function Codes<V>(s: seq<int>): seq<Entry<V>>
  {
    seq(|s|, i requires 0 <= i < |s| => Code(s[i]))
  }

  /** The contribution of one feature value to its row, as the code is documented to do it:
      one scalar for a numeric feature, the one-hot block, or the domain index. */
  function Encode<V(==)>(d: Domain<V>, v: V, oneHot: bool): (c: Encoded<V>)
    requires EncodableValue(d, v, oneHot)
    ensures |c.entries| == Width(d, oneHot)
    ensures d.Numeric? ==> c.entries == [Raw(v)]
    ensures d.Categorical? && oneHot ==>
              forall i :: 0 <= i < |d.values| ==>
                c.entries[i] == Code(if d.values[i] == v && v !in d.values[..i] then 1 else 0)
    ensures d.Categorical? && !oneHot ==>
              c.entries == [Code(FirstIndex(d.values, v))] && d.values[c.entries[0].n] == v
    ensures |c.log| <= 1 && (c.log != [] <==> d.Categorical? && oneHot && v !in d.values)
  {
    match d
    case Numeric(_) => Encoded([Raw(v)], [])
    case Categorical(values) =>
      if oneHot then
        var block := OneHot(v, values);
        assert forall i :: 0 <= i < |values| ==> (v !in values[..i] <==> forall j :: 0 <= j < i ==> values[j] != v);
        Encoded(Codes(block), if v in values then [] else [UnknownValue(v, values)])
      else
        Encoded([Code(FirstIndex(values, v))], [])
  }

  /** A one-hot value outside its domain contributes a block of zeros and one warning. */
  lemma AbsentBlock<V>(values: seq<V>, v: V)
    requires v !in values
    ensures Encode(Categorical(values), v, true) == Encoded(seq(|values|, _ => Code(0)), [UnknownValue(v, values)])
  {
    var c := Encode(Categorical(values), v, true);
    forall i | 0 <= i < |values| ensures c.entries[i] == Code(0) {
      assert values[i] != v;
    }
  }

  /** The Python type of the `returned_dtype` field: a numeric domain is stored as the class
      `int`, `float` or `bool`, whose type is `type`; a categorical domain is a tuple. */
  datatype PyType = IntType | FloatType | BoolType | TypeType | TupleType

  function PyTypeOf<V>(d: Domain<V>): PyType
  {
    match d
    case Numeric(_) => TypeType
    case Categorical(_) => TupleType
  }

  /** The contribution as written: the numeric test inspects the type of the field rather than
      the field, so it never holds, and a numeric feature reaches `len(int)` in one-hot mode
      or `int.index` in index mode. */
  function EncodeAsWritten<V(==)>(d: Domain<V>, v: V, oneHot: bool): (r: Result<Encoded<V>>)
    ensures r.Ok? ==> d.Categorical?
  {
    if PyTypeOf(d) in {IntType, FloatType, BoolType} then Ok(Encoded([Raw(v)], []))
    else if oneHot then
      match d
      case Numeric(_) => Err(NoLength)
      case Categorical(values) =>
        Ok(Encoded(Codes(OneHot(v, values)), if v in values then [] else [UnknownValue(v, values)]))
    else
      match d
      case Numeric(_) => Err(NoIndexMethod)
      case Categorical(values) =>
        if v in values then Ok(Encoded([Code(FirstIndex(values, v))], [])) else Err(ValueNotInDomain)
  }

  /** Every numeric feature aborts the conversion as written, in both encoding modes. */
  lemma NumericFeatureFailsAsWritten<V>(kind: NumericKind, v: V, oneHot: bool)
    ensures EncodeAsWritten(Numeric(kind), v, oneHot) == Err(if oneHot then NoLength else NoIndexMethod)
    ensures Encode(Numeric(kind), v, oneHot).entries == [Raw(v)]
  {
  }

  /** On categorical features the code as written and the corrected contribution agree. */
  lemma CategoricalAgreesAsWritten<V>(values: seq<V>, v: V, oneHot: bool)
    ensures EncodeAsWritten(Categorical(values), v, oneHot) ==
              if EncodableValue(Categorical(values), v, oneHot) then Ok(Encode(Categorical(values), v, oneHot))
              else Err(ValueNotInDomain)
  {
  }

  /** Every feature of the list can be encoded for item `x`. */
  predicate Encodable<X, V(==)>(fs: seq<Feature<X, V>>, x: X, oneHot: bool)
  {
    forall j :: 0 <= j < |fs| ==> EncodableValue(fs[j].domain, fs[j].extract(x), oneHot)
  }

  /** The width of a row built from the feature list: the sum of the features' widths. */
  function RowWidth<X, V>(fs: seq<Feature<X, V>>, oneHot: bool): nat
  {
    if fs == [] then 0 else RowWidth(fs[..|fs| - 1], oneHot) + Width(fs[|fs| - 1].domain, oneHot)
  }

  /** The attribute row of item `x`: the contributions of the features in descriptor order. */
  function Row<X, V(==)>(fs: seq<Feature<X, V>>, x: X, oneHot: bool): (r: Encoded<V>)
    requires Encodable(fs, x, oneHot)
    ensures |r.entries| == RowWidth(fs, oneHot)
    decreases |fs|
  {
    if fs == [] then Encoded([], [])
    else
      var init := Row(fs[..|fs| - 1], x, oneHot);
      var last := fs[|fs| - 1];
      var c := Encode(last.domain, last.extract(x), oneHot);
      Encoded(init.entries + c.entries, init.log + c.log)
  }

  /** A slice of `a + c` inside `a` is the same slice of `a`. */
  lemma SliceInLeft<T>(a: seq<T>, c: seq<T>, p: nat, q: nat)
    requires p <= q <= |a|
    ensures (a + c)[p..q] == a[p..q]
  {
  }

  /** The row of a non-empty feature list extends the row of all but its last feature. */
  lemma RowLast<X, V>(fs: seq<Feature<X, V>>, x: X, oneHot: bool)
    requires Encodable(fs, x, oneHot) && fs != []
    ensures Encodable(fs[..|fs| - 1], x, oneHot)
    ensures Row(fs, x, oneHot).entries
              == Row(fs[..|fs| - 1], x, oneHot).entries + Encode(fs[|fs| - 1].domain, fs[|fs| - 1].extract(x), oneHot).entries
  {
    var init := fs[..|fs| - 1];
    assert forall j :: 0 <= j < |init| ==> init[j] == fs[j];
  }

  /** The last feature of the list fills the last columns of the row. */
  lemma RowSegmentLast<X, V>(fs: seq<Feature<X, V>>, x: X, oneHot: bool)
    requires Encodable(fs, x, oneHot) && fs != []
    ensures var n := |fs| - 1;
            && RowWidth(fs[..n], oneHot) + Width(fs[n].domain, oneHot) == RowWidth(fs, oneHot)
            && Row(fs, x, oneHot).entries[RowWidth(fs[..n], oneHot) ..]
               == Encode(fs[n].domain, fs[n].extract(x), oneHot).entries
  {
    RowLast(fs, x, oneHot);
    var a := Row(fs[..|fs| - 1], x, oneHot).entries;
    var c := Encode(fs[|fs| - 1].domain, fs[|fs| - 1].extract(x), oneHot).entries;
    assert (a + c)[|a|..] == c;
  }

  /** Feature `j` occupies the columns from the width of the features before it to the width
      of the features up to it, and there holds exactly that feature's contribution. */
  lemma {:induction false} RowSegment<X, V>(fs: seq<Feature<X, V>>, x: X, oneHot: bool, j: nat)
    requires Encodable(fs, x, oneHot) && j < |fs|
    ensures RowWidth(fs[..j], oneHot) + Width(fs[j].domain, oneHot) <= RowWidth(fs, oneHot)
    ensures Row(fs, x, oneHot).entries[RowWidth(fs[..j], oneHot) .. RowWidth(fs[..j], oneHot) + Width(fs[j].domain, oneHot)]
              == Encode(fs[j].domain, fs[j].extract(x), oneHot).entries
    decreases |fs|
  {
    var n := |fs| - 1;
    if j == n {
      RowSegmentLast(fs, x, oneHot);
    } else {
      var init := fs[..n];
      RowLast(fs, x, oneHot);
      assert init[..j] == fs[..j] && init[j] == fs[j];
      RowSegment(init, x, oneHot, j);
      SliceInLeft(Row(init, x, oneHot).entries, Encode(fs[n].domain, fs[n].extract(x), oneHot).entries,
                  RowWidth(fs[..j], oneHot), RowWidth(fs[..j], oneHot) + Width(fs[j].domain, oneHot));
    }
  }

  /** Every item of `xs` can be encoded. */
  predicate AllEncodable<X, V(==)>(fs: seq<Feature<X, V>>, xs: seq<X>, oneHot: bool)
  {
    forall k :: 0 <= k < |xs| ==> Encodable(fs, xs[k], oneHot)
  }

  /** One attribute row per item, in item order, all of the same width. */
  function Rows<X, V(==)>(fs: seq<Feature<X, V>>, xs: seq<X>, oneHot: bool): (rows: seq<seq<Entry<V>>>)
    requires AllEncodable(fs, xs, oneHot)
    ensures |rows| == |xs|
    ensures forall k :: 0 <= k < |xs| ==> |rows[k]| == RowWidth(fs, oneHot)
  {
    seq(|xs|, k requires 0 <= k < |xs| => Row(fs, xs[k], oneHot).entries)
  }

  /** The warnings logged while encoding the items of `xs`, in item order. */
  function RowsLog<X, V(==)>(fs: seq<Feature<X, V>>, xs: seq<X>, oneHot: bool): seq<Warning<V>>
    requires AllEncodable(fs, xs, oneHot)
  {
    if xs == [] then [] else RowsLog(fs, xs[..|xs| - 1], oneHot) + Row(fs, xs[|xs| - 1], oneHot).log
  }

  /** The inner loop of the conversion: build one item's row feature by feature, stopping
      with `None` where `tuple.index` raises. */
  method EncodeRow<X, V(==)>(fs: seq<Feature<X, V>>, x: X, oneHot: bool) returns (r: Option<Encoded<V>>)
    ensures r.Some? <==> Encodable(fs, x, oneHot)
    ensures r.Some? ==> r.value == Row(fs, x, oneHot)
  {
    var entries: seq<Entry<V>> := [];
    var log: seq<Warning<V>> := [];
    for j := 0 to |fs|
      invariant Encodable(fs[..j], x, oneHot)
      invariant Encoded(entries, log) == Row(fs[..j], x, oneHot)
    {
      var f := fs[j];
      var v := f.extract(x);
      match f.domain {
        case Numeric(_) =>
          entries := entries + [Raw(v)];
        case Categorical(values) =>
          if oneHot {
            var block, warned := OneHotEncode(v, values);
            entries := entries + Codes(block);
            if warned {
              log := log + [UnknownValue(v, values)];
            }
          } else {
            var k := IndexOf(values, v);
            if k.None? {
              return None;
            }
            assert k.value == FirstIndex(values, v);
            entries := entries + [Code(k.value)];
          }
      }
      assert fs[..j + 1][..j] == fs[..j];
    }
    assert fs[..|fs|] == fs;
    r := Some(Encoded(entries, log));
  }
}
