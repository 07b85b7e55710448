/** One-hot encoding of a categorical value against an ordered tuple of possible values. */
module Encoding {
  import opened Outcomes

  /** The position `tuple.index` returns: the first occurrence of `v` in `s`. */
  function FirstIndex<V(==)>(s: seq<V>, v: V): (k: nat)
    requires v in s
    ensures k < |s| && s[k] == v
    ensures forall j :: 0 <= j < k ==> s[j] != v
  {
    if s[0] == v then 0
    else
      assert v in s[1..] by { assert s == [s[0]] + s[1..]; }
      1 + FirstIndex(s[1..], v)
  }

  /** `tuple.index` as a linear search; `None` where Python raises ValueError. */
  method IndexOf<V(==)>(s: seq<V>, v: V) returns (k: Option<nat>)
    ensures k.None? <==> v !in s
    ensures k.Some? ==> k.value < |s| && s[k.value] == v
    ensures k.Some? ==> forall j :: 0 <= j < k.value ==> s[j] != v
  {
    var i := 0;
    while i < |s|
      invariant 0 <= i <= |s|
      invariant forall j :: 0 <= j < i ==> s[j] != v
    {
      if s[i] == v {
        return Some(i);
      }
      i := i + 1;
    }
    return None;
  }

  function Zeros(n: nat): (r: seq<int>)
    ensures |r| == n && forall i :: 0 <= i < n ==> r[i] == 0
  {
    seq(n, _ => 0)
  }

  /** The indicator vector: one slot per possible value, and a 1 in exactly the slot
      of the first possible value equal to `value` (no slot at all when it is absent). */
  function OneHot<V(==)>(value: V, possibleValues: seq<V>): (r: seq<int>)
    ensures |r| == |possibleValues|
    ensures forall i :: 0 <= i < |r| ==> r[i] == 0 || r[i] == 1
    ensures forall i :: 0 <= i < |r| ==>
              (r[i] == 1 <==> possibleValues[i] == value && forall j :: 0 <= j < i ==> possibleValues[j] != value)
  {
    if possibleValues == [] then []
    else if possibleValues[0] == value then [1] + Zeros(|possibleValues| - 1)
    else [0] + OneHot(value, possibleValues[1..])
  }

  /** `one_hot_encode`: a zero-filled buffer with the slot found by `tuple.index` set to 1;
      when the search fails the buffer stays zero and a warning is reported instead. */
  method OneHotEncode<V(==)>(value: V, possibleValues: seq<V>) returns (encoding: seq<int>, warned: bool)
    ensures encoding == OneHot(value, possibleValues)
    ensures warned <==> value !in possibleValues
  {
    var slots := new int[|possibleValues|](_ => 0);
    var k := IndexOf(possibleValues, value);
    if k.Some? {
      slots[k.value] := 1;
      warned := false;
    } else {
      warned := true;
    }
    encoding := slots[..];
    ghost var expected := OneHot(value, possibleValues);
    forall i | 0 <= i < |encoding| ensures encoding[i] == expected[i] {
      if k.Some? && i > k.value {
        assert possibleValues[k.value] == value;
      }
    }
  }

  function Sum(s: seq<int>): int
  {
    if s == [] then 0 else s[0] + Sum(s[1..])
  }

  lemma {:induction false} ZerosSum(n: nat)
    ensures Sum(Zeros(n)) == 0
  {
    if n > 0 {
      assert Zeros(n)[1..] == Zeros(n - 1);
      ZerosSum(n - 1);
    }
  }

  /** The encoding holds a single 1 when the value is a possible value and none otherwise. */
  lemma {:induction false} OneHotSum<V>(value: V, possibleValues: seq<V>)
    ensures Sum(OneHot(value, possibleValues)) == if value in possibleValues then 1 else 0
  {
    if possibleValues != [] {
      var r := OneHot(value, possibleValues);
      if possibleValues[0] == value {
        assert r[1..] == Zeros(|possibleValues| - 1);
        ZerosSum(|possibleValues| - 1);
      } else {
        assert r[1..] == OneHot(value, possibleValues[1..]);
        OneHotSum(value, possibleValues[1..]);
        assert possibleValues == [possibleValues[0]] + possibleValues[1..];
      }
    }
  }

  /** One-hot mode and index mode agree: the 1 sits at the position `tuple.index` reports. */
  lemma OneHotAtFirstIndex<V>(value: V, possibleValues: seq<V>)
    requires value in possibleValues
    ensures var k := FirstIndex(possibleValues, value);
            OneHot(value, possibleValues)[k] == 1 &&
            forall i :: 0 <= i < |possibleValues| && i != k ==> OneHot(value, possibleValues)[i] == 0
  {
  }

  /** An absent value encodes to the all-zero vector of the same width. */
  lemma OneHotAbsent<V>(value: V, possibleValues: seq<V>)
    requires value !in possibleValues
    ensures OneHot(value, possibleValues) == Zeros(|possibleValues|)
  {
  }
}
