/** Dynamic values, as `Value`, `ValueDef`, `Composite` and `Primitive` of the source. */
module Values {
  import opened ByteStrings

  /** A Rust string is a byte vector that holds valid UTF-8. */
  type Utf8 = bs: Bytes | ValidUtf8(bs)

  predicate ValidUtf8(bs: Bytes)
    decreases |bs|
  {
    if bs == [] then true
    else if bs[0] < 0x80 then ValidUtf8(bs[1..])
    else if 0xC2 <= bs[0] <= 0xDF then Continues(bs, 2, 0x80, 0xBF) && ValidUtf8(bs[2..])
    else if bs[0] == 0xE0 then Continues(bs, 3, 0xA0, 0xBF) && ValidUtf8(bs[3..])
    else if bs[0] == 0xED then Continues(bs, 3, 0x80, 0x9F) && ValidUtf8(bs[3..])
    else if 0xE1 <= bs[0] <= 0xEF then Continues(bs, 3, 0x80, 0xBF) && ValidUtf8(bs[3..])
    else if bs[0] == 0xF0 then Continues(bs, 4, 0x90, 0xBF) && ValidUtf8(bs[4..])
    else if 0xF1 <= bs[0] <= 0xF3 then Continues(bs, 4, 0x80, 0xBF) && ValidUtf8(bs[4..])
    else if bs[0] == 0xF4 then Continues(bs, 4, 0x80, 0x8F) && ValidUtf8(bs[4..])
    else false
  }

  /** A character of `len` bytes whose second byte lies in `lo..hi`. */
  predicate Continues(bs: Bytes, len: nat, lo: Byte, hi: Byte)
    requires len >= 2
  {
    && |bs| >= len
    && lo <= bs[1] <= hi
    && forall i :: 2 <= i < len ==> 0x80 <= bs[i] <= 0xBF
  }

  type Bytes32 = bs: Bytes | |bs| == 32 witness seq(32, _ => 0)

  datatype Primitive =
    | Bool(b: bool)
    | Char(c: char)
    | Str(s: Utf8)
    | U128(n: U128Int)
    | I128(i: I128Int)
    | U256(bytes: Bytes32)
    | I256(bytes: Bytes32)

  datatype Composite<T> =
    | Named(fields: seq<NamedValue<T>>)
    | Unnamed(values: seq<Value<T>>)
  {
    function Len(): nat {
      if Named? then |fields| else |values|
    }

    function IntoValues(): (vs: seq<Value<T>>)
      ensures |vs| == Len()
    {
      if Named? then PairValues(fields) else values
    }
  }

  datatype NamedValue<T> = NamedValue(name: string, value: Value<T>)

  datatype ValueDef<T> =
    | CompositeValue(composite: Composite<T>)
    | VariantValue(name: string, fields: Composite<T>)
    | BitSequenceValue(bits: seq<bool>)
    | PrimitiveValue(prim: Primitive)

  datatype Value<T> = Value(def: ValueDef<T>, context: T)

  function PairValues<T>(pairs: seq<NamedValue<T>>): (vs: seq<Value<T>>)
    ensures |vs| == |pairs|
    ensures forall i :: 0 <= i < |pairs| ==> vs[i] == pairs[i].value
  {
    if pairs == [] then [] else [pairs[0].value] + PairValues(pairs[1..])
  }

  /** One unsigned integer value per byte: how a 256-bit number is read as a list. */
  function UintValues<T>(bs: Bytes, context: T): (vs: seq<Value<T>>)
    ensures |vs| == |bs|
  {
    if bs == [] then [] else [Value(PrimitiveValue(U128(bs[0])), context)] + UintValues(bs[1..], context)
  }

  // ----- size, for termination: a 256-bit number is larger than the list of its bytes

  ghost function Size<T>(v: Value<T>): (n: nat)
    ensures n >= 1
  {
    match v.def
    case CompositeValue(c) => 1 + CompositeSize(c)
    case VariantValue(_, c) => 1 + CompositeSize(c)
    case PrimitiveValue(U256(bs)) => 1 + |bs|
    case PrimitiveValue(I256(bs)) => 1 + |bs|
    case _ => 1
  }

  ghost function CompositeSize<T>(c: Composite<T>): nat {
    match c
    case Named(pairs) => SizePairs(pairs)
    case Unnamed(vs) => SizeAll(vs)
  }

  ghost function SizeAll<T>(vs: seq<Value<T>>): nat {
    if vs == [] then 0 else Size(vs[0]) + SizeAll(vs[1..])
  }

  ghost function SizePairs<T>(pairs: seq<NamedValue<T>>): nat {
    if pairs == [] then 0 else Size(pairs[0].value) + SizePairs(pairs[1..])
  }

  lemma {:induction false} SizeOfPairValues<T>(pairs: seq<NamedValue<T>>)
    ensures SizeAll(PairValues(pairs)) == SizePairs(pairs)
  {
    if pairs != [] {
      SizeOfPairValues(pairs[1..]);
      assert PairValues(pairs)[1..] == PairValues(pairs[1..]);
    }
  }

  lemma SizeOfIntoValues<T>(c: Composite<T>)
    ensures SizeAll(c.IntoValues()) == CompositeSize(c)
  {
    if c.Named? {
      SizeOfPairValues(c.fields);
    }
  }

  lemma {:induction false} SizeOfUints<T>(bs: Bytes, context: T)
    ensures SizeAll(UintValues(bs, context)) == |bs|
  {
    if bs != [] {
      SizeOfUints(bs[1..], context);
      assert UintValues(bs, context)[1..] == UintValues(bs[1..], context);
    }
  }

  lemma {:induction false} SizePairsConcat<T>(ps: seq<NamedValue<T>>, qs: seq<NamedValue<T>>)
    ensures SizePairs(ps + qs) == SizePairs(ps) + SizePairs(qs)
  {
    if ps == [] {
      assert ps + qs == qs;
    } else {
      SizePairsConcat(ps[1..], qs);
      assert (ps + qs)[1..] == ps[1..] + qs;
    }
  }
}
