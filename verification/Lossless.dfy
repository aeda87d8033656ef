/**
 Encoding a decoded value always succeeds and gives as many bytes as were consumed. They are the
 consumed bytes themselves exactly when the unused bits of every bit sequence were zero.
 */
module LosslessDecoding {
  import opened Wrappers
  import opened ByteStrings
  import opened CompactIntegers
  import opened BitPacking
  import opened TypeRegistry
  import opened Values
  import opened ValueEncoding
  import opened ValueDecoding
  import opened NormalForms
  import opened FieldOrder

  /** `bs` is an encoding as long as what a reader took, and equal to it if `exact`. */
  ghost predicate Rebuilds(bs: Option<Bytes>, data: Bytes, rest: Bytes, exact: bool) {
    bs.Some? && |bs.value| + |rest| == |data| && (exact ==> bs.value + rest == data)
  }

  // ----- primitives

  lemma SignedLossless(data: Bytes, w: IntWidth)
    requires DecSigned(data, w).Some?
    ensures EncSigned(DecSigned(data, w).value.0, w) + DecSigned(data, w).value.1 == data
  {
    hide LE, FromLE, Pow256;
    LEOfDecLE(data, w);
  }

  lemma StringLossless(data: Bytes)
    requires DecString(data).Some?
    ensures var (s, rest) := DecString(data).value; EncString(s).Some? && EncString(s).value + rest == data
  {
    hide EncCompact, DecCompact, ValidUtf8;
    CompactLossless(data, U32_MAX);
    var (n, data') := DecCompact(data, U32_MAX).value;
    var (s, rest) := DecString(data).value;
    assert EncCompact(n) + (s + rest) == EncCompact(n) + s + rest;
  }

  lemma PrimitiveLossless(data: Bytes, kind: PrimitiveKind)
    requires DecPrimitive(data, kind).Some?
    ensures var (p, rest) := DecPrimitive(data, kind).value;
            && EncPrimitive(p, kind).Some?
            && EncPrimitive(p, kind).value + rest == data
            && NormPrimitive(p, kind) == p
  {
    hide LE, FromLE, DecLE, DecSigned, EncSigned, DecString, EncString, Pow256;
    match kind
    case BoolType => assert [data[0]] + data[1..] == data;
    case CharType => LEOfDecLE(data, 4);
    case StrType => StringLossless(data);
    case U256Type =>
    case I256Type =>
    case UnsignedType(w) => LEOfDecLE(data, w);
    case SignedType(w) => SignedLossless(data, w);
  }

  // ----- compact integers

  /** The loop over the value unwraps exactly what the recursion over the type wrapped. */
  lemma {:induction false} CompactValueLossless(data: Bytes, param: TypeId, types: Registry, context: TypeId)
    requires DecCompactValue(data, param, types).Some?
    ensures var (def, rest) := DecCompactValue(data, param, types).value;
            var p := Innermost(Value(def, context));
            && CompactWidth(param, types).Some?
            && p.Some? && p.value.U128? && p.value.n < Pow256(CompactWidth(param, types).value)
            && EncCompact(p.value.n) + rest == data
            && NormCompact(p.value.n, param, types) == def
    decreases Rank(types, param)
  {
    hide EncCompact, DecCompact, Pow256;
    match types[param].def
    case PrimitiveType(UnsignedType(w)) =>
      IntWidthLimits(w);
      CompactLossless(data, Pow256(w) - 1);
    case CompositeType(fields) =>
      FieldRank(types, param, 0);
      CompactValueLossless(data, fields[0].ty, types, fields[0].ty);
      var inner := Value(DecCompactValue(data, fields[0].ty, types).value.0, fields[0].ty);
      var c := Shape(fields, [inner]);
      ShapeValues(fields, [inner]);
      assert c.IntoValues()[0] == inner;
  }

  lemma ShapeValues<T>(fields: seq<Field>, vs: seq<Value<T>>)
    requires |fields| == |vs|
    ensures Shape(fields, vs).IntoValues() == vs
  {
  }

  // ----- values

  lemma {:induction false} ValueLossless(data: Bytes, id: TypeId, types: Registry, zeroPad: bool)
    requires WellFormed(types) && Dec(data, id, types, zeroPad).Some?
    ensures var (v, rest) := Dec(data, id, types, zeroPad).value;
            Rebuilds(Enc(v, id, types), data, rest, zeroPad) && Norm(v, id, types) == v
    decreases |data|, Rank(types, id), 0
  {
    hide EncPrimitive, DecPrimitive, EncCompact, DecCompact, EncBits, DecBits, CompactWidth, Innermost;
    hide FindName, FindIndex, Shape, EncAll, DecAll, NormAll, FieldValues, BitDetails, NormCompact;
    hide DecCompactValue, NormPrimitive, Pow256;
    var (v, rest) := Dec(data, id, types, zeroPad).value;
    match types[id].def
    case CompositeType(fields) =>
      InlineRankAll(types, id, FieldTypes(fields));
      FieldsLossless(data, fields, types, zeroPad);
    case SequenceType(elem) =>
      CompactLossless(data, U64_MAX);
      var (n, data') := DecCompact(data, U64_MAX).value;
      AllLossless(data', Repeat(elem, n), types, zeroPad);
      var vs := DecAll(data', Repeat(elem, n), types, zeroPad).value.0;
      assert Elements(v) == Some(vs);
      var body := EncAll(vs, Repeat(elem, n), types).value;
      assert EncCompact(n) + (body + rest) == EncCompact(n) + body + rest;
      assert |EncCompact(n) + data'| == |data|;
    case ArrayType(len, elem) =>
      InlineRankAll(types, id, Repeat(elem, len));
      AllLossless(data, Repeat(elem, len), types, zeroPad);
    case TupleType(ids) =>
      InlineRankAll(types, id, ids);
      AllLossless(data, ids, types, zeroPad);
    case VariantType(variants) =>
      var variant := FindIndex(variants, data[0]).value;
      VariantLookups(variants, variant);
      FieldsLossless(data[1..], variant.fields, types, zeroPad);
      var body := EncFields(v.def.fields, variant.fields, types).value;
      assert data == [data[0]] + data[1..];
      assert [data[0]] + body + rest == [data[0]] + (body + rest);
    case PrimitiveType(kind) => PrimitiveLossless(data, kind);
    case CompactType(param) =>
      CompactValueLossless(data, param, types, id);
      assert EncCompactValue(v, param, types).Some?;
    case BitSequenceType(store, order) =>
      var (w, o) := BitDetails(types, store, order).value;
      BitsLossless(data, w, o, zeroPad);
  }

  lemma {:induction false} FieldsLossless(data: Bytes, fields: seq<Field>, types: Registry, zeroPad: bool)
    requires WellFormed(types) && UniformFields(fields)
    requires DecAll(data, FieldTypes(fields), types, zeroPad).Some?
    ensures var (vs, rest) := DecAll(data, FieldTypes(fields), types, zeroPad).value;
            var c := Shape(fields, vs);
            Rebuilds(EncFields(c, fields, types), data, rest, zeroPad) && NormFields(c, fields, types) == c
    decreases |data|, RankAll(types, FieldTypes(fields)), 2, 0
  {
    hide EncAll, DecAll, NormAll, Shape, FieldValues;
    var (vs, rest) := DecAll(data, FieldTypes(fields), types, zeroPad).value;
    ShapeFieldValues(fields, vs);
    AllLossless(data, FieldTypes(fields), types, zeroPad);
  }

  lemma {:induction false} AllLossless(data: Bytes, ids: seq<TypeId>, types: Registry, zeroPad: bool)
    requires WellFormed(types) && DecAll(data, ids, types, zeroPad).Some?
    ensures var (vs, rest) := DecAll(data, ids, types, zeroPad).value;
            Rebuilds(EncAll(vs, ids, types), data, rest, zeroPad) && NormAll(vs, ids, types) == vs
    decreases |data|, RankAll(types, ids), 1, |ids|
  {
    hide Enc, Dec, Norm;
    var (vs, rest) := DecAll(data, ids, types, zeroPad).value;
    if ids != [] {
      ValueLossless(data, ids[0], types, zeroPad);
      var (first, data') := Dec(data, ids[0], types, zeroPad).value;
      AllLossless(data', ids[1..], types, zeroPad);
      assert vs[1..] == DecAll(data', ids[1..], types, zeroPad).value.0;
      var p, q := Enc(first, ids[0], types).value, EncAll(vs[1..], ids[1..], types).value;
      assert p + (q + rest) == p + q + rest;
    }
  }
}
