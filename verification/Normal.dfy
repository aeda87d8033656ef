/**
 The normal form of an encodable value: what it looks like once it has been through bytes. Named
 fields stand in the order of the type, one-field wrappers are explicit, 256-bit numbers used as
 lists are lists, integers carry the signedness of their type, a compact integer is wrapped as deep
 as its type, and every node carries the id of its type.
 */
module NormalForms {
  import opened Wrappers
  import opened ByteStrings
  import opened TypeRegistry
  import opened Values
  import opened ValueEncoding
  import opened ValueDecoding

  function NormPrimitive(p: Primitive, kind: PrimitiveKind): Primitive
    requires EncPrimitive(p, kind).Some?
  {
    match kind
    case UnsignedType(w) => IntWidthLimits(w); U128(AsUnsigned(p, w).value)
    case SignedType(w) => IntWidthLimits(w); I128(AsSigned(p, w).value)
    case _ => p
  }

  /** A compact integer inside the wrappers of its type. */
  function NormCompact(n: U128Int, id: TypeId, types: Registry): ValueDef<TypeId>
    decreases Rank(types, id)
  {
    if id >= |types| then PrimitiveValue(U128(n)) else
    match types[id].def
    case CompositeType(fields) =>
      if |fields| == 1 then
        FieldRank(types, id, 0);
        CompositeValue(Shape(fields, [Value(NormCompact(n, fields[0].ty, types), fields[0].ty)]))
      else PrimitiveValue(U128(n))
    case TupleType(ids) =>
      if |ids| == 1 then
        InlineRank(types, id, ids[0]);
        CompositeValue(Unnamed([Value(NormCompact(n, ids[0], types), ids[0])]))
      else PrimitiveValue(U128(n))
    case _ => PrimitiveValue(U128(n))
  }

  function Norm<T>(v: Value<T>, id: TypeId, types: Registry): Value<TypeId>
    requires Enc(v, id, types).Some?
    decreases Size(v), Rank(types, id), 0, 1
  {
    Value(NormDef(v, id, types), id)
  }

  function NormDef<T>(v: Value<T>, id: TypeId, types: Registry): ValueDef<TypeId>
    requires Enc(v, id, types).Some?
    decreases Size(v), Rank(types, id), 0, 0
  {
    match types[id].def
    case CompositeType(fields) =>
      if v.def.CompositeValue? then
        CompositeValue(NormFields(v.def.composite, fields, types))
      else
        FieldRank(types, id, 0);
        CompositeValue(Shape(fields, [Norm(v, fields[0].ty, types)]))
    case SequenceType(elem) =>
      var vs := Elements(v).value;
      CompositeValue(Unnamed(NormAll(vs, Repeat(elem, |vs|), types)))
    case ArrayType(len, elem) =>
      CompositeValue(Unnamed(NormAll(Elements(v).value, Repeat(elem, len), types)))
    case TupleType(ids) =>
      if v.def.CompositeValue? then
        SizeOfIntoValues(v.def.composite);
        CompositeValue(Unnamed(NormAll(v.def.composite.IntoValues(), ids, types)))
      else
        InlineRank(types, id, ids[0]);
        CompositeValue(Unnamed([Norm(v, ids[0], types)]))
    case VariantType(variants) =>
      var variant := FindName(variants, v.def.name).value;
      VariantValue(variant.name, NormFields(v.def.fields, variant.fields, types))
    case PrimitiveType(kind) => PrimitiveValue(NormPrimitive(v.def.prim, kind))
    case CompactType(param) =>
      var w := CompactWidth(param, types).value;
      var n := AsUnsigned(Innermost(v).value, w).value;
      Unsigned128(n, w);
      NormCompact(n, param, types)
    case BitSequenceType(store, order) => BitSequenceValue(BitsOf(v).value)
  }

  function NormFields<T>(c: Composite<T>, fields: seq<Field>, types: Registry): Composite<TypeId>
    requires EncFields(c, fields, types).Some?
    decreases CompositeSize(c), RankAll(types, FieldTypes(fields)), 2, 0
  {
    Shape(fields, NormAll(FieldValues(c, fields).value, FieldTypes(fields), types))
  }

  function NormAll<T>(vs: seq<Value<T>>, ids: seq<TypeId>, types: Registry): (ns: seq<Value<TypeId>>)
    requires |vs| == |ids| && EncAll(vs, ids, types).Some?
    ensures |ns| == |vs|
    decreases SizeAll(vs), RankAll(types, ids), 1, 0
  {
    if vs == [] then [] else [Norm(vs[0], ids[0], types)] + NormAll(vs[1..], ids[1..], types)
  }
}
