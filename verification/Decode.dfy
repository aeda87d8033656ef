/**
 What `decode_value_as_type` reads: the value and the bytes it leaves, `None` when it fails.

 `zeroPad` is false in the source. The stricter reading, which also wants the unused bits of every
 bit sequence to be zero, says exactly which inputs survive decoding and encoding unchanged.
 */
module ValueDecoding {
  import opened Wrappers
  import opened ByteStrings
  import opened CompactIntegers
  import opened BitPacking
  import opened TypeRegistry
  import opened Values
  import opened ValueEncoding

  // ----- primitives

  function DecSigned(data: Bytes, w: IntWidth): (r: Option<(int, Bytes)>)
    ensures r.Some? ==> -SignedLimit(w) <= r.value.0 < SignedLimit(w) && |r.value.1| <= |data|
  {
    var (n, rest) :- DecLE(data, w);
    Some((if n < SignedLimit(w) then n else n - Pow256(w), rest))
  }

  function DecString(data: Bytes): (r: Option<(Utf8, Bytes)>)
    ensures r.Some? ==> |r.value.1| <= |data|
  {
    var (n, data') :- DecCompact(data, U32_MAX);
    var (s, rest) :- Take(data', n);
    if ValidUtf8(s) then Some((s, rest)) else None
  }

  predicate IsScalarValue(n: int) {
    0 <= n < 0xD800 || 0xE000 <= n < 0x11_0000
  }

  lemma IntWidthLimits(w: IntWidth)
    ensures Pow256(w) <= 0x1_0000_0000_0000_0000_0000_0000_0000_0000
    ensures SignedLimit(w) <= 0x8000_0000_0000_0000_0000_0000_0000_0000
  {
    Pow256Values();
  }

  function DecPrimitive(data: Bytes, kind: PrimitiveKind): (r: Option<(Primitive, Bytes)>)
    ensures r.Some? ==> |r.value.1| <= |data|
  {
    match kind
    case BoolType => if data != [] && data[0] < 2 then Some((Bool(data[0] == 1), data[1..])) else None
    case CharType =>
      var (n, rest) :- DecLE(data, 4);
      if IsScalarValue(n) then Some((Char(n as char), rest)) else None
    case StrType => var (s, rest) :- DecString(data); Some((Str(s), rest))
    case U256Type => var (bs, rest) :- Take(data, 32); Some((U256(bs), rest))
    case I256Type => var (bs, rest) :- Take(data, 32); Some((I256(bs), rest))
    case UnsignedType(w) =>
      var (n, rest) :- DecLE(data, w);
      IntWidthLimits(w);
      Some((U128(n), rest))
    case SignedType(w) =>
      var (n, rest) :- DecSigned(data, w);
      IntWidthLimits(w);
      Some((I128(n), rest))
  }

  // ----- compact integers

  /** Decode the integer itself: the type must be a chain of one-field composites. */
  function DecCompactValue(data: Bytes, param: TypeId, types: Registry): (r: Option<(ValueDef<TypeId>, Bytes)>)
    ensures r.Some? ==> |r.value.1| < |data|
    decreases Rank(types, param)
  {
    if param >= |types| then None else
    match types[param].def
    case PrimitiveType(UnsignedType(w)) =>
      var (n, rest) :- DecCompact(data, Pow256(w) - 1);
      IntWidthLimits(w);
      Some((PrimitiveValue(U128(n)), rest))
    case CompositeType(fields) =>
      if |fields| != 1 then None else
      FieldRank(types, param, 0);
      var (inner, rest) :- DecCompactValue(data, fields[0].ty, types);
      Some((CompositeValue(Shape(fields, [Value(inner, fields[0].ty)])), rest))
    case _ => None
  }

  // ----- values

  /** Decoded fields, named if any field of the type is. */
  function Shape<T>(fields: seq<Field>, vs: seq<Value<T>>): (c: Composite<T>)
    requires |fields| == |vs|
    ensures c.Len() == |vs| && (c.Named? <==> AnyNamed(fields))
  {
    if AnyNamed(fields) then Named(WithNames(fields, vs)) else Unnamed(vs)
  }

  function WithNames<T>(fields: seq<Field>, vs: seq<Value<T>>): (pairs: seq<NamedValue<T>>)
    requires |fields| == |vs|
    ensures |pairs| == |vs|
  {
    seq(|vs|, i requires 0 <= i < |vs| => NamedValue(NameOrEmpty(fields[i]), vs[i]))
  }

  function NameOrEmpty(f: Field): string {
    if f.name.Some? then f.name.value else ""
  }

  function Dec(data: Bytes, id: TypeId, types: Registry, zeroPad: bool): (r: Option<(Value<TypeId>, Bytes)>)
    ensures r.Some? ==> |r.value.1| <= |data|
    decreases |data|, Rank(types, id), 0, 1
  {
    var (def, rest) :- DecDef(data, id, types, zeroPad);
    Some((Value(def, id), rest))
  }

  function DecDef(data: Bytes, id: TypeId, types: Registry, zeroPad: bool): (r: Option<(ValueDef<TypeId>, Bytes)>)
    ensures r.Some? ==> |r.value.1| <= |data|
    decreases |data|, Rank(types, id), 0, 0
  {
    if id >= |types| then None else
    match types[id].def
    case CompositeType(fields) =>
      InlineRankAll(types, id, FieldTypes(fields));
      var (vs, rest) :- DecAll(data, FieldTypes(fields), types, zeroPad);
      Some((CompositeValue(Shape(fields, vs)), rest))
    case SequenceType(elem) =>
      var (n, data') :- DecCompact(data, U64_MAX);
      var (vs, rest) :- DecAll(data', Repeat(elem, n), types, zeroPad);
      Some((CompositeValue(Unnamed(vs)), rest))
    case ArrayType(len, elem) =>
      InlineRankAll(types, id, Repeat(elem, len));
      var (vs, rest) :- DecAll(data, Repeat(elem, len), types, zeroPad);
      Some((CompositeValue(Unnamed(vs)), rest))
    case TupleType(ids) =>
      InlineRankAll(types, id, ids);
      var (vs, rest) :- DecAll(data, ids, types, zeroPad);
      Some((CompositeValue(Unnamed(vs)), rest))
    case VariantType(variants) =>
      if data == [] then None else
      var variant :- FindIndex(variants, data[0]);
      var (vs, rest) :- DecAll(data[1..], FieldTypes(variant.fields), types, zeroPad);
      Some((VariantValue(variant.name, Shape(variant.fields, vs)), rest))
    case PrimitiveType(kind) =>
      var (p, rest) :- DecPrimitive(data, kind);
      Some((PrimitiveValue(p), rest))
    case CompactType(param) => DecCompactValue(data, param, types)
    case BitSequenceType(store, order) =>
      var (w, o) :- BitDetails(types, store, order);
      var (bits, rest) :- DecBits(data, w, o, zeroPad);
      Some((BitSequenceValue(bits), rest))
  }

  /** One value after the other, each of its own type. */
  function DecAll(data: Bytes, ids: seq<TypeId>, types: Registry,
                  zeroPad: bool): (r: Option<(seq<Value<TypeId>>, Bytes)>)
    ensures r.Some? ==> |r.value.0| == |ids| && |r.value.1| <= |data|
    decreases |data|, RankAll(types, ids), 1, |ids|
  {
    if ids == [] then
      Some(([], data))
    else
      var (first, data') :- Dec(data, ids[0], types, zeroPad);
      var (others, rest) :- DecAll(data', ids[1..], types, zeroPad);
      Some(([first] + others, rest))
  }
}
