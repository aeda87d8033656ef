/** The decoder as it runs: one method per kind of type, all advancing the same cursor. */
module Decoder {
  import opened Wrappers
  import opened ByteStrings
  import opened CompactIntegers
  import opened BitPacking
  import opened TypeRegistry
  import opened Values
  import opened ValueEncoding
  import opened ValueDecoding
  import opened Streams

  /** The outcome of reading with `spec` from `before`. A failed read leaves some of the input. */
  ghost predicate Read<A>(spec: Option<(A, Bytes)>, before: Bytes, after: Bytes, r: Option<A>) {
    && (r.Some? <==> spec.Some?)
    && (r.Some? ==> spec.value == (r.value, after))
    && |after| <= |before|
  }

  method DecodeValueAsType(cur: Cursor, id: TypeId, types: Registry) returns (r: Option<Value<TypeId>>)
    modifies cur
    ensures Read(Dec(old(cur.data), id, types, false), old(cur.data), cur.data, r)
    decreases |cur.data|, Rank(types, id), 0, 2
  {
    hide DecAll, DecPrimitive, DecCompact, DecCompactValue, DecBits, BitDetails, Shape, FindIndex;
    if id >= |types| {
      return None;
    }
    var def: Option<ValueDef<TypeId>>;
    match types[id].def {
      case CompositeType(fields) => def := DecodeCompositeValue(cur, id, fields, types);
      case SequenceType(elem) => def := DecodeSequenceValue(cur, id, elem, types);
      case ArrayType(len, elem) => def := DecodeArrayValue(cur, id, len, elem, types);
      case TupleType(ids) => def := DecodeTupleValue(cur, id, ids, types);
      case VariantType(variants) => def := DecodeVariantValue(cur, id, variants, types);
      case PrimitiveType(kind) => def := DecodePrimitiveValue(cur, kind);
      case CompactType(param) => def := DecodeCompactValue(cur, param, types);
      case BitSequenceType(store, order) => def := DecodeBitSequenceValue(cur, store, order, types);
    }
    if def.None? {
      return None;
    }
    return Some(Value(def.value, id));
  }

  method DecodeCompositeValue(cur: Cursor, id: TypeId, fields: seq<Field>, types: Registry)
    returns (r: Option<ValueDef<TypeId>>)
    requires id < |types| && types[id].def == CompositeType(fields)
    modifies cur
    ensures Read(DecDef(old(cur.data), id, types, false), old(cur.data), cur.data, r)
    decreases |cur.data|, Rank(types, id), 0, 1
  {
    hide DecAll;
    InlineRankAll(types, id, FieldTypes(fields));
    var vs := DecodeEach(cur, FieldTypes(fields), types);
    if vs.None? {
      return None;
    }
    return Some(CompositeValue(Shape(fields, vs.value)));
  }

  method DecodeVariantValue(cur: Cursor, id: TypeId, variants: seq<VariantKind>, types: Registry)
    returns (r: Option<ValueDef<TypeId>>)
    requires id < |types| && types[id].def == VariantType(variants)
    modifies cur
    ensures Read(DecDef(old(cur.data), id, types, false), old(cur.data), cur.data, r)
    decreases |cur.data|, Rank(types, id), 0, 1
  {
    hide DecAll, Shape;
    if cur.data == [] {
      return None;
    }
    var index := cur.data[0];
    cur.data := cur.data[1..];
    var variant := FindIndex(variants, index);
    if variant.None? {
      return None;
    }
    var vs := DecodeEach(cur, FieldTypes(variant.value.fields), types);
    if vs.None? {
      return None;
    }
    return Some(VariantValue(variant.value.name, Shape(variant.value.fields, vs.value)));
  }

  method DecodeSequenceValue(cur: Cursor, id: TypeId, elem: TypeId, types: Registry)
    returns (r: Option<ValueDef<TypeId>>)
    requires id < |types| && types[id].def == SequenceType(elem)
    modifies cur
    ensures Read(DecDef(old(cur.data), id, types, false), old(cur.data), cur.data, r)
    decreases |cur.data|, Rank(types, id), 0, 1
  {
    hide DecAll, DecCompact;
    var len := DecCompact(cur.data, U64_MAX);
    if len.None? {
      return None;
    }
    cur.data := len.value.1;
    var vs := DecodeEach(cur, Repeat(elem, len.value.0), types);
    if vs.None? {
      return None;
    }
    return Some(CompositeValue(Unnamed(vs.value)));
  }

  method DecodeArrayValue(cur: Cursor, id: TypeId, len: nat, elem: TypeId, types: Registry)
    returns (r: Option<ValueDef<TypeId>>)
    requires id < |types| && types[id].def == ArrayType(len, elem)
    modifies cur
    ensures Read(DecDef(old(cur.data), id, types, false), old(cur.data), cur.data, r)
    decreases |cur.data|, Rank(types, id), 0, 1
  {
    hide DecAll;
    InlineRankAll(types, id, Repeat(elem, len));
    var vs := DecodeEach(cur, Repeat(elem, len), types);
    if vs.None? {
      return None;
    }
    return Some(CompositeValue(Unnamed(vs.value)));
  }

  method DecodeTupleValue(cur: Cursor, id: TypeId, ids: seq<TypeId>, types: Registry)
    returns (r: Option<ValueDef<TypeId>>)
    requires id < |types| && types[id].def == TupleType(ids)
    modifies cur
    ensures Read(DecDef(old(cur.data), id, types, false), old(cur.data), cur.data, r)
    decreases |cur.data|, Rank(types, id), 0, 1
  {
    hide DecAll;
    InlineRankAll(types, id, ids);
    var vs := DecodeEach(cur, ids, types);
    if vs.None? {
      return None;
    }
    return Some(CompositeValue(Unnamed(vs.value)));
  }

  function Behind(vs: seq<Value<TypeId>>,
                  more: Option<(seq<Value<TypeId>>, Bytes)>): Option<(seq<Value<TypeId>>, Bytes)> {
    var (others, rest) :- more;
    Some((vs + others, rest))
  }

  /** The loop of composites, sequences, arrays, tuples and variants. */
  method DecodeEach(cur: Cursor, ids: seq<TypeId>, types: Registry) returns (r: Option<seq<Value<TypeId>>>)
    modifies cur
    ensures Read(DecAll(old(cur.data), ids, types, false), old(cur.data), cur.data, r)
    decreases |cur.data|, RankAll(types, ids), 1, |ids|
  {
    hide Dec;
    ghost var start := cur.data;
    var vs: seq<Value<TypeId>> := [];
    BehindNothing(DecAll(start, ids, types, false));
    assert ids[0..] == ids;
    for i := 0 to |ids|
      invariant |cur.data| <= |start| && |vs| == i
      invariant DecAll(start, ids, types, false) == Behind(vs, DecAll(cur.data, ids[i..], types, false))
    {
      assert ids[i..][0] == ids[i] && ids[i..][1..] == ids[i + 1..] && ids[i] in ids;
      var v := DecodeValueAsType(cur, ids[i], types);
      if v.None? {
        return None;
      }
      BehindTwice(vs, v.value, DecAll(cur.data, ids[i + 1..], types, false));
      vs := vs + [v.value];
    }
    assert vs + [] == vs;
    return Some(vs);
  }

  lemma BehindNothing(more: Option<(seq<Value<TypeId>>, Bytes)>)
    ensures Behind([], more) == more
  {
    if more.Some? {
      assert [] + more.value.0 == more.value.0;
    }
  }

  lemma BehindTwice(vs: seq<Value<TypeId>>, v: Value<TypeId>, more: Option<(seq<Value<TypeId>>, Bytes)>)
    ensures Behind(vs, Behind([v], more)) == Behind(vs + [v], more)
  {
    if more.Some? {
      assert vs + ([v] + more.value.0) == vs + [v] + more.value.0;
    }
  }

  method DecodePrimitiveValue(cur: Cursor, kind: PrimitiveKind) returns (r: Option<ValueDef<TypeId>>)
    modifies cur
    ensures match DecPrimitive(old(cur.data), kind)
            case None => r == None && cur.data == old(cur.data)
            case Some((p, rest)) => r == Some(PrimitiveValue(p)) && cur.data == rest
  {
    hide DecString, Pow256, FromLE;
    match kind
    case BoolType =>
      if cur.data == [] || cur.data[0] > 1 {
        return None;
      }
      var b := cur.data[0] == 1;
      cur.data := cur.data[1..];
      return Some(PrimitiveValue(Bool(b)));
    case CharType =>
      var n := DecLE(cur.data, 4);
      if n.None? || !IsScalarValue(n.value.0) {
        return None;
      }
      cur.data := n.value.1;
      return Some(PrimitiveValue(Char(n.value.0 as char)));
    case StrType =>
      var s := DecString(cur.data);
      if s.None? {
        return None;
      }
      cur.data := s.value.1;
      return Some(PrimitiveValue(Str(s.value.0)));
    case UnsignedType(w) =>
      var n := DecLE(cur.data, w);
      if n.None? {
        return None;
      }
      cur.data := n.value.1;
      IntWidthLimits(w);
      return Some(PrimitiveValue(U128(n.value.0)));
    case SignedType(w) =>
      var n := DecSigned(cur.data, w);
      if n.None? {
        return None;
      }
      cur.data := n.value.1;
      IntWidthLimits(w);
      return Some(PrimitiveValue(I128(n.value.0)));
    case U256Type =>
      var bs := Take(cur.data, 32);
      if bs.None? {
        return None;
      }
      cur.data := bs.value.1;
      return Some(PrimitiveValue(U256(bs.value.0)));
    case I256Type =>
      var bs := Take(cur.data, 32);
      if bs.None? {
        return None;
      }
      cur.data := bs.value.1;
      return Some(PrimitiveValue(I256(bs.value.0)));
  }

  /** Recursion down the one-field composites of the type, wrapping on the way back. */
  method DecodeCompactValue(cur: Cursor, param: TypeId, types: Registry) returns (r: Option<ValueDef<TypeId>>)
    modifies cur
    ensures Read(DecCompactValue(old(cur.data), param, types), old(cur.data), cur.data, r)
    decreases Rank(types, param)
  {
    hide DecCompact, Pow256;
    if param >= |types| {
      return None;
    }
    match types[param].def
    case PrimitiveType(UnsignedType(w)) =>
      var n := DecCompact(cur.data, Pow256(w) - 1);
      if n.None? {
        return None;
      }
      cur.data := n.value.1;
      IntWidthLimits(w);
      return Some(PrimitiveValue(U128(n.value.0)));
    case CompositeType(fields) =>
      if |fields| != 1 {
        return None;
      }
      FieldRank(types, param, 0);
      var inner := DecodeCompactValue(cur, fields[0].ty, types);
      if inner.None? {
        return None;
      }
      return Some(CompositeValue(Shape(fields, [Value(inner.value, fields[0].ty)])));
    case _ => return None;
  }

  method DecodeBitSequenceValue(cur: Cursor, store: TypeId, order: TypeId, types: Registry)
    returns (r: Option<ValueDef<TypeId>>)
    modifies cur
    ensures match BitDetails(types, store, order)
            case None => r == None && cur.data == old(cur.data)
            case Some((w, o)) =>
              match DecBits(old(cur.data), w, o, false)
              case None => r == None && cur.data == old(cur.data)
              case Some((bits, rest)) => r == Some(BitSequenceValue(bits)) && cur.data == rest
  {
    hide DecBits;
    var details := BitDetails(types, store, order);
    if details.None? {
      return None;
    }
    var bits := DecBits(cur.data, details.value.0, details.value.1, false);
    if bits.None? {
      return None;
    }
    cur.data := bits.value.1;
    return Some(BitSequenceValue(bits.value.0));
  }
}
