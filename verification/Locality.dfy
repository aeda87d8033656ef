/**
 Decoding leaves a suffix of its input and depends only on the bytes it consumes: with any other
 tail behind them it gives the same value. So no encoding of a type is a proper prefix of another.
 Nothing is asked of the registry here.
 */
module Locality {
  import opened Wrappers
  import opened ByteStrings
  import opened CompactIntegers
  import opened BitPacking
  import opened TypeRegistry
  import opened Values
  import opened ValueEncoding
  import opened ValueDecoding

  lemma DecLELocal(data: Bytes, w: nat, tail: Bytes)
    requires w <= |data|
    ensures var (n, rest) := DecLE(data, w).value;
            data == Consumed(data, rest) + rest && DecLE(Consumed(data, rest) + tail, w) == Some((n, tail))
  {
    hide FromLE;
    assert (data[..w] + tail)[..w] == data[..w];
  }

  lemma StringLocal(data: Bytes, tail: Bytes)
    requires DecString(data).Some?
    ensures var (s, rest) := DecString(data).value;
            data == Consumed(data, rest) + rest && DecString(Consumed(data, rest) + tail) == Some((s, tail))
  {
    hide EncCompact, DecCompact, ValidUtf8;
    var (n, data') := DecCompact(data, U32_MAX).value;
    var (s, rest) := DecString(data).value;
    CompactLocal(data, U32_MAX, s + tail);
    assert data' == s + rest;
    assert Consumed(data', rest) == s;
    ConsumedSplit(data, data', rest, tail);
    assert (s + tail)[..n] == s;
  }

  lemma TakeLocal(data: Bytes, n: nat, tail: Bytes)
    requires n <= |data|
    ensures var (bs, rest) := Take(data, n).value;
            data == Consumed(data, rest) + rest && Take(Consumed(data, rest) + tail, n) == Some((bs, tail))
  {
    assert (data[..n] + tail)[..n] == data[..n];
  }

  lemma PrimitiveLocal(data: Bytes, kind: PrimitiveKind, tail: Bytes)
    requires DecPrimitive(data, kind).Some?
    ensures var (p, rest) := DecPrimitive(data, kind).value;
            data == Consumed(data, rest) + rest
            && DecPrimitive(Consumed(data, rest) + tail, kind) == Some((p, tail))
  {
    hide DecLE, DecString, Pow256, SignedLimit, Take, Consumed;
    match kind
    case BoolType => BoolLocal(data, tail);
    case CharType => DecLELocal(data, 4, tail);
    case StrType => StringLocal(data, tail);
    case U256Type => TakeLocal(data, 32, tail);
    case I256Type => TakeLocal(data, 32, tail);
    case UnsignedType(w) => DecLELocal(data, w, tail);
    case SignedType(w) => DecLELocal(data, w, tail);
  }

  lemma BoolLocal(data: Bytes, tail: Bytes)
    requires data != []
    ensures data == Consumed(data, data[1..]) + data[1..]
    ensures Consumed(data, data[1..]) + tail == [data[0]] + tail && ([data[0]] + tail)[1..] == tail
  {
  }

  lemma {:induction false} CompactValueLocal(data: Bytes, param: TypeId, types: Registry, tail: Bytes)
    requires DecCompactValue(data, param, types).Some?
    ensures var (def, rest) := DecCompactValue(data, param, types).value;
            data == Consumed(data, rest) + rest
            && DecCompactValue(Consumed(data, rest) + tail, param, types) == Some((def, tail))
    decreases Rank(types, param)
  {
    hide DecCompact, Pow256, Shape;
    match types[param].def
    case PrimitiveType(UnsignedType(w)) =>
      IntWidthLimits(w);
      CompactLocal(data, Pow256(w) - 1, tail);
    case CompositeType(fields) =>
      FieldRank(types, param, 0);
      CompactValueLocal(data, fields[0].ty, types, tail);
  }

  /** The variant index is the first of the consumed bytes. */
  lemma IndexLocal(data: Bytes, rest: Bytes, tail: Bytes)
    requires data != [] && |rest| < |data| && data[1..] == Consumed(data[1..], rest) + rest
    ensures data == Consumed(data, rest) + rest
    ensures var data' := Consumed(data, rest) + tail;
            data' != [] && data'[0] == data[0] && data'[1..] == Consumed(data[1..], rest) + tail
  {
    assert data == [data[0]] + data[1..];
    ConsumedSplit(data, data[1..], rest, tail);
  }

  /** The value depends on the consumed bytes alone. */
  lemma {:induction false} ValueLocal(data: Bytes, id: TypeId, types: Registry, zeroPad: bool, tail: Bytes)
    requires Dec(data, id, types, zeroPad).Some?
    ensures var (v, rest) := Dec(data, id, types, zeroPad).value;
            data == Consumed(data, rest) + rest
            && Dec(Consumed(data, rest) + tail, id, types, zeroPad) == Some((v, tail))
    decreases |data|, Rank(types, id), 0
  {
    hide DecAll, DecCompact, DecPrimitive, DecCompactValue, DecBits, BitDetails, Shape, FindIndex, Consumed;
    var (v, rest) := Dec(data, id, types, zeroPad).value;
    match types[id].def
    case CompositeType(fields) =>
      InlineRankAll(types, id, FieldTypes(fields));
      AllLocal(data, FieldTypes(fields), types, zeroPad, tail);
    case SequenceType(elem) =>
      var (n, data') := DecCompact(data, U64_MAX).value;
      AllLocal(data', Repeat(elem, n), types, zeroPad, tail);
      CompactLocal(data, U64_MAX, Consumed(data', rest) + tail);
      ConsumedSplit(data, data', rest, tail);
    case ArrayType(len, elem) =>
      InlineRankAll(types, id, Repeat(elem, len));
      AllLocal(data, Repeat(elem, len), types, zeroPad, tail);
    case TupleType(ids) =>
      InlineRankAll(types, id, ids);
      AllLocal(data, ids, types, zeroPad, tail);
    case VariantType(variants) =>
      var variant := FindIndex(variants, data[0]).value;
      AllLocal(data[1..], FieldTypes(variant.fields), types, zeroPad, tail);
      IndexLocal(data, rest, tail);
    case PrimitiveType(kind) => PrimitiveLocal(data, kind, tail);
    case CompactType(param) => CompactValueLocal(data, param, types, tail);
    case BitSequenceType(store, order) =>
      var (w, o) := BitDetails(types, store, order).value;
      BitsLocal(data, w, o, zeroPad, tail);
  }

  lemma {:induction false} AllLocal(data: Bytes, ids: seq<TypeId>, types: Registry, zeroPad: bool, tail: Bytes)
    requires DecAll(data, ids, types, zeroPad).Some?
    ensures var (vs, rest) := DecAll(data, ids, types, zeroPad).value;
            data == Consumed(data, rest) + rest
            && DecAll(Consumed(data, rest) + tail, ids, types, zeroPad) == Some((vs, tail))
    decreases |data|, RankAll(types, ids), 1, |ids|
  {
    hide Dec;
    var (vs, rest) := DecAll(data, ids, types, zeroPad).value;
    if ids == [] {
      assert Consumed(data, rest) + tail == tail;
    } else {
      var (first, data') := Dec(data, ids[0], types, zeroPad).value;
      AllLocal(data', ids[1..], types, zeroPad, tail);
      ValueLocal(data, ids[0], types, zeroPad, Consumed(data', rest) + tail);
      ConsumedSplit(data, data', rest, tail);
    }
  }

  /** No complete encoding of a type is a proper prefix of another, whether or not it is canonical. */
  lemma PrefixFree(p: Bytes, tail: Bytes, id: TypeId, types: Registry, zeroPad: bool)
    requires Dec(p, id, types, zeroPad).Some? && Dec(p, id, types, zeroPad).value.1 == []
    requires Dec(p + tail, id, types, zeroPad).Some? && Dec(p + tail, id, types, zeroPad).value.1 == []
    ensures tail == []
  {
    hide Dec;
    ValueLocal(p, id, types, zeroPad, tail);
    assert Consumed(p, []) == p;
  }
}
