/** The laws of the codec as its documentation promises them, for whole values. */
module CodecLaws {
  import opened Wrappers
  import opened ByteStrings
  import opened CompactIntegers
  import opened BitPacking
  import opened TypeRegistry
  import opened Values
  import opened ValueEncoding
  import opened ValueDecoding
  import opened NormalForms
  import opened FieldOrder
  import opened RoundTrips
  import opened Locality
  import opened LosslessDecoding

  // ----- decode after encode

  ghost predicate RoundTripHolds(types: Registry) {
    forall v: Value<TypeId>, id, rest :: Enc(v, id, types).Some? ==>
      Dec(Enc(v, id, types).value + rest, id, types, false) == Some((Norm(v, id, types), rest))
  }

  /**
   Every encodable value decodes to its normal form exactly on the registries without compact types
   over one-field tuples: those encode and do not decode.
   */
  lemma RoundTripExactly(types: Registry)
    requires WellFormed(types)
    ensures RoundTripHolds(types) <==> CompactWrappersPlain(types)
  {
    hide Enc, Dec, Norm;
    if CompactWrappersPlain(types) {
      forall v: Value<TypeId>, id, rest | Enc(v, id, types).Some?
        ensures Dec(Enc(v, id, types).value + rest, id, types, false) == Some((Norm(v, id, types), rest))
      {
        ValueRoundTrip(v, id, types, false, rest);
        ReachablePlain(v, id, types, AllIds(types));
      }
    } else {
      var id :| 0 <= id < |types| && types[id].def.CompactType?
                && CompactWidth(types[id].def.param, types).Some? && !PlainChain(types[id].def.param, types);
      NotDecodable(id, types);
    }
  }

  lemma NotDecodable(id: TypeId, types: Registry)
    requires id < |types| && types[id].def.CompactType? && CompactWidth(types[id].def.param, types).Some?
    requires !PlainChain(types[id].def.param, types)
    ensures !RoundTripHolds(types)
  {
    hide EncCompact, DecCompactValue, CompactWidth, PlainChain, Norm, Pow256;
    var zero := Value(PrimitiveValue(U128(0)), id);
    var bs := Enc(zero, id, types);
    assert Innermost(zero) == Some(U128(0)) && bs.Some?;
    PlainChainDecides(bs.value + [], types[id].def.param, types);
    assert Dec(bs.value + [], id, types, false).None?;
  }

  /** `Compact((u8,))`: zero encodes to one byte that does not decode. */
  lemma CompactTupleFails()
    ensures var types := [TypeInfo([], CompactType(1)), TypeInfo([], TupleType([2])),
                          TypeInfo([], PrimitiveType(UnsignedType(1)))];
            && Acyclic(types) && WellFormed(types)
            && Enc(Value(PrimitiveValue(U128(0)), 0), 0, types) == Some([0])
            && forall data :: Dec(data, 0, types, false).None?
  {
    var types := [TypeInfo([], CompactType(1)), TypeInfo([], TupleType([2])),
                  TypeInfo([], PrimitiveType(UnsignedType(1)))];
    assert IsRank(types, [0, 1, 0]);
    assert CompactWidth(2, types) == Some(1);
    assert CompactWidth(1, types) == Some(1);
    assert Pow256(1) == 256;
    assert Innermost(Value(PrimitiveValue(U128(0)), 0)) == Some(U128(0));
  }

  // ----- encode after decode

  /** Whether the bytes survive is decided by the unused bits of bit sequences alone. */
  lemma LosslessExactly(data: Bytes, id: TypeId, types: Registry)
    requires WellFormed(types) && Dec(data, id, types, false).Some?
    ensures var (v, rest) := Dec(data, id, types, false).value;
            && Enc(v, id, types).Some?
            && |Enc(v, id, types).value| + |rest| == |data|
            && (Enc(v, id, types).value + rest == data <==> Dec(data, id, types, true).Some?)
  {
    hide Enc, Dec, Norm;
    var (v, rest) := Dec(data, id, types, false).value;
    ValueLossless(data, id, types, false);
    if Dec(data, id, types, true).Some? {
      StrictIsDec(data, id, types);
      ValueLossless(data, id, types, true);
    } else if Enc(v, id, types).value + rest == data {
      ExactIsStrict(data, id, types);
    }
  }

  /** The strict reading differs from the source's only in what it rejects. */
  lemma {:induction false} StrictIsDec(data: Bytes, id: TypeId, types: Registry)
    requires Dec(data, id, types, true).Some?
    ensures Dec(data, id, types, false) == Dec(data, id, types, true)
    decreases |data|, Rank(types, id), 0
  {
    hide DecAll, DecCompact, DecPrimitive, DecCompactValue, BitDetails, Shape, FindIndex, Unpack;
    match types[id].def
    case CompositeType(fields) =>
      InlineRankAll(types, id, FieldTypes(fields));
      StrictIsDecAll(data, FieldTypes(fields), types);
    case SequenceType(elem) =>
      var (n, data') := DecCompact(data, U64_MAX).value;
      StrictIsDecAll(data', Repeat(elem, n), types);
    case ArrayType(len, elem) =>
      InlineRankAll(types, id, Repeat(elem, len));
      StrictIsDecAll(data, Repeat(elem, len), types);
    case TupleType(ids) =>
      InlineRankAll(types, id, ids);
      StrictIsDecAll(data, ids, types);
    case VariantType(variants) =>
      StrictIsDecAll(data[1..], FieldTypes(FindIndex(variants, data[0]).value.fields), types);
    case BitSequenceType(store, order) =>
      var (w, o) := BitDetails(types, store, order).value;
      var (n, data') := DecCompact(data, U32_MAX).value;
      StrictIsUnpack(data', n, w, o);
    case _ =>
  }

  lemma StrictIsUnpack(data: Bytes, n: nat, w: StoreBytes, order: BitOrder)
    requires Unpack(data, n, w, order, true).Some?
    ensures Unpack(data, n, w, order, false) == Unpack(data, n, w, order, true)
  {
    hide BitsOfWords, PayloadLength;
  }

  lemma {:induction false} StrictIsDecAll(data: Bytes, ids: seq<TypeId>, types: Registry)
    requires DecAll(data, ids, types, true).Some?
    ensures DecAll(data, ids, types, false) == DecAll(data, ids, types, true)
    decreases |data|, RankAll(types, ids), 1, |ids|
  {
    hide Dec;
    if ids != [] {
      StrictIsDec(data, ids[0], types);
      var data' := Dec(data, ids[0], types, true).value.1;
      StrictIsDecAll(data', ids[1..], types);
    }
  }

  /** Bytes that encoding reproduces have zero padding. */
  lemma {:induction false} ExactIsStrict(data: Bytes, id: TypeId, types: Registry)
    requires WellFormed(types) && Dec(data, id, types, false).Some?
    requires var (v, rest) := Dec(data, id, types, false).value;
             Enc(v, id, types).Some? && Enc(v, id, types).value + rest == data
    ensures Dec(data, id, types, true) == Dec(data, id, types, false)
    decreases |data|, Rank(types, id), 0
  {
    hide DecAll, EncAll, EncCompact, DecCompact, DecPrimitive, EncPrimitive, DecCompactValue, EncCompactValue;
    hide BitDetails, Shape, FindIndex, FindName, EncBits, DecBits, FieldValues;
    var (v, rest) := Dec(data, id, types, false).value;
    match types[id].def
    case CompositeType(fields) =>
      InlineRankAll(types, id, FieldTypes(fields));
      ExactFields(data, fields, types);
    case SequenceType(elem) =>
      var (n, data') := DecCompact(data, U64_MAX).value;
      CompactLossless(data, U64_MAX);
      var vs := DecAll(data', Repeat(elem, n), types, false).value.0;
      assert Elements(v) == Some(vs);
      var body := EncAll(vs, Repeat(elem, n), types).value;
      assert EncCompact(n) + (body + rest) == EncCompact(n) + data';
      SameTail(EncCompact(n), body + rest, data');
      ExactAll(data', Repeat(elem, n), types);
    case ArrayType(len, elem) =>
      InlineRankAll(types, id, Repeat(elem, len));
      ExactAll(data, Repeat(elem, len), types);
    case TupleType(ids) =>
      InlineRankAll(types, id, ids);
      ExactAll(data, ids, types);
    case VariantType(variants) =>
      var variant := FindIndex(variants, data[0]).value;
      VariantLookups(variants, variant);
      var body := EncFields(v.def.fields, variant.fields, types).value;
      assert [data[0]] + (body + rest) == [data[0]] + data[1..];
      SameTail([data[0]], body + rest, data[1..]);
      ExactFields(data[1..], variant.fields, types);
    case BitSequenceType(store, order) =>
      var (w, o) := BitDetails(types, store, order).value;
      BitsRoundTrip(v.def.bits, w, o, true, rest);
    case _ =>
  }

  lemma SameTail(p: Bytes, x: Bytes, y: Bytes)
    requires p + x == p + y
    ensures x == y
  {
    assert x == (p + x)[|p|..] == y;
  }

  lemma {:induction false} ExactFields(data: Bytes, fields: seq<Field>, types: Registry)
    requires WellFormed(types) && UniformFields(fields)
    requires DecAll(data, FieldTypes(fields), types, false).Some?
    requires var (vs, rest) := DecAll(data, FieldTypes(fields), types, false).value;
             var bs := EncFields(Shape(fields, vs), fields, types);
             bs.Some? && bs.value + rest == data
    ensures DecAll(data, FieldTypes(fields), types, true) == DecAll(data, FieldTypes(fields), types, false)
    decreases |data|, RankAll(types, FieldTypes(fields)), 2, 0
  {
    hide EncAll, DecAll, Shape, FieldValues;
    ShapeFieldValues(fields, DecAll(data, FieldTypes(fields), types, false).value.0);
    ExactAll(data, FieldTypes(fields), types);
  }

  lemma {:induction false} ExactAll(data: Bytes, ids: seq<TypeId>, types: Registry)
    requires WellFormed(types) && DecAll(data, ids, types, false).Some?
    requires var (vs, rest) := DecAll(data, ids, types, false).value;
             EncAll(vs, ids, types).Some? && EncAll(vs, ids, types).value + rest == data
    ensures DecAll(data, ids, types, true) == DecAll(data, ids, types, false)
    decreases |data|, RankAll(types, ids), 1, |ids|
  {
    hide Enc, Dec, Norm;
    if ids != [] {
      var (vs, rest) := DecAll(data, ids, types, false).value;
      var (first, data') := Dec(data, ids[0], types, false).value;
      var p, q := Enc(first, ids[0], types).value, EncAll(vs[1..], ids[1..], types).value;
      assert vs[1..] == DecAll(data', ids[1..], types, false).value.0;
      ValueLossless(data, ids[0], types, false);
      ValueLocal(data, ids[0], types, false, []);
      assert p + (q + rest) == data;
      assert q + rest == data[|p|..] == data';
      assert p + data' == data;
      ExactIsStrict(data, ids[0], types);
      ExactAll(data', ids[1..], types);
    }
  }

  /**
   What is lost: a bit sequence decodes whatever fills up its last store word, and comes back with zeros
   there. So every bit sequence type has inputs that decode and do not survive.
   */
  lemma PaddingLost(bits: seq<bool>, fill: seq<bool>, id: TypeId, types: Registry, rest: Bytes)
    requires id < |types| && types[id].def.BitSequenceType? && |bits| <= U32_MAX
    requires BitDetails(types, types[id].def.store, types[id].def.order).Some?
    requires var (w, _) := BitDetails(types, types[id].def.store, types[id].def.order).value;
             |bits| + |fill| == 8 * PayloadLength(|bits|, w)
    ensures var (w, o) := BitDetails(types, types[id].def.store, types[id].def.order).value;
            var v := Value(BitSequenceValue(bits), id);
            var data := EncCompact(|bits|) + WordsOfBits(bits + fill, w, o);
            && Dec(data + rest, id, types, false) == Some((v, rest))
            && (Enc(v, id, types) == Some(data) <==> fill == Zeros(|fill|))
  {
    hide EncCompact, DecBits, EncBits, WordsOfBits, BitDetails, PayloadLength;
    var (w, o) := BitDetails(types, types[id].def.store, types[id].def.order).value;
    FilledBits(bits, fill, w, o, rest);
    var v := Value(BitSequenceValue(bits), id);
    assert BitsOf(v) == Some(bits);
  }

  /** One bit in a byte with another behind it: [4, 3] decodes and comes back as [4, 1]. */
  lemma PaddingLostInByte()
    ensures var types := [TypeInfo([], BitSequenceType(1, 2)), TypeInfo([], PrimitiveType(UnsignedType(1))),
                          TypeInfo(["Lsb0"], TupleType([]))];
            var v := Value(BitSequenceValue([true]), 0);
            && Acyclic(types) && WellFormed(types)
            && Dec([4, 3], 0, types, false) == Some((v, []))
            && Enc(v, 0, types) == Some([4, 1])
  {
    var types := [TypeInfo([], BitSequenceType(1, 2)), TypeInfo([], PrimitiveType(UnsignedType(1))),
                  TypeInfo(["Lsb0"], TupleType([]))];
    assert IsRank(types, [0, 0, 0]);
    BitInByte(types, 0);
  }

  lemma BitInByte(types: Registry, id: TypeId)
    requires id < |types| && types[id].def.BitSequenceType?
    requires BitDetails(types, types[id].def.store, types[id].def.order) == Some((1, Lsb0))
    ensures var v := Value(BitSequenceValue([true]), id);
            && Dec([4, 3], id, types, false) == Some((v, []))
            && Enc(v, id, types) == Some([4, 1])
  {
    hide Enc, Dec, WordsOfBits, EncCompact, FromBits, BitDetails;
    var fill := [true] + Zeros(6);
    assert PayloadLength(1, 1) == 1;
    ByteCounts();
    PaddingLost([true], fill, id, types, []);
    PaddingLost([true], Zeros(7), id, types, []);
    assert [4] + [3] + [] == [4, 3] && [4] + [1] == [4, 1];
  }

  lemma ByteCounts()
    ensures EncCompact(1) == [4]
    ensures WordsOfBits([true] + ([true] + Zeros(6)), 1, Lsb0) == [3]
    ensures WordsOfBits([true] + Zeros(7), 1, Lsb0) == [1]
  {
    hide WordsOfBits;
    ZerosAreZero(6);
    ZerosAreZero(7);
    var fill := [true] + Zeros(6);
    assert fill[1..] == Zeros(6) && ([true] + fill)[1..] == fill && ([true] + Zeros(7))[1..] == Zeros(7);
    OneByte([true] + fill, 3);
    OneByte([true] + Zeros(7), 1);
  }

  lemma OneByte(bits: seq<bool>, n: Byte)
    requires |bits| == 8 && FromBits(bits) == n
    ensures WordsOfBits(bits, 1, Lsb0) == [n]
  {
    assert bits[..8] == bits && LE(n, 1) == [n];
    assert WordsOfBits(bits[8..], 1, Lsb0) == [];
  }

  /** The strict reading is the inverse of encoding: it accepts the encodings of normal forms it can follow. */
  lemma StrictIsInverse(data: Bytes, v: Value<TypeId>, rest: Bytes, id: TypeId, types: Registry)
    requires WellFormed(types)
    ensures Dec(data, id, types, true) == Some((v, rest)) <==>
            && Enc(v, id, types).Some? && Enc(v, id, types).value + rest == data
            && Norm(v, id, types) == v && Followable(v, id, types)
  {
    hide Enc, Dec, Norm, Followable;
    if Dec(data, id, types, true) == Some((v, rest)) {
      ValueLossless(data, id, types, true);
      ValueRoundTrip(v, id, types, true, rest);
    } else if Enc(v, id, types).Some? && Enc(v, id, types).value + rest == data {
      ValueRoundTrip(v, id, types, true, rest);
    }
  }

  /** The decoded fields of a struct or a variant are named after the type exactly if any field has a name. */
  ghost predicate NamedAfter<T>(c: Composite<T>, fields: seq<Field>) {
    && (c.Named? <==> exists f :: f in fields && f.name.Some?)
    && (c.Named? ==>
          |c.fields| == |fields|
          && forall i :: 0 <= i < |fields| ==>
               c.fields[i].name == if fields[i].name.Some? then fields[i].name.value else "")
    && (c.Unnamed? ==> |c.values| == |fields|)
  }

  lemma {:induction false} DecodedNames(data: Bytes, id: TypeId, types: Registry)
    requires id < |types| && Dec(data, id, types, false).Some?
    ensures var v := Dec(data, id, types, false).value.0;
            match types[id].def
            case CompositeType(fields) => v.def.CompositeValue? && NamedAfter(v.def.composite, fields)
            case VariantType(variants) =>
              v.def.VariantValue? && data != []
              && exists w ::
                   w in variants && w.index == data[0] && w.name == v.def.name && NamedAfter(v.def.fields, w.fields)
            case _ => true
  {
    hide DecAll, DecCompact, DecPrimitive, DecCompactValue, DecBits, BitDetails, FindIndex, Shape, NamedAfter;
    match types[id].def
    case CompositeType(fields) =>
      ShapeNames(fields, DecAll(data, FieldTypes(fields), types, false).value.0);
    case VariantType(variants) =>
      var w := FindIndex(variants, data[0]).value;
      ShapeNames(w.fields, DecAll(data[1..], FieldTypes(w.fields), types, false).value.0);
    case _ =>
  }

  lemma ShapeNames<T>(fields: seq<Field>, vs: seq<Value<T>>)
    requires |fields| == |vs|
    ensures NamedAfter(Shape(fields, vs), fields)
  {
  }

  // ----- normal forms

  /** What decoding yields is a normal form, and every node of it is labelled with its type. */
  lemma DecodedIsNormal(data: Bytes, id: TypeId, types: Registry)
    requires WellFormed(types) && Dec(data, id, types, false).Some?
    ensures var v := Dec(data, id, types, false).value.0;
            Enc(v, v.context, types).Some? && Norm(v, v.context, types) == v
  {
    hide Enc, Norm;
    ValueLossless(data, id, types, false);
  }

  // ----- order of named fields

  /** A struct or an enum variant encodes the same whatever the order of its named fields. */
  lemma NamedFieldsAnyOrder<T>(pairs: seq<NamedValue<T>>, others: seq<NamedValue<T>>, variant: string,
                               context: T, id: TypeId, types: Registry)
    requires WellFormed(types) && id < |types| && multiset(pairs) == multiset(others)
    ensures types[id].def.CompositeType? ==>
              Enc(Value(CompositeValue(Named(pairs)), context), id, types)
              == Enc(Value(CompositeValue(Named(others)), context), id, types)
    ensures types[id].def.VariantType? ==>
              Enc(Value(VariantValue(variant, Named(pairs)), context), id, types)
              == Enc(Value(VariantValue(variant, Named(others)), context), id, types)
  {
    hide EncFields, FindName;
    match types[id].def
    case CompositeType(fields) => EncodeAnyOrder(pairs, others, fields, types);
    case VariantType(variants) =>
      var v := FindName(variants, variant);
      if v.Some? {
        EncodeAnyOrder(pairs, others, v.value.fields, types);
      }
    case _ =>
  }

  // ----- compact integers

  /** A value inside one-value composites, named or not, the outermost first. */
  function Wrapped<T>(v: Value<T>, wrappers: seq<Option<string>>): Value<T> {
    if wrappers == [] then v else
    var inner := Wrapped(v, wrappers[1..]);
    match wrappers[0]
    case Some(name) => Value(CompositeValue(Named([NamedValue(name, inner)])), v.context)
    case None => Value(CompositeValue(Unnamed([inner])), v.context)
  }

  /** Wrapping a value any number of times does not change how it is written as a compact integer. */
  lemma {:induction false} CompactDepthIgnored<T>(v: Value<T>, wrappers: seq<Option<string>>, param: TypeId,
                                                  types: Registry)
    ensures EncCompactValue(Wrapped(v, wrappers), param, types) == EncCompactValue(v, param, types)
  {
    hide EncCompact, CompactWidth, AsUnsigned;
    if wrappers != [] {
      CompactDepthIgnored(v, wrappers[1..], param, types);
      var inner, c := Wrapped(v, wrappers[1..]), Wrapped(v, wrappers).def.composite;
      assert c.IntoValues()[0] == inner;
    }
  }
}
