/** Decoding what was encoded gives the normal form of the value and leaves what followed it. */
module RoundTrips {
  import opened Wrappers
  import opened ByteStrings
  import opened CompactIntegers
  import opened BitPacking
  import opened TypeRegistry
  import opened Values
  import opened ValueEncoding
  import opened ValueDecoding
  import opened NormalForms

  // ----- primitives

  lemma SignedRoundTrip(n: int, w: IntWidth, rest: Bytes)
    requires -SignedLimit(w) <= n < SignedLimit(w)
    ensures DecSigned(EncSigned(n, w) + rest, w) == Some((n, rest))
  {
    hide LE, FromLE, Pow256;
    DecLEOfLE(if n < 0 then n + Pow256(w) else n, w, rest);
  }

  lemma StringRoundTrip(s: Utf8, rest: Bytes)
    requires EncString(s).Some?
    ensures DecString(EncString(s).value + rest) == Some((s, rest))
  {
    hide EncCompact, DecCompact, ValidUtf8;
    CompactRoundTrip(|s|, U32_MAX, s + rest);
    assert EncString(s).value + rest == EncCompact(|s|) + (s + rest);
    assert (s + rest)[..|s|] == s;
  }

  lemma CharRoundTrip(c: char, rest: Bytes)
    ensures DecPrimitive(LE(c as int, 4) + rest, CharType) == Some((Char(c), rest))
  {
    hide LE, FromLE;
    Pow256Values();
    DecLEOfLE(c as int, 4, rest);
  }

  lemma PrimitiveRoundTrip(p: Primitive, kind: PrimitiveKind, rest: Bytes)
    requires EncPrimitive(p, kind).Some?
    ensures DecPrimitive(EncPrimitive(p, kind).value + rest, kind) == Some((NormPrimitive(p, kind), rest))
  {
    hide LE, FromLE, DecLE, DecSigned, EncSigned, DecString, EncString, Pow256;
    match kind
    case BoolType =>
    case CharType => CharRoundTrip(p.c, rest); assert EncPrimitive(p, kind).value == LE(p.c as int, 4);
    case StrType => StringRoundTrip(p.s, rest);
    case U256Type => assert (p.bytes + rest)[..32] == p.bytes;
    case I256Type => assert (p.bytes + rest)[..32] == p.bytes;
    case UnsignedType(w) => DecLEOfLE(AsUnsigned(p, w).value, w, rest);
    case SignedType(w) => SignedRoundTrip(AsSigned(p, w).value, w, rest);
  }

  // ----- compact integers

  /** A chain of one-field composites over an unsigned integer: what decoding can follow. */
  predicate PlainChain(id: TypeId, types: Registry)
    decreases Rank(types, id)
  {
    if id >= |types| then false else
    match types[id].def
    case PrimitiveType(UnsignedType(_)) => true
    case CompositeType(fields) =>
      |fields| == 1 && (FieldRank(types, id, 0); PlainChain(fields[0].ty, types))
    case _ => false
  }

  lemma {:induction false} CompactValueRoundTrip(n: U128Int, id: TypeId, types: Registry, rest: Bytes)
    requires PlainChain(id, types) && CompactWidth(id, types).Some?
    requires n < Pow256(CompactWidth(id, types).value)
    ensures DecCompactValue(EncCompact(n) + rest, id, types) == Some((NormCompact(n, id, types), rest))
    decreases Rank(types, id)
  {
    hide EncCompact, DecCompact, Pow256;
    match types[id].def
    case PrimitiveType(UnsignedType(w)) => CompactRoundTrip(n, Pow256(w) - 1, rest);
    case CompositeType(fields) =>
      FieldRank(types, id, 0);
      CompactValueRoundTrip(n, fields[0].ty, types, rest);
  }

  /** The chains that decoding follows are chains for encoding too; on all others decoding fails. */
  lemma {:induction false} PlainChainDecides(data: Bytes, id: TypeId, types: Registry)
    ensures PlainChain(id, types) ==> CompactWidth(id, types).Some?
    ensures !PlainChain(id, types) ==> DecCompactValue(data, id, types).None?
    decreases Rank(types, id)
  {
    hide DecCompact, Pow256;
    if id < |types| && types[id].def.CompositeType? && |types[id].def.fields| == 1 {
      FieldRank(types, id, 0);
      PlainChainDecides(data, types[id].def.fields[0].ty, types);
    }
  }

  // ----- which encodings decoding can follow

  /** Encoding `v` goes through no compact type over a one-field tuple, which only encoding can follow. */
  ghost predicate Followable<T>(v: Value<T>, id: TypeId, types: Registry)
    requires Enc(v, id, types).Some?
    decreases Size(v), Rank(types, id), 0
  {
    match types[id].def
    case CompositeType(fields) =>
      if v.def.CompositeValue? then
        FollowableFields(v.def.composite, fields, types)
      else
        FieldRank(types, id, 0);
        Followable(v, fields[0].ty, types)
    case SequenceType(elem) =>
      var vs := Elements(v).value;
      FollowableAll(vs, Repeat(elem, |vs|), types)
    case ArrayType(len, elem) => FollowableAll(Elements(v).value, Repeat(elem, len), types)
    case TupleType(ids) =>
      if v.def.CompositeValue? then
        SizeOfIntoValues(v.def.composite);
        FollowableAll(v.def.composite.IntoValues(), ids, types)
      else
        InlineRank(types, id, ids[0]);
        Followable(v, ids[0], types)
    case VariantType(variants) =>
      FollowableFields(v.def.fields, FindName(variants, v.def.name).value.fields, types)
    case CompactType(param) => PlainChain(param, types)
    case _ => true
  }

  ghost predicate FollowableFields<T>(c: Composite<T>, fields: seq<Field>, types: Registry)
    requires EncFields(c, fields, types).Some?
    decreases CompositeSize(c), RankAll(types, FieldTypes(fields)), 2
  {
    FollowableAll(FieldValues(c, fields).value, FieldTypes(fields), types)
  }

  ghost predicate FollowableAll<T>(vs: seq<Value<T>>, ids: seq<TypeId>, types: Registry)
    requires |vs| == |ids| && EncAll(vs, ids, types).Some?
    decreases SizeAll(vs), RankAll(types, ids), 1
  {
    vs == [] || (Followable(vs[0], ids[0], types) && FollowableAll(vs[1..], ids[1..], types))
  }

  // ----- values

  /**
   What decoding makes of an encoding in front of `rest`: exactly the followable values come back, in
   their normal form, and on all others decoding fails.
   */
  lemma {:induction false} ValueRoundTrip<T>(v: Value<T>, id: TypeId, types: Registry, zeroPad: bool, rest: Bytes)
    requires WellFormed(types) && Enc(v, id, types).Some?
    ensures Dec(Enc(v, id, types).value + rest, id, types, zeroPad) ==
            if Followable(v, id, types) then Some((Norm(v, id, types), rest)) else None
    decreases Size(v), Rank(types, id), 0
  {
    hide EncPrimitive, DecPrimitive, EncCompact, DecCompact, EncBits, DecBits, CompactWidth, Innermost, AsUnsigned;
    hide FindName, FindIndex, Shape, EncAll, DecAll, NormAll, Elements, FieldValues, BitDetails, BitsOf, NormCompact;
    hide DecCompactValue, PlainChain, NormPrimitive, FollowableAll;
    var bs := Enc(v, id, types).value;
    match types[id].def
    case CompositeType(fields) =>
      if v.def.CompositeValue? {
        FieldsRoundTrip(v.def.composite, fields, types, zeroPad, rest);
      } else {
        FieldRank(types, id, 0);
        ValueRoundTrip(v, fields[0].ty, types, zeroPad, rest);
        DecSingle(bs + rest, FieldTypes(fields), types, zeroPad);
      }
    case SequenceType(elem) =>
      var vs := Elements(v).value;
      var body := EncAll(vs, Repeat(elem, |vs|), types).value;
      CompactRoundTrip(|vs|, U64_MAX, body + rest);
      assert bs + rest == EncCompact(|vs|) + (body + rest);
      AllRoundTrip(vs, Repeat(elem, |vs|), types, zeroPad, rest);
    case ArrayType(len, elem) => AllRoundTrip(Elements(v).value, Repeat(elem, len), types, zeroPad, rest);
    case TupleType(ids) =>
      if v.def.CompositeValue? {
        SizeOfIntoValues(v.def.composite);
        AllRoundTrip(v.def.composite.IntoValues(), ids, types, zeroPad, rest);
      } else {
        InlineRank(types, id, ids[0]);
        ValueRoundTrip(v, ids[0], types, zeroPad, rest);
        DecSingle(bs + rest, ids, types, zeroPad);
      }
    case VariantType(variants) =>
      var variant := FindName(variants, v.def.name).value;
      var body := EncFields(v.def.fields, variant.fields, types).value;
      VariantLookups(variants, variant);
      FieldsRoundTrip(v.def.fields, variant.fields, types, zeroPad, rest);
      assert (bs + rest)[0] == variant.index && (bs + rest)[1..] == body + rest;
    case PrimitiveType(kind) => PrimitiveRoundTrip(v.def.prim, kind, rest);
    case CompactType(param) =>
      var w := CompactWidth(param, types).value;
      var n := AsUnsigned(Innermost(v).value, w).value;
      Unsigned128(n, w);
      PlainChainDecides(bs + rest, param, types);
      if PlainChain(param, types) {
        CompactValueRoundTrip(n, param, types, rest);
      }
    case BitSequenceType(store, order) =>
      var (w, o) := BitDetails(types, store, order).value;
      BitsRoundTrip(BitsOf(v).value, w, o, zeroPad, rest);
  }

  lemma {:induction false} FieldsRoundTrip<T>(c: Composite<T>, fields: seq<Field>, types: Registry,
                                              zeroPad: bool, rest: Bytes)
    requires WellFormed(types) && EncFields(c, fields, types).Some?
    ensures var r := DecAll(EncFields(c, fields, types).value + rest, FieldTypes(fields), types, zeroPad);
            if FollowableFields(c, fields, types) then
              r.Some? && r.value.1 == rest && Shape(fields, r.value.0) == NormFields(c, fields, types)
            else r.None?
    decreases CompositeSize(c), RankAll(types, FieldTypes(fields)), 2
  {
    hide EncAll, DecAll, NormAll, Shape, FieldValues, FollowableAll;
    AllRoundTrip(FieldValues(c, fields).value, FieldTypes(fields), types, zeroPad, rest);
  }

  lemma {:induction false} AllRoundTrip<T>(vs: seq<Value<T>>, ids: seq<TypeId>, types: Registry, zeroPad: bool,
                                           rest: Bytes)
    requires WellFormed(types) && |vs| == |ids| && EncAll(vs, ids, types).Some?
    ensures DecAll(EncAll(vs, ids, types).value + rest, ids, types, zeroPad) ==
            if FollowableAll(vs, ids, types) then Some((NormAll(vs, ids, types), rest)) else None
    decreases SizeAll(vs), RankAll(types, ids), 1
  {
    hide Enc, Dec, Norm, Followable;
    if vs == [] {
      assert EncAll(vs, ids, types).value + rest == rest;
    } else {
      var first := Enc(vs[0], ids[0], types).value;
      var others := EncAll(vs[1..], ids[1..], types).value;
      ValueRoundTrip(vs[0], ids[0], types, zeroPad, others + rest);
      assert EncAll(vs, ids, types).value + rest == first + (others + rest);
      AllRoundTrip(vs[1..], ids[1..], types, zeroPad, rest);
    }
  }

  lemma DecSingle(data: Bytes, ids: seq<TypeId>, types: Registry, zeroPad: bool)
    requires |ids| == 1
    ensures DecAll(data, ids, types, zeroPad) ==
            match Dec(data, ids[0], types, zeroPad)
            case None => None
            case Some((v, rest)) => Some(([v], rest))
  {
    hide Dec;
    var first := Dec(data, ids[0], types, zeroPad);
    if first.Some? {
      var (v, rest) := first.value;
      var others: seq<Value<TypeId>> := [];
      assert DecAll(rest, ids[1..], types, zeroPad) == Some((others, rest));
      assert [v] + others == [v];
    }
  }

  // ----- types all of whose values can be followed

  /** A type mentions another: for a field, an element, a member, or a field of a variant. */
  ghost predicate Mentions(def: TypeDef, sub: TypeId) {
    match def
    case CompositeType(fields) => sub in FieldTypes(fields)
    case SequenceType(elem) => sub == elem
    case ArrayType(_, elem) => sub == elem
    case TupleType(ids) => sub in ids
    case VariantType(variants) => exists v :: v in variants && sub in FieldTypes(v.fields)
    case _ => false
  }

  predicate InRegistry(id: TypeId, types: Registry) {
    id < |types|
  }

  /** The types in `ids` mention no other type of the registry. */
  ghost predicate Closed(ids: iset<TypeId>, types: Registry) {
    forall id, sub :: id in ids && id < |types| && Mentions(types[id].def, sub) && InRegistry(sub, types) ==> sub in ids
  }

  /** No compact type among `ids` goes through a one-field tuple. */
  ghost predicate PlainAmong(ids: iset<TypeId>, types: Registry) {
    forall id :: id in ids && id < |types| && types[id].def.CompactType?
                 && CompactWidth(types[id].def.param, types).Some? ==>
      PlainChain(types[id].def.param, types)
  }

  /** No compact type of the whole registry does. */
  ghost predicate CompactWrappersPlain(types: Registry) {
    PlainAmong(AllIds(types), types)
  }

  ghost function AllIds(types: Registry): iset<TypeId> {
    iset id: TypeId | InRegistry(id, types)
  }

  /** Only the types that can be reached from the type of a value decide whether it comes back. */
  lemma {:induction false} ReachablePlain<T>(v: Value<T>, id: TypeId, types: Registry, ids: iset<TypeId>)
    requires Enc(v, id, types).Some? && (InRegistry(id, types) ==> id in ids)
    requires Closed(ids, types) && PlainAmong(ids, types)
    ensures Followable(v, id, types)
    decreases Size(v), Rank(types, id), 0
  {
    hide EncPrimitive, EncCompact, EncBits, FindName, EncAll, Elements, FieldValues, PlainChain, FollowableAll;
    hide CompactWidth, Innermost, AsUnsigned, BitsOf, BitDetails;
    match types[id].def
    case CompositeType(fields) =>
      if v.def.CompositeValue? {
        var vs := FieldValues(v.def.composite, fields).value;
        ReachablePlainAll(vs, FieldTypes(fields), types, ids);
      } else {
        FieldRank(types, id, 0);
        assert FieldTypes(fields)[0] == fields[0].ty;
        ReachablePlain(v, fields[0].ty, types, ids);
      }
    case SequenceType(elem) =>
      var vs := Elements(v).value;
      ReachablePlainAll(vs, Repeat(elem, |vs|), types, ids);
    case ArrayType(len, elem) => ReachablePlainAll(Elements(v).value, Repeat(elem, len), types, ids);
    case TupleType(members) =>
      if v.def.CompositeValue? {
        SizeOfIntoValues(v.def.composite);
        ReachablePlainAll(v.def.composite.IntoValues(), members, types, ids);
      } else {
        InlineRank(types, id, members[0]);
        ReachablePlain(v, members[0], types, ids);
      }
    case VariantType(variants) =>
      var variant := FindName(variants, v.def.name).value;
      var vs := FieldValues(v.def.fields, variant.fields).value;
      ReachablePlainAll(vs, FieldTypes(variant.fields), types, ids);
    case _ =>
  }

  lemma {:induction false} ReachablePlainAll<T>(vs: seq<Value<T>>, subs: seq<TypeId>, types: Registry,
                                                ids: iset<TypeId>)
    requires |vs| == |subs| && EncAll(vs, subs, types).Some?
    requires forall i :: i in subs && InRegistry(i, types) ==> i in ids
    requires Closed(ids, types) && PlainAmong(ids, types)
    ensures FollowableAll(vs, subs, types)
    decreases SizeAll(vs), RankAll(types, subs), 1
  {
    hide Enc, Followable, Closed, PlainAmong;
    if vs != [] {
      ReachablePlain(vs[0], subs[0], types, ids);
      ReachablePlainAll(vs[1..], subs[1..], types, ids);
    }
  }
}
