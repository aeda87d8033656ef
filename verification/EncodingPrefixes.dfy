/**
 An encoding determines the normal form of its value, and where it ends. This is a law of encoding
 alone: it also holds of the values whose encodings the decoder cannot follow.
 */
module EncodingPrefixes {
  import opened Wrappers
  import opened ByteStrings
  import opened CompactIntegers
  import opened BitPacking
  import opened TypeRegistry
  import opened Values
  import opened ValueEncoding
  import opened ValueDecoding
  import opened NormalForms
  import opened FieldOrder
  import opened RoundTrips
  import opened Spellings

  // ----- struct and tuple values as lists

  /** What a value offers to the fields of a struct: a bare value is the only field. */
  ghost function Parts<T>(v: Value<T>, fields: seq<Field>): Option<seq<Value<T>>> {
    if v.def.CompositeValue? then FieldValues(v.def.composite, fields) else Some([v])
  }

  lemma CompositeIsAll<T>(v: Value<T>, id: TypeId, types: Registry)
    requires Enc(v, id, types).Some? && types[id].def.CompositeType?
    ensures var fields := types[id].def.fields;
            var vs := Parts(v, fields);
            && vs.Some? && |vs.value| == |fields| && SizeAll(vs.value) <= Size(v)
            && EncAll(vs.value, FieldTypes(fields), types) == Enc(v, id, types)
            && Norm(v, id, types)
               == Value(CompositeValue(Shape(fields, NormAll(vs.value, FieldTypes(fields), types))), id)
  {
    hide EncAll, NormAll, Shape, FieldValues;
    var fields := types[id].def.fields;
    if v.def.CompositeValue? {
      var vs := FieldValues(v.def.composite, fields).value;
      assert NormFields(v.def.composite, fields, types) == Shape(fields, NormAll(vs, FieldTypes(fields), types));
    } else {
      EncSingle(v, FieldTypes(fields), types);
      NormSingle(v, FieldTypes(fields), types);
    }
  }

  /** What a value offers to the members of a tuple. */
  ghost function Members<T>(v: Value<T>): seq<Value<T>> {
    if v.def.CompositeValue? then v.def.composite.IntoValues() else [v]
  }

  lemma TupleIsAll<T>(v: Value<T>, id: TypeId, types: Registry)
    requires Enc(v, id, types).Some? && types[id].def.TupleType?
    ensures var ids := types[id].def.types;
            var vs := Members(v);
            && |vs| == |ids| && SizeAll(vs) <= Size(v)
            && EncAll(vs, ids, types) == Enc(v, id, types)
            && Norm(v, id, types) == Value(CompositeValue(Unnamed(NormAll(vs, ids, types))), id)
  {
    hide EncAll, NormAll;
    if v.def.CompositeValue? {
      SizeOfIntoValues(v.def.composite);
    } else {
      EncSingle(v, types[id].def.types, types);
      NormSingle(v, types[id].def.types, types);
    }
  }

  lemma NormSingle<T>(v: Value<T>, ids: seq<TypeId>, types: Registry)
    requires |ids| == 1 && Enc(v, ids[0], types).Some?
    ensures SizeAll([v]) == Size(v)
    ensures EncAll([v], ids, types).Some? && NormAll([v], ids, types) == [Norm(v, ids[0], types)]
  {
    hide Enc, Norm;
    EncSingle(v, ids, types);
  }

  // ----- prefixes

  lemma CountsAgree(n: U128Int, m: U128Int, s: Bytes, t: Bytes)
    requires EncCompact(n) + s == EncCompact(m) + t
    ensures n == m && s == t
  {
    hide EncCompact, DecCompact;
    var max := if n < m then m else n;
    CompactRoundTrip(n, max, s);
    CompactRoundTrip(m, max, t);
  }

  /** Encodings with anything behind them are equal only if the normal forms are, and what is behind. */
  lemma {:induction false} EncodingsPrefixFree<T, U>(v: Value<T>, u: Value<U>, id: TypeId, types: Registry,
                                                     s: Bytes, t: Bytes)
    requires WellFormed(types) && Enc(v, id, types).Some? && Enc(u, id, types).Some?
    requires Enc(v, id, types).value + s == Enc(u, id, types).value + t
    ensures s == t && Norm(v, id, types) == Norm(u, id, types)
    decreases Size(v) + Size(u), Rank(types, id), 0
  {
    hide EncAll, NormAll, EncFields, NormFields, EncPrimitive, NormPrimitive, EncCompact, EncBits, NormCompact;
    hide CompactWidth, Innermost, AsUnsigned, BitsOf, BitDetails, FindName, Elements, Parts, Members, Shape;
    var p, q := Enc(v, id, types).value, Enc(u, id, types).value;
    match types[id].def
    case CompositeType(fields) =>
      CompositeIsAll(v, id, types);
      CompositeIsAll(u, id, types);
      InlineRankAll(types, id, FieldTypes(fields));
      AllPrefixFree(Parts(v, fields).value, Parts(u, fields).value, FieldTypes(fields), types, s, t);
    case SequenceType(elem) =>
      var vs, us := Elements(v).value, Elements(u).value;
      var body, other := EncAll(vs, Repeat(elem, |vs|), types).value, EncAll(us, Repeat(elem, |us|), types).value;
      assert EncCompact(|vs|) + (body + s) == p + s == q + t == EncCompact(|us|) + (other + t);
      CountsAgree(|vs|, |us|, body + s, other + t);
      AllPrefixFree(vs, us, Repeat(elem, |vs|), types, s, t);
    case ArrayType(len, elem) =>
      AllPrefixFree(Elements(v).value, Elements(u).value, Repeat(elem, len), types, s, t);
    case TupleType(ids) =>
      TupleIsAll(v, id, types);
      TupleIsAll(u, id, types);
      InlineRankAll(types, id, ids);
      AllPrefixFree(Members(v), Members(u), ids, types, s, t);
    case VariantType(variants) => VariantsPrefixFree(v, u, id, types, s, t);
    case PrimitiveType(kind) =>
      PrimitiveRoundTrip(v.def.prim, kind, s);
      PrimitiveRoundTrip(u.def.prim, kind, t);
    case CompactType(param) =>
      var w := CompactWidth(param, types).value;
      var n, m := AsUnsigned(Innermost(v).value, w).value, AsUnsigned(Innermost(u).value, w).value;
      Unsigned128(n, w);
      Unsigned128(m, w);
      CountsAgree(n, m, s, t);
    case BitSequenceType(store, order) =>
      var (w, o) := BitDetails(types, store, order).value;
      BitsRoundTrip(BitsOf(v).value, w, o, false, s);
      BitsRoundTrip(BitsOf(u).value, w, o, false, t);
  }

  /** Equal index bytes choose the same variant. */
  lemma {:induction false} VariantsPrefixFree<T, U>(v: Value<T>, u: Value<U>, id: TypeId, types: Registry,
                                                    s: Bytes, t: Bytes)
    requires WellFormed(types) && Enc(v, id, types).Some? && Enc(u, id, types).Some?
    requires types[id].def.VariantType?
    requires Enc(v, id, types).value + s == Enc(u, id, types).value + t
    ensures s == t && Norm(v, id, types) == Norm(u, id, types)
    decreases Size(v) + Size(u), 0, 0
  {
    hide EncAll, NormAll, FieldValues, Shape, FindName, FindIndex;
    var variants := types[id].def.variants;
    var p, q := Enc(v, id, types).value, Enc(u, id, types).value;
    var variant, other := FindName(variants, v.def.name).value, FindName(variants, u.def.name).value;
    VariantLookups(variants, variant);
    VariantLookups(variants, other);
    assert (p + s)[0] == variant.index && (q + t)[0] == other.index;
    assert (p + s)[1..] == p[1..] + s && (q + t)[1..] == q[1..] + t;
    var ids := FieldTypes(variant.fields);
    var vs, us := FieldValues(v.def.fields, variant.fields).value, FieldValues(u.def.fields, variant.fields).value;
    AllPrefixFree(vs, us, ids, types, s, t);
    assert NormFields(v.def.fields, variant.fields, types) == Shape(variant.fields, NormAll(vs, ids, types));
    assert NormFields(u.def.fields, variant.fields, types) == Shape(variant.fields, NormAll(us, ids, types));
  }

  lemma {:induction false} AllPrefixFree<T, U>(vs: seq<Value<T>>, us: seq<Value<U>>, ids: seq<TypeId>,
                                               types: Registry, s: Bytes, t: Bytes)
    requires WellFormed(types) && |vs| == |us| == |ids|
    requires EncAll(vs, ids, types).Some? && EncAll(us, ids, types).Some?
    requires EncAll(vs, ids, types).value + s == EncAll(us, ids, types).value + t
    ensures s == t && NormAll(vs, ids, types) == NormAll(us, ids, types)
    decreases SizeAll(vs) + SizeAll(us), RankAll(types, ids), 1
  {
    hide Enc, Norm;
    var p, q := EncAll(vs, ids, types).value, EncAll(us, ids, types).value;
    if vs == [] {
      assert s == p + s == q + t == t;
    } else {
      var first, others := Enc(vs[0], ids[0], types).value, EncAll(vs[1..], ids[1..], types).value;
      var first', others' := Enc(us[0], ids[0], types).value, EncAll(us[1..], ids[1..], types).value;
      assert first + (others + s) == p + s == q + t == first' + (others' + t);
      EncodingsPrefixFree(vs[0], us[0], ids[0], types, others + s, others' + t);
      AllPrefixFree(vs[1..], us[1..], ids[1..], types, s, t);
    }
  }

  // ----- normal forms

  lemma {:induction false} InnermostOfNorm(n: U128Int, id: TypeId, types: Registry)
    requires CompactWidth(id, types).Some?
    ensures forall context: TypeId :: Innermost(Value(NormCompact(n, id, types), context)) == Some(U128(n))
    decreases Rank(types, id)
  {
    match types[id].def
    case CompositeType(fields) =>
      FieldRank(types, id, 0);
      InnermostOfNorm(n, fields[0].ty, types);
    case TupleType(ids) =>
      InlineRank(types, id, ids[0]);
      InnermostOfNorm(n, ids[0], types);
    case _ =>
  }

  /** The normal form of a compact integer follows its type down: one member inside another, labelled with its type. */
  lemma NormWraps(n: U128Int, id: TypeId, sub: TypeId, types: Registry)
    requires id < |types| && Inline(types[id].def) == [sub] && !types[id].def.ArrayType?
    ensures var def := NormCompact(n, id, types);
            && def.CompositeValue?
            && def.composite.IntoValues() == [Value(NormCompact(n, sub, types), sub)]
            && match types[id].def
               case CompositeType(fields) =>
                 if fields[0].name.Some? then
                   def.composite.Named? && def.composite.fields[0].name == fields[0].name.value
                 else def.composite.Unnamed?
               case _ => def.composite.Unnamed?
  {
    var inner := Value(NormCompact(n, sub, types), sub);
    match types[id].def
    case CompositeType(fields) =>
      assert FieldTypes(fields)[0] == fields[0].ty == sub;
      var c := Shape(fields, [inner]);
      assert fields[0].name.None? ==> !AnyNamed(fields);
      assert c.IntoValues() == [inner];
    case TupleType(ids) => assert ids == [sub];
    case _ =>
  }

  lemma PrimitiveNormEncodes(p: Primitive, kind: PrimitiveKind)
    requires EncPrimitive(p, kind).Some?
    ensures EncPrimitive(NormPrimitive(p, kind), kind) == EncPrimitive(p, kind)
  {
    hide LE, Pow256, EncString, SignedLimit;
  }

  /** A value and its normal form have the same encoding. */
  lemma {:induction false} NormEncodes<T>(v: Value<T>, id: TypeId, types: Registry)
    requires WellFormed(types) && Enc(v, id, types).Some?
    ensures Enc(Norm(v, id, types), id, types) == Enc(v, id, types)
    decreases Size(v), Rank(types, id), 0
  {
    hide EncAll, NormAll, EncPrimitive, NormPrimitive, EncCompact, EncBits, NormCompact;
    hide CompactWidth, Innermost, AsUnsigned, BitDetails, FindName, FieldValues, Elements, Parts, Members, Shape;
    match types[id].def
    case CompositeType(fields) =>
      CompositeIsAll(v, id, types);
      InlineRankAll(types, id, FieldTypes(fields));
      var vs := Parts(v, fields).value;
      AllNormEncodes(vs, FieldTypes(fields), types);
      ShapeFieldValues(fields, NormAll(vs, FieldTypes(fields), types));
    case SequenceType(elem) =>
      var vs := Elements(v).value;
      AllNormEncodes(vs, Repeat(elem, |vs|), types);
      ElementsOfList(NormAll(vs, Repeat(elem, |vs|), types), id);
    case ArrayType(len, elem) =>
      var vs := Elements(v).value;
      AllNormEncodes(vs, Repeat(elem, len), types);
      ElementsOfList(NormAll(vs, Repeat(elem, len), types), id);
    case TupleType(ids) =>
      TupleIsAll(v, id, types);
      InlineRankAll(types, id, ids);
      AllNormEncodes(Members(v), ids, types);
    case VariantType(variants) =>
      var variant := FindName(variants, v.def.name).value;
      var vs := FieldValues(v.def.fields, variant.fields).value;
      VariantLookups(variants, variant);
      AllNormEncodes(vs, FieldTypes(variant.fields), types);
      var ns := NormAll(vs, FieldTypes(variant.fields), types);
      ShapeFieldValues(variant.fields, ns);
      assert NormFields(v.def.fields, variant.fields, types) == Shape(variant.fields, ns);
      assert Norm(v, id, types).def == VariantValue(variant.name, Shape(variant.fields, ns));
    case PrimitiveType(kind) => PrimitiveNormEncodes(v.def.prim, kind);
    case CompactType(param) =>
      var w := CompactWidth(param, types).value;
      var n := AsUnsigned(Innermost(v).value, w).value;
      Unsigned128(n, w);
      InnermostOfNorm(n, param, types);
      FitsAgain(n, w);
    case BitSequenceType(store, order) =>
  }

  lemma FitsAgain(n: U128Int, w: IntWidth)
    requires n < Pow256(w)
    ensures AsUnsigned(U128(n), w) == Some(n)
  {
  }

  lemma ElementsOfList<T>(vs: seq<Value<T>>, context: T)
    ensures Elements(Value(CompositeValue(Unnamed(vs)), context)) == Some(vs)
  {
  }

  lemma {:induction false} AllNormEncodes<T>(vs: seq<Value<T>>, ids: seq<TypeId>, types: Registry)
    requires WellFormed(types) && |vs| == |ids| && EncAll(vs, ids, types).Some?
    ensures EncAll(NormAll(vs, ids, types), ids, types) == EncAll(vs, ids, types)
    decreases SizeAll(vs), RankAll(types, ids), 1
  {
    hide Enc, Norm;
    if vs != [] {
      NormEncodes(vs[0], ids[0], types);
      AllNormEncodes(vs[1..], ids[1..], types);
      assert NormAll(vs, ids, types)[1..] == NormAll(vs[1..], ids[1..], types);
    }
  }

  /** Normalising twice changes nothing. */
  lemma NormIdempotent<T>(v: Value<T>, id: TypeId, types: Registry)
    requires WellFormed(types) && Enc(v, id, types).Some?
    ensures Enc(Norm(v, id, types), id, types) == Enc(v, id, types)
    ensures Norm(Norm(v, id, types), id, types) == Norm(v, id, types)
  {
    hide Enc, Norm;
    NormEncodes(v, id, types);
    EncodingsPrefixFree(Norm(v, id, types), v, id, types, [], []);
  }
}
