/**
 Which values are accepted at which types, and what is then written: for every kind of type, in terms
 of what is accepted of the parts.
 */
module EncodingAcceptance {
  import opened Wrappers
  import opened ByteStrings
  import opened CompactIntegers
  import opened BitPacking
  import opened TypeRegistry
  import opened Values
  import opened ValueEncoding
  import opened FieldOrder
  import opened Spellings

  // ----- lists

  ghost predicate EachEncodes<T>(vs: seq<Value<T>>, ids: seq<TypeId>, types: Registry)
    requires |vs| == |ids|
  {
    forall i :: 0 <= i < |vs| ==> Enc(vs[i], ids[i], types).Some?
  }

  ghost function Encodings<T>(vs: seq<Value<T>>, ids: seq<TypeId>, types: Registry): (parts: seq<Bytes>)
    requires |vs| == |ids| && EachEncodes(vs, ids, types)
    ensures |parts| == |vs|
  {
    seq(|vs|, i requires 0 <= i < |vs| => Enc(vs[i], ids[i], types).value)
  }

  /** The parts one after the other. */
  function Joined(parts: seq<Bytes>): Bytes {
    if parts == [] then [] else parts[0] + Joined(parts[1..])
  }

  lemma {:induction false} ListAccepts<T>(vs: seq<Value<T>>, ids: seq<TypeId>, types: Registry)
    requires |vs| == |ids|
    ensures EncAll(vs, ids, types).Some? <==> EachEncodes(vs, ids, types)
    ensures EachEncodes(vs, ids, types) ==> EncAll(vs, ids, types).value == Joined(Encodings(vs, ids, types))
  {
    hide Enc;
    if vs != [] {
      ListAccepts(vs[1..], ids[1..], types);
      if EncAll(vs, ids, types).Some? {
        forall i | 0 <= i < |vs| ensures Enc(vs[i], ids[i], types).Some? {
          assert i > 0 ==> vs[i] == vs[1..][i - 1] && ids[i] == ids[1..][i - 1];
        }
      }
      if EachEncodes(vs, ids, types) {
        EachTail(vs, ids, types);
        assert Encodings(vs, ids, types)[1..] == Encodings(vs[1..], ids[1..], types);
      }
    }
  }

  lemma EachTail<T>(vs: seq<Value<T>>, ids: seq<TypeId>, types: Registry)
    requires |vs| == |ids| && vs != [] && EachEncodes(vs, ids, types)
    ensures EachEncodes(vs[1..], ids[1..], types)
  {
    hide Enc;
    forall i | 0 <= i < |vs| - 1 ensures Enc(vs[1..][i], ids[1..][i], types).Some? {
      assert vs[1..][i] == vs[i + 1] && ids[1..][i] == ids[i + 1];
    }
  }

  // ----- sequences, arrays and tuples

  /** The values inside a composite, with or without names. */
  ghost function Inside<T>(c: Composite<T>): (vs: seq<Value<T>>)
    ensures |vs| == if c.Named? then |c.fields| else |c.values|
    ensures c.Unnamed? ==> vs == c.values
    ensures c.Named? ==> forall i :: 0 <= i < |vs| ==> vs[i] == c.fields[i].value
  {
    match c
    case Named(pairs) => seq(|pairs|, i requires 0 <= i < |pairs| => pairs[i].value)
    case Unnamed(vs) => vs
  }

  /** A composite, whatever its names, is accepted as a list of the right length all of whose values are. */
  lemma CompositeAsList<T>(c: Composite<T>, context: T, id: TypeId, types: Registry)
    requires id < |types|
    ensures var vs := Inside(c);
            var r := Enc(Value(CompositeValue(c), context), id, types);
            match types[id].def
            case SequenceType(elem) =>
              var ids := Repeat(elem, |vs|);
              && (r.Some? <==> |vs| <= U64_MAX && EachEncodes(vs, ids, types))
              && (r.Some? ==> r.value == EncCompact(|vs|) + Joined(Encodings(vs, ids, types)))
            case ArrayType(len, elem) =>
              var ids := Repeat(elem, |vs|);
              && (r.Some? <==> |vs| == len && EachEncodes(vs, ids, types))
              && (r.Some? ==> r.value == Joined(Encodings(vs, ids, types)))
            case TupleType(ids) =>
              && (r.Some? <==> |vs| == |ids| && EachEncodes(vs, ids, types))
              && (r.Some? ==> r.value == Joined(Encodings(vs, ids, types)))
            case _ => true
  {
    hide EncAll, EachEncodes, EncCompact, Joined, Encodings;
    var vs := Inside(c);
    assert c.IntoValues() == vs;
    assert Elements(Value(CompositeValue(c), context)) == Some(vs);
    match types[id].def
    case SequenceType(elem) => ListAccepts(vs, Repeat(elem, |vs|), types);
    case ArrayType(len, elem) => ListAccepts(vs, Repeat(elem, |vs|), types);
    case TupleType(ids) => if |vs| == |ids| { ListAccepts(vs, ids, types); }
    case _ =>
  }

  /** What is no composite: at a sequence or an array only 256-bit numbers, at a tuple the only member. */
  lemma OthersAsList<T>(v: Value<T>, id: TypeId, types: Registry)
    requires id < |types| && !v.def.CompositeValue?
    ensures var r := Enc(v, id, types);
            var big := v.def.PrimitiveValue? && (v.def.prim.U256? || v.def.prim.I256?);
            match types[id].def
            case SequenceType(_) => r.Some? ==> big
            case ArrayType(len, _) => r.Some? ==> big && len == 32
            case TupleType(ids) => r == if |ids| == 1 then Enc(v, ids[0], types) else None
            case _ => true
  {
    hide EncAll, EncCompact;
  }

  // ----- structs and enums

  /** The pair that bears a name, and is accepted at the type of the field. */
  ghost predicate Supplies<T>(p: NamedValue<T>, f: Field, types: Registry) {
    Some(p.name) == f.name && Enc(p.value, f.ty, types).Some?
  }

  /** Named fields are accepted exactly if there are as many values and one of each name that is accepted. */
  lemma NamedAccepted<T>(pairs: seq<NamedValue<T>>, fields: seq<Field>, types: Registry)
    requires AllNamed(fields) && DistinctNames(fields)
    ensures EncFields(Named(pairs), fields, types).Some? <==>
            |pairs| == |fields| && forall f :: f in fields ==> exists p :: p in pairs && Supplies(p, f, types)
  {
    hide Enc, EncAll, Arrange;
    var r := FieldValues(Named(pairs), fields);
    if EncFields(Named(pairs), fields, types).Some? {
      if fields != [] {
        ArrangeSound(pairs, fields);
        var vs := Arrange(pairs, fields).value;
        ListAccepts(vs, FieldTypes(fields), types);
        forall f | f in fields ensures exists p :: p in pairs && Supplies(p, f, types) {
          var k :| 0 <= k < |fields| && fields[k] == f;
          assert Enc(vs[k], FieldTypes(fields)[k], types).Some?;
          assert Supplies(NamedValue(f.name.value, vs[k]), f, types);
        }
      }
    } else if |pairs| == |fields| && forall f :: f in fields ==> exists p :: p in pairs && Supplies(p, f, types) {
      SuppliedIsAccepted(pairs, fields, types);
    }
  }

  lemma SuppliedIsAccepted<T>(pairs: seq<NamedValue<T>>, fields: seq<Field>, types: Registry)
    requires AllNamed(fields) && DistinctNames(fields) && |pairs| == |fields|
    requires forall f :: f in fields ==> exists p :: p in pairs && Supplies(p, f, types)
    ensures EncFields(Named(pairs), fields, types).Some?
  {
    hide Enc, EncAll, Arrange, Supplies;
    if fields == [] {
      NothingEncodes<T>(types);
    } else {
      var vs := SuppliedValues(pairs, fields, types);
      forall f | f in fields ensures exists p :: p in pairs && Some(p.name) == f.name {
        var p :| p in pairs && Supplies(p, f, types);
        SuppliedPair(p, f, types);
      }
      ManyNames(pairs, fields);
      ArrangeFinds(pairs, fields, vs);
      ListAccepts(vs, FieldTypes(fields), types);
    }
  }

  lemma NothingEncodes<T>(types: Registry)
    ensures EncFields<T>(Named([]), [], types) == Some([])
  {
  }

  lemma {:induction false} SuppliedValues<T>(pairs: seq<NamedValue<T>>, fields: seq<Field>, types: Registry)
    returns (vs: seq<Value<T>>)
    requires AllNamed(fields) && forall f :: f in fields ==> exists p :: p in pairs && Supplies(p, f, types)
    ensures |vs| == |fields| && Offers(pairs, fields, vs) && EachEncodes(vs, FieldTypes(fields), types)
  {
    hide Enc, Supplies;
    if fields == [] {
      vs := [];
    } else {
      assert fields[0] in fields;
      assert forall f :: f in fields[1..] ==> f in fields;
      var p :| p in pairs && Supplies(p, fields[0], types);
      var others := SuppliedValues(pairs, fields[1..], types);
      vs := [p.value] + others;
      forall k | 0 <= k < |fields|
        ensures NamedValue(fields[k].name.value, vs[k]) in pairs
        ensures Enc(vs[k], FieldTypes(fields)[k], types).Some?
      {
        if k > 0 {
          assert vs[k] == others[k - 1] && fields[k] == fields[1..][k - 1];
          assert Enc(others[k - 1], FieldTypes(fields[1..])[k - 1], types).Some?;
        } else {
          SuppliedPair(p, fields[0], types);
        }
      }
    }
  }

  lemma SuppliedPair<T>(p: NamedValue<T>, f: Field, types: Registry)
    requires Supplies(p, f, types)
    ensures f.name.Some? && p == NamedValue(f.name.value, p.value) && Enc(p.value, f.ty, types).Some?
  {
    hide Enc;
  }

  /** As many values as distinct names, and every name among them: the names of the values are distinct. */
  lemma ManyNames<T>(pairs: seq<NamedValue<T>>, fields: seq<Field>)
    requires AllNamed(fields) && DistinctNames(fields) && |pairs| == |fields|
    requires forall f :: f in fields ==> exists p :: p in pairs && Some(p.name) == f.name
    ensures DistinctPairs(pairs)
  {
    var names, theirs := Names(fields), PairNames(pairs);
    forall x | x in multiset(names) ensures multiset(names)[x] <= multiset(theirs)[x] {
      assert Distinct(names);
      NoDouble(names, x);
      var k :| 0 <= k < |names| && names[k] == x;
      assert fields[k] in fields;
      var p :| p in pairs && Some(p.name) == fields[k].name;
      var i :| 0 <= i < |pairs| && pairs[i] == p;
      assert theirs[i] == x;
    }
    SameSize(multiset(names), multiset(theirs));
    forall i, j | 0 <= i < j < |pairs| ensures pairs[i].name != pairs[j].name {
      if theirs[i] == theirs[j] {
        Double(theirs, i, j);
        NoDouble(names, theirs[i]);
      }
    }
  }

  /** Unnamed fields are accepted in order; a mixture of named and unnamed only if there are no fields at all. */
  lemma UnnamedAccepted<T>(c: Composite<T>, fields: seq<Field>, types: Registry)
    ensures var r := EncFields(c, fields, types);
            if Inside(c) == [] || fields == [] then
              r == if Inside(c) == [] && fields == [] then Some([]) else None
            else if c.Named? != fields[0].name.Some? then r.None?
            else c.Unnamed? ==>
              && (r.Some? <==> |c.values| == |fields| && EachEncodes(c.values, FieldTypes(fields), types))
              && (r.Some? ==> r.value == Joined(Encodings(c.values, FieldTypes(fields), types)))
  {
    hide Enc, EncAll, Arrange, EachEncodes, Joined, Encodings;
    assert |Inside(c)| == c.Len();
    if c.Unnamed? && |c.values| == |fields| {
      ListAccepts(c.values, FieldTypes(fields), types);
    }
    if c.Len() == |fields| == 0 {
      NoFields<T>(FieldTypes(fields), types);
    }
  }

  lemma NoFields<T>(ids: seq<TypeId>, types: Registry)
    requires ids == []
    ensures EncAll<T>([], ids, types) == Some([])
  {
  }

  /** At a struct a composite is judged by its fields, and anything else only as the only field. */
  lemma StructAccepts<T>(v: Value<T>, id: TypeId, types: Registry)
    requires id < |types| && types[id].def.CompositeType?
    ensures var fields := types[id].def.fields;
            Enc(v, id, types) ==
            if v.def.CompositeValue? then EncFields(v.def.composite, fields, types)
            else if |fields| == 1 then Enc(v, fields[0].ty, types)
            else None
  {
    hide EncFields;
  }

  /** At an enum a variant of a known name is judged by its fields; its index goes first. */
  lemma EnumAccepts<T>(v: Value<T>, id: TypeId, types: Registry)
    requires id < |types| && types[id].def.VariantType? && DistinctVariants(types[id].def.variants)
    ensures var r := Enc(v, id, types);
            && (r.Some? ==> v.def.VariantValue?)
            && (v.def.VariantValue? ==>
                  && (forall w :: w in types[id].def.variants && w.name == v.def.name ==>
                        var body := EncFields(v.def.fields, w.fields, types);
                        if body.Some? then r == Some([w.index] + body.value) else r == None)
                  && (r.Some? ==> exists w :: w in types[id].def.variants && w.name == v.def.name))
  {
    hide EncFields, FindName, FindIndex;
    var variants := types[id].def.variants;
    if v.def.VariantValue? {
      var found := FindName(variants, v.def.name);
      forall w | w in variants && w.name == v.def.name ensures found == Some(w) {
        VariantLookups(variants, w);
      }
    }
  }

  // ----- compact integers

  /** The only type inside a type with one member. */
  ghost predicate OnlyMember(def: TypeDef, sub: TypeId) {
    match def
    case CompositeType(fields) => |fields| == 1 && fields[0].ty == sub
    case TupleType(ids) => ids == [sub]
    case _ => false
  }

  /** A way down from `id` through only members to an unsigned integer of `w` bytes. */
  ghost predicate LeadsToInteger(path: seq<TypeId>, id: TypeId, w: IntWidth, types: Registry) {
    && path != [] && path[0] == id
    && (forall i :: 0 <= i < |path| ==> path[i] < |types|)
    && (forall i :: 0 < i < |path| ==> OnlyMember(types[path[i - 1]].def, path[i]))
    && types[path[|path| - 1]].def == PrimitiveType(UnsignedType(w))
  }

  /** The integer type behind a compact type is what its chain of only members ends in. */
  lemma {:induction false} WidthExactly(id: TypeId, w: IntWidth, types: Registry)
    ensures CompactWidth(id, types) == Some(w) <==> exists path :: LeadsToInteger(path, id, w, types)
    decreases Rank(types, id)
  {
    if id < |types| {
      if sub :| OnlyMember(types[id].def, sub) {
        MemberRank(types, id, sub);
        WidthExactly(sub, w, types);
        if path :| LeadsToInteger(path, sub, w, types) {
          assert LeadsToInteger([id] + path, id, w, types);
        }
        if path :| LeadsToInteger(path, id, w, types) {
          assert |path| > 1 ==> OnlyMember(types[path[0]].def, path[1]);
          assert LeadsToInteger(path[1..], sub, w, types);
        }
      } else {
        NoMember(id, w, types);
      }
    } else if path :| LeadsToInteger(path, id, w, types) {
      assert false;
    }
  }

  lemma MemberRank(types: Registry, id: TypeId, sub: TypeId)
    requires id < |types| && OnlyMember(types[id].def, sub)
    ensures Rank(types, sub) < Rank(types, id)
    ensures CompactWidth(id, types) == CompactWidth(sub, types)
  {
    match types[id].def
    case CompositeType(fields) => FieldRank(types, id, 0);
    case TupleType(ids) => InlineRank(types, id, ids[0]);
  }

  lemma OneMember(def: TypeDef)
    ensures (def.CompositeType? && |def.fields| == 1) || (def.TupleType? && |def.types| == 1) ==>
              exists sub :: OnlyMember(def, sub)
  {
    if def.CompositeType? && |def.fields| == 1 {
      assert OnlyMember(def, def.fields[0].ty);
    } else if def.TupleType? && |def.types| == 1 {
      assert OnlyMember(def, def.types[0]);
    }
  }

  lemma NoMember(id: TypeId, w: IntWidth, types: Registry)
    requires id < |types| && !exists sub :: OnlyMember(types[id].def, sub)
    ensures CompactWidth(id, types) == Some(w) <==> types[id].def == PrimitiveType(UnsignedType(w))
    ensures (exists path :: LeadsToInteger(path, id, w, types)) <==> types[id].def == PrimitiveType(UnsignedType(w))
  {
    OneMember(types[id].def);
    if types[id].def == PrimitiveType(UnsignedType(w)) {
      assert LeadsToInteger([id], id, w, types);
    }
    if path :| LeadsToInteger(path, id, w, types) {
      assert |path| > 1 ==> OnlyMember(types[path[0]].def, path[1]);
    }
  }

  /** A number, however it is spelled, is accepted at a compact type that holds it, and no other primitive is. */
  lemma NumbersAtCompact<T>(p: Primitive, context: T, id: TypeId, types: Registry)
    requires id < |types| && types[id].def.CompactType?
    ensures var r, w := Enc(Value(PrimitiveValue(p), context), id, types), CompactWidth(types[id].def.param, types);
            && (r.Some? ==> exists n :: Spells(p, n))
            && (forall n: int :: Spells(p, n) ==>
                  (r.Some? <==> w.Some? && 0 <= n < Pow256(w.value))
                  && (r.Some? ==> n < 0x1_0000_0000_0000_0000_0000_0000_0000_0000 && r.value == EncCompact(n)))
  {
    hide EncCompact, CompactWidth, Pow256;
    var v := Value(PrimitiveValue(p), context);
    assert Innermost(v) == Some(p);
    if AsInteger(p).Some? {
      assert Spells(p, AsInteger(p).value);
    }
    if Enc(v, id, types).Some? {
      var w := CompactWidth(types[id].def.param, types).value;
      Unsigned128(AsUnsigned(p, w).value, w);
    }
  }

  /** One value is unwrapped; anything else that is no primitive is refused. */
  lemma WrappedAtCompact<T>(v: Value<T>, id: TypeId, types: Registry)
    requires id < |types| && types[id].def.CompactType? && !v.def.PrimitiveValue?
    ensures Enc(v, id, types) ==
            if v.def.CompositeValue? && |Inside(v.def.composite)| == 1 then Enc(Inside(v.def.composite)[0], id, types)
            else None
  {
    hide EncCompact, CompactWidth, Pow256;
    if v.def.CompositeValue? {
      assert v.def.composite.IntoValues() == Inside(v.def.composite);
    }
  }

  // ----- primitives and bit sequences

  /** What a type that is no integer takes, and the bytes it writes. */
  lemma PrimitiveAccepts(p: Primitive, kind: PrimitiveKind)
    ensures var r := EncPrimitive(p, kind);
            match kind
            case BoolType => r == if p == Bool(true) then Some([1]) else if p == Bool(false) then Some([0]) else None
            case CharType => (r.Some? <==> p.Char?) && (r.Some? ==> |r.value| == 4 && FromLE(r.value) == p.c as int)
            case StrType =>
              && (r.Some? <==> p.Str? && |p.s| <= U32_MAX)
              && (r.Some? ==> r.value == EncCompact(|p.s|) + p.s)
            case U256Type => r == if p.U256? then Some(p.bytes) else None
            case I256Type => r == if p.I256? then Some(p.bytes) else None
            case UnsignedType(_) => r.Some? ==> exists n :: Spells(p, n)
            case SignedType(_) => r.Some? ==> exists n :: Spells(p, n)
  {
    hide EncCompact, LE, FromLE, Pow256, SignedLimit;
    Pow256Values();
    if p.Char? {
      FromLEOfLE(p.c as int, 4);
    }
    if AsInteger(p).Some? {
      assert Spells(p, AsInteger(p).value);
    }
  }

  /** A bit sequence type takes bits and unnamed lists of booleans, if it names a store and an order. */
  lemma {:induction false} BitsAccepted<T>(v: Value<T>, id: TypeId, types: Registry)
    requires id < |types| && types[id].def.BitSequenceType?
    ensures Enc(v, id, types).Some? <==>
            && BitDetails(types, types[id].def.store, types[id].def.order).Some?
            && match v.def
               case BitSequenceValue(bits) => |bits| <= U32_MAX
               case CompositeValue(Unnamed(vs)) =>
                 |vs| <= U32_MAX && forall i :: 0 <= i < |vs| ==> vs[i].def.PrimitiveValue? && vs[i].def.prim.Bool?
               case _ => false
  {
    hide EncCompact, Pack, BitDetails, BoolValues;
    if v.def.CompositeValue? && v.def.composite.Unnamed? {
      BoolsAccepted(v.def.composite.values);
    }
  }

  lemma {:induction false} BoolsAccepted<T>(vs: seq<Value<T>>)
    ensures BoolValues(vs).Some? <==> forall i :: 0 <= i < |vs| ==> vs[i].def.PrimitiveValue? && vs[i].def.prim.Bool?
  {
    if vs != [] {
      BoolsAccepted(vs[1..]);
      assert forall i :: 0 < i < |vs| ==> vs[i] == vs[1..][i - 1];
    }
  }

  /** Store and order are found exactly if the store is one of u8 to u64 and the order's path ends in its name. */
  lemma DetailsExactly(types: Registry, store: TypeId, order: TypeId, w: StoreBytes, o: BitOrder)
    ensures BitDetails(types, store, order) == Some((w, o)) <==>
            && store < |types| && types[store].def == PrimitiveType(UnsignedType(w))
            && order < |types| && types[order].path != []
            && types[order].path[|types[order].path| - 1] == match o case Lsb0 => "Lsb0" case Msb0 => "Msb0"
  {
  }

  /** The longest texts and bit sequences have a length of four bytes, the longest sequences one of eight. */
  lemma LimitsAreWidths()
    ensures U32_MAX + 1 == Pow256(4) && U64_MAX + 1 == Pow256(8)
  {
    Pow256Values();
  }

  // ----- names and indexes that occur twice

  /** Of several variants with one name, or one index, the first is taken. */
  lemma {:induction false} FindNameFirst(variants: seq<VariantKind>, name: string)
    ensures FindName(variants, name).Some? <==> exists v :: v in variants && v.name == name
    ensures FindName(variants, name).Some? ==>
              exists i :: 0 <= i < |variants| && variants[i] == FindName(variants, name).value
                          && variants[i].name == name && forall j :: 0 <= j < i ==> variants[j].name != name
  {
    if variants != [] && variants[0].name != name && FindName(variants, name).Some? {
      var others := variants[1..];
      FindNameFirst(others, name);
      var i :| 0 <= i < |others| && others[i] == FindName(others, name).value
               && others[i].name == name && forall j :: 0 <= j < i ==> others[j].name != name;
      assert variants[i + 1] == others[i];
      assert forall j :: 0 < j < i + 1 ==> variants[j] == others[j - 1];
    }
  }

  lemma {:induction false} FindIndexFirst(variants: seq<VariantKind>, index: Byte)
    ensures FindIndex(variants, index).Some? <==> exists v :: v in variants && v.index == index
    ensures FindIndex(variants, index).Some? ==>
              exists i :: 0 <= i < |variants| && variants[i] == FindIndex(variants, index).value
                          && variants[i].index == index && forall j :: 0 <= j < i ==> variants[j].index != index
  {
    if variants != [] && variants[0].index != index && FindIndex(variants, index).Some? {
      var others := variants[1..];
      FindIndexFirst(others, index);
      var i :| 0 <= i < |others| && others[i] == FindIndex(others, index).value
               && others[i].index == index && forall j :: 0 <= j < i ==> others[j].index != index;
      assert variants[i + 1] == others[i];
      assert forall j :: 0 < j < i + 1 ==> variants[j] == others[j - 1];
    }
  }
}
