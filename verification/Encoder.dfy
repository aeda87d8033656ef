/** The encoder as it runs: one method per kind of type, all appending to the same buffer. */
module Encoder {
  import opened Wrappers
  import opened ByteStrings
  import opened CompactIntegers
  import opened BitPacking
  import opened TypeRegistry
  import opened Values
  import opened ValueEncoding
  import opened Streams

  /** The outcome of appending `result` to a buffer that held `before`. */
  ghost predicate Appended(result: Option<Bytes>, before: Bytes, after: Bytes, ok: bool) {
    && (ok <==> result.Some?)
    && (ok ==> after == before + result.value)
    && before <= after
  }

  function Prepend(written: Bytes, more: Option<Bytes>): Option<Bytes> {
    var bs :- more;
    Some(written + bs)
  }

  method EncodeValueAsType<T>(value: Value<T>, id: TypeId, types: Registry, buf: Buffer) returns (ok: bool)
    modifies buf
    ensures Appended(Enc(value, id, types), old(buf.bytes), buf.bytes, ok)
    decreases Size(value), Rank(types, id), 0, 1
  {
    hide EncFields, EncAll, EncPrimitive, EncCompactValue, EncBitSequence, Elements, FindName;
    if id >= |types| {
      return false;
    }
    match types[id].def
    case CompositeType(fields) => ok := EncodeCompositeValue(value, id, fields, types, buf);
    case SequenceType(elem) => ok := EncodeSequenceValue(value, id, elem, types, buf);
    case ArrayType(len, elem) => ok := EncodeArrayValue(value, id, len, elem, types, buf);
    case TupleType(ids) => ok := EncodeTupleValue(value, id, ids, types, buf);
    case VariantType(variants) => ok := EncodeVariantValue(value, id, variants, types, buf);
    case PrimitiveType(kind) => ok := EncodePrimitiveValue(value, kind, buf);
    case CompactType(param) => ok := EncodeCompactValue(value, param, types, buf);
    case BitSequenceType(store, order) => ok := EncodeBitSequenceValue(value, store, order, types, buf);
  }

  method EncodeCompositeValue<T>(value: Value<T>, id: TypeId, fields: seq<Field>, types: Registry, buf: Buffer)
    returns (ok: bool)
    requires id < |types| && types[id].def == CompositeType(fields)
    modifies buf
    ensures Appended(Enc(value, id, types), old(buf.bytes), buf.bytes, ok)
    decreases Size(value), Rank(types, id), 0, 0
  {
    hide EncFields;
    match value.def
    case CompositeValue(c) => ok := EncodeCompositeFields(c, fields, types, buf);
    case _ =>
      if |fields| == 1 {
        FieldRank(types, id, 0);
        ok := EncodeValueAsType(value, fields[0].ty, types, buf);
      } else {
        ok := false;
      }
  }

  method EncodeSequenceValue<T>(value: Value<T>, id: TypeId, elem: TypeId, types: Registry, buf: Buffer)
    returns (ok: bool)
    requires id < |types| && types[id].def == SequenceType(elem)
    modifies buf
    ensures Appended(Enc(value, id, types), old(buf.bytes), buf.bytes, ok)
    decreases Size(value), Rank(types, id), 0, 0
  {
    hide EncAll, EncCompact;
    var elements := Elements(value);
    if elements.None? || |elements.value| > U64_MAX {
      return false;
    }
    var vs := elements.value;
    ghost var before := buf.bytes;
    buf.Append(EncCompact(|vs|));
    ok := EncodeEach(vs, Repeat(elem, |vs|), types, buf);
    if ok {
      assert before + EncCompact(|vs|) + EncAll(vs, Repeat(elem, |vs|), types).value
          == before + (EncCompact(|vs|) + EncAll(vs, Repeat(elem, |vs|), types).value);
    }
  }

  method EncodeArrayValue<T>(value: Value<T>, id: TypeId, len: nat, elem: TypeId, types: Registry, buf: Buffer)
    returns (ok: bool)
    requires id < |types| && types[id].def == ArrayType(len, elem)
    modifies buf
    ensures Appended(Enc(value, id, types), old(buf.bytes), buf.bytes, ok)
    decreases Size(value), Rank(types, id), 0, 0
  {
    hide EncAll;
    var elements := Elements(value);
    if elements.None? || |elements.value| != len {
      return false;
    }
    ok := EncodeEach(elements.value, Repeat(elem, len), types, buf);
  }

  method EncodeTupleValue<T>(value: Value<T>, id: TypeId, ids: seq<TypeId>, types: Registry, buf: Buffer)
    returns (ok: bool)
    requires id < |types| && types[id].def == TupleType(ids)
    modifies buf
    ensures Appended(Enc(value, id, types), old(buf.bytes), buf.bytes, ok)
    decreases Size(value), Rank(types, id), 0, 0
  {
    hide EncAll;
    match value.def
    case CompositeValue(c) =>
      if c.Len() != |ids| {
        return false;
      }
      SizeOfIntoValues(c);
      ok := EncodeEach(c.IntoValues(), ids, types, buf);
    case _ =>
      if |ids| == 1 {
        InlineRank(types, id, ids[0]);
        ok := EncodeValueAsType(value, ids[0], types, buf);
      } else {
        ok := false;
      }
  }

  method EncodeVariantValue<T>(value: Value<T>, id: TypeId, variants: seq<VariantKind>, types: Registry, buf: Buffer)
    returns (ok: bool)
    requires id < |types| && types[id].def == VariantType(variants)
    modifies buf
    ensures Appended(Enc(value, id, types), old(buf.bytes), buf.bytes, ok)
    decreases Size(value), Rank(types, id), 0, 0
  {
    hide EncFields;
    match value.def
    case VariantValue(name, fields) =>
      var variant := FindName(variants, name);
      if variant.None? {
        return false;
      }
      ghost var before := buf.bytes;
      buf.Append([variant.value.index]);
      ok := EncodeCompositeFields(fields, variant.value.fields, types, buf);
      if ok {
        assert buf.bytes == before + ([variant.value.index] + EncFields(fields, variant.value.fields, types).value);
      }
    case _ => ok := false;
  }

  /** The loop of sequences, arrays, tuples and unnamed fields. */
  method EncodeEach<T>(vs: seq<Value<T>>, ids: seq<TypeId>, types: Registry, buf: Buffer) returns (ok: bool)
    requires |vs| == |ids|
    modifies buf
    ensures Appended(EncAll(vs, ids, types), old(buf.bytes), buf.bytes, ok)
    decreases SizeAll(vs), RankAll(types, ids), 1, 0
  {
    hide Enc;
    ghost var before, written := buf.bytes, [];
    assert Prepend(written, EncAll(vs, ids, types)) == EncAll(vs, ids, types) by {
      if EncAll(vs, ids, types).Some? {
        assert written + EncAll(vs, ids, types).value == EncAll(vs, ids, types).value;
      }
    }
    assert vs[0..] == vs && ids[0..] == ids;
    for i := 0 to |vs|
      invariant buf.bytes == before + written
      invariant EncAll(vs, ids, types) == Prepend(written, EncAll(vs[i..], ids[i..], types))
      invariant SizeAll(vs[i..]) <= SizeAll(vs)
    {
      assert vs[i..][0] == vs[i] && vs[i..][1..] == vs[i + 1..] && ids[i..][1..] == ids[i + 1..];
      assert ids[i] in ids;
      ok := EncodeValueAsType(vs[i], ids[i], types, buf);
      if !ok {
        return;
      }
      ghost var first := Enc(vs[i], ids[i], types).value;
      PrependTwice(written, first, EncAll(vs[i + 1..], ids[i + 1..], types));
      assert before + written + first == before + (written + first);
      written := written + first;
    }
    assert vs[|vs|..] == [] && written + [] == written;
    ok := true;
  }

  lemma PrependTwice(p: Bytes, q: Bytes, more: Option<Bytes>)
    ensures Prepend(p, Prepend(q, more)) == Prepend(p + q, more)
  {
    if more.Some? {
      assert p + (q + more.value) == p + q + more.value;
    }
  }

  /** What is still to be written for `fields` from the values that are left. */
  ghost function EncNamed<T>(values: seq<NamedValue<T>>, fields: seq<Field>, types: Registry): Option<Bytes> {
    var vs :- Arrange(values, fields);
    EncAll(vs, FieldTypes(fields), types)
  }

  lemma EncNamedStep<T>(values: seq<NamedValue<T>>, fields: seq<Field>, types: Registry)
    requires fields != [] && fields[0].name.Some?
    ensures EncNamed(values, fields, types) ==
            match Position(values, fields[0].name.value)
            case None => None
            case Some(i) =>
              match Enc(values[i].value, fields[0].ty, types)
              case None => None
              case Some(first) => Prepend(first, EncNamed(SwapRemove(values, i), fields[1..], types))
  {
    hide Enc, Position, SwapRemove;
    assert FieldTypes(fields)[1..] == FieldTypes(fields[1..]);
    var i := Position(values, fields[0].name.value);
    if i.Some? {
      var others := Arrange(SwapRemove(values, i.value), fields[1..]);
      if others.Some? {
        var vs := [values[i.value].value] + others.value;
        assert Arrange(values, fields) == Some(vs) && vs[1..] == others.value;
      }
    }
  }

  method EncodeCompositeFields<T>(c: Composite<T>, fields: seq<Field>, types: Registry, buf: Buffer)
    returns (ok: bool)
    modifies buf
    ensures Appended(EncFields(c, fields, types), old(buf.bytes), buf.bytes, ok)
    decreases CompositeSize(c), RankAll(types, FieldTypes(fields)), 2, 1
  {
    hide Enc, Arrange;
    if c.Len() != |fields| {
      return false;
    }
    if c.Len() == 0 {
      return true;
    }
    match c
    case Named(pairs) =>
      if !FirstNamed(fields) {
        return false;
      }
      ok := EncodeNamedFields(pairs, fields, types, buf);
    case Unnamed(vs) =>
      if FirstNamed(fields) {
        return false;
      }
      ok := EncodeEach(vs, FieldTypes(fields), types, buf);
  }

  /** Take the value of each field out of the list with `swap_remove`, and encode it. */
  method EncodeNamedFields<T>(pairs: seq<NamedValue<T>>, fields: seq<Field>, types: Registry, buf: Buffer)
    returns (ok: bool)
    modifies buf
    ensures Appended(EncNamed(pairs, fields, types), old(buf.bytes), buf.bytes, ok)
    decreases SizePairs(pairs), RankAll(types, FieldTypes(fields)), 2, 0
  {
    hide Enc, Arrange, EncNamed, Position, SwapRemove, EncAll;
    var values := pairs;
    ghost var before, written := buf.bytes, [];
    assert fields[0..] == fields;
    PrependNothing(EncNamed(pairs, fields, types));
    for k := 0 to |fields|
      invariant buf.bytes == before + written
      invariant EncNamed(pairs, fields, types) == Prepend(written, EncNamed(values, fields[k..], types))
      invariant SizePairs(values) <= SizePairs(pairs)
    {
      assert fields[k..][0] == fields[k] && fields[k..][1..] == fields[k + 1..];
      if fields[k].name.None? {
        UnnamedFails(values, fields[k..], types);
        return false;
      }
      EncNamedStep(values, fields[k..], types);
      var i := Position(values, fields[k].name.value);
      if i.None? {
        return false;
      }
      var value := values[i.value].value;
      SwapRemoveSize(values, i.value);
      values := SwapRemove(values, i.value);
      assert FieldTypes(fields)[k] == fields[k].ty;
      ok := EncodeValueAsType(value, fields[k].ty, types, buf);
      if !ok {
        return;
      }
      ghost var first := Enc(value, fields[k].ty, types).value;
      PrependTwice(written, first, EncNamed(values, fields[k + 1..], types));
      assert before + written + first == before + (written + first);
      written := written + first;
    }
    NoFieldsLeft(values, fields[|fields|..], types);
    assert written + [] == written;
    ok := true;
  }

  lemma PrependNothing(more: Option<Bytes>)
    ensures Prepend([], more) == more
  {
    if more.Some? {
      assert [] + more.value == more.value;
    }
  }

  lemma UnnamedFails<T>(values: seq<NamedValue<T>>, fields: seq<Field>, types: Registry)
    requires fields != [] && fields[0].name.None?
    ensures EncNamed(values, fields, types) == None
  {
  }

  lemma NoFieldsLeft<T>(values: seq<NamedValue<T>>, fields: seq<Field>, types: Registry)
    requires fields == []
    ensures EncNamed(values, fields, types) == Some([])
  {
  }

  method EncodePrimitiveValue<T>(value: Value<T>, kind: PrimitiveKind, buf: Buffer) returns (ok: bool)
    modifies buf
    ensures Appended(if value.def.PrimitiveValue? then EncPrimitive(value.def.prim, kind) else None,
                     old(buf.bytes), buf.bytes, ok)
  {
    hide LE, EncCompact, EncSigned, Pow256;
    if !value.def.PrimitiveValue? {
      return false;
    }
    match (kind, value.def.prim)
    case (BoolType, Bool(b)) => buf.Append([if b then 1 else 0]); ok := true;
    case (CharType, Char(c)) => buf.Append(LE(c as int, 4)); ok := true;
    case (StrType, Str(s)) =>
      ok := |s| <= U32_MAX;
      if ok {
        buf.Append(EncCompact(|s|));
        buf.Append(s);
      }
    case (I256Type, I256(bs)) => buf.Append(bs); ok := true;
    case (U256Type, U256(bs)) => buf.Append(bs); ok := true;
    case (UnsignedType(w), p) =>
      var n := AsInteger(p);
      ok := n.Some? && 0 <= n.value < Pow256(w);
      if ok {
        buf.Append(LE(n.value, w));
      }
    case (SignedType(w), p) =>
      var n := AsInteger(p);
      ok := n.Some? && -SignedLimit(w) <= n.value < SignedLimit(w);
      if ok {
        buf.Append(EncSigned(n.value, w));
      }
    case _ => ok := false;
  }

  /** Two loops: one down the wrappers of the type, one down those of the value. */
  method EncodeCompactValue<T>(value: Value<T>, param: TypeId, types: Registry, buf: Buffer) returns (ok: bool)
    modifies buf
    ensures Appended(EncCompactValue(value, param, types), old(buf.bytes), buf.bytes, ok)
  {
    hide EncCompact, Pow256, AsUnsigned;
    var innerId: TypeId, width: Option<IntWidth> := param, None;
    while width.None?
      invariant buf.bytes == old(buf.bytes)
      invariant match width case None => CompactWidth(innerId, types) == CompactWidth(param, types)
                            case Some(w) => CompactWidth(param, types) == Some(w)
      decreases width.None?, Rank(types, innerId)
    {
      if innerId >= |types| {
        return false;
      }
      match types[innerId].def
      case CompositeType(fields) =>
        if |fields| != 1 {
          return false;
        }
        FieldRank(types, innerId, 0);
        innerId := fields[0].ty;
      case TupleType(ids) =>
        if |ids| != 1 {
          return false;
        }
        InlineRank(types, innerId, ids[0]);
        innerId := ids[0];
      case PrimitiveType(UnsignedType(w)) => width := Some(w);
      case _ => return false;
    }

    var inner := value;
    while inner.def.CompositeValue?
      invariant buf.bytes == old(buf.bytes)
      invariant Innermost(inner) == Innermost(value)
      decreases Size(inner)
    {
      var c := inner.def.composite;
      if c.Len() != 1 {
        return false;
      }
      SizeOfIntoValues(c);
      inner := c.IntoValues()[0];
    }
    if !inner.def.PrimitiveValue? {
      return false;
    }

    var n := AsUnsigned(inner.def.prim, width.value);
    if n.None? {
      return false;
    }
    Unsigned128(n.value, width.value);
    buf.Append(EncCompact(n.value));
    ok := true;
  }

  method EncodeBitSequenceValue<T>(value: Value<T>, store: TypeId, order: TypeId, types: Registry, buf: Buffer)
    returns (ok: bool)
    modifies buf
    ensures Appended(EncBitSequence(value, store, order, types), old(buf.bytes), buf.bytes, ok)
  {
    hide EncBits;
    var bools: seq<bool>;
    match value.def {
      case BitSequenceValue(bits) => bools := bits;
      case CompositeValue(Unnamed(vs)) =>
        bools := [];
        for i := 0 to |vs|
          invariant buf.bytes == old(buf.bytes)
          invariant BoolValues(vs[..i]) == Some(bools)
        {
          BoolValuesSnoc(vs[..i], vs[i]);
          assert vs[..i + 1] == vs[..i] + [vs[i]];
          match vs[i].def
          case PrimitiveValue(Bool(b)) => bools := bools + [b];
          case _ =>
            BoolValuesPrefix(vs, i + 1);
            return false;
        }
        assert vs[..|vs|] == vs;
      case _ => return false;
    }
    var details := BitDetails(types, store, order);
    if details.None? {
      return false;
    }
    var bs := EncBits(bools, details.value.0, details.value.1);
    if bs.None? {
      return false;
    }
    buf.Append(bs.value);
    ok := true;
  }

  lemma {:induction false} BoolValuesSnoc<T>(vs: seq<Value<T>>, v: Value<T>)
    requires BoolValues(vs).Some?
    ensures BoolValues(vs + [v]) ==
            if v.def.PrimitiveValue? && v.def.prim.Bool? then Some(BoolValues(vs).value + [v.def.prim.b]) else None
  {
    if vs == [] {
      var none: seq<bool> := [];
      assert vs + [v] == [v] && [v][1..] == vs;
      assert forall b: bool :: [b] + none == none + [b];
    } else {
      BoolValuesSnoc(vs[1..], v);
      assert (vs + [v])[1..] == vs[1..] + [v];
      if v.def.PrimitiveValue? && v.def.prim.Bool? {
        var b, bs, last := vs[0].def.prim.b, BoolValues(vs[1..]).value, v.def.prim.b;
        assert [b] + (bs + [last]) == [b] + bs + [last];
      }
    }
  }

  lemma {:induction false} BoolValuesPrefix<T>(vs: seq<Value<T>>, n: nat)
    requires n <= |vs| && BoolValues(vs[..n]).None?
    ensures BoolValues(vs).None?
  {
    if n > 0 {
      assert vs[..n][1..] == vs[1..][..n - 1];
      if vs[0].def.PrimitiveValue? && vs[0].def.prim.Bool? {
        BoolValuesPrefix(vs[1..], n - 1);
      }
    }
  }
}
