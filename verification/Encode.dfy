/** What `encode_value_as_type` appends to its buffer; `None` when it fails. */
module ValueEncoding {
  import opened Wrappers
  import opened ByteStrings
  import opened CompactIntegers
  import opened BitPacking
  import opened TypeRegistry
  import opened Values

  const U64_MAX := 0xFFFF_FFFF_FFFF_FFFF

  // ----- primitives

  /** The integer a primitive stands for: characters count as their scalar value. */
  function AsInteger(p: Primitive): Option<int> {
    match p
    case U128(n) => Some(n)
    case I128(i) => Some(i)
    case Char(c) => Some(c as int)
    case _ => None
  }

  function SignedLimit(w: IntWidth): (h: int)
    ensures 2 * h == Pow256(w)
  {
    Pow256Values();
    Pow256(w) / 2
  }

  function AsUnsigned(p: Primitive, w: IntWidth): (r: Option<nat>)
    ensures r.Some? ==> r.value < Pow256(w)
  {
    var n :- AsInteger(p);
    if 0 <= n < Pow256(w) then Some(n) else None
  }

  function AsSigned(p: Primitive, w: IntWidth): (r: Option<int>)
    ensures r.Some? ==> -SignedLimit(w) <= r.value < SignedLimit(w)
  {
    var n :- AsInteger(p);
    if -SignedLimit(w) <= n < SignedLimit(w) then Some(n) else None
  }

  /** Two's complement. */
  function EncSigned(n: int, w: IntWidth): Bytes
    requires -SignedLimit(w) <= n < SignedLimit(w)
  {
    LE(if n < 0 then n + Pow256(w) else n, w)
  }

  function EncString(s: Utf8): Option<Bytes> {
    if |s| <= U32_MAX then Some(EncCompact(|s|) + s) else None
  }

  function EncPrimitive(p: Primitive, kind: PrimitiveKind): Option<Bytes> {
    match kind
    case BoolType => if p.Bool? then Some([if p.b then 1 else 0]) else None
    case CharType => if p.Char? then Some(LE(p.c as int, 4)) else None
    case StrType => if p.Str? then EncString(p.s) else None
    case U256Type => if p.U256? then Some(p.bytes) else None
    case I256Type => if p.I256? then Some(p.bytes) else None
    case UnsignedType(w) => var n :- AsUnsigned(p, w); Some(LE(n, w))
    case SignedType(w) => var n :- AsSigned(p, w); Some(EncSigned(n, w))
  }

  // ----- matching the fields of a value with those of a type

  function Position<T>(pairs: seq<NamedValue<T>>, name: string): (r: Option<nat>)
    ensures r.Some? ==> r.value < |pairs| && pairs[r.value].name == name
    ensures r.None? ==> forall p :: p in pairs ==> p.name != name
  {
    if pairs == [] then None
    else if pairs[0].name == name then Some(0)
    else var i :- Position(pairs[1..], name); Some(i + 1)
  }

  /** `Vec::swap_remove`: the last element takes the place of the removed one. */
  function SwapRemove<A>(s: seq<A>, i: nat): (r: seq<A>)
    requires i < |s|
    ensures |r| == |s| - 1
  {
    s[i := s[|s| - 1]][..|s| - 1]
  }

  lemma SwapRemoveMultiset<A>(s: seq<A>, i: nat)
    requires i < |s|
    ensures multiset(SwapRemove(s, i)) + multiset{s[i]} == multiset(s)
  {
    var last := s[|s| - 1];
    assert s == s[..|s| - 1] + [last];
    if i < |s| - 1 {
      assert SwapRemove(s, i) == s[..|s| - 1][i := last];
    }
  }

  lemma {:induction false} SwapRemoveSize<T>(pairs: seq<NamedValue<T>>, i: nat)
    requires i < |pairs|
    ensures SizePairs(SwapRemove(pairs, i)) + Size(pairs[i].value) == SizePairs(pairs)
  {
    var removed, tail := SwapRemove(pairs, i), pairs[1..];
    if i > 0 {
      SwapRemoveSize(tail, i - 1);
      assert removed[1..] == SwapRemove(tail, i - 1);
    } else if tail != [] {
      var n := |tail| - 1;
      assert tail == tail[..n] + [tail[n]];
      SizePairsConcat(tail[..n], [tail[n]]);
      assert removed == [tail[n]] + tail[..n] && removed[1..] == tail[..n];
    }
  }

  /** Put named values in the order of the fields, searching and `swap_remove`-ing one by one. */
  function Arrange<T>(pairs: seq<NamedValue<T>>, fields: seq<Field>): (r: Option<seq<Value<T>>>)
    ensures r.Some? ==> |r.value| == |fields| && SizeAll(r.value) <= SizePairs(pairs)
    decreases |fields|
  {
    if fields == [] then
      Some([])
    else if fields[0].name.None? then
      None
    else
      var i :- Position(pairs, fields[0].name.value);
      var others :- Arrange(SwapRemove(pairs, i), fields[1..]);
      SwapRemoveSize(pairs, i);
      Some([pairs[i].value] + others)
  }

  /** The values to encode, in the order of the fields of the type. */
  function FieldValues<T>(c: Composite<T>, fields: seq<Field>): (r: Option<seq<Value<T>>>)
    ensures r.Some? ==> |r.value| == |fields| && SizeAll(r.value) <= CompositeSize(c)
  {
    if c.Len() != |fields| then None
    else if c.Len() == 0 then Some([])
    else if c.Named? && FirstNamed(fields) then Arrange(c.fields, fields)
    else if c.Unnamed? && !FirstNamed(fields) then Some(c.values)
    else None
  }

  // ----- compact integers and bit sequences

  /** The integer type at the end of a chain of one-field composites and tuples. */
  function CompactWidth(id: TypeId, types: Registry): Option<IntWidth>
    decreases Rank(types, id)
  {
    if id >= |types| then None else
    match types[id].def
    case CompositeType(fields) =>
      if |fields| == 1 then
        FieldRank(types, id, 0);
        CompactWidth(fields[0].ty, types)
      else None
    case TupleType(ids) =>
      if |ids| == 1 then
        InlineRank(types, id, ids[0]);
        CompactWidth(ids[0], types)
      else None
    case PrimitiveType(UnsignedType(w)) => Some(w)
    case _ => None
  }

  /** The primitive at the end of a chain of one-value composites. */
  function Innermost<T>(v: Value<T>): Option<Primitive>
    decreases Size(v)
  {
    match v.def
    case CompositeValue(c) =>
      SizeOfIntoValues(c);
      if c.Len() == 1 then Innermost(c.IntoValues()[0]) else None
    case PrimitiveValue(p) => Some(p)
    case _ => None
  }

  lemma Unsigned128(n: nat, w: IntWidth)
    requires n < Pow256(w)
    ensures n < 0x1_0000_0000_0000_0000_0000_0000_0000_0000
  {
    Pow256Values();
  }

  function EncCompactValue<T>(v: Value<T>, param: TypeId, types: Registry): Option<Bytes> {
    var w :- CompactWidth(param, types);
    var p :- Innermost(v);
    var n :- AsUnsigned(p, w);
    Unsigned128(n, w);
    Some(EncCompact(n))
  }

  function BoolValues<T>(vs: seq<Value<T>>): (r: Option<seq<bool>>)
    ensures r.Some? ==> |r.value| == |vs|
  {
    if vs == [] then Some([])
    else if vs[0].def.PrimitiveValue? && vs[0].def.prim.Bool? then
      var others :- BoolValues(vs[1..]);
      Some([vs[0].def.prim.b] + others)
    else None
  }

  /** A bit sequence, or a list of booleans. */
  function BitsOf<T>(v: Value<T>): Option<seq<bool>> {
    match v.def
    case BitSequenceValue(bits) => Some(bits)
    case CompositeValue(Unnamed(vs)) => BoolValues(vs)
    case _ => None
  }

  function EncBitSequence<T>(v: Value<T>, store: TypeId, order: TypeId, types: Registry): Option<Bytes> {
    var bits :- BitsOf(v);
    var (w, o) :- BitDetails(types, store, order);
    EncBits(bits, w, o)
  }

  // ----- values

  /** The elements a value offers to a sequence or an array type. */
  function Elements<T>(v: Value<T>): (r: Option<seq<Value<T>>>)
    ensures r.Some? ==> SizeAll(r.value) < Size(v)
  {
    match v.def
    case CompositeValue(c) => SizeOfIntoValues(c); Some(c.IntoValues())
    case PrimitiveValue(U256(bs)) => SizeOfUints(bs, v.context); Some(UintValues(bs, v.context))
    case PrimitiveValue(I256(bs)) => SizeOfUints(bs, v.context); Some(UintValues(bs, v.context))
    case _ => None
  }

  function Enc<T>(v: Value<T>, id: TypeId, types: Registry): Option<Bytes>
    decreases Size(v), Rank(types, id), 0
  {
    if id >= |types| then None else
    match types[id].def
    case CompositeType(fields) =>
      if v.def.CompositeValue? then
        EncFields(v.def.composite, fields, types)
      else if |fields| == 1 then
        FieldRank(types, id, 0);
        Enc(v, fields[0].ty, types)
      else None
    case SequenceType(elem) =>
      var vs :- Elements(v);
      if |vs| > U64_MAX then None else
      var body :- EncAll(vs, Repeat(elem, |vs|), types);
      Some(EncCompact(|vs|) + body)
    case ArrayType(len, elem) =>
      var vs :- Elements(v);
      if |vs| != len then None else EncAll(vs, Repeat(elem, len), types)
    case TupleType(ids) =>
      if v.def.CompositeValue? then
        SizeOfIntoValues(v.def.composite);
        var vs := v.def.composite.IntoValues();
        if |vs| != |ids| then None else EncAll(vs, ids, types)
      else if |ids| == 1 then
        InlineRank(types, id, ids[0]);
        Enc(v, ids[0], types)
      else None
    case VariantType(variants) =>
      if !v.def.VariantValue? then None else
      var variant :- FindName(variants, v.def.name);
      var body :- EncFields(v.def.fields, variant.fields, types);
      Some([variant.index] + body)
    case PrimitiveType(kind) =>
      if v.def.PrimitiveValue? then EncPrimitive(v.def.prim, kind) else None
    case CompactType(param) => EncCompactValue(v, param, types)
    case BitSequenceType(store, order) => EncBitSequence(v, store, order, types)
  }

  function EncFields<T>(c: Composite<T>, fields: seq<Field>, types: Registry): Option<Bytes>
    decreases CompositeSize(c), RankAll(types, FieldTypes(fields)), 2
  {
    var vs :- FieldValues(c, fields);
    EncAll(vs, FieldTypes(fields), types)
  }

  /** One value after the other, each at its own type. */
  function EncAll<T>(vs: seq<Value<T>>, ids: seq<TypeId>, types: Registry): Option<Bytes>
    requires |vs| == |ids|
    decreases SizeAll(vs), RankAll(types, ids), 1
  {
    if vs == [] then
      Some([])
    else
      var first :- Enc(vs[0], ids[0], types);
      var others :- EncAll(vs[1..], ids[1..], types);
      Some(first + others)
  }
}
