/**
 Encoding accepts values that decoding never yields. Each of these spellings stands for another
 value: it encodes to the same bytes, or fails, exactly as that value does.
 */
module Spellings {
  import opened Wrappers
  import opened ByteStrings
  import opened CompactIntegers
  import opened BitPacking
  import opened TypeRegistry
  import opened Values
  import opened ValueEncoding
  import opened ValueDecoding
  import opened FieldOrder

  /** The primitives that spell the integer `n`. */
  predicate Spells(p: Primitive, n: int) {
    match p
    case U128(m) => m == n
    case I128(i) => i == n
    case Char(c) => c as int == n
    case _ => false
  }

  /** An unsigned type holds the numbers from zero below 256^w, however they are spelled. */
  lemma UnsignedSpellings(p: Primitive, q: Primitive, n: int, w: IntWidth)
    requires Spells(p, n) && Spells(q, n)
    ensures EncPrimitive(p, UnsignedType(w)) == EncPrimitive(q, UnsignedType(w))
    ensures EncPrimitive(p, UnsignedType(w)).Some? <==> 0 <= n < Pow256(w)
    ensures 0 <= n < Pow256(w) ==> FromLE(EncPrimitive(p, UnsignedType(w)).value) == n
  {
    hide LE, FromLE, Pow256;
    assert AsInteger(p) == AsInteger(q) == Some(n);
    if 0 <= n < Pow256(w) {
      FromLEOfLE(n, w);
    }
  }

  /**
   A signed type holds the numbers from minus half of 256^w up to less than half of it, and writes a
   negative one as its complement.
   */
  lemma SignedSpellings(p: Primitive, q: Primitive, n: int, w: IntWidth)
    requires Spells(p, n) && Spells(q, n)
    ensures EncPrimitive(p, SignedType(w)) == EncPrimitive(q, SignedType(w))
    ensures EncPrimitive(p, SignedType(w)).Some? <==> 0 <= 2 * n + Pow256(w) < 2 * Pow256(w)
    ensures EncPrimitive(p, SignedType(w)).Some? ==>
              FromLE(EncPrimitive(p, SignedType(w)).value) == if n < 0 then Pow256(w) + n else n
  {
    hide LE, FromLE, Pow256, SignedLimit, EncPrimitive, Spells;
    SignedByNumber(p, n, w);
    SignedByNumber(q, n, w);
    if EncPrimitive(p, SignedType(w)).Some? {
      FromLEOfLE(if n < 0 then n + Pow256(w) else n, w);
    }
  }

  lemma SignedByNumber(p: Primitive, n: int, w: IntWidth)
    requires Spells(p, n)
    ensures EncPrimitive(p, SignedType(w)) ==
            if -SignedLimit(w) <= n < SignedLimit(w) then Some(LE(if n < 0 then n + Pow256(w) else n, w)) else None
  {
    hide LE, Pow256, SignedLimit;
    assert AsInteger(p) == Some(n);
  }

  /** A 256-bit number is the list of its bytes, to sequences and to arrays. */
  lemma {:induction false} BigNumberIsList<T>(bs: Bytes32, signed: bool, context: T, id: TypeId, types: Registry)
    requires id < |types| && (types[id].def.SequenceType? || types[id].def.ArrayType?)
    ensures Enc(Value(PrimitiveValue(if signed then I256(bs) else U256(bs)), context), id, types)
         == Enc(Value(CompositeValue(Unnamed(UintValues(bs, context))), context), id, types)
  {
    hide EncAll, EncCompact;
  }

  /** To bytes: behind their count in a sequence, and as they are in an array of their number. */
  lemma BigNumberIsBytes<T>(bs: Bytes32, signed: bool, context: T, id: TypeId, types: Registry, elem: TypeId)
    requires id < |types| && elem < |types| && types[elem].def == PrimitiveType(UnsignedType(1))
    ensures var r := Enc(Value(PrimitiveValue(if signed then I256(bs) else U256(bs)), context), id, types);
            match types[id].def
            case SequenceType(e) => e == elem ==> r == Some([128] + bs)
            case ArrayType(len, e) => e == elem ==> r == if len == 32 then Some(bs) else None
            case _ => true
  {
    hide EncAll, LE;
    BytesOfUints(bs, context, elem, types);
    assert EncCompact(32) == [128];
  }

  lemma {:induction false} BytesOfUints<T>(bs: Bytes, context: T, elem: TypeId, types: Registry)
    requires elem < |types| && types[elem].def == PrimitiveType(UnsignedType(1))
    ensures EncAll(UintValues(bs, context), Repeat(elem, |bs|), types) == Some(bs)
  {
    if bs != [] {
      var vs := UintValues(bs, context);
      BytesOfUints(bs[1..], context, elem, types);
      assert vs[1..] == UintValues(bs[1..], context) && Repeat(elem, |bs|)[1..] == Repeat(elem, |bs| - 1);
      ByteOfUint(vs[0], bs[0], elem, types);
      hide Enc;
      assert [bs[0]] + bs[1..] == bs;
    }
  }

  lemma ByteOfUint<T>(v: Value<T>, b: Byte, elem: TypeId, types: Registry)
    requires elem < |types| && types[elem].def == PrimitiveType(UnsignedType(1))
    requires v.def == PrimitiveValue(U128(b))
    ensures Enc(v, elem, types) == Some([b])
  {
    assert Pow256(1) == 256 && LE(b, 1) == [b];
    assert AsUnsigned(v.def.prim, 1) == Some(b);
    assert EncPrimitive(v.def.prim, UnsignedType(1)) == Some([b]);
  }

  /** A value that is no composite stands for itself inside a one-field composite. */
  lemma {:induction false} BareFieldOfComposite<T>(v: Value<T>, context: T, id: TypeId, types: Registry)
    requires id < |types| && types[id].def.CompositeType? && |types[id].def.fields| == 1
    requires !v.def.CompositeValue?
    ensures Enc(v, id, types) == Enc(Value(CompositeValue(Shape(types[id].def.fields, [v])), context), id, types)
  {
    hide EncAll, Shape, FieldValues;
    var fields := types[id].def.fields;
    assert UniformFields(fields) by {
      assert fields[0].name.None? ==> !AnyNamed(fields);
    }
    ShapeFieldValues(fields, [v]);
    EncSingle(v, FieldTypes(fields), types);
  }

  /** The same for a one-field tuple. */
  lemma {:induction false} BareFieldOfTuple<T>(v: Value<T>, context: T, id: TypeId, types: Registry)
    requires id < |types| && types[id].def.TupleType? && |types[id].def.types| == 1
    requires !v.def.CompositeValue?
    ensures Enc(v, id, types) == Enc(Value(CompositeValue(Unnamed([v])), context), id, types)
  {
    hide EncAll;
    EncSingle(v, types[id].def.types, types);
  }

  lemma {:induction false} EncSingle<T>(v: Value<T>, ids: seq<TypeId>, types: Registry)
    requires |ids| == 1
    ensures EncAll([v], ids, types) == Enc(v, ids[0], types)
  {
    hide Enc;
    var first := Enc(v, ids[0], types);
    var none: Bytes := [];
    assert EncAll([v][1..], ids[1..], types) == Some(none);
    if first.Some? {
      assert first.value + none == first.value;
    }
  }

  /** A list of booleans is the bit sequence of the same bits. */
  lemma {:induction false} BoolListIsBits<T>(bits: seq<bool>, context: T)
    ensures BoolValues(Bools(bits, context)) == Some(bits)
  {
    if bits != [] {
      BoolListIsBits(bits[1..], context);
      assert Bools(bits, context)[1..] == Bools(bits[1..], context);
      assert [bits[0]] + bits[1..] == bits;
    }
  }

  function Bools<T>(bits: seq<bool>, context: T): (vs: seq<Value<T>>)
    ensures |vs| == |bits|
  {
    seq(|bits|, i requires 0 <= i < |bits| => Value(PrimitiveValue(Bool(bits[i])), context))
  }

  /** The bits as the payload has them from the least significant on. */
  function InPayload(bits: seq<bool>, w: StoreBytes, order: BitOrder): seq<bool> {
    match order
    case Lsb0 => bits
    case Msb0 => Flip(bits + Zeros(8 * PayloadLength(|bits|, w) - |bits|), w)
  }

  /**
   What a bit sequence of a type with the given order name and store looks like in bytes, whether it is
   given as bits or as a list of booleans.
   */
  lemma BitSequenceFormat<T>(bits: seq<bool>, context: T, id: TypeId, types: Registry, path: seq<string>,
                             w: StoreBytes, order: BitOrder)
    requires id < |types| && types[id].def.BitSequenceType? && |bits| <= U32_MAX
    requires types[id].def.store < |types| && types[types[id].def.store].def == PrimitiveType(UnsignedType(w))
    requires types[id].def.order < |types|
             && types[types[id].def.order].path == path + [if order == Lsb0 then "Lsb0" else "Msb0"]
    ensures var bs := Enc(Value(BitSequenceValue(bits), context), id, types);
            && bs == Enc(Value(CompositeValue(Unnamed(Bools(bits, context))), context), id, types)
            && bs.Some?
            && var n := |EncCompact(|bits|)|;
               && bs.value[..n] == EncCompact(|bits|)
               && |bs.value| == n + PayloadLength(|bits|, w)
               && FromLE(bs.value[n..]) == FromBits(InPayload(bits, w, order))
  {
    hide EncCompact, Pack, FromLE, FromBits, Flip, BitDetails, InPayload, PayloadLength, EncAll, BoolValues;
    BoolListIsBits(bits, context);
    PackRoundTrip(bits, w, order, false, []);
    PayloadNumber(bits, w, order);
    OrderIsNamed(types, types[id].def.store, types[id].def.order, path, w, order);
    var bs := Enc(Value(BitSequenceValue(bits), context), id, types).value;
    assert bs == EncCompact(|bits|) + Pack(bits, w, order);
  }

  lemma PayloadNumber(bits: seq<bool>, w: StoreBytes, order: BitOrder)
    ensures FromLE(Pack(bits, w, order)) == FromBits(InPayload(bits, w, order))
  {
    hide Pack, FromLE, FromBits, Flip;
    if order == Lsb0 {
      Lsb0Layout(bits, w);
    } else {
      Msb0Layout(bits, w);
    }
  }

  lemma OrderIsNamed(types: Registry, store: TypeId, id: TypeId, path: seq<string>, w: StoreBytes, order: BitOrder)
    requires store < |types| && types[store].def == PrimitiveType(UnsignedType(w))
    requires id < |types| && types[id].path == path + [if order == Lsb0 then "Lsb0" else "Msb0"]
    ensures BitDetails(types, store, id) == Some((w, order))
  {
  }
}
