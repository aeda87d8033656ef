/** The version 4 extrinsic with its back-patched length prefix. */
module Extrinsics {
  import opened Wrappers
  import opened ByteStrings
  import opened CompactIntegers
  import opened BitPacking
  import opened HexText
  import opened Streams

  const V4 := 4
  /** The bit of the version byte that says whether the extrinsic is signed. */
  const SIGNED := 0x80

  /** The codec of a component type that is not shown in the repository. */
  datatype Codec<!X> = Codec(enc: X -> Bytes, dec: Bytes -> Option<(X, Bytes)>)

  ghost predicate PrefixRoundTrip<X(!new)>(c: Codec<X>) {
    forall x, rest :: c.dec(c.enc(x) + rest) == Some((x, rest))
  }

  datatype Codecs<!A, !S, !E, !C> = Codecs(address: Codec<A>, signature: Codec<S>, extra: Codec<E>, call: Codec<C>)

  ghost predicate AllRoundTrip<A(!new), S(!new), E(!new), C(!new)>(k: Codecs<A, S, E, C>) {
    PrefixRoundTrip(k.address) && PrefixRoundTrip(k.signature) && PrefixRoundTrip(k.extra) && PrefixRoundTrip(k.call)
  }

  datatype Extrinsic<A, S, E, C> = Extrinsic(signature: Option<(A, S, E)>, call: C)

  function SignatureBytes<A, S, E, C>(signature: Option<(A, S, E)>, k: Codecs<A, S, E, C>): Bytes {
    match signature
    case None => [V4]
    case Some((a, s, e)) => [V4 + SIGNED] + k.address.enc(a) + k.signature.enc(s) + k.extra.enc(e)
  }

  /** Version, signature and call, without the length prefix. */
  function Body<A, S, E, C>(x: Extrinsic<A, S, E, C>, k: Codecs<A, S, E, C>): Bytes {
    SignatureBytes(x.signature, k) + k.call.enc(x.call)
  }

  function Encode<A, S, E, C>(x: Extrinsic<A, S, E, C>, k: Codecs<A, S, E, C>): Option<Bytes> {
    var body := Body(x, k);
    if |body| <= U32_MAX then Some(EncCompact(|body|) + body) else None
  }

  function DecSignature<A, S, E, C>(data: Bytes, k: Codecs<A, S, E, C>): Option<((A, S, E), Bytes)> {
    var (a, data1) :- k.address.dec(data);
    var (s, data2) :- k.signature.dec(data1);
    var (e, rest) :- k.extra.dec(data2);
    Some(((a, s, e), rest))
  }

  /** The length is read as that of a vector of units: it has to be there, and is not used. */
  function Decode<A, S, E, C>(data: Bytes, k: Codecs<A, S, E, C>): Option<(Extrinsic<A, S, E, C>, Bytes)> {
    var (_, versioned) :- DecCompact(data, U32_MAX);
    if versioned == [] || versioned[0] % SIGNED != V4 then
      None
    else if versioned[0] < SIGNED then
      var (call, rest) :- k.call.dec(versioned[1..]);
      Some((Extrinsic(None, call), rest))
    else
      var (signature, signed) :- DecSignature(versioned[1..], k);
      var (call, rest) :- k.call.dec(signed);
      Some((Extrinsic(Some(signature), call), rest))
  }

  // ----- round trip

  lemma SignatureRoundTrip<A(!new), S(!new), E(!new), C(!new)>(a: A, s: S, e: E, k: Codecs<A, S, E, C>, rest: Bytes)
    requires AllRoundTrip(k)
    ensures DecSignature(k.address.enc(a) + (k.signature.enc(s) + (k.extra.enc(e) + rest)), k)
            == Some(((a, s, e), rest))
  {
  }

  /** Decoding gives the extrinsic back and leaves what follows it, whatever the length prefix says. */
  lemma ExtrinsicRoundTrip<A(!new), S(!new), E(!new), C(!new)>(x: Extrinsic<A, S, E, C>, k: Codecs<A, S, E, C>,
                                                               length: nat, tail: Bytes)
    requires AllRoundTrip(k) && length <= U32_MAX
    ensures Decode(EncCompact(length) + Body(x, k) + tail, k) == Some((x, tail))
  {
    hide EncCompact, DecCompact;
    var called := k.call.enc(x.call) + tail;
    assert EncCompact(length) + Body(x, k) + tail == EncCompact(length) + (Body(x, k) + tail);
    CompactRoundTrip(length, U32_MAX, Body(x, k) + tail);
    match x.signature
    case None =>
      assert Body(x, k) + tail == [V4] + called;
    case Some((a, s, e)) =>
      var signed := k.address.enc(a) + (k.signature.enc(s) + (k.extra.enc(e) + called));
      assert Body(x, k) + tail == [V4 + SIGNED] + signed;
      SignatureRoundTrip(a, s, e, k, called);
  }

  /** Nothing but a version 4 byte, signed or not, is accepted behind the length. */
  lemma OtherVersionsRejected<A, S, E, C>(data: Bytes, k: Codecs<A, S, E, C>)
    requires Decode(data, k).Some?
    ensures var versioned := DecCompact(data, U32_MAX).value.1;
            versioned != [] && (versioned[0] == V4 || versioned[0] == V4 + SIGNED)
            && (Decode(data, k).value.0.signature.Some? <==> versioned[0] == V4 + SIGNED)
  {
    hide DecCompact;
  }

  /** The text form is read back by `from_hex`. */
  lemma HexFormReadsBack<A, S, E, C>(x: Extrinsic<A, S, E, C>, k: Codecs<A, S, E, C>)
    requires Encode(x, k).Some?
    ensures FromHex("0x" + HexEncode(Encode(x, k).value)) == Some(Encode(x, k).value)
  {
    hide FromHex, HexEncode;
    var bs := Encode(x, k).value;
    FromHexReads(bs, 0, 0);
    assert Quotes(0) + ("0x" + HexEncode(bs)) + Quotes(0) == "0x" + HexEncode(bs);
  }

  /** The version byte is 4, or 0x84 with address, signature and extra behind it; the call comes last. */
  lemma BodyFormat<A, S, E, C>(x: Extrinsic<A, S, E, C>, k: Codecs<A, S, E, C>)
    ensures var body := Body(x, k);
            && body != []
            && match x.signature
               case None => body[0] == 4 && body[1..] == k.call.enc(x.call)
               case Some((a, s, e)) =>
                 body[0] == 0x84
                 && body[1..] == k.address.enc(a) + k.signature.enc(s) + k.extra.enc(e) + k.call.enc(x.call)
  {
    if x.signature.Some? {
      var (a, s, e) := x.signature.value;
      var parts := k.address.enc(a) + k.signature.enc(s) + k.extra.enc(e);
      SignatureParts(a, s, e, k);
      assert Body(x, k) == [V4 + SIGNED] + (parts + k.call.enc(x.call));
    }
  }

  // ----- what is accepted

  ghost predicate Lossless<X(!new)>(c: Codec<X>) {
    forall data :: c.dec(data).Some? ==> c.enc(c.dec(data).value.0) + c.dec(data).value.1 == data
  }

  ghost predicate AllLossless<A(!new), S(!new), E(!new), C(!new)>(k: Codecs<A, S, E, C>) {
    Lossless(k.address) && Lossless(k.signature) && Lossless(k.extra) && Lossless(k.call)
  }

  /**
   If the components can be rewritten as they were read, an extrinsic is read from its encoding behind a
   number of at most 32 bits, and from nothing else.
   */
  lemma DecodeAcceptsExactly<A(!new), S(!new), E(!new), C(!new)>(data: Bytes, x: Extrinsic<A, S, E, C>,
                                                                 rest: Bytes, k: Codecs<A, S, E, C>)
    requires AllRoundTrip(k) && AllLossless(k)
    ensures Decode(data, k) == Some((x, rest)) <==>
            exists n: U128Int :: n <= U32_MAX && data == EncCompact(n) + Body(x, k) + rest
  {
    hide EncCompact, DecCompact, Body, AllRoundTrip;
    if Decode(data, k) == Some((x, rest)) {
      var (n, versioned) := DecCompact(data, U32_MAX).value;
      CompactLossless(data, U32_MAX);
      BodyLossless(data, k);
      assert EncCompact(n) + (Body(x, k) + rest) == EncCompact(n) + Body(x, k) + rest;
    } else if n: U128Int :| n <= U32_MAX && data == EncCompact(n) + Body(x, k) + rest {
      ExtrinsicRoundTrip(x, k, n, rest);
    }
  }

  lemma BodyLossless<A(!new), S(!new), E(!new), C(!new)>(data: Bytes, k: Codecs<A, S, E, C>)
    requires AllLossless(k) && Decode(data, k).Some?
    ensures var (x, rest) := Decode(data, k).value;
            Body(x, k) + rest == DecCompact(data, U32_MAX).value.1
  {
    hide DecCompact, DecSignature;
    var versioned := DecCompact(data, U32_MAX).value.1;
    var (x, rest) := Decode(data, k).value;
    var call := k.call.enc(x.call);
    match x.signature
    case None =>
      assert call + rest == versioned[1..];
      HeadAndTail(V4, [], call, rest, versioned);
    case Some((a, s, e)) =>
      var signed := DecSignature(versioned[1..], k).value.1;
      SignatureLossless(versioned[1..], k);
      assert call + rest == signed;
      var parts := k.address.enc(a) + k.signature.enc(s) + k.extra.enc(e);
      HeadAndTail(V4 + SIGNED, parts, call, rest, versioned);
      SignatureParts(a, s, e, k);
  }

  lemma HeadAndTail(head: Byte, parts: Bytes, call: Bytes, rest: Bytes, all: Bytes)
    requires all != [] && all[0] == head && all[1..] == parts + (call + rest)
    ensures [head] + parts + call + rest == all
  {
    assert [head] + parts + call + rest == [head] + (parts + (call + rest));
    assert all == [all[0]] + all[1..];
  }

  lemma SignatureParts<A, S, E, C>(a: A, s: S, e: E, k: Codecs<A, S, E, C>)
    ensures SignatureBytes(Some((a, s, e)), k) ==
            [V4 + SIGNED] + (k.address.enc(a) + k.signature.enc(s) + k.extra.enc(e))
  {
  }

  lemma SignatureLossless<A(!new), S(!new), E(!new), C(!new)>(data: Bytes, k: Codecs<A, S, E, C>)
    requires AllLossless(k) && DecSignature(data, k).Some?
    ensures var ((a, s, e), rest) := DecSignature(data, k).value;
            k.address.enc(a) + k.signature.enc(s) + k.extra.enc(e) + rest == data
  {
    var ((a, s, e), rest) := DecSignature(data, k).value;
    var data1 := k.address.dec(data).value.1;
    var data2 := k.signature.dec(data1).value.1;
    assert k.address.enc(a) + data1 == data && k.signature.enc(s) + data2 == data1 && k.extra.enc(e) + rest == data2;
    Regrouped(k.address.enc(a), k.signature.enc(s), k.extra.enc(e), rest);
  }

  lemma Regrouped(p: Bytes, q: Bytes, r: Bytes, s: Bytes)
    ensures p + q + r + s == p + (q + (r + s))
  {
  }

  // ----- the encoder as it runs

  /** The guess of the length of the length prefix, from the size of the Rust type. */
  function Reserve(size: nat): nat {
    if size <= 0x3F then 1 else if size <= 0x3FFF then 2 else 4
  }

  method EncodeBody<A, S, E, C>(x: Extrinsic<A, S, E, C>, k: Codecs<A, S, E, C>, v: Buffer)
    modifies v
    ensures v.bytes == old(v.bytes) + Body(x, k)
  {
    ghost var before := v.bytes;
    match x.signature {
      case None => v.Append([V4]);
      case Some((a, s, e)) =>
        v.Append([V4 + SIGNED]);
        v.Append(k.address.enc(a));
        v.Append(k.signature.enc(s));
        v.Append(k.extra.enc(e));
        assert v.bytes == before + ([V4 + SIGNED] + k.address.enc(a) + k.signature.enc(s) + k.extra.enc(e));
    }
    assert v.bytes == before + SignatureBytes(x.signature, k);
    v.Append(k.call.enc(x.call));
  }

  /** Reserve room, write the body behind it, then put the real prefix in place of the reserved bytes. */
  method EncodeWithVecPrefix<A, S, E, C>(x: Extrinsic<A, S, E, C>, k: Codecs<A, S, E, C>, size: nat)
    returns (r: Option<Bytes>)
    ensures r == Encode(x, k)
  {
    var reserve := Reserve(size);
    var v := new Buffer();
    v.Append(seq(reserve, _ => 0));
    EncodeBody(x, k, v);
    var length := |v.bytes| - reserve;
    assert v.bytes[reserve..] == Body(x, k);
    if length > U32_MAX {
      return None;
    }
    v.bytes := EncCompact(length) + v.bytes[reserve..];
    return Some(v.bytes);
  }

  method HexEncodeExtrinsic<A, S, E, C>(x: Extrinsic<A, S, E, C>, k: Codecs<A, S, E, C>, size: nat)
    returns (r: Option<string>)
    ensures r.Some? <==> Encode(x, k).Some?
    ensures r.Some? ==> FromHex(r.value) == Encode(x, k)
    ensures r.Some? ==> "0x" <= r.value && HexDecode(r.value[2..]) == Encode(x, k)
  {
    hide FromHex, HexEncode, HexDecode;
    var bs := EncodeWithVecPrefix(x, k, size);
    if bs.None? {
      return None;
    }
    HexFormReadsBack(x, k);
    HexRoundTrip(bs.value);
    var text := "0x" + HexEncode(bs.value);
    assert text[2..] == HexEncode(bs.value);
    return Some(text);
  }
}
