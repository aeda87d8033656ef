/** The keys of the runtime storage. Hash functions are parameters: only their lengths matter. */
module StorageKeys {
  import opened Wrappers
  import opened ByteStrings
  import opened TypeRegistry
  import opened Values
  import opened ValueEncoding
  import opened ValueDecoding
  import opened NormalForms
  import opened RoundTrips

  datatype StorageHasher =
    | Blake2_128
    | Blake2_256
    | Blake2_128Concat
    | Twox128
    | Twox256
    | Twox64Concat
    | Identity

  datatype Hashes = Hashes(
    blake2_128: Bytes -> Bytes,
    blake2_256: Bytes -> Bytes,
    twox_64: Bytes -> Bytes,
    twox_128: Bytes -> Bytes,
    twox_256: Bytes -> Bytes)

  ghost predicate FixedLengths(h: Hashes) {
    && (forall x :: |h.blake2_128(x)| == 16)
    && (forall x :: |h.twox_64(x)| == 8)
    && (forall x :: |h.twox_128(x)| == 16)
  }

  datatype StorageKind = Plain | MapKind(hashers: seq<StorageHasher>)

  datatype StorageEntry = StorageEntry(name: Bytes, kind: StorageKind)

  function KeyHash(h: Hashes, key: Bytes, hasher: StorageHasher): Bytes {
    match hasher
    case Identity => key
    case Blake2_128 => h.blake2_128(key)
    case Blake2_128Concat => h.blake2_128(key) + key
    case Blake2_256 => h.blake2_256(key)
    case Twox128 => h.twox_128(key)
    case Twox256 => h.twox_256(key)
    case Twox64Concat => h.twox_64(key) + key
  }

  function StoragePrefix(h: Hashes, pallet: Bytes, name: Bytes): Bytes {
    h.twox_128(pallet) + h.twox_128(name)
  }

  function ValueKey(h: Hashes, pallet: Bytes, e: StorageEntry): Option<Bytes> {
    if e.kind.Plain? then Some(StoragePrefix(h, pallet, e.name)) else None
  }

  function MapPrefix(h: Hashes, pallet: Bytes, e: StorageEntry): Option<Bytes> {
    if e.kind.MapKind? then Some(StoragePrefix(h, pallet, e.name)) else None
  }

  function MapKey(h: Hashes, pallet: Bytes, e: StorageEntry, key: Bytes): Option<Bytes> {
    if e.kind.MapKind? && |e.kind.hashers| >= 1 then
      Some(StoragePrefix(h, pallet, e.name) + KeyHash(h, key, e.kind.hashers[0]))
    else None
  }

  function DoubleMapKey(h: Hashes, pallet: Bytes, e: StorageEntry, key1: Bytes, key2: Bytes): Option<Bytes> {
    if e.kind.MapKind? && |e.kind.hashers| >= 2 then
      Some(StoragePrefix(h, pallet, e.name)
           + KeyHash(h, key1, e.kind.hashers[0]) + KeyHash(h, key2, e.kind.hashers[1]))
    else None
  }

  /** The hashers that keep the key itself at the end of their output. */
  predicate Transparent(hasher: StorageHasher) {
    hasher in {Identity, Blake2_128Concat, Twox64Concat}
  }

  /** The number of bytes before the key. */
  function HashLength(hasher: StorageHasher): nat
    requires Transparent(hasher)
  {
    match hasher
    case Identity => 0
    case Blake2_128Concat => 16
    case Twox64Concat => 8
  }

  lemma KeyHashEndsInKey(h: Hashes, key: Bytes, hasher: StorageHasher)
    requires FixedLengths(h) && Transparent(hasher)
    ensures |KeyHash(h, key, hasher)| == HashLength(hasher) + |key|
    ensures KeyHash(h, key, hasher)[HashLength(hasher)..] == key
  {
  }

  // ----- the bytes of the keys

  /** What stands in a storage key for `key`: the hash that the hasher names, and for some the key behind it. */
  ghost predicate HashedBy(h: Hashes, hasher: StorageHasher, key: Bytes, bs: Bytes) {
    match hasher
    case Blake2_128 => bs == h.blake2_128(key)
    case Blake2_256 => bs == h.blake2_256(key)
    case Twox128 => bs == h.twox_128(key)
    case Twox256 => bs == h.twox_256(key)
    case Blake2_128Concat => |bs| == 16 + |key| && bs[..16] == h.blake2_128(key) && bs[16..] == key
    case Twox64Concat => |bs| == 8 + |key| && bs[..8] == h.twox_64(key) && bs[8..] == key
    case Identity => bs == key
  }

  lemma KeyHashIsHashed(h: Hashes, key: Bytes, hasher: StorageHasher)
    requires FixedLengths(h)
    ensures HashedBy(h, hasher, key, KeyHash(h, key, hasher))
  {
  }

  /** A key begins with the hashes of the pallet and of the entry; only plain entries have no more than that. */
  lemma PrefixBytes(h: Hashes, pallet: Bytes, e: StorageEntry)
    requires FixedLengths(h)
    ensures ValueKey(h, pallet, e).Some? <==> e.kind.Plain?
    ensures MapPrefix(h, pallet, e).Some? <==> e.kind.MapKind?
    ensures var key := if e.kind.Plain? then ValueKey(h, pallet, e).value else MapPrefix(h, pallet, e).value;
            |key| == 32 && key[..16] == h.twox_128(pallet) && key[16..] == h.twox_128(e.name)
  {
  }

  /** The key of a map entry: exactly maps with a hasher have one, and it is hashed with the first. */
  lemma MapKeyBytes(h: Hashes, pallet: Bytes, e: StorageEntry, key: Bytes)
    requires FixedLengths(h)
    ensures MapKey(h, pallet, e, key).Some? <==> e.kind.MapKind? && e.kind.hashers != []
    ensures MapKey(h, pallet, e, key).Some? ==>
              var bs := MapKey(h, pallet, e, key).value;
              && |bs| >= 32 && bs[..16] == h.twox_128(pallet) && bs[16..32] == h.twox_128(e.name)
              && HashedBy(h, e.kind.hashers[0], key, bs[32..])
  {
    hide HashedBy, KeyHash;
    if e.kind.MapKind? && e.kind.hashers != [] {
      KeyHashIsHashed(h, key, e.kind.hashers[0]);
      var bs := MapKey(h, pallet, e, key).value;
      assert bs[32..] == KeyHash(h, key, e.kind.hashers[0]);
    }
  }

  /** The key of a double map entry: the first part under the first hasher, the second under the second. */
  lemma DoubleMapKeyBytes(h: Hashes, pallet: Bytes, e: StorageEntry, key1: Bytes, key2: Bytes)
    requires FixedLengths(h)
    ensures DoubleMapKey(h, pallet, e, key1, key2).Some? <==> e.kind.MapKind? && |e.kind.hashers| >= 2
    ensures DoubleMapKey(h, pallet, e, key1, key2).Some? ==>
              var bs := DoubleMapKey(h, pallet, e, key1, key2).value;
              && |bs| >= 32 && bs[..16] == h.twox_128(pallet) && bs[16..32] == h.twox_128(e.name)
              && exists n :: 32 <= n <= |bs| && HashedBy(h, e.kind.hashers[0], key1, bs[32..n])
                             && HashedBy(h, e.kind.hashers[1], key2, bs[n..])
  {
    hide HashedBy, KeyHash;
    if e.kind.MapKind? && |e.kind.hashers| >= 2 {
      var p, q := KeyHash(h, key1, e.kind.hashers[0]), KeyHash(h, key2, e.kind.hashers[1]);
      KeyHashIsHashed(h, key1, e.kind.hashers[0]);
      KeyHashIsHashed(h, key2, e.kind.hashers[1]);
      var bs := DoubleMapKey(h, pallet, e, key1, key2).value;
      assert bs[32..32 + |p|] == p && bs[32 + |p|..] == q;
    }
  }

  /** The two hash functions are the same where the hasher uses them. */
  ghost predicate AgreeFor(h: Hashes, g: Hashes, hasher: StorageHasher) {
    match hasher
    case Blake2_128 => forall x :: h.blake2_128(x) == g.blake2_128(x)
    case Blake2_128Concat => forall x :: h.blake2_128(x) == g.blake2_128(x)
    case Blake2_256 => forall x :: h.blake2_256(x) == g.blake2_256(x)
    case Twox128 => true
    case Twox256 => forall x :: h.twox_256(x) == g.twox_256(x)
    case Twox64Concat => forall x :: h.twox_64(x) == g.twox_64(x)
    case Identity => true
  }

  /** A key depends on `twox_128` and the functions its hashers name, and on no other. */
  lemma KeysUseNamedHashes(h: Hashes, g: Hashes, pallet: Bytes, e: StorageEntry, key1: Bytes, key2: Bytes)
    requires (forall x :: h.twox_128(x) == g.twox_128(x)) && e.kind.MapKind?
    ensures |e.kind.hashers| >= 1 && AgreeFor(h, g, e.kind.hashers[0]) ==>
              MapKey(h, pallet, e, key1) == MapKey(g, pallet, e, key1)
    ensures |e.kind.hashers| >= 2 && AgreeFor(h, g, e.kind.hashers[0]) && AgreeFor(h, g, e.kind.hashers[1]) ==>
              DoubleMapKey(h, pallet, e, key1, key2) == DoubleMapKey(g, pallet, e, key1, key2)
  {
  }

  // ----- the areas of the entries

  /** All entries of a map lie under its prefix, all entries of a double map with one first key under that key. */
  lemma PrefixChain(h: Hashes, pallet: Bytes, e: StorageEntry, key1: Bytes, key2: Bytes)
    ensures MapKey(h, pallet, e, key1).Some? ==>
              MapPrefix(h, pallet, e).Some? && MapPrefix(h, pallet, e).value <= MapKey(h, pallet, e, key1).value
    ensures DoubleMapKey(h, pallet, e, key1, key2).Some? ==>
              MapKey(h, pallet, e, key1).Some?
              && MapKey(h, pallet, e, key1).value <= DoubleMapKey(h, pallet, e, key1, key2).value
  {
  }

  /** The keys under which something of an entry is stored. */
  ghost predicate IsKeyOf(h: Hashes, pallet: Bytes, e: StorageEntry, bytes: Bytes) {
    || ValueKey(h, pallet, e) == Some(bytes)
    || (exists key :: MapKey(h, pallet, e, key) == Some(bytes))
    || (exists key1, key2 :: DoubleMapKey(h, pallet, e, key1, key2) == Some(bytes))
  }

  /** A key of one entry begins a key of another only if the hashes of both names collide. */
  lemma EntryAreasDisjoint(h: Hashes, pallet: Bytes, e: StorageEntry, other: Bytes, f: StorageEntry, x: Bytes,
                           y: Bytes)
    requires FixedLengths(h) && IsKeyOf(h, pallet, e, x) && IsKeyOf(h, other, f, y) && x <= y
    ensures h.twox_128(pallet) == h.twox_128(other) && h.twox_128(e.name) == h.twox_128(f.name)
  {
    hide KeyHash;
    BeginsWithNames(h, pallet, e, x);
    BeginsWithNames(h, other, f, y);
    assert x[..16] == y[..16] && x[16..32] == y[16..32];
  }

  lemma BeginsWithNames(h: Hashes, pallet: Bytes, e: StorageEntry, x: Bytes)
    requires FixedLengths(h) && IsKeyOf(h, pallet, e, x)
    ensures |x| >= 32 && x[..16] == h.twox_128(pallet) && x[16..32] == h.twox_128(e.name)
  {
    hide KeyHash;
    assert StoragePrefix(h, pallet, e.name) <= x;
    assert x[..32] == StoragePrefix(h, pallet, e.name);
    assert x[..16] == x[..32][..16] && x[16..32] == x[..32][16..];
  }

  // ----- injectivity, for any key codecs

  /** No encoding is a prefix of the encoding of something else. */
  ghost predicate PrefixFreeCodec<K(!new)>(enc: K -> Bytes) {
    forall x, y :: enc(x) <= enc(y) ==> x == y
  }

  ghost predicate InjectiveCodec<K(!new)>(enc: K -> Bytes) {
    forall x, y :: enc(x) == enc(y) ==> x == y
  }

  /** Different keys of a map have different storage keys. */
  lemma MapKeyInjective<K(!new)>(h: Hashes, pallet: Bytes, e: StorageEntry, enc: K -> Bytes, x: K, y: K)
    requires FixedLengths(h) && InjectiveCodec(enc)
    requires e.kind.MapKind? && |e.kind.hashers| >= 1 && Transparent(e.kind.hashers[0])
    requires MapKey(h, pallet, e, enc(x)) == MapKey(h, pallet, e, enc(y))
    ensures x == y
  {
    var prefix, a := StoragePrefix(h, pallet, e.name), e.kind.hashers[0];
    var p, q := KeyHash(h, enc(x), a), KeyHash(h, enc(y), a);
    assert (prefix + p)[|prefix|..] == p && (prefix + q)[|prefix|..] == q;
    KeyHashEndsInKey(h, enc(x), a);
    KeyHashEndsInKey(h, enc(y), a);
  }

  /** The entries of a double map that lie under a first key are exactly those with that first key. */
  lemma FirstKeySelects<K(!new)>(h: Hashes, pallet: Bytes, e: StorageEntry, enc1: K -> Bytes, x1: K, y1: K,
                                 key2: Bytes)
    requires FixedLengths(h) && PrefixFreeCodec(enc1)
    requires e.kind.MapKind? && |e.kind.hashers| >= 2 && Transparent(e.kind.hashers[0])
    ensures MapKey(h, pallet, e, enc1(x1)).Some? && DoubleMapKey(h, pallet, e, enc1(y1), key2).Some?
    ensures MapKey(h, pallet, e, enc1(x1)).value <= DoubleMapKey(h, pallet, e, enc1(y1), key2).value <==> x1 == y1
  {
    var prefix, a := StoragePrefix(h, pallet, e.name), e.kind.hashers[0];
    var p, q, t := KeyHash(h, enc1(x1), a), KeyHash(h, enc1(y1), a), KeyHash(h, key2, e.kind.hashers[1]);
    hide KeyHash, HashLength, FixedLengths;
    if prefix + p <= prefix + q + t {
      KeyHashEndsInKey(h, enc1(x1), a);
      KeyHashEndsInKey(h, enc1(y1), a);
      var s := (prefix + q + t)[|prefix + p|..];
      SameTails(prefix, p, s, q, t);
      DropHashes(p, s, q, t, HashLength(a));
      OneIsPrefix(enc1(x1), s, enc1(y1), t);
    }
  }

  /** Different pairs of keys have different storage keys. */
  lemma DoubleMapKeyInjective<K(!new), Q(!new)>(h: Hashes, pallet: Bytes, e: StorageEntry, enc1: K -> Bytes,
                                                enc2: Q -> Bytes, x1: K, x2: Q, y1: K, y2: Q)
    requires FixedLengths(h) && PrefixFreeCodec(enc1) && InjectiveCodec(enc2)
    requires e.kind.MapKind? && |e.kind.hashers| >= 2
    requires Transparent(e.kind.hashers[0]) && Transparent(e.kind.hashers[1])
    requires DoubleMapKey(h, pallet, e, enc1(x1), enc2(x2)) == DoubleMapKey(h, pallet, e, enc1(y1), enc2(y2))
    ensures x1 == y1 && x2 == y2
  {
    hide KeyHash, HashLength, FixedLengths;
    var prefix, a, b := StoragePrefix(h, pallet, e.name), e.kind.hashers[0], e.kind.hashers[1];
    var p, q := KeyHash(h, enc1(x1), a), KeyHash(h, enc1(y1), a);
    var s, t := KeyHash(h, enc2(x2), b), KeyHash(h, enc2(y2), b);
    SameTails(prefix, p, s, q, t);
    KeyHashEndsInKey(h, enc1(x1), a);
    KeyHashEndsInKey(h, enc1(y1), a);
    DropHashes(p, s, q, t, HashLength(a));
    OneIsPrefix(enc1(x1), s, enc1(y1), t);
    assert x1 == y1;
    assert (p + s)[|p|..] == s && (q + t)[|p|..] == t;
    KeyHashEndsInKey(h, enc2(x2), b);
    KeyHashEndsInKey(h, enc2(y2), b);
  }

  lemma DropHashes(p: Bytes, s: Bytes, q: Bytes, t: Bytes, n: nat)
    requires p + s == q + t && n <= |p| && n <= |q|
    ensures p[n..] + s == q[n..] + t
  {
    assert p[n..] + s == (p + s)[n..];
    assert q[n..] + t == (q + t)[n..];
  }

  lemma SameTails(prefix: Bytes, p: Bytes, s: Bytes, q: Bytes, t: Bytes)
    requires prefix + p + s == prefix + q + t
    ensures p + s == q + t
  {
    assert (prefix + p + s)[|prefix|..] == p + s;
    assert (prefix + q + t)[|prefix|..] == q + t;
  }

  lemma OneIsPrefix(p: Bytes, s: Bytes, q: Bytes, t: Bytes)
    requires p + s == q + t
    ensures p <= q || q <= p
  {
    var whole := p + s;
    assert p == whole[..|p|] && q == whole[..|q|];
    if |p| <= |q| {
      assert p == q[..|p|];
    } else {
      assert q == p[..|q|];
    }
  }

  // ----- reading SCALE keys back

  /** Read both keys out of the key of a double map, skipping the hashes before them. */
  function KeysOf(bytes: Bytes, hashers: seq<StorageHasher>, id1: TypeId, id2: TypeId, types: Registry)
    : Option<(Value<TypeId>, Value<TypeId>)>
    requires |hashers| >= 2 && Transparent(hashers[0]) && Transparent(hashers[1])
  {
    var (_, hashed1) :- Take(bytes, 32);
    var (_, data1) :- Take(hashed1, HashLength(hashers[0]));
    var (v1, hashed2) :- Dec(data1, id1, types, false);
    var (_, data2) :- Take(hashed2, HashLength(hashers[1]));
    var (v2, rest) :- Dec(data2, id2, types, false);
    if rest == [] then Some((v1, v2)) else None
  }

  /** With SCALE keys the storage key determines both keys: they can be decoded from it if decoding can follow them. */
  lemma DoubleMapKeyReadsBack<T, U>(h: Hashes, pallet: Bytes, e: StorageEntry, v1: Value<T>, v2: Value<U>,
                                    id1: TypeId, id2: TypeId, types: Registry)
    requires FixedLengths(h) && WellFormed(types)
    requires Enc(v1, id1, types).Some? && Enc(v2, id2, types).Some?
    requires e.kind.MapKind? && |e.kind.hashers| >= 2
    requires Transparent(e.kind.hashers[0]) && Transparent(e.kind.hashers[1])
    ensures var key := DoubleMapKey(h, pallet, e, Enc(v1, id1, types).value, Enc(v2, id2, types).value);
            && key.Some?
            && KeysOf(key.value, e.kind.hashers, id1, id2, types)
               == if Followable(v1, id1, types) && Followable(v2, id2, types) then
                    Some((Norm(v1, id1, types), Norm(v2, id2, types)))
                  else None
  {
    hide Enc, Dec, Norm, Followable, KeyHash;
    var b1, b2 := Enc(v1, id1, types).value, Enc(v2, id2, types).value;
    var a1, a2 := e.kind.hashers[0], e.kind.hashers[1];
    var k1, k2 := KeyHash(h, b1, a1), KeyHash(h, b2, a2);
    var key := DoubleMapKey(h, pallet, e, b1, b2).value;
    KeyHashEndsInKey(h, b1, a1);
    KeyHashEndsInKey(h, b2, a2);
    assert key[32..] == k1 + k2;
    assert (k1 + k2)[HashLength(a1)..] == b1 + k2;
    ValueRoundTrip(v1, id1, types, false, k2);
    assert k2[HashLength(a2)..] == b2 == b2 + [];
    ValueRoundTrip(v2, id2, types, false, []);
  }
}
