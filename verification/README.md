# Verified model of substrate-api-client

A Dafny model of the parts of the client that interpret bytes, and proofs of what they promise.

* **The type-directed SCALE codec.** `encode_value_as_type` and `decode_value_as_type` walk a type
  registry and turn a dynamic value into bytes and back. `Encode.dfy` and `Decode.dfy` say what is
  appended and what is read; `Encoder.dfy` and `Decoder.dfy` are the same code step by step, over a
  buffer that grows and a cursor that advances, and are proved to do exactly that. `Normal.dfy`
  defines, independently of any bytes, the normal form of a value. Around it: decoding after
  encoding (`RoundTrip.dfy`), encoding after decoding (`Lossless.dfy`), locality (`Locality.dfy`), what an
  encoding says about its value without any decoding (`EncodingPrefixes.dfy`), the irrelevance of the order
  of named fields (`FieldOrder.dfy`), the other spellings that encoding accepts (`Spellings.dfy`), which
  values are accepted at which types (`Acceptance.dfy`), and the laws for whole values (`Codec.dfy`).
  `Compact.dfy`, `Bits.dfy` and `Utf8.dfy` hold compact integers, bit sequences and text.
* **Events.** `Events.dfy` cuts the event bytes of a block into records; `EventLaws.dfy` proves that the
  records tile the bytes, that a block written by a node is read back, and that a record can be read
  again. `WaitForEvent.dfy` scans a stream of such blocks. `Metadata.dfy` builds the lookup tables.
* **Keys and extrinsics.** `StorageKeys.dfy`, `Extrinsic.dfy`, `Hex.dfy`.
* **Two stateful cores.** `Keystore.dfy` (memory over a directory) and `Allocator.dfy` (a lock-free bump
  allocator, as compare-and-swap steps of any number of threads).

## Conventions

Every error of the source, and every panic, is `None`. A registry is a list of types none of which
contains itself inline, that is without a sequence or an enum in between (`TypeRegistry.Registry`,
`AcyclicExactly`); a type that does has no finite value, so no value is lost. Types that are
recursive through sequences and enums are in the model. Nothing else is asked of a registry for the
interpreters to be defined. `WellFormed` adds what
every registry built from Rust types has: the fields of a type are all named with distinct names or
all unnamed, and the variants of an enum have distinct names and distinct indexes. `zeroPad` is false for
the decoder of the source; true stands for a stricter reading that also looks at unused bits.

Assumed of the codec library, which is not part of this model: compact decoding rejects every form
but the shortest; the bytes of a boolean are 0 and 1; a string is a compact 32-bit length and valid
UTF-8; a bit sequence is a compact 32-bit bit count and little-endian store words, whose unused bits are
written as zero and not looked at. Lengths that do not fit (more than 2^32 - 1 bits, string bytes or
topics, 2^64 - 1 elements) fail to encode. The format is that of section A.2.2 and section A.2.2.1 of the
Polkadot Protocol Specification.

Two places where the code differs from what one might expect:

* A compact type over a one-field tuple encodes and never decodes. `CompactTupleFails` gives an input:
  zero at `Compact<(u8,)>`. `ValueRoundTrip` says for every value whether decoding can follow its encoding
  (`Followable`), `ReachablePlain` that all values of a type can be followed if no such compact type is
  reachable from it, and `RoundTripExactly` that they all can on a registry exactly if it holds none.
* "Losslessly" (value.rs:16-19) holds for every decodable input exactly if the unused bits of its
  bit sequences are zero (`LosslessExactly`). `PaddingLostInByte` gives an input: [4, 3], a sequence of one bit
  in a byte with a second bit set behind it, decodes and comes back as [4, 1]. `PaddingLost` says the same of every
  bit sequence type and every filling of the last word.

## Model

| member | source | states |
|---|---|---|
| CompactIntegers.CompactRoundTrip | node-api/src/decoder/decode.rs:211-222 | a compact integer of up to 128 bits, followed by anything, is read back with what followed it, at every target type that holds it |
| CompactIntegers.CompactLossless | node-api/src/decoder/decode.rs:211-222 | a compact integer that was read is written as the bytes it was read from: no other form is accepted |
| CompactIntegers.CompactFormat | node-api/src/decoder/encode.rs:494-515 | mode bits, length, content and minimality of the four compact modes, seen from the bytes |
| CompactIntegers.CompactLocal | node-api/src/decoder/decode.rs:211-222 | reading a compact integer depends on the consumed bytes only |
| BitPacking.BitsRoundTrip | node-api/src/decoder/encode.rs:544-569 | every list of bits survives packing and unpacking, for all four store widths and both orders, with any tail |
| BitPacking.BitsLossless | node-api/src/decoder/decode.rs:278-287 | bits that were read pack into as many bytes as were read, and the same bytes if the padding was zero |
| BitPacking.PackRoundTrip | node-api/src/decoder/encode.rs:544-569 | the payload is the least whole number of store words that holds the bits, and unpacks to them |
| BitPacking.PayloadLength | node-api/src/decoder/encode.rs:544-569 | the payload length is a whole number of words, enough for the bits, and one word less is not enough |
| BitPacking.Lsb0Layout | node-api/src/decoder/encode.rs:545-556 | least-significant-first: the payload, as one little-endian number, has the bits as binary digits whatever the store width |
| BitPacking.Msb0Layout | node-api/src/decoder/encode.rs:557-568 | most-significant-first: for every list of bits the payload, as one little-endian number, has as digits the zero-padded bits with each word-sized block turned round |
| TypeRegistry.AcyclicExactly | node-api/src/decoder/decode.rs:54-79 | the registries of the model are exactly those without a chain of types, each containing the next without a byte in between, that comes back to where it began |
| FieldOrder.ArrangeFinds | node-api/src/decoder/encode.rs:280-305 | with distinct names the search-and-`swap_remove` loop finds for each field exactly the value of that name |
| FieldOrder.ArrangeSound | node-api/src/decoder/encode.rs:280-305 | whatever the loop picks for a field bears the name of the field |
| FieldOrder.ArrangeAnyOrder | node-api/src/decoder/encode.rs:280-305 | for distinct field names the loop succeeds on a permutation exactly if it succeeds on the original, and picks the same values |
| FieldOrder.ShapeFieldValues | node-api/src/decoder/decode.rs:109-127 | fields as decoding arranges them are taken by encoding in the order of the type |
| RoundTrips.PrimitiveRoundTrip | node-api/src/decoder/encode.rs:341-409 | an encodable primitive is read back as the type's own kind of primitive with the same number, character, text or bytes |
| RoundTrips.CompactValueRoundTrip | node-api/src/decoder/decode.rs:224-253 | decoding rebuilds around a compact integer exactly the wrappers of its type, however deep |
| RoundTrips.PlainChainDecides | node-api/src/decoder/decode.rs:211-257 | the chains of one-field composites over an unsigned integer are the only compact types that ever decode, and they all encode |
| RoundTrips.ValueRoundTrip | node-api/src/decoder/encode.rs:75-96 | if a value encodes, decoding its bytes and any tail gives its normal form and that tail, or fails exactly if the encoding goes through a compact type over a one-field tuple |
| RoundTrips.AllRoundTrip | node-api/src/decoder/encode.rs:309-312 | the same for a list of values at a list of types |
| Locality.ValueLocal | node-api/src/decoder/decode.rs:54-79 | decoding leaves a suffix of its input, and any other tail behind the consumed bytes gives the same value and that tail |
| Locality.PrefixFree | node-api/src/decoder/decode.rs:54-79 | no complete encoding of a type is a proper prefix of another, on any registry |
| EncodingPrefixes.EncodingsPrefixFree | node-api/src/decoder/encode.rs:75-96 | if two values of a type, with anything behind their encodings, give the same bytes, then what is behind is the same and so are the normal forms |
| EncodingPrefixes.NormIdempotent | node-api/src/decoder/value.rs:16-19 | a normal form is its own normal form and has the encoding of the value it came from |
| LosslessDecoding.PrimitiveLossless | node-api/src/decoder/decode.rs:172-198 | a decoded primitive encodes to the consumed bytes and is its own normal form |
| LosslessDecoding.CompactValueLossless | node-api/src/decoder/encode.rs:462-491 | the loop over the value unwraps what the recursion over the type wrapped, and writes the consumed bytes |
| LosslessDecoding.ValueLossless | node-api/src/decoder/decode.rs:54-170 | a decoded value always encodes, to as many bytes as were consumed, to those bytes if the padding is zero, and is a normal form |
| RoundTrips.ReachablePlain | node-api/src/decoder/decode.rs:211-257 | every value of a type can be followed by decoding if no type reachable from it is a compact type over a one-field tuple |
| CodecLaws.RoundTripExactly | node-api/src/decoder/mod.rs:75-115 | decode after encode is the normal form for all values and types exactly on registries without compact types over one-field tuples |
| CodecLaws.CompactTupleFails | node-api/src/decoder/encode.rs:440-446 | a compact type over a one-field tuple: zero encodes, and no bytes at all decode |
| CodecLaws.LosslessExactly | node-api/src/decoder/value.rs:16-19 | encode after decode succeeds on every decodable input and reproduces it exactly if the unused bits of its bit sequences are zero |
| CodecLaws.PaddingLost | node-api/src/decoder/decode.rs:278-287 | at every bit sequence type any filling of the last store word decodes to the same bits, which encode to the input exactly if the filling is zero |
| CodecLaws.PaddingLostInByte | node-api/src/decoder/decode.rs:278-287 | an input that decodes and does not come back: [4, 3] becomes [4, 1] |
| CodecLaws.StrictIsInverse | node-api/src/decoder/mod.rs:75-115 | the reading that looks at unused bits is exactly the inverse of encoding: it gives a value and a rest if and only if the value is a normal form it can follow and the input is its encoding and that rest |
| CodecLaws.DecodedNames | node-api/src/decoder/decode.rs:109-127 | decoded fields are named exactly if any field of the type has a name, and then each bears the name of its field or none; a variant is one with the index byte |
| CodecLaws.StrictIsDec | node-api/src/decoder/decode.rs:266-290 | looking at unused bits only ever rejects more; it changes no result |
| CodecLaws.DecodedIsNormal | node-api/src/decoder/decode.rs:54-79 | every decoded value is a normal form of the type that its context names, and encodes there |
| CodecLaws.NamedFieldsAnyOrder | node-api/src/decoder/encode.rs:257-316 | a struct or an enum variant encodes to the same bytes, or fails, whatever the order of its named fields |
| CodecLaws.CompactDepthIgnored | node-api/src/decoder/encode.rs:462-491 | any number of one-value wrappers around a value changes nothing in its compact encoding |
| EncodingAcceptance.CompositeAsList | node-api/src/decoder/encode.rs:119-232 | at sequence, array and tuple types a composite, named or not, is accepted exactly if it has the right length and each value is accepted, and is written as count and parts or parts alone |
| EncodingAcceptance.NamedAccepted | node-api/src/decoder/encode.rs:257-305 | distinct named fields are accepted exactly if there are as many values as fields and each field finds one of its name that it takes |
| EncodingAcceptance.UnnamedAccepted | node-api/src/decoder/encode.rs:257-316 | unnamed fields are accepted in order, named ones for unnamed or the reverse never, except that no values fit no fields |
| EncodingAcceptance.EnumAccepts | node-api/src/decoder/encode.rs:234-255 | an enum takes a variant of a known name whose fields are accepted, and writes its index in front of them |
| EncodingAcceptance.WidthExactly | node-api/src/decoder/encode.rs:428-459 | the first loop finds an integer type exactly if only members lead down to it |
| EncodingAcceptance.NumbersAtCompact | node-api/src/decoder/encode.rs:494-515 | a compact type takes exactly the numbers that its integer type holds, unsigned, signed or as a character, and writes their compact form |
| EncodingAcceptance.PrimitiveAccepts | node-api/src/decoder/encode.rs:341-409 | each primitive type takes its own kind of value in its own bytes, and integer types take nothing but numbers |
| EncodingAcceptance.BitsAccepted | node-api/src/decoder/encode.rs:520-572 | bit sequence types take bits and unnamed lists of nothing but booleans |
| EncodingAcceptance.DetailsExactly | node-api/src/decoder/bit_sequence.rs:28-68 | a bit sequence type is usable exactly if its store is one of u8 to u64 and the last part of the path of its order is Lsb0 or Msb0 |
| EncodingAcceptance.FindNameFirst | node-api/src/decoder/encode.rs:243-250 | of several variants of one name the first is encoded |
| EncodingAcceptance.FindIndexFirst | node-api/src/decoder/decode.rs:97-102 | of several variants of one index the first is decoded |
| Utf8Text.ValidExactly | node-api/src/decoder/decode.rs:183-183 | the byte strings that are read as text are exactly the encodings of lists of characters |
| Utf8Text.TextsDiffer | node-api/src/decoder/decode.rs:183-183 | different lists of characters have different encodings |
| Spellings.UnsignedSpellings | node-api/src/decoder/encode.rs:320-339 | an unsigned type takes exactly the numbers of its width and writes the number itself, whether it is given as unsigned, signed or as a character |
| Spellings.SignedSpellings | node-api/src/decoder/encode.rs:320-339 | a signed type takes exactly the numbers of its width, however given, and writes a negative one as its complement |
| Spellings.BigNumberIsBytes | node-api/src/decoder/encode.rs:138-197 | to a sequence of bytes a 256-bit number is its count and its bytes, to an array of 32 bytes just its bytes, and it fits no other array of bytes |
| Spellings.BareFieldOfComposite | node-api/src/decoder/encode.rs:108-115 | a value that is no composite stands for itself inside a one-field composite, named or not |
| Spellings.BareFieldOfTuple | node-api/src/decoder/encode.rs:222-230 | the same for a one-field tuple |
| Spellings.BoolListIsBits | node-api/src/decoder/encode.rs:530-540 | the bits of a list of booleans are those booleans in order |
| Spellings.BitSequenceFormat | node-api/src/decoder/encode.rs:520-569 | a type whose order is called Lsb0 or Msb0 writes a compact bit count and a payload of the least whole number of words, which is the little-endian number of the bits in that order, from bits and from booleans alike |
| Encoder.EncodeValueAsType | node-api/src/decoder/encode.rs:75-96 | appends exactly the encoding of the value or fails, and never touches what was in the buffer |
| Encoder.EncodeCompositeValue | node-api/src/decoder/encode.rs:98-117 | the same for a composite type, including bare values for a one-field composite |
| Encoder.EncodeSequenceValue | node-api/src/decoder/encode.rs:119-152 | the same for a sequence type, including 256-bit numbers as lists of bytes |
| Encoder.EncodeArrayValue | node-api/src/decoder/encode.rs:154-197 | the same for an array type |
| Encoder.EncodeTupleValue | node-api/src/decoder/encode.rs:199-232 | the same for a tuple type |
| Encoder.EncodeVariantValue | node-api/src/decoder/encode.rs:234-255 | the same for an enum type |
| Encoder.EncodeCompositeFields | node-api/src/decoder/encode.rs:257-316 | the same for the fields of a composite or a variant |
| Encoder.EncodeNamedFields | node-api/src/decoder/encode.rs:280-305 | the loop that takes values out with `swap_remove` writes the values picked for the fields, in the order of the fields |
| Encoder.EncodePrimitiveValue | node-api/src/decoder/encode.rs:341-409 | the same for a primitive type |
| Encoder.EncodeCompactValue | node-api/src/decoder/encode.rs:411-518 | both unwrapping loops terminate and find the innermost type and primitive |
| Encoder.EncodeBitSequenceValue | node-api/src/decoder/encode.rs:520-572 | the same for a bit sequence type, from bits or from a list of booleans |
| Decoder.DecodeValueAsType | node-api/src/decoder/decode.rs:54-79 | returns the decoded value and leaves the cursor behind it, or fails |
| Decoder.DecodeCompositeValue | node-api/src/decoder/decode.rs:81-87 | the same for a composite type |
| Decoder.DecodeVariantValue | node-api/src/decoder/decode.rs:89-106 | the same for an enum type |
| Decoder.DecodeSequenceValue | node-api/src/decoder/decode.rs:129-142 | the same for a sequence type |
| Decoder.DecodeArrayValue | node-api/src/decoder/decode.rs:144-156 | the same for an array type |
| Decoder.DecodeTupleValue | node-api/src/decoder/decode.rs:158-170 | the same for a tuple type |
| Decoder.DecodePrimitiveValue | node-api/src/decoder/decode.rs:172-198 | the same for a primitive type |
| Decoder.DecodeCompactValue | node-api/src/decoder/decode.rs:200-264 | the same for a compact type |
| Decoder.DecodeBitSequenceValue | node-api/src/decoder/decode.rs:266-290 | the same for a bit sequence type |
| RuntimeTables.TryFrom | node-api/src/metadata.rs:329-451 | succeeds exactly if prefix and version are right and every call, event and error type is an enum; then every lookup is a linear search from the last entry on, and every event or error found under a key bears the names of a pallet and a variant with these indexes |
| RuntimeTables.BuildTable | node-api/src/metadata.rs:394-438 | the nested loops fill a table with all entries in order, or fail exactly if a type does not resolve |
| RuntimeTables.TableIsLastMatch | node-api/src/metadata.rs:98-108 | looking a key up in a table built by insertions is searching its entries from the last one on |
| RuntimeTables.EventEntryMeaning | node-api/src/metadata.rs:394-422 | an event is found under (pallet, index) exactly if some pallet of that index has a variant of that index in its event type, and has the name of such a pallet and the name and fields of such a variant |
| RuntimeTables.ErrorEntryMeaning | node-api/src/metadata.rs:424-438 | the same for errors: found exactly if a pallet and a variant of its error type have these indexes, with the names of both |
| RuntimeTables.EventMeaning | node-api/src/metadata.rs:394-422 | with distinct pallets and variants the event of a pallet and a variant has the name of the pallet and the name and fields of the variant |
| RuntimeTables.ErrorMeaning | node-api/src/metadata.rs:424-438 | the same for errors, with the names of the pallet and the variant |
| RuntimeTables.CallMeaning | node-api/src/metadata.rs:351-392 | through the table of pallets a call is written as the index of its pallet, the index of its variant and the arguments |
| RuntimeTables.MagicIsMeta | node-api/src/metadata.rs:329-335 | the magic number in front of the metadata is the word meta |
| RuntimeTables.EventsOfPallet | node-api/src/metadata.rs:111-118 | the events of a pallet are listed completely, once each, by ascending index |
| RuntimeTables.ErrorsOfPallet | node-api/src/metadata.rs:134-141 | the errors of a pallet are listed completely, once each, by ascending index |
| RuntimeTables.EncodeCallFinds | node-api/src/metadata.rs:224-232 | with distinct names a call is written as pallet index, index of the variant of that name, arguments; an unknown name fails |
| RuntimeTables.EncodedCallNames | node-api/src/metadata.rs:224-232 | the bytes of a call lead back to its name and arguments |
| BlockEvents.DecodeEventDetails | node-api/src/events.rs:154-198 | reads one record with a moving cursor and a loop over its fields |
| BlockEvents.ReadFieldValues | node-api/src/events.rs:258-292 | decodes the fields of a record one after the other into a composite, which is named exactly if the first field is, after the fields |
| BlockEvents.EventIter.Next | node-api/src/events.rs:80-113 | yields the next item of the block; after an error or the end, nothing ever again |
| BlockEvents.EventIter.constructor | node-api/src/events.rs:80-90 | starts with everything the block has to yield |
| EventLaws.BlockTiles | node-api/src/events.rs:43-57 | on arbitrary bytes the yielded records are adjacent from the start index, numbered 0, 1, 2, at most as many as announced and as a quarter of the remaining bytes; only the last item can be an error |
| EventLaws.EventsTile | node-api/src/events.rs:80-113 | the same from any position, and the iteration stops short of the announced number only at an error or at the end of the bytes |
| EventLaws.FieldBytesDecode | node-api/src/events.rs:211-254 | in every record that was read the index bytes lead to its metadata, and the field bytes are exactly what the field types consumed |
| EventLaws.FieldsReadAgain | node-api/src/events.rs:258-292 | on every record that was read `field_values` succeeds with the names of the fields, and its values encode at the type ids they carry to the field bytes, exactly if the unused bits in them are zero |
| EventLaws.PhaseExactly | node-api/src/events.rs:154-198 | a phase is read exactly from the byte 0 and the four bytes of an extrinsic number, or from the byte 1 or 2 |
| EventLaws.AnnouncedEvents | node-api/src/events.rs:43-57 | the announced number of events is the compact 32-bit number in front of the bytes, and without one there are no events |
| EventLaws.RecordReadsBack | node-api/src/events.rs:154-198 | an encoded record is read back with its phase, indexes, field bytes and normal field values under the names of the fields, up to where it ends, or fails exactly if decoding cannot follow its fields |
| EventLaws.BlockReadsBack | node-api/src/events.rs:43-113 | a compact count, that many encoded records and any trailing bytes are read as exactly those records in order, up to the first that decoding cannot follow, which is an error; without compact types over one-field tuples there is none |
| EventSubscription.WaitForEventDetails | src/api/rpc_api/subscribe_events.rs:62-99 | the nested loops return the first failed extrinsic, target event, connection or decode error of all blocks, whichever comes first, and run out only if there is none; they consume blocks up to the deciding one, before which nothing was decided, and leave exactly the later ones unread |
| EventSubscription.ScanBlock | src/api/rpc_api/subscribe_events.rs:73-96 | the inner loop decides a block by its first failed extrinsic, target event or decode error, in front of anything that may follow |
| EventSubscription.OutcomeMeaning | src/api/rpc_api/subscribe_events.rs:62-104 | the scan gives the one outcome that the first signal gives which is a connection error, a decode error, System.ExtrinsicFailed or the target, a failure even if it is the target; there is none exactly if the stream runs out |
| StorageKeys.PrefixBytes | node-api/src/storage.rs:139-158 | exactly plain entries have a value key and exactly maps a prefix: the 16-byte hashes of pallet and entry name |
| StorageKeys.MapKeyBytes | node-api/src/storage.rs:48-55 | behind these 32 bytes stands the hash that the first hasher names, and for the concatenating ones and Identity the key; exactly maps with a hasher have a key |
| StorageKeys.DoubleMapKeyBytes | node-api/src/storage.rs:67-75 | the same for both parts of a double map, under the first and the second hasher |
| StorageKeys.KeysUseNamedHashes | node-api/src/storage.rs:163-179 | a key depends on twox_128 and on the hash functions that its hashers name, and on no other |
| StorageKeys.EntryAreasDisjoint | node-api/src/storage.rs:32-75 | a key of one storage entry begins a key of another only if the hashes of both the pallet names and the entry names are equal |
| StorageKeys.MapKeyInjective | node-api/src/storage.rs:48-55 | with a hasher that keeps the key, different keys of a map have different storage keys |
| StorageKeys.FirstKeySelects | node-api/src/storage.rs:48-75 | the entries of a double map that lie under the key of a first part are exactly those with that first part |
| StorageKeys.DoubleMapKeyInjective | node-api/src/storage.rs:67-75 | with hashers that keep the key (Identity, Blake2_128Concat, Twox64Concat) and a prefix-free first key, different pairs of keys have different storage keys |
| StorageKeys.DoubleMapKeyReadsBack | node-api/src/storage.rs:67-75 | both SCALE keys can be decoded from the storage key of a double map, exactly if decoding can follow them |
| Extrinsics.EncodeWithVecPrefix | primitives/src/extrinsics.rs:129-149 | whichever of 1, 2 and 4 bytes was reserved, the result is the compact length of the body and the body |
| Extrinsics.BodyFormat | primitives/src/extrinsics.rs:80-99 | the version byte is 4 before an unsigned call, and 0x84 before address, signature, extra and call |
| Extrinsics.ExtrinsicRoundTrip | primitives/src/extrinsics.rs:101-126 | a signed or unsigned extrinsic is read back with what follows it, whatever number its length prefix holds |
| Extrinsics.DecodeAcceptsExactly | primitives/src/extrinsics.rs:101-126 | if the components are rewritten as they were read, exactly the encoding of an extrinsic behind any compact 32-bit number is read as that extrinsic |
| Extrinsics.HexEncodeExtrinsic | primitives/src/extrinsics.rs:56-60 | the hexadecimal form is 0x and the digits of the encoding, and is read back by `from_hex` |
| HexText.HexFormat | client-keystore/src/lib.rs:536-542 | each byte is written as two lower-case digits, the upper half first |
| HexText.HexAccepts | client-keystore/src/lib.rs:559-567 | exactly the texts of two digits a byte, upper half first and in any mixture of cases, are decoded, each to those bytes |
| HexText.HexRoundTrip | client-keystore/src/lib.rs:536-542 | hexadecimal text is decoded to the bytes it was written from |
| HexText.FromHexTrims | src/utils.rs:38-44 | all quotation marks at both ends are dropped, then every leading 0x, and the rest is decoded |
| HexText.FromHexReads | src/utils.rs:38-44 | `from_hex` reads prefixed hexadecimal text with any number of quotation marks around it |
| TwoTierKeystore.NameReadsBack | client-keystore/src/lib.rs:536-542 | a file name is read back as its key type and public key, and skipped if the public key is empty |
| TwoTierKeystore.NamesAccepted | client-keystore/src/lib.rs:555-571 | a file is listed for a key exactly if its name spells the key type and the non-empty public key, in upper or lower case |
| TwoTierKeystore.NamesDiffer | client-keystore/src/lib.rs:536-542 | different keys have different files |
| TwoTierKeystore.RunRepresents | client-keystore/src/lib.rs:432-463 | after every run the files are exactly the durable keys under their names |
| TwoTierKeystore.KeystoreIsOneMap | client-keystore/src/lib.rs:492-575 | over every run the two tiers answer like one map, and a key with a non-empty public part is listed exactly if its phrase is found |
| TwoTierKeystore.ListingsCount | client-keystore/src/lib.rs:545-575 | no key has two files: it is listed once per tier that holds it |
| TwoTierKeystore.ReopenKeepsFiles | client-keystore/src/lib.rs:406-411 | reopening forgets the memory tier and nothing else |
| TwoTierKeystore.KeystoreInner.KeyPhraseByType | client-keystore/src/lib.rs:492-511 | looks in memory first and then in the file of the key |
| TwoTierKeystore.KeystoreInner.RawPublicKeys | client-keystore/src/lib.rs:545-575 | lists every public key of the type once for the memory tier and once for each of its files, and no other |
| TwoTierKeystore.KeystoreInner.GenerateByType | client-keystore/src/lib.rs:452-463 | writes a file if there is a directory, and the memory tier otherwise |
| TwoTierKeystore.KeystoreInner.InsertUnknown | client-keystore/src/lib.rs:440-446 | writes a file if there is a directory, and does nothing otherwise |
| TwoTierKeystore.KeystoreInner.InsertEphemeralPair | client-keystore/src/lib.rs:432-435 | adds to the memory tier only |
| BumpAllocator.MaskClearsLowBits | test-no-std/src/main.rs:86-103 | masking a machine word with the complement of a power of two less one rounds down to a multiple of that power |
| BumpAllocator.Propose | test-no-std/src/main.rs:94-105 | a block is proposed exactly if the size fits; it is aligned, ends at or below the counter, and wastes less than the alignment |
| BumpAllocator.StepKeepsInv | test-no-std/src/main.rs:90-110 | every step of every thread keeps the blocks stacked above the counter and every pending proposal right for the value it was made from |
| BumpAllocator.AllocatorIsSafe | test-no-std/src/main.rs:65-112 | in every interleaving all blocks ever returned lie inside the arena, are pairwise disjoint and aligned as requested |
| BumpAllocator.StepsAreDefined | test-no-std/src/main.rs:90-110 | no interleaving reaches an undefined step |
| BumpAllocator.EveryCallIsAnswered | test-no-std/src/main.rs:80-110 | in every interleaving a call ends with exactly one new block of its layout, right below the counter, which moves there, or with null when the size does not fit; no other step changes blocks or counter, and a lost exchange tries again for the same layout |
| BumpAllocator.AloneIsServed | test-no-std/src/main.rs:80-110 | from every reachable state a thread that runs alone gets its block in one attempt exactly if it fits, and otherwise null with nothing changed |
| BumpAllocator.LockFree | test-no-std/src/main.rs:90-110 | in every run the exchanges lost to other threads are at most the blocks handed out times the number of other threads |
| BumpAllocator.RunIsSequential | test-no-std/src/main.rs:90-110 | the blocks and the counter are those of a sequential allocator that serves the requests in the order of the successful swaps |
| BumpAllocator.NullIsRight | test-no-std/src/main.rs:90-110 | a null result changes no shared state, and the request still does not fit when it is returned |

## Left out

- Contents of errors: which error is returned, and with what payload. All are `None`.
- Encoder.EncodeValueAsType: after a failure the buffer holds what it held before and possibly more; the model does not say how much more, because no caller uses it.
- Decoder.DecodeValueAsType: after a failure the cursor has not grown; where it stands is not modelled.
- BlockEvents.NewEvents: when the count of events cannot be read the start index is the end of the bytes; in the source it is wherever the codec library left its cursor. There are no events in either case.
- Registries with a type that contains itself inline: whether the interpreters recurse for ever on it (a struct whose only field is itself) or stop with an error at the end of the input or of the value is not modelled.
- EventSubscription.WaitForEventDetails: `changes[0].1` is assumed to be present; the decoding of the dispatch error is not modelled.
- BumpAllocator.AllocatorIsSafe: nothing is said about fairness; a thread whose exchange always fails never returns. Memory orderings weaker than sequential consistency are not used by the source.
- Extrinsics.ExtrinsicRoundTrip: the codecs of addresses, signatures, signed extras and calls are parameters that read back what they wrote in front of anything; `DecodeAcceptsExactly` also has them rewrite what they read.
- StorageKeys.DoubleMapKeyInjective: hash functions are parameters; only the lengths of their results are used, so nothing is claimed of hashers that drop the key.
- TwoTierKeystore.KeystoreInner.GenerateByType: generating a pair from randomness is not modelled; the key and the phrase are arguments. Passwords, signatures, file permissions and failing writes are left out.
- Documentation strings, storage and constant tables, and the dispatch error type of the metadata: plain copies of the raw metadata.
- `Value` conversions and context mapping: constructors that only rename.
- RPC clients, extrinsic parameters, compose macros, fee and dispatch error decoding: plumbing, or easy members.
