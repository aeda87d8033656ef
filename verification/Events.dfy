/** Cutting the raw event bytes of a block into records. */
module BlockEvents {
  import opened Wrappers
  import opened ByteStrings
  import opened CompactIntegers
  import opened BitPacking
  import opened TypeRegistry
  import opened Values
  import opened ValueEncoding
  import opened ValueDecoding
  import opened RuntimeTables
  import opened Streams
  import Decoder

  // ----- the fixed parts of a record

  datatype Phase = ApplyExtrinsic(extrinsic: U32Int) | Finalization | Initialization
  type U32Int = n: nat | n < 0x1_0000_0000

  function EncPhase(phase: Phase): (bs: Bytes)
    ensures |bs| >= 1
  {
    match phase
    case ApplyExtrinsic(n) => [0] + LE(n, 4)
    case Finalization => [1]
    case Initialization => [2]
  }

  function DecPhase(data: Bytes): (r: Option<(Phase, Bytes)>)
    ensures r.Some? ==> |r.value.1| < |data|
  {
    if data == [] then None
    else if data[0] == 0 then
      Pow256Values();
      var (n, rest) :- DecLE(data[1..], 4);
      Some((ApplyExtrinsic(n), rest))
    else if data[0] == 1 then Some((Finalization, data[1..]))
    else if data[0] == 2 then Some((Initialization, data[1..]))
    else None
  }

  function EncTopics(topics: seq<Bytes32>): Option<Bytes> {
    if |topics| <= U32_MAX then Some(EncCompact(|topics|) + Concat(topics)) else None
  }

  function Concat(topics: seq<Bytes32>): (bs: Bytes)
    ensures |bs| == 32 * |topics|
  {
    if topics == [] then [] else topics[0] + Concat(topics[1..])
  }

  /** Topics are read and thrown away: only what they leave matters. */
  function SkipTopics(data: Bytes): (r: Option<Bytes>)
    ensures r.Some? ==> |r.value| < |data|
  {
    var (n, data') :- DecCompact(data, U32_MAX);
    var (_, rest) :- Take(data', 32 * n);
    Some(rest)
  }

  // ----- one record

  datatype EventDetails = EventDetails(
    phase: Phase,
    index: nat,
    allBytes: Bytes,
    startIdx: nat,
    fieldsStartIdx: nat,
    fieldsEndIdx: nat,
    endIdx: nat,
    metadata: Metadata)
  {
    predicate Valid() {
      startIdx + 3 <= fieldsStartIdx <= fieldsEndIdx < endIdx <= |allBytes|
    }

    function PalletIndex(): Byte
      requires Valid()
    {
      allBytes[fieldsStartIdx - 2]
    }

    function VariantIndex(): Byte
      requires Valid()
    {
      allBytes[fieldsStartIdx - 1]
    }

    function EventBytes(): Bytes
      requires Valid()
    {
      allBytes[startIdx..endIdx]
    }

    function FieldBytes(): Bytes
      requires Valid()
    {
      allBytes[fieldsStartIdx..fieldsEndIdx]
    }

    /** `None` is the panic of the source. */
    function Description(): Option<EventMetadata>
      requires Valid()
    {
      metadata.Event(PalletIndex(), VariantIndex())
    }

    function FieldValues(): Option<Composite<TypeId>>
      requires Valid()
    {
      var event :- Description();
      var (vs, _) :- DecAll(FieldBytes(), FieldTypes(event.fields), metadata.types, false);
      Some(EventShape(event.fields, vs))
    }
  }

  /** The fields of an event are named if the first of them is. */
  function EventShape<T>(fields: seq<Field>, vs: seq<Value<T>>): Composite<T>
    requires |fields| == |vs|
  {
    if fields != [] && FirstNamed(fields) then Named(WithNames(fields, vs)) else Unnamed(vs)
  }

  /** `c` bears the names of the fields, exactly if there is a first field and it has one. */
  ghost predicate NamedLike<T>(c: Composite<T>, fields: seq<Field>) {
    && (c.Named? <==> fields != [] && fields[0].name.Some?)
    && (c.Named? ==>
          |c.fields| == |fields|
          && forall i :: 0 <= i < |fields| ==>
               match fields[i].name case Some(name) => c.fields[i].name == name case None => c.fields[i].name == "")
  }

  lemma ShapeIsNamed<T>(fields: seq<Field>, vs: seq<Value<T>>)
    requires |fields| == |vs|
    ensures NamedLike(EventShape(fields, vs), fields) && EventShape(fields, vs).IntoValues() == vs
  {
  }

  function DecodeFrom(md: Metadata, all: Bytes, start: nat, index: nat): (r: Option<EventDetails>)
    requires start <= |all|
    ensures r.Some? ==>
              && r.value.Valid() && r.value.startIdx == start && r.value.index == index
              && r.value.allBytes == all && r.value.metadata == md
  {
    var (phase, data) :- DecPhase(all[start..]);
    if |data| < 2 then None else
    var event :- md.Event(data[0], data[1]);
    var fields := data[2..];
    var (_, topics) :- DecAll(fields, FieldTypes(event.fields), md.types, false);
    var rest :- SkipTopics(topics);
    Some(EventDetails(phase, index, all, start, |all| - |fields|, |all| - |topics|, |all| - |rest|, md))
  }

  // ----- a block of records

  datatype Events = Events(metadata: Metadata, bytes: Bytes, start: nat, num: nat) {
    function Iter(): seq<Item> {
      Iterate(metadata, bytes, start, 0, num)
    }
  }

  /** If the count cannot be read there are no events. */
  function NewEvents(md: Metadata, bytes: Bytes): (e: Events)
    ensures e.start <= |bytes| && e.num <= U32_MAX
  {
    match DecCompact(bytes, U32_MAX)
    case Some((n, rest)) => Events(md, bytes, |bytes| - |rest|, n)
    case None => Events(md, bytes, |bytes|, 0)
  }

  datatype Item = Ok(details: EventDetails) | Failed

  /** Everything the iterator yields from a position and an index on. */
  function Iterate(md: Metadata, all: Bytes, pos: nat, index: nat, num: nat): seq<Item>
    decreases |all| - pos
  {
    if |all| <= pos || num == index then [] else
    match DecodeFrom(md, all, pos, index)
    case Some(d) => [Ok(d)] + Iterate(md, all, d.endIdx, index + 1, num)
    case None => [Failed]
  }

  // ----- the same, step by step

  method DecodeEventDetails(md: Metadata, all: Bytes, start: nat, index: nat) returns (r: Option<EventDetails>)
    requires start <= |all|
    ensures r == DecodeFrom(md, all, start, index)
  {
    hide Dec;
    var input := new Cursor(all[start..]);
    var phase := DecPhase(input.data);
    if phase.None? {
      return None;
    }
    input.data := phase.value.1;
    if |input.data| < 2 {
      return None;
    }
    var pallet, variant := input.data[0], input.data[1];
    input.data := input.data[2..];
    var fieldsStart := |all| - |input.data|;
    var event := md.Event(pallet, variant);
    if event.None? {
      return None;
    }
    ghost var fields := input.data;
    var skipped := SkipFields(input, event.value.fields, md.types);
    if !skipped {
      return None;
    }
    var fieldsEnd := |all| - |input.data|;
    var rest := SkipTopics(input.data);
    if rest.None? {
      return None;
    }
    input.data := rest.value;
    return Some(EventDetails(phase.value.0, index, all, start, fieldsStart, fieldsEnd, |all| - |input.data|, md));
  }

  /** Decode the fields only to find where they end. */
  method SkipFields(input: Cursor, fields: seq<Field>, types: Registry) returns (ok: bool)
    modifies input
    ensures match DecAll(old(input.data), FieldTypes(fields), types, false)
            case None => !ok
            case Some((_, rest)) => ok && input.data == rest
  {
    hide Dec;
    ghost var start, ids := input.data, FieldTypes(fields);
    ghost var vs: seq<Value<TypeId>> := [];
    Decoder.BehindNothing(DecAll(start, ids, types, false));
    assert ids[0..] == ids;
    for i := 0 to |fields|
      invariant DecAll(start, ids, types, false) == Decoder.Behind(vs, DecAll(input.data, ids[i..], types, false))
    {
      assert ids[i..][0] == fields[i].ty && ids[i..][1..] == ids[i + 1..];
      var v := Decoder.DecodeValueAsType(input, fields[i].ty, types);
      if v.None? {
        return false;
      }
      Decoder.BehindTwice(vs, v.value, DecAll(input.data, ids[i + 1..], types, false));
      vs := vs + [v.value];
    }
    return true;
  }

  /** `field_values`, with its loop that pushes the decoded values. */
  method ReadFieldValues(d: EventDetails) returns (r: Option<Composite<TypeId>>)
    requires d.Valid()
    ensures r == d.FieldValues()
    ensures r.Some? ==> d.Description().Some? && NamedLike(r.value, d.Description().value.fields)
    ensures r.Some? ==>
              var ids := FieldTypes(d.Description().value.fields);
              DecAll(d.FieldBytes(), ids, d.metadata.types, false).Some?
              && DecAll(d.FieldBytes(), ids, d.metadata.types, false).value.0 == r.value.IntoValues()
  {
    hide Dec;
    var input := new Cursor(d.FieldBytes());
    var event := d.Description();
    if event.None? {
      return None;
    }
    var fields, types := event.value.fields, d.metadata.types;
    ghost var start, ids := input.data, FieldTypes(fields);
    var vs: seq<Value<TypeId>> := [];
    Decoder.BehindNothing(DecAll(start, ids, types, false));
    assert ids[0..] == ids;
    for i := 0 to |fields|
      invariant |vs| == i
      invariant DecAll(start, ids, types, false) == Decoder.Behind(vs, DecAll(input.data, ids[i..], types, false))
    {
      assert ids[i..][0] == fields[i].ty && ids[i..][1..] == ids[i + 1..];
      var v := Decoder.DecodeValueAsType(input, fields[i].ty, types);
      if v.None? {
        return None;
      }
      Decoder.BehindTwice(vs, v.value, DecAll(input.data, ids[i + 1..], types, false));
      vs := vs + [v.value];
    }
    assert vs + [] == vs;
    ShapeIsNamed(fields, vs);
    return Some(EventShape(fields, vs));
  }

  /** The closure that `iter` hands to `from_fn`. */
  class EventIter {
    const metadata: Metadata
    const bytes: Bytes
    const num: nat
    var pos: nat
    var index: nat

    constructor (events: Events)
      ensures Remaining() == events.Iter()
    {
      metadata, bytes, num := events.metadata, events.bytes, events.num;
      pos, index := events.start, 0;
    }

    /** What is still to come. */
    ghost function Remaining(): seq<Item>
      reads this
    {
      Iterate(metadata, bytes, pos, index, num)
    }

    /** After an error, and after the end, nothing more ever comes. */
    method Next() returns (item: Option<Item>)
      modifies this
      ensures old(Remaining()) == [] ==> item == None && Remaining() == []
      ensures old(Remaining()) != [] ==> item == Some(old(Remaining())[0]) && Remaining() == old(Remaining())[1..]
      ensures item == Some(Failed) ==> Remaining() == []
    {
      hide DecodeFrom;
      if |bytes| <= pos || num == index {
        return None;
      }
      var d := DecodeEventDetails(metadata, bytes, pos, index);
      if d.None? {
        pos := |bytes|;
        return Some(Failed);
      }
      pos := pos + |d.value.EventBytes()|;
      index := index + 1;
      return Some(Ok(d.value));
    }
  }
}
