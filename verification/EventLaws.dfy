/** What holds of every block of events, on arbitrary bytes and on well-formed ones. */
module EventLaws {
  import opened Wrappers
  import opened ByteStrings
  import opened CompactIntegers
  import opened BitPacking
  import opened TypeRegistry
  import opened Values
  import opened ValueEncoding
  import opened ValueDecoding
  import opened NormalForms
  import opened RoundTrips
  import opened Locality
  import opened LosslessDecoding
  import opened CodecLaws
  import opened RuntimeTables
  import opened BlockEvents

  // ----- tiling

  /**
   The items cover the bytes from `pos` without gap or overlap and count upwards from `index`. Only
   the last can be an error, and they stop short of the announced number only there or when the
   bytes are used up.
   */
  ghost predicate Tiles(items: seq<Item>, all: Bytes, pos: nat, index: nat, num: nat) {
    && (forall k :: 0 <= k < |items| - 1 ==> items[k].Ok?)
    && (forall k :: 0 <= k < |items| && items[k].Ok? ==>
          && items[k].details.Valid()
          && items[k].details.allBytes == all
          && items[k].details.index == index + k
          && items[k].details.startIdx == EndOf(items[..k], pos))
    && EndOf(items, pos) >= pos + 4 * Successes(items)
    && (items == [] || EndOf(items, pos) <= |all|)
    && |items| <= num - index
    && (|items| == num - index || EndOf(items, pos) >= |all| || (items != [] && items[|items| - 1].Failed?))
  }

  /** Where the successfully read records of `items` end. */
  ghost function EndOf(items: seq<Item>, pos: nat): nat {
    if items == [] then pos
    else if items[|items| - 1].Ok? then items[|items| - 1].details.endIdx
    else EndOf(items[..|items| - 1], pos)
  }

  ghost function Successes(items: seq<Item>): nat {
    if items == [] then 0 else (if items[0].Ok? then 1 else 0) + Successes(items[1..])
  }

  lemma {:induction false} EndOfCons(d: EventDetails, items: seq<Item>, pos: nat)
    ensures EndOf([Ok(d)] + items, pos) == EndOf(items, d.endIdx)
  {
    var all := [Ok(d)] + items;
    if items != [] {
      var n := |items| - 1;
      assert all[|all| - 1] == items[n];
      assert all[..|all| - 1] == [Ok(d)] + items[..n];
      EndOfCons(d, items[..n], pos);
    }
  }

  lemma {:induction false} EventsTile(md: Metadata, all: Bytes, pos: nat, index: nat, num: nat)
    requires index <= num
    ensures Tiles(Iterate(md, all, pos, index, num), all, pos, index, num)
    decreases |all| - pos
  {
    hide DecodeFrom;
    var items := Iterate(md, all, pos, index, num);
    if |all| <= pos || num == index {
    } else if DecodeFrom(md, all, pos, index).None? {
      assert items == [Failed];
      assert EndOf(items, pos) == pos by { assert items[..0] == []; }
      assert Successes(items) == 0;
    } else {
      var d := DecodeFrom(md, all, pos, index).value;
      var others := Iterate(md, all, d.endIdx, index + 1, num);
      EventsTile(md, all, d.endIdx, index + 1, num);
      TilesCons(d, others, all, pos, index, num);
    }
  }

  lemma TilesCons(d: EventDetails, others: seq<Item>, all: Bytes, pos: nat, index: nat, num: nat)
    requires d.Valid() && d.allBytes == all && d.index == index && d.startIdx == pos
    requires index < num && Tiles(others, all, d.endIdx, index + 1, num)
    ensures Tiles([Ok(d)] + others, all, pos, index, num)
  {
    var items := [Ok(d)] + others;
    EndOfCons(d, others, pos);
    assert items[1..] == others;
    assert items[|items| - 1] == if others == [] then Ok(d) else others[|others| - 1];
    forall k | 0 <= k < |items| && items[k].Ok?
      ensures items[k].details.Valid() && items[k].details.allBytes == all
      ensures items[k].details.index == index + k
      ensures items[k].details.startIdx == EndOf(items[..k], pos)
    {
      if k == 0 {
        assert items[..0] == [];
      } else {
        assert items[k] == others[k - 1];
        assert items[..k] == [Ok(d)] + others[..k - 1];
        EndOfCons(d, others[..k - 1], pos);
      }
    }
    forall k | 0 <= k < |items| - 1 ensures items[k].Ok? {
      assert k > 0 ==> items[k] == others[k - 1];
    }
  }

  /** The events of a block, whatever its bytes: at most the announced number, of four bytes or more each. */
  lemma BlockTiles(md: Metadata, bytes: Bytes)
    ensures var events := NewEvents(md, bytes);
            var items := events.Iter();
            && Tiles(items, bytes, events.start, 0, events.num)
            && 4 * Successes(items) <= |bytes| - events.start
  {
    hide DecodeFrom, Iterate;
    var events := NewEvents(md, bytes);
    EventsTile(md, bytes, events.start, 0, events.num);
    assert Successes([]) == 0;
  }

  /** The number of announced events is the compact 32-bit number in front; without one there are no events. */
  lemma AnnouncedEvents(md: Metadata, bytes: Bytes)
    ensures var events := NewEvents(md, bytes);
            && (forall n: U128Int :: n <= U32_MAX && EncCompact(n) <= bytes ==>
                  events.num == n && events.start == |EncCompact(n)|)
            && ((forall n: U128Int :: n <= U32_MAX ==> !(EncCompact(n) <= bytes)) ==>
                  events.num == 0 && events.Iter() == [])
  {
    hide EncCompact, DecCompact, DecodeFrom;
    forall n: U128Int | n <= U32_MAX && EncCompact(n) <= bytes
      ensures DecCompact(bytes, U32_MAX) == Some((n, bytes[|EncCompact(n)|..]))
    {
      CompactRoundTrip(n, U32_MAX, bytes[|EncCompact(n)|..]);
      assert EncCompact(n) + bytes[|EncCompact(n)|..] == bytes;
    }
    if DecCompact(bytes, U32_MAX).Some? {
      CompactLossless(bytes, U32_MAX);
      assert EncCompact(DecCompact(bytes, U32_MAX).value.0) <= bytes;
    }
  }

  // ----- reading a record again

  lemma {:induction false} DecodedContexts(data: Bytes, ids: seq<TypeId>, types: Registry, zeroPad: bool)
    requires DecAll(data, ids, types, zeroPad).Some?
    ensures forall i :: 0 <= i < |ids| ==> DecAll(data, ids, types, zeroPad).value.0[i].context == ids[i]
    decreases |ids|
  {
    hide DecDef;
    if ids != [] {
      DecodedContexts(Dec(data, ids[0], types, zeroPad).value.1, ids[1..], types, zeroPad);
    }
  }

  function Contexts(vs: seq<Value<TypeId>>): (ids: seq<TypeId>)
    ensures |ids| == |vs|
  {
    seq(|vs|, i requires 0 <= i < |vs| => vs[i].context)
  }

  /** The bytes of the fields are exactly the bytes that the field types consumed. */
  lemma FieldBytesDecode(md: Metadata, all: Bytes, start: nat, index: nat)
    requires start <= |all| && DecodeFrom(md, all, start, index).Some?
    ensures var d := DecodeFrom(md, all, start, index).value;
            && d.Description().Some?
            && var ids := FieldTypes(d.Description().value.fields);
               var vs := DecAll(d.FieldBytes(), ids, md.types, false);
               vs.Some? && vs.value.1 == []
  {
    hide DecAll, DecPhase, SkipTopics;
    var d := DecodeFrom(md, all, start, index).value;
    var (phase, data) := DecPhase(all[start..]).value;
    var event := md.Event(data[0], data[1]).value;
    var ids := FieldTypes(event.fields);
    var (vs, topics) := DecAll(data[2..], ids, md.types, false).value;
    AllLocal(data[2..], ids, md.types, false, []);
    PhaseLocal(all[start..]);
    TailSlices(all, start, data, topics);
    assert Consumed(data[2..], topics) + [] == Consumed(data[2..], topics);
  }

  lemma TailSlices(all: Bytes, start: nat, data: Bytes, topics: Bytes)
    requires start <= |all| && 2 <= |data| <= |all| - start && |topics| <= |data| - 2
    requires all[start..] == Consumed(all[start..], data) + data
    ensures var f := |all| - |data[2..]|;
            && all[f - 2] == data[0] && all[f - 1] == data[1]
            && all[f..|all| - |topics|] == Consumed(data[2..], topics)
  {
    var p := |all[start..]| - |data|;
    assert all[start..][p..] == data;
    assert all[start + p..] == data;
  }

  /**
   `field_values` never fails on a record that was read, its metadata is always there, and encoding
   every value at the type id it carries gives back the bytes of the fields, exactly if the unused
   bits of the bit sequences in them are zero.
   */
  lemma FieldsReadAgain(md: Metadata, all: Bytes, start: nat, index: nat)
    requires WellFormed(md.types) && start <= |all| && DecodeFrom(md, all, start, index).Some?
    ensures var d := DecodeFrom(md, all, start, index).value;
            && d.Description().Some? && d.FieldValues().Some?
            && NamedLike(d.FieldValues().value, d.Description().value.fields)
            && var vs := d.FieldValues().value.IntoValues();
               var again := EncAll(vs, Contexts(vs), md.types);
               && again.Some? && |again.value| == |d.FieldBytes()|
               && (again.value == d.FieldBytes() <==>
                   DecAll(d.FieldBytes(), Contexts(vs), md.types, true).Some?)
  {
    hide DecAll, EncAll, DecodeFrom, NormAll;
    var d := DecodeFrom(md, all, start, index).value;
    FieldBytesDecode(md, all, start, index);
    var event := d.Description().value;
    var ids, bytes := FieldTypes(event.fields), d.FieldBytes();
    var vs := DecAll(bytes, ids, md.types, false).value.0;
    DecodedContexts(bytes, ids, md.types, false);
    assert Contexts(vs) == ids;
    ShapeIsNamed(event.fields, vs);
    AllLossless(bytes, ids, md.types, false);
    var again := EncAll(vs, ids, md.types).value;
    assert again + [] == again;
    if DecAll(bytes, ids, md.types, true).Some? {
      StrictIsDecAll(bytes, ids, md.types);
      AllLossless(bytes, ids, md.types, true);
    } else if again == bytes {
      ExactAll(bytes, ids, md.types);
    }
  }

  // ----- completeness

  lemma PhaseLocal(data: Bytes)
    requires DecPhase(data).Some?
    ensures var (phase, rest) := DecPhase(data).value; data == Consumed(data, rest) + rest
  {
    hide FromLE;
  }

  lemma PhaseRoundTrip(phase: Phase, rest: Bytes)
    ensures DecPhase(EncPhase(phase) + rest) == Some((phase, rest))
  {
    hide LE, DecLE;
    Pow256Values();
    match phase
    case ApplyExtrinsic(n) =>
      DecLEOfLE(n, 4, rest);
      assert (EncPhase(phase) + rest)[1..] == LE(n, 4) + rest;
    case Finalization =>
    case Initialization =>
  }

  /** The first byte is 0, 1 or 2; only behind 0 there is more, the number of the extrinsic in four bytes. */
  lemma PhaseExactly(data: Bytes, phase: Phase, rest: Bytes)
    ensures DecPhase(data) == Some((phase, rest)) <==>
            match phase
            case ApplyExtrinsic(n) => |data| >= 5 && data[0] == 0 && FromLE(data[1..5]) == n && rest == data[5..]
            case Finalization => data != [] && data[0] == 1 && rest == data[1..]
            case Initialization => data != [] && data[0] == 2 && rest == data[1..]
  {
    hide FromLE;
    if |data| >= 5 {
      assert data[1..][..4] == data[1..5] && data[1..][4..] == data[5..];
    }
  }

  lemma TopicsRoundTrip(topics: seq<Bytes32>, rest: Bytes)
    requires EncTopics(topics).Some?
    ensures SkipTopics(EncTopics(topics).value + rest) == Some(rest)
  {
    hide EncCompact, DecCompact, Concat;
    CompactRoundTrip(|topics|, U32_MAX, Concat(topics) + rest);
    assert EncTopics(topics).value + rest == EncCompact(|topics|) + (Concat(topics) + rest);
  }

  /** An event record as the node writes it. */
  datatype EventRecord<T> = EventRecord(
    phase: Phase,
    pallet: Byte,
    variant: Byte,
    fields: seq<Value<T>>,
    topics: seq<Bytes32>)

  function EncRecordFields<T>(r: EventRecord<T>, md: Metadata): Option<Bytes> {
    var event :- md.Event(r.pallet, r.variant);
    if |r.fields| != |event.fields| then None else EncAll(r.fields, FieldTypes(event.fields), md.types)
  }

  function EncRecord<T>(r: EventRecord<T>, md: Metadata): (bs: Option<Bytes>)
    ensures bs.Some? ==> |bs.value| >= 3
  {
    var fields :- EncRecordFields(r, md);
    var topics :- EncTopics(r.topics);
    Some(EncPhase(r.phase) + [r.pallet, r.variant] + fields + topics)
  }

  function EncRecords<T>(rs: seq<EventRecord<T>>, md: Metadata): Option<Bytes> {
    if rs == [] then Some([]) else
    var first :- EncRecord(rs[0], md);
    var others :- EncRecords(rs[1..], md);
    Some(first + others)
  }

  /** `d` is `r` read back. */
  ghost predicate ReadsBack<T>(d: EventDetails, r: EventRecord<T>, md: Metadata) {
    && d.Valid() && d.metadata == md
    && d.phase == r.phase && d.PalletIndex() == r.pallet && d.VariantIndex() == r.variant
    && EncRecord(r, md) == Some(d.EventBytes())
    && EncRecordFields(r, md) == Some(d.FieldBytes())
    && d.Description().Some?
    && (var fields := d.Description().value.fields;
        |fields| == |r.fields|
        && EncAll(r.fields, FieldTypes(fields), md.types).Some?
        && d.FieldValues().Some? && NamedLike(d.FieldValues().value, fields)
        && d.FieldValues().value.IntoValues() == NormAll(r.fields, FieldTypes(fields), md.types))
  }

  /** The fields of a record are among the values that decoding can follow. */
  ghost predicate FollowableRecord<T>(r: EventRecord<T>, md: Metadata)
    requires EncRecord(r, md).Some?
  {
    FollowableAll(r.fields, FieldTypes(md.Event(r.pallet, r.variant).value.fields), md.types)
  }

  /** How many records at the front of a block can be followed. */
  ghost function Followed<T>(rs: seq<EventRecord<T>>, md: Metadata): (n: nat)
    requires EncRecords(rs, md).Some?
    ensures n <= |rs|
  {
    if rs == [] || !FollowableRecord(rs[0], md) then 0 else 1 + Followed(rs[1..], md)
  }

  lemma RecordReadsBack<T>(r: EventRecord<T>, md: Metadata, all: Bytes, pos: nat, index: nat, rest: Bytes)
    requires WellFormed(md.types)
    requires EncRecord(r, md).Some? && pos <= |all| && all[pos..] == EncRecord(r, md).value + rest
    ensures var d := DecodeFrom(md, all, pos, index);
            if FollowableRecord(r, md) then
              d.Some? && ReadsBack(d.value, r, md) && all[d.value.endIdx..] == rest
            else d.None?
  {
    hide EncAll, DecAll, NormAll, EncPhase, DecPhase, EncTopics, SkipTopics, FollowableAll;
    var event := md.Event(r.pallet, r.variant).value;
    var ids := FieldTypes(event.fields);
    var fields, topics := EncRecordFields(r, md).value, EncTopics(r.topics).value;
    var afterFields := topics + rest;
    var afterIndexes := fields + afterFields;
    var afterPhase := [r.pallet, r.variant] + afterIndexes;
    assert all[pos..] == EncPhase(r.phase) + afterPhase;
    PhaseRoundTrip(r.phase, afterPhase);
    assert afterPhase[2..] == afterIndexes;
    AllRoundTrip(r.fields, ids, md.types, false, afterFields);
    if FollowableRecord(r, md) {
      AllRoundTrip(r.fields, ids, md.types, false, []);
      TopicsRoundTrip(r.topics, rest);
      var d := DecodeFrom(md, all, pos, index).value;
      Offsets(all, pos, EncPhase(r.phase), [r.pallet, r.variant], fields, topics, rest);
      assert d.FieldBytes() == fields && fields + [] == fields;
      ShapeIsNamed(event.fields, NormAll(r.fields, ids, md.types));
    }
  }

  /** Where the four parts of a record lie. */
  lemma Offsets(all: Bytes, pos: nat, phase: Bytes, indexes: Bytes, fields: Bytes, topics: Bytes, rest: Bytes)
    requires pos <= |all| && |indexes| == 2
    requires all[pos..] == phase + (indexes + (fields + (topics + rest)))
    ensures var f := |all| - |fields + (topics + rest)|;
            var e := |all| - |topics + rest|;
            && 2 <= f <= e <= |all| - |rest| && pos <= |all| - |rest|
            && all[f - 2] == indexes[0] && all[f - 1] == indexes[1]
            && all[f..e] == fields
            && all[pos..|all| - |rest|] == phase + indexes + fields + topics
            && all[|all| - |rest|..] == rest
  {
    var tail := all[pos..];
    var p, q := |phase|, |phase| + 2;
    var s := q + |fields|;
    var t := s + |topics|;
    assert tail[p] == indexes[0] && tail[p + 1] == indexes[1];
    assert tail[q..s] == fields;
    assert tail[..t] == phase + indexes + fields + topics;
    assert tail[t..] == rest;
    assert all[pos + q..pos + s] == tail[q..s];
    assert all[pos..pos + t] == tail[..t];
    assert all[pos + t..] == tail[t..];
  }

  /** `items` are the followable records at the front, and an error for the first of the others. */
  ghost predicate ItemsReadBack<T>(items: seq<Item>, index: nat, rs: seq<EventRecord<T>>, md: Metadata)
    requires EncRecords(rs, md).Some?
  {
    var n := Followed(rs, md);
    && |items| == (if n == |rs| then n else n + 1)
    && (n < |rs| ==> items[n].Failed?)
    && forall k :: 0 <= k < n ==>
         items[k].Ok? && items[k].details.index == index + k && ReadsBack(items[k].details, rs[k], md)
  }

  lemma {:induction false} RecordsReadBack<T>(rs: seq<EventRecord<T>>, md: Metadata, all: Bytes, pos: nat,
                                              index: nat, trailing: Bytes)
    requires WellFormed(md.types)
    requires EncRecords(rs, md).Some? && pos <= |all| && all[pos..] == EncRecords(rs, md).value + trailing
    ensures ItemsReadBack(Iterate(md, all, pos, index, index + |rs|), index, rs, md)
    decreases |rs|
  {
    hide DecodeFrom, EncRecord, ReadsBack, FollowableRecord;
    if rs != [] {
      var first, others := EncRecord(rs[0], md).value, EncRecords(rs[1..], md).value;
      assert all[pos..] == first + (others + trailing);
      RecordReadsBack(rs[0], md, all, pos, index, others + trailing);
      var items := Iterate(md, all, pos, index, index + |rs|);
      if FollowableRecord(rs[0], md) {
        var d := DecodeFrom(md, all, pos, index).value;
        RecordsReadBack(rs[1..], md, all, d.endIdx, index + 1, trailing);
        var more := Iterate(md, all, d.endIdx, index + 1, index + |rs|);
        assert items == [Ok(d)] + more;
        forall k | 0 <= k < Followed(rs, md)
          ensures items[k].Ok? && items[k].details.index == index + k && ReadsBack(items[k].details, rs[k], md)
        {
          assert k > 0 ==> items[k] == more[k - 1] && rs[k] == rs[1..][k - 1];
        }
      } else {
        assert items == [Failed];
      }
    }
  }

  /**
   A block written by a node is read back record for record, whatever follows it, up to the first record
   that decoding cannot follow. There is none if no compact type is over a one-field tuple.
   */
  lemma BlockReadsBack<T>(rs: seq<EventRecord<T>>, md: Metadata, trailing: Bytes)
    requires WellFormed(md.types)
    requires |rs| <= U32_MAX && EncRecords(rs, md).Some?
    ensures var items := NewEvents(md, EncCompact(|rs|) + EncRecords(rs, md).value + trailing).Iter();
            ItemsReadBack(items, 0, rs, md) && (CompactWrappersPlain(md.types) ==> |items| == |rs|)
  {
    hide Iterate, EncRecords, Followed, ReadsBack, EncCompact, DecCompact;
    var body := EncRecords(rs, md).value + trailing;
    var all := EncCompact(|rs|) + EncRecords(rs, md).value + trailing;
    assert all == EncCompact(|rs|) + body;
    CompactRoundTrip(|rs|, U32_MAX, body);
    assert all[|all| - |body|..] == body;
    RecordsReadBack(rs, md, all, |all| - |body|, 0, trailing);
    if CompactWrappersPlain(md.types) {
      PlainRecordsFollowed(rs, md);
    }
  }

  lemma {:induction false} PlainRecordsFollowed<T>(rs: seq<EventRecord<T>>, md: Metadata)
    requires EncRecords(rs, md).Some? && CompactWrappersPlain(md.types)
    ensures Followed(rs, md) == |rs|
  {
    hide EncAll, FollowableAll;
    if rs != [] {
      var ids := FieldTypes(md.Event(rs[0].pallet, rs[0].variant).value.fields);
      ReachablePlainAll(rs[0].fields, ids, md.types, AllIds(md.types));
      PlainRecordsFollowed(rs[1..], md);
    }
  }
}
