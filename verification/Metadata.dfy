/**
 The lookup tables built from the raw runtime metadata: calls by name, events and errors by pallet
 and variant index.
 */
module RuntimeTables {
  import opened Wrappers
  import opened ByteStrings
  import opened TypeRegistry

  /** `META_RESERVED`, the bytes "meta". */
  const META_RESERVED := 0x6174_656D

  datatype RawPallet = RawPallet(
    name: string,
    index: Byte,
    calls: Option<TypeId>,
    event: Option<TypeId>,
    error: Option<TypeId>)

  datatype VersionedMetadata = V14(types: Registry, pallets: seq<RawPallet>) | OtherVersion

  datatype RawMetadata = RawMetadata(magic: nat, body: VersionedMetadata)

  datatype EventMetadata = EventMetadata(pallet: string, event: string, fields: seq<Field>)
  datatype ErrorMetadata = ErrorMetadata(pallet: string, error: string)
  datatype PalletMetadata = PalletMetadata(
    index: Byte,
    name: string,
    callIndexes: map<string, Byte>,
    callTy: Option<TypeId>)

  type Key = (Byte, Byte)

  datatype Metadata = Metadata(
    types: Registry,
    pallets: map<string, PalletMetadata>,
    events: map<Key, EventMetadata>,
    errors: map<Key, ErrorMetadata>)
  {
    function Event(pallet: Byte, variant: Byte): Option<EventMetadata> {
      Get(events, (pallet, variant))
    }

    function Error(pallet: Byte, variant: Byte): Option<ErrorMetadata> {
      Get(errors, (pallet, variant))
    }

    function EventsOf(pallet: Byte): seq<EventMetadata> {
      Values(OfPallet(Ascending(events, 0), pallet))
    }

    function ErrorsOf(pallet: Byte): seq<ErrorMetadata> {
      Values(OfPallet(Ascending(errors, 0), pallet))
    }
  }

  // ----- tables

  function Get<K, V>(m: map<K, V>, k: K): Option<V> {
    if k in m then Some(m[k]) else None
  }

  datatype Entry<K, V> = Entry(key: K, value: V)

  /** Insert the entries one after the other; a later one replaces an earlier one of the same key. */
  function FromEntries<K, V>(es: seq<Entry<K, V>>): map<K, V> {
    if es == [] then map[] else
    var last := es[|es| - 1];
    FromEntries(es[..|es| - 1])[last.key := last.value]
  }

  /** Search the entries linearly, from the last one on. */
  function LastMatch<K(==), V>(es: seq<Entry<K, V>>, k: K): (r: Option<V>)
    ensures r.Some? <==> exists i :: 0 <= i < |es| && es[i].key == k
    ensures r.Some? ==> exists i :: 0 <= i < |es| && es[i] == Entry(k, r.value)
                                    && forall j :: i < j < |es| ==> es[j].key != k
  {
    if es == [] then None else
    var n := |es| - 1;
    if es[n].key == k then
      assert es[n] == Entry(k, es[n].value);
      Some(es[n].value)
    else LastMatch(es[..n], k)
  }

  /** A table is its list of entries under last-match search. */
  lemma {:induction false} TableIsLastMatch<K, V>(es: seq<Entry<K, V>>, k: K)
    ensures Get(FromEntries(es), k) == LastMatch(es, k)
  {
    if es != [] {
      TableIsLastMatch(es[..|es| - 1], k);
    }
  }

  // ----- the ordered map, read in order

  function Code(k: Key): nat {
    256 * k.0 + k.1
  }

  function KeyAt(code: nat): (k: Key)
    requires code < 0x1_0000
    ensures Code(k) == code && forall q: Key :: Code(q) == code ==> q == k
  {
    (code / 256, code % 256)
  }

  /** The items of an ordered map from the key with the given code on, in ascending key order. */
  function Ascending<V>(m: map<Key, V>, from: nat): seq<Entry<Key, V>>
    decreases 0x1_0000 - from
  {
    if from >= 0x1_0000 then [] else
    var k := KeyAt(from);
    (if k in m then [Entry(k, m[k])] else []) + Ascending(m, from + 1)
  }

  function OfPallet<V>(es: seq<Entry<Key, V>>, pallet: Byte): seq<Entry<Key, V>> {
    if es == [] then [] else
    (if es[0].key.0 == pallet then [es[0]] else []) + OfPallet(es[1..], pallet)
  }

  function Values<K, V>(es: seq<Entry<K, V>>): (vs: seq<V>)
    ensures |vs| == |es|
    ensures forall i :: 0 <= i < |es| ==> vs[i] == es[i].value
  {
    if es == [] then [] else [es[0].value] + Values(es[1..])
  }

  /** Entries of one pallet, by strictly ascending variant index. */
  ghost predicate Row<V>(es: seq<Entry<Key, V>>, m: map<Key, V>, pallet: Byte, from: nat) {
    && (forall i :: 0 <= i < |es| ==> es[i].key.0 == pallet && es[i].key in m && es[i].value == m[es[i].key])
    && (forall i, j :: 0 <= i < j < |es| ==> es[i].key.1 < es[j].key.1)
    && (forall k :: k in m && k.0 == pallet && from <= Code(k) ==> exists i :: 0 <= i < |es| && es[i].key == k)
    && (forall i :: 0 <= i < |es| ==> from <= Code(es[i].key))
  }

  lemma RowExtends<V>(others: seq<Entry<Key, V>>, m: map<Key, V>, pallet: Byte, k: Key)
    requires Row(others, m, pallet, Code(k) + 1) && k in m && k.0 == pallet
    ensures Row([Entry(k, m[k])] + others, m, pallet, Code(k))
  {
    var es := [Entry(k, m[k])] + others;
    forall q | q in m && q.0 == pallet && Code(k) <= Code(q)
      ensures exists i :: 0 <= i < |es| && es[i].key == q
    {
      RowCovers(others, m, pallet, k, q);
    }
    forall i, j | 0 <= i < j < |es|
      ensures es[i].key.1 < es[j].key.1
    {
      assert es[j] == others[j - 1];
      if i > 0 {
        assert es[i] == others[i - 1];
      } else {
        assert Code(k) < Code(others[j - 1].key);
      }
    }
  }

  lemma RowCovers<V>(others: seq<Entry<Key, V>>, m: map<Key, V>, pallet: Byte, k: Key, q: Key)
    requires Row(others, m, pallet, Code(k) + 1) && k in m
    requires q in m && q.0 == pallet == k.0 && Code(k) <= Code(q)
    ensures var es := [Entry(k, m[k])] + others; exists i :: 0 <= i < |es| && es[i].key == q
  {
    var es := [Entry(k, m[k])] + others;
    if Code(q) == Code(k) {
      assert es[0].key == q;
    } else {
      var i :| 0 <= i < |others| && others[i].key == q;
      assert es[i + 1].key == q;
    }
  }

  lemma RowSkips<V>(es: seq<Entry<Key, V>>, m: map<Key, V>, pallet: Byte, k: Key)
    requires Row(es, m, pallet, Code(k) + 1) && !(k in m && k.0 == pallet)
    ensures Row(es, m, pallet, Code(k))
  {
    forall q | q in m && q.0 == pallet && Code(k) <= Code(q)
      ensures Code(k) + 1 <= Code(q)
    {
      assert q != k;
    }
  }

  lemma OfPalletSplit<V>(e: Entry<Key, V>, es: seq<Entry<Key, V>>, pallet: Byte)
    ensures OfPallet([e] + es, pallet) == if e.key.0 == pallet then [e] + OfPallet(es, pallet) else OfPallet(es, pallet)
  {
    assert ([e] + es)[1..] == es;
    assert [] + OfPallet(es, pallet) == OfPallet(es, pallet);
  }

  lemma {:induction false} PalletRow<V>(m: map<Key, V>, pallet: Byte, from: nat)
    requires from <= 0x1_0000
    ensures Row(OfPallet(Ascending(m, from), pallet), m, pallet, from)
    decreases 0x1_0000 - from
  {
    hide Row, OfPallet, KeyAt, Code;
    if from < 0x1_0000 {
      PalletRow(m, pallet, from + 1);
      var k := KeyAt(from);
      var others := Ascending(m, from + 1);
      if k in m {
        OfPalletSplit(Entry(k, m[k]), others, pallet);
      } else {
        assert [] + others == others;
      }
      if k in m && k.0 == pallet {
        RowExtends(OfPallet(others, pallet), m, pallet, k);
      } else {
        RowSkips(OfPallet(others, pallet), m, pallet, k);
      }
    } else {
      assert OfPallet(Ascending(m, from), pallet) == [] by { OfNone<V>(pallet); }
      NoRow(m, pallet);
    }
  }

  lemma OfNone<V>(pallet: Byte)
    ensures OfPallet<V>([], pallet) == []
  {
  }

  lemma NoRow<V>(m: map<Key, V>, pallet: Byte)
    ensures Row([], m, pallet, 0x1_0000)
  {
  }

  /** `events(p)` lists exactly the events of the pallet, once each and by ascending index. */
  lemma EventsOfPallet(md: Metadata, pallet: Byte)
    ensures var es := OfPallet(Ascending(md.events, 0), pallet);
            Row(es, md.events, pallet, 0) && md.EventsOf(pallet) == Values(es)
  {
    PalletRow(md.events, pallet, 0);
  }

  lemma ErrorsOfPallet(md: Metadata, pallet: Byte)
    ensures var es := OfPallet(Ascending(md.errors, 0), pallet);
            Row(es, md.errors, pallet, 0) && md.ErrorsOf(pallet) == Values(es)
  {
    PalletRow(md.errors, pallet, 0);
  }

  // ----- construction

  predicate IsVariant(types: Registry, id: TypeId) {
    id < |types| && types[id].def.VariantType?
  }

  predicate Resolves(types: Registry, id: Option<TypeId>) {
    id.Some? ==> IsVariant(types, id.value)
  }

  /** Every call, event and error type is an enum of the registry. */
  ghost predicate Resolvable(pallets: seq<RawPallet>, types: Registry) {
    forall p :: p in pallets ==>
      Resolves(types, p.calls) && Resolves(types, p.event) && Resolves(types, p.error)
  }

  function VariantsOf(types: Registry, id: Option<TypeId>): seq<VariantKind> {
    if id.Some? && IsVariant(types, id.value) then types[id.value].def.variants else []
  }

  function EventOf(p: RawPallet, v: VariantKind): EventMetadata {
    EventMetadata(p.name, v.name, v.fields)
  }

  function ErrorOf(p: RawPallet, v: VariantKind): ErrorMetadata {
    ErrorMetadata(p.name, v.name)
  }

  function VariantEntries<V>(p: RawPallet, variants: seq<VariantKind>,
                             make: (RawPallet, VariantKind) -> V): (es: seq<Entry<Key, V>>)
    ensures |es| == |variants|
  {
    seq(|variants|, i requires 0 <= i < |variants| =>
      Entry((p.index, variants[i].index), make(p, variants[i])))
  }

  /** All entries of the raw metadata in the order in which they are read. */
  function Entries<V>(pallets: seq<RawPallet>, types: Registry, pick: RawPallet -> Option<TypeId>,
                      make: (RawPallet, VariantKind) -> V): seq<Entry<Key, V>>
  {
    if pallets == [] then [] else
    var n := |pallets| - 1;
    Entries(pallets[..n], types, pick, make)
    + VariantEntries(pallets[n], VariantsOf(types, pick(pallets[n])), make)
  }

  function EventEntries(pallets: seq<RawPallet>, types: Registry): seq<Entry<Key, EventMetadata>> {
    Entries(pallets, types, (p: RawPallet) => p.event, EventOf)
  }

  function ErrorEntries(pallets: seq<RawPallet>, types: Registry): seq<Entry<Key, ErrorMetadata>> {
    Entries(pallets, types, (p: RawPallet) => p.error, ErrorOf)
  }

  /** The outer loop that fills the table of events or of errors. */
  method BuildTable<V>(pallets: seq<RawPallet>, types: Registry, pick: RawPallet -> Option<TypeId>,
                       make: (RawPallet, VariantKind) -> V) returns (r: Option<map<Key, V>>)
    ensures r.Some? <==> forall p :: p in pallets ==> Resolves(types, pick(p))
    ensures r.Some? ==> r.value == FromEntries(Entries(pallets, types, pick, make))
  {
    hide FromEntries, VariantEntries;
    var table := map[];
    assert FromEntries<Key, V>([]) == map[] by { NoEntries<V>(); }
    for i := 0 to |pallets|
      invariant forall k :: 0 <= k < i ==> Resolves(types, pick(pallets[k]))
      invariant table == FromEntries(Entries(pallets[..i], types, pick, make))
    {
      var p := pallets[i];
      ghost var done := Entries(pallets[..i], types, pick, make);
      assert pallets[..i + 1][..i] == pallets[..i];
      if pick(p).Some? {
        if !IsVariant(types, pick(p).value) {
          return None;
        }
        table := AddVariants(table, done, p, types[pick(p).value].def.variants, make);
      } else {
        assert VariantEntries(p, [], make) == [];
        assert done + [] == done;
      }
    }
    assert pallets[..|pallets|] == pallets;
    return Some(table);
  }

  lemma NoEntries<V>()
    ensures FromEntries<Key, V>([]) == map[]
  {
  }

  /** The inner loop, over the variants of one pallet. */
  method AddVariants<V>(before: map<Key, V>, ghost done: seq<Entry<Key, V>>, p: RawPallet,
                        variants: seq<VariantKind>,
                        make: (RawPallet, VariantKind) -> V) returns (table: map<Key, V>)
    requires before == FromEntries(done)
    ensures table == FromEntries(done + VariantEntries(p, variants, make))
  {
    table := before;
    ghost var es := VariantEntries(p, variants, make);
    assert done + es[..0] == done;
    for j := 0 to |variants|
      invariant table == FromEntries(done + es[..j])
    {
      var v := variants[j];
      assert (done + es[..j + 1])[..|done| + j] == done + es[..j];
      table := table[(p.index, v.index) := make(p, v)];
    }
    assert es[..|variants|] == es;
  }

  function CallEntries(variants: seq<VariantKind>): (es: seq<Entry<string, Byte>>)
    ensures |es| == |variants|
  {
    seq(|variants|, i requires 0 <= i < |variants| => Entry(variants[i].name, variants[i].index))
  }

  function PalletOf(p: RawPallet, types: Registry): PalletMetadata {
    PalletMetadata(p.index, p.name, FromEntries(CallEntries(VariantsOf(types, p.calls))), p.calls)
  }

  function PalletEntries(pallets: seq<RawPallet>, types: Registry): (es: seq<Entry<string, PalletMetadata>>)
    ensures |es| == |pallets|
  {
    seq(|pallets|, i requires 0 <= i < |pallets| => Entry(pallets[i].name, PalletOf(pallets[i], types)))
  }

  method BuildPallets(pallets: seq<RawPallet>, types: Registry) returns (r: Option<map<string, PalletMetadata>>)
    ensures r.Some? <==> forall p :: p in pallets ==> Resolves(types, p.calls)
    ensures r.Some? ==> r.value == FromEntries(PalletEntries(pallets, types))
  {
    var table := map[];
    ghost var es := PalletEntries(pallets, types);
    for i := 0 to |pallets|
      invariant forall k :: 0 <= k < i ==> Resolves(types, pallets[k].calls)
      invariant table == FromEntries(es[..i])
    {
      var p := pallets[i];
      if p.calls.Some? && !IsVariant(types, p.calls.value) {
        return None;
      }
      assert es[..i + 1][..i] == es[..i];
      table := table[p.name := PalletOf(p, types)];
    }
    assert es[..|pallets|] == es;
    return Some(table);
  }

  /** The tables of `md` are those of the raw metadata, under linear search from the last entry on. */
  ghost predicate TablesOf(md: Metadata, pallets: seq<RawPallet>, types: Registry) {
    && md.types == types
    && (forall p, v :: md.Event(p, v) == LastMatch(EventEntries(pallets, types), (p, v)))
    && (forall p, v :: md.Error(p, v) == LastMatch(ErrorEntries(pallets, types), (p, v)))
    && (forall name :: Get(md.pallets, name) == LastMatch(PalletEntries(pallets, types), name))
  }

  /** `v` is a variant of the enum type `id`. */
  ghost predicate VariantIn(types: Registry, id: Option<TypeId>, v: VariantKind) {
    id.Some? && id.value < |types| && types[id.value].def.VariantType? && v in types[id.value].def.variants
  }

  /**
   What a lookup says: an event is found under a key exactly if some pallet and variant have these
   indexes, and bears the names of such a pallet and variant.
   */
  ghost predicate EventMeans(m: Option<EventMetadata>, pallets: seq<RawPallet>, types: Registry, k: Key) {
    && (m.Some? <==> exists p, v :: p in pallets && VariantIn(types, p.event, v) && (p.index, v.index) == k)
    && (m.Some? ==> exists p, v ::
          p in pallets && VariantIn(types, p.event, v) && (p.index, v.index) == k
          && m.value.pallet == p.name && m.value.event == v.name && m.value.fields == v.fields)
  }

  ghost predicate ErrorMeans(m: Option<ErrorMetadata>, pallets: seq<RawPallet>, types: Registry, k: Key) {
    && (m.Some? <==> exists p, v :: p in pallets && VariantIn(types, p.error, v) && (p.index, v.index) == k)
    && (m.Some? ==> exists p, v ::
          p in pallets && VariantIn(types, p.error, v) && (p.index, v.index) == k
          && m.value.pallet == p.name && m.value.error == v.name)
  }

  method TryFrom(raw: RawMetadata) returns (r: Option<Metadata>)
    ensures r.Some? <==>
              raw.magic == META_RESERVED && raw.body.V14? && Resolvable(raw.body.pallets, raw.body.types)
    ensures r.Some? ==> TablesOf(r.value, raw.body.pallets, raw.body.types)
    ensures r.Some? ==> forall k: Key ::
              && EventMeans(r.value.Event(k.0, k.1), raw.body.pallets, raw.body.types, k)
              && ErrorMeans(r.value.Error(k.0, k.1), raw.body.pallets, raw.body.types, k)
  {
    hide FromEntries, LastMatch, EventEntries, ErrorEntries, PalletEntries, EventMeans, ErrorMeans;
    if raw.magic != META_RESERVED || raw.body.OtherVersion? {
      return None;
    }
    var types, raws := raw.body.types, raw.body.pallets;
    var pallets := BuildPallets(raws, types);
    if pallets.None? {
      return None;
    }
    var events := BuildEvents(raws, types);
    if events.None? {
      return None;
    }
    var errors := BuildErrors(raws, types);
    if errors.None? {
      return None;
    }
    var md := Metadata(types, pallets.value, events.value, errors.value);
    forall p, v ensures md.Event(p, v) == LastMatch(EventEntries(raws, types), (p, v)) {
      TableIsLastMatch(EventEntries(raws, types), (p, v));
    }
    forall p, v ensures md.Error(p, v) == LastMatch(ErrorEntries(raws, types), (p, v)) {
      TableIsLastMatch(ErrorEntries(raws, types), (p, v));
    }
    forall name ensures Get(md.pallets, name) == LastMatch(PalletEntries(raws, types), name) {
      TableIsLastMatch(PalletEntries(raws, types), name);
    }
    TablesMeaning(md, raws, types);
    return Some(md);
  }

  method BuildEvents(pallets: seq<RawPallet>, types: Registry) returns (r: Option<map<Key, EventMetadata>>)
    ensures r.Some? <==> forall p :: p in pallets ==> Resolves(types, p.event)
    ensures r.Some? ==> r.value == FromEntries(EventEntries(pallets, types))
  {
    r := BuildTable(pallets, types, (p: RawPallet) => p.event, EventOf);
  }

  method BuildErrors(pallets: seq<RawPallet>, types: Registry) returns (r: Option<map<Key, ErrorMetadata>>)
    ensures r.Some? <==> forall p :: p in pallets ==> Resolves(types, p.error)
    ensures r.Some? ==> r.value == FromEntries(ErrorEntries(pallets, types))
  {
    r := BuildTable(pallets, types, (p: RawPallet) => p.error, ErrorOf);
  }

  // ----- what the entries of the tables mean

  /** An event found under a key describes a variant of the event type of a pallet of that index. */
  lemma EventEntryMeaning(pallets: seq<RawPallet>, types: Registry, k: Key)
    ensures EventMeans(LastMatch(EventEntries(pallets, types), k), pallets, types, k)
  {
    EntriesMeaning(pallets, types, (p: RawPallet) => p.event, EventOf);
    var es := EventEntries(pallets, types);
    var m := LastMatch(es, k);
    if m.Some? {
      assert Entry(k, m.value) in es;
      var p, v :| p in pallets && v in VariantsOf(types, p.event)
                  && Entry(k, m.value) == Entry((p.index, v.index), EventOf(p, v));
      assert VariantIn(types, p.event, v);
    }
    if p, v :| p in pallets && VariantIn(types, p.event, v) && (p.index, v.index) == k {
      assert v in VariantsOf(types, p.event);
      assert Entry(k, EventOf(p, v)) in es;
      var i :| 0 <= i < |es| && es[i] == Entry(k, EventOf(p, v));
      assert es[i].key == k;
    }
  }

  /** The same for errors. */
  lemma ErrorEntryMeaning(pallets: seq<RawPallet>, types: Registry, k: Key)
    ensures ErrorMeans(LastMatch(ErrorEntries(pallets, types), k), pallets, types, k)
  {
    EntriesMeaning(pallets, types, (p: RawPallet) => p.error, ErrorOf);
    var es := ErrorEntries(pallets, types);
    var m := LastMatch(es, k);
    if m.Some? {
      assert Entry(k, m.value) in es;
      var p, v :| p in pallets && v in VariantsOf(types, p.error)
                  && Entry(k, m.value) == Entry((p.index, v.index), ErrorOf(p, v));
      assert VariantIn(types, p.error, v);
    }
    if p, v :| p in pallets && VariantIn(types, p.error, v) && (p.index, v.index) == k {
      assert v in VariantsOf(types, p.error);
      assert Entry(k, ErrorOf(p, v)) in es;
      var i :| 0 <= i < |es| && es[i] == Entry(k, ErrorOf(p, v));
      assert es[i].key == k;
    }
  }

  lemma TablesMeaning(md: Metadata, pallets: seq<RawPallet>, types: Registry)
    requires TablesOf(md, pallets, types)
    ensures forall k: Key ::
              && EventMeans(md.Event(k.0, k.1), pallets, types, k) && ErrorMeans(md.Error(k.0, k.1), pallets, types, k)
  {
    hide LastMatch, EventEntries, ErrorEntries, PalletEntries, EventMeans, ErrorMeans;
    forall k: Key
      ensures EventMeans(md.Event(k.0, k.1), pallets, types, k) && ErrorMeans(md.Error(k.0, k.1), pallets, types, k)
    {
      EventEntryMeaning(pallets, types, k);
      ErrorEntryMeaning(pallets, types, k);
      assert md.Event(k.0, k.1) == LastMatch(EventEntries(pallets, types), (k.0, k.1));
      assert md.Error(k.0, k.1) == LastMatch(ErrorEntries(pallets, types), (k.0, k.1));
    }
  }

  ghost predicate DistinctPallets(pallets: seq<RawPallet>) {
    forall p, q :: p in pallets && q in pallets && (p.index == q.index || p.name == q.name) ==> p == q
  }

  /** With distinct indexes the lookup leads back to the pallet and the variant. */
  lemma EventMeaning(md: Metadata, pallets: seq<RawPallet>, types: Registry, p: RawPallet, v: VariantKind)
    requires TablesOf(md, pallets, types) && DistinctPallets(pallets)
    requires p in pallets && VariantIn(types, p.event, v) && DistinctVariants(types[p.event.value].def.variants)
    ensures md.Event(p.index, v.index) == Some(EventMetadata(p.name, v.name, v.fields))
  {
    hide LastMatch, EventEntries, ErrorEntries, PalletEntries;
    EventEntryMeaning(pallets, types, (p.index, v.index));
    var m := md.Event(p.index, v.index);
    assert m == LastMatch(EventEntries(pallets, types), (p.index, v.index));
    assert m.Some?;
  }

  lemma ErrorMeaning(md: Metadata, pallets: seq<RawPallet>, types: Registry, p: RawPallet, v: VariantKind)
    requires TablesOf(md, pallets, types) && DistinctPallets(pallets)
    requires p in pallets && VariantIn(types, p.error, v) && DistinctVariants(types[p.error.value].def.variants)
    ensures md.Error(p.index, v.index) == Some(ErrorMetadata(p.name, v.name))
  {
    hide LastMatch, EventEntries, ErrorEntries, PalletEntries;
    ErrorEntryMeaning(pallets, types, (p.index, v.index));
    var m := md.Error(p.index, v.index);
    assert m == LastMatch(ErrorEntries(pallets, types), (p.index, v.index));
    assert m.Some?;
  }

  /** Through the tables a call is written as the index of its pallet, its own index, and the arguments. */
  lemma CallMeaning(md: Metadata, pallets: seq<RawPallet>, types: Registry, p: RawPallet, v: VariantKind, args: Bytes)
    requires TablesOf(md, pallets, types) && DistinctPallets(pallets)
    requires p in pallets && VariantIn(types, p.calls, v) && DistinctVariants(types[p.calls.value].def.variants)
    ensures var m := Get(md.pallets, p.name);
            && m.Some? && m.value.name == p.name && m.value.index == p.index && m.value.callTy == p.calls
            && EncodeCall(m.value, v.name, args) == Some([p.index, v.index] + args)
  {
    hide LastMatch, EventEntries, ErrorEntries;
    var es := PalletEntries(pallets, types);
    var m := Get(md.pallets, p.name);
    assert m == LastMatch(es, p.name);
    var i :| 0 <= i < |pallets| && pallets[i] == p;
    assert es[i].key == p.name;
    LastMatchIsEntry(es, p.name);
    var k :| 0 <= k < |es| && es[k] == Entry(p.name, m.value);
    assert pallets[k] == p;
    EncodeCallFinds(p, types, v.name, args);
    VariantLookups(VariantsOf(types, p.calls), v);
  }

  lemma LastMatchIsEntry<K, V>(es: seq<Entry<K, V>>, k: K)
    requires exists i :: 0 <= i < |es| && es[i].key == k
    ensures LastMatch(es, k).Some? && exists i :: 0 <= i < |es| && es[i] == Entry(k, LastMatch(es, k).value)
  {
  }

  lemma {:induction false} EntriesMeaning<V>(pallets: seq<RawPallet>, types: Registry,
                                             pick: RawPallet -> Option<TypeId>,
                                             make: (RawPallet, VariantKind) -> V)
    ensures forall e :: e in Entries(pallets, types, pick, make) ==>
              exists p, v ::
                p in pallets && v in VariantsOf(types, pick(p)) && e == Entry((p.index, v.index), make(p, v))
    ensures forall p, v :: p in pallets && v in VariantsOf(types, pick(p)) ==>
              Entry((p.index, v.index), make(p, v)) in Entries(pallets, types, pick, make)
  {
    if pallets != [] {
      var n := |pallets| - 1;
      EntriesMeaning(pallets[..n], types, pick, make);
      var last := pallets[n];
      var vs := VariantsOf(types, pick(last));
      var es := VariantEntries(last, vs, make);
      assert forall v :: v in vs ==> Entry((last.index, v.index), make(last, v)) in es by {
        forall v | v in vs ensures Entry((last.index, v.index), make(last, v)) in es {
          var i :| 0 <= i < |vs| && vs[i] == v;
          assert es[i] == Entry((last.index, v.index), make(last, v));
        }
      }
      assert pallets == pallets[..n] + [last];
    }
  }

  // ----- the prefix

  /** The magic number is the word "meta" in front of the metadata. */
  lemma MagicIsMeta()
    ensures LE(META_RESERVED, 4) == ['m' as int, 'e' as int, 't' as int, 'a' as int]
  {
    assert LE(0x61, 1) == [0x61];
    assert LE(0x6174, 2) == [0x74, 0x61];
    assert LE(0x61_7465, 3) == [0x65, 0x74, 0x61];
  }

  // ----- calls

  /** `encode_call`: pallet index, call index, arguments. */
  function EncodeCall(p: PalletMetadata, call: string, args: Bytes): Option<Bytes> {
    var index :- Get(p.callIndexes, call);
    Some([p.index, index] + args)
  }

  /** With distinct names a call is emitted under the index of the variant that bears its name. */
  lemma EncodeCallFinds(p: RawPallet, types: Registry, call: string, args: Bytes)
    requires DistinctVariants(VariantsOf(types, p.calls))
    ensures EncodeCall(PalletOf(p, types), call, args) ==
            match FindName(VariantsOf(types, p.calls), call)
            case None => None
            case Some(v) => Some([p.index, v.index] + args)
  {
    var variants := VariantsOf(types, p.calls);
    var es := CallEntries(variants);
    TableIsLastMatch(es, call);
    var found := FindName(variants, call);
    if found.Some? {
      var i :| 0 <= i < |variants| && variants[i] == found.value;
      assert es[i].key == call;
    }
  }

  /** The two leading bytes of an encoded call name it: no other call of the pallet starts with them. */
  lemma EncodedCallNames(p: RawPallet, types: Registry, call: string, args: Bytes)
    requires DistinctVariants(VariantsOf(types, p.calls))
    requires EncodeCall(PalletOf(p, types), call, args).Some?
    ensures var bs := EncodeCall(PalletOf(p, types), call, args).value;
            && bs[0] == p.index
            && bs[2..] == args
            && FindIndex(VariantsOf(types, p.calls), bs[1]).Some?
            && FindIndex(VariantsOf(types, p.calls), bs[1]).value.name == call
  {
    EncodeCallFinds(p, types, call, args);
    VariantLookups(VariantsOf(types, p.calls), FindName(VariantsOf(types, p.calls), call).value);
  }
}
