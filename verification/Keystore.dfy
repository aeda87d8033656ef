/** The two tiers of the keystore, a map in memory over a directory of files, behave as one map. */
module TwoTierKeystore {
  import opened Wrappers
  import opened ByteStrings
  import opened HexText

  type KeyTypeId = id: Bytes | |id| == 4 witness [0, 0, 0, 0]
  datatype Key = Key(id: KeyTypeId, public: Bytes)

  /** The name of the file that holds the phrase of a key. */
  function FileName(k: Key): string {
    HexEncode(k.id) + HexEncode(k.public)
  }

  /** What `raw_public_keys` makes of a file name: names of any other form are skipped. */
  function KeyOfName(name: string): (k: Option<Key>)
    ensures k.Some? ==> k.value.public != []
  {
    var bs :- HexDecode(name);
    if |bs| > 4 then Some(Key(bs[..4], bs[4..])) else None
  }

  /** A file name is read back as its key, unless the public key is empty. */
  lemma NameReadsBack(k: Key)
    ensures HexDecode(FileName(k)) == Some(k.id + k.public)
    ensures KeyOfName(FileName(k)) == if k.public == [] then None else Some(k)
  {
    hide HexEncode, HexDecode;
    HexConcat(k.id, k.public);
    HexRoundTrip(k.id + k.public);
    assert (k.id + k.public)[..4] == k.id && (k.id + k.public)[4..] == k.public;
  }

  /** A file name is that of a key exactly if it spells its type and its public key, which is not empty, in any case. */
  lemma NamesAccepted(name: string, k: Key)
    ensures KeyOfName(name) == Some(k) <==>
            var bs := k.id + k.public;
            && k.public != [] && |name| == 2 * |bs|
            && forall i :: 0 <= i < |bs| ==> IsDigit(name[2 * i], bs[i] / 16) && IsDigit(name[2 * i + 1], bs[i] % 16)
  {
    hide HexDecode, IsDigit;
    var bs := k.id + k.public;
    HexAccepts(name, bs);
    assert bs[..4] == k.id && bs[4..] == k.public;
    if KeyOfName(name).Some? {
      var all := HexDecode(name).value;
      assert all == all[..4] + all[4..];
    }
  }

  lemma NamesDiffer(k: Key, l: Key)
    requires FileName(k) == FileName(l)
    ensures k == l
  {
    hide FileName, HexDecode;
    NameReadsBack(k);
    NameReadsBack(l);
    assert (k.id + k.public)[..4] == k.id && (l.id + l.public)[..4] == l.id;
    assert (k.id + k.public)[4..] == k.public && (l.id + l.public)[4..] == l.public;
  }

  // ----- the state

  /** The memory tier and, unless the keystore lives in memory only, the files by name. */
  datatype State = State(memory: map<Key, string>, files: Option<map<string, string>>)

  /** `key_phrase_by_type` */
  function Phrase(s: State, k: Key): Option<string> {
    if k in s.memory then Some(s.memory[k])
    else if s.files.Some? && FileName(k) in s.files.value then Some(s.files.value[FileName(k)])
    else None
  }

  /** `raw_public_keys` lists the public key, from either tier. */
  ghost predicate Listed(s: State, k: Key) {
    k in s.memory
    || (s.files.Some? && exists name :: name in s.files.value && KeyOfName(name) == Some(k))
  }

  /** The names among `names` that are read as the key. */
  ghost function NamesOf(names: set<string>, k: Key): set<string> {
    set n | n in names && KeyOfName(n) == Some(k)
  }

  /** How often the key is listed: once for the memory tier and once for every file of it. */
  ghost function Listings(s: State, k: Key): nat {
    (if k in s.memory then 1 else 0) + (if s.files.Some? then |NamesOf(s.files.value.Keys, k)| else 0)
  }

  datatype Op =
    | Generate(key: Key, phrase: string)
    | InsertEphemeral(key: Key, phrase: string)
    | InsertUnknown(key: Key, phrase: string)
    | Reopen

  function Write(files: Option<map<string, string>>, k: Key, phrase: string): Option<map<string, string>> {
    if files.None? then None else Some(files.value[FileName(k) := phrase])
  }

  function Step(s: State, op: Op): State {
    match op
    case Generate(k, phrase) =>
      if s.files.Some? then s.(files := Write(s.files, k, phrase)) else s.(memory := s.memory[k := phrase])
    case InsertEphemeral(k, phrase) => s.(memory := s.memory[k := phrase])
    case InsertUnknown(k, phrase) => s.(files := Write(s.files, k, phrase))
    case Reopen => s.(memory := map[])
  }

  /** A run: the operations one after the other. */
  function Run(s: State, ops: seq<Op>): State {
    if ops == [] then s else Step(Run(s, ops[..|ops| - 1]), ops[|ops| - 1])
  }

  function EmptyStore(onDisk: bool): State {
    State(map[], if onDisk then Some(map[]) else None)
  }

  // ----- the reference: two maps over keys, without names

  datatype Reference = Reference(volatile: map<Key, string>, durable: map<Key, string>) {
    /** The one map the keystore stands for: what is in memory shadows what is on disk. */
    function AsMap(): map<Key, string> {
      durable + volatile
    }
  }

  function RefStep(r: Reference, onDisk: bool, op: Op): Reference {
    match op
    case Generate(k, phrase) =>
      if onDisk then r.(durable := r.durable[k := phrase]) else r.(volatile := r.volatile[k := phrase])
    case InsertEphemeral(k, phrase) => r.(volatile := r.volatile[k := phrase])
    case InsertUnknown(k, phrase) => if onDisk then r.(durable := r.durable[k := phrase]) else r
    case Reopen => r.(volatile := map[])
  }

  function RefRun(onDisk: bool, ops: seq<Op>): Reference {
    if ops == [] then Reference(map[], map[])
    else RefStep(RefRun(onDisk, ops[..|ops| - 1]), onDisk, ops[|ops| - 1])
  }

  /** The files are exactly the durable keys under their names. */
  ghost predicate Represents(s: State, r: Reference) {
    && s.memory == r.volatile
    && (s.files.None? ==> r.durable == map[])
    && (s.files.Some? ==>
          && (forall k :: k in r.durable ==> FileName(k) in s.files.value && s.files.value[FileName(k)] == r.durable[k])
          && (forall name :: name in s.files.value ==> exists k :: k in r.durable && FileName(k) == name))
  }

  lemma WriteRepresents(s: State, r: Reference, k: Key, phrase: string)
    requires Represents(s, r) && s.files.Some?
    ensures Represents(s.(files := Write(s.files, k, phrase)), r.(durable := r.durable[k := phrase]))
  {
    hide FileName;
    var files, durable := s.files.value[FileName(k) := phrase], r.durable[k := phrase];
    forall l | l in durable
      ensures FileName(l) in files && files[FileName(l)] == durable[l]
    {
      if l != k && FileName(l) == FileName(k) {
        NamesDiffer(l, k);
      }
    }
    forall name | name in files
      ensures exists l :: l in durable && FileName(l) == name
    {
      if name == FileName(k) {
        assert k in durable;
      } else {
        var l :| l in r.durable && FileName(l) == name;
        assert l in durable;
      }
    }
  }

  /** Every run keeps the files in step with the reference. */
  lemma {:induction false} RunRepresents(onDisk: bool, ops: seq<Op>)
    ensures var s := Run(EmptyStore(onDisk), ops);
            Represents(s, RefRun(onDisk, ops)) && s.files.Some? == onDisk
  {
    hide FileName;
    if ops != [] {
      var n := |ops| - 1;
      RunRepresents(onDisk, ops[..n]);
      var s, r := Run(EmptyStore(onDisk), ops[..n]), RefRun(onDisk, ops[..n]);
      match ops[n]
      case Generate(k, phrase) => if onDisk { WriteRepresents(s, r, k, phrase); }
      case InsertUnknown(k, phrase) => if onDisk { WriteRepresents(s, r, k, phrase); }
      case _ =>
    }
  }

  lemma PhraseIsLookup(s: State, r: Reference, k: Key)
    requires Represents(s, r)
    ensures Phrase(s, k) == if k in r.AsMap() then Some(r.AsMap()[k]) else None
  {
    hide FileName;
    if k !in s.memory && s.files.Some? && FileName(k) in s.files.value {
      var l :| l in r.durable && FileName(l) == FileName(k);
      NamesDiffer(l, k);
    }
  }

  lemma ListedIsKnown(s: State, r: Reference, k: Key)
    requires Represents(s, r)
    ensures Listed(s, k) <==> (k in r.volatile || (k in r.durable && k.public != []))
  {
    hide FileName, KeyOfName;
    NameReadsBack(k);
    if s.files.Some? {
      if name :| name in s.files.value && KeyOfName(name) == Some(k) {
        var l :| l in r.durable && FileName(l) == name;
        NameReadsBack(l);
      }
    }
  }

  /** No key has two files, so a key is listed twice only if both tiers hold it. */
  lemma ListingsCount(s: State, r: Reference, k: Key)
    requires Represents(s, r)
    ensures Listings(s, k) == (if k in r.volatile then 1 else 0) + (if k in r.durable && k.public != [] then 1 else 0)
    ensures Listings(s, k) > 0 <==> Listed(s, k)
  {
    hide FileName, KeyOfName;
    NameReadsBack(k);
    ListedIsKnown(s, r, k);
    if s.files.Some? {
      var names := NamesOf(s.files.value.Keys, k);
      forall n | n in names ensures n == FileName(k) {
        var l :| l in r.durable && FileName(l) == n;
        NameReadsBack(l);
      }
      if k in r.durable && k.public != [] {
        assert names == {FileName(k)};
      } else if n :| n in names {
        var l :| l in r.durable && FileName(l) == n;
        NameReadsBack(l);
        assert false;
      } else {
        assert names == {};
      }
    }
  }

  /**
   Over every run, looking up a phrase is looking it up in the one map, and a key is listed exactly
   when a phrase is found for it; the only keys that are found and not listed have an empty public
   part and a file.
   */
  lemma KeystoreIsOneMap(onDisk: bool, ops: seq<Op>, k: Key)
    ensures var s := Run(EmptyStore(onDisk), ops);
            var m := RefRun(onDisk, ops).AsMap();
            && Phrase(s, k) == (if k in m then Some(m[k]) else None)
            && (k.public != [] ==> (Listed(s, k) <==> Phrase(s, k).Some?))
            && (Listed(s, k) ==> Phrase(s, k).Some?)
            && Listings(s, k) <= 2
  {
    hide Listed, Phrase, Listings;
    ListingsCount(Run(EmptyStore(onDisk), ops), RefRun(onDisk, ops), k) by { RunRepresents(onDisk, ops); }
    var s, r := Run(EmptyStore(onDisk), ops), RefRun(onDisk, ops);
    RunRepresents(onDisk, ops);
    PhraseIsLookup(s, r, k);
    ListedIsKnown(s, r, k);
  }

  /** Reopening forgets exactly the memory tier: what was written to files is found as before. */
  lemma ReopenKeepsFiles(onDisk: bool, ops: seq<Op>, k: Key)
    ensures var m := RefRun(onDisk, ops).durable;
            Phrase(Run(EmptyStore(onDisk), ops + [Reopen]), k) == if k in m then Some(m[k]) else None
  {
    hide Phrase;
    var all := ops + [Reopen];
    assert all[..|all| - 1] == ops && all[|all| - 1] == Reopen;
    RunRepresents(onDisk, all);
    PhraseIsLookup(Run(EmptyStore(onDisk), all), RefRun(onDisk, all), k);
    var r := RefRun(onDisk, all);
    assert r.AsMap() == r.durable;
  }

  // ----- the keystore as it runs

  /** The directory, which outlives the keystores opened on it. */
  class Directory {
    var files: map<string, string>

    constructor ()
      ensures files == map[]
    {
      files := map[];
    }
  }

  class KeystoreInner {
    const path: Directory?
    var additional: map<Key, string>

    constructor Open(directory: Directory)
      ensures path == directory && View() == State(map[], Some(directory.files))
    {
      path := directory;
      additional := map[];
    }

    constructor InMemory()
      ensures path == null && View() == EmptyStore(false)
    {
      path := null;
      additional := map[];
    }

    ghost function View(): State
      reads this, path
    {
      State(additional, if path == null then None else Some(path.files))
    }

    method InsertEphemeralPair(k: Key, seed: string)
      modifies this
      ensures View() == Step(old(View()), InsertEphemeral(k, seed))
    {
      additional := additional[k := seed];
    }

    method InsertUnknown(k: Key, suri: string)
      modifies path
      ensures View() == Step(old(View()), Op.InsertUnknown(k, suri))
    {
      if path != null {
        path.files := path.files[FileName(k) := suri];
      }
    }

    method GenerateByType(k: Key, phrase: string)
      modifies this, path
      ensures View() == Step(old(View()), Generate(k, phrase))
    {
      if path != null {
        path.files := path.files[FileName(k) := phrase];
      } else {
        InsertEphemeralPair(k, phrase);
      }
    }

    method KeyPhraseByType(k: Key) returns (r: Option<string>)
      ensures r == Phrase(View(), k)
    {
      if k in additional {
        return Some(additional[k]);
      }
      if path == null {
        return None;
      }
      var name := FileName(k);
      if name in path.files {
        return Some(path.files[name]);
      }
      return None;
    }

    /** Memory first, then the files in whatever order the directory gives them. */
    method RawPublicKeys(id: KeyTypeId) returns (keys: seq<Bytes>)
      ensures forall p: Bytes :: multiset(keys)[p] == Listings(View(), Key(id, p))
    {
      hide KeyOfName;
      keys := [];
      var left := additional.Keys;
      while left != {}
        invariant left <= additional.Keys
        invariant forall p: Bytes :: multiset(keys)[p] == if Key(id, p) in additional.Keys - left then 1 else 0
        decreases |left|
      {
        var k :| k in left;
        left := left - {k};
        if k.id == id {
          keys := keys + [k.public];
        }
      }
      if path != null {
        var names := path.files.Keys;
        while names != {}
          invariant names <= path.files.Keys
          invariant forall p: Bytes ::
            multiset(keys)[p] == (if Key(id, p) in additional then 1 else 0)
                                 + |NamesOf(path.files.Keys - names, Key(id, p))|
          decreases |names|
        {
          var name :| name in names;
          ghost var done := path.files.Keys - names;
          names := names - {name};
          assert path.files.Keys - names == done + {name};
          var k := KeyOfName(name);
          forall p: Bytes ensures |NamesOf(done + {name}, Key(id, p))| ==
                                  |NamesOf(done, Key(id, p))| + if k == Some(Key(id, p)) then 1 else 0 {
            OneMoreName(done, name, Key(id, p));
          }
          if k.Some? && k.value.id == id {
            keys := keys + [k.value.public];
          }
        }
        assert path.files.Keys - {} == path.files.Keys;
      }
    }
  }

  lemma OneMoreName(done: set<string>, name: string, k: Key)
    requires name !in done
    ensures |NamesOf(done + {name}, k)| == |NamesOf(done, k)| + if KeyOfName(name) == Some(k) then 1 else 0
  {
    hide KeyOfName;
    assert NamesOf(done + {name}, k) == NamesOf(done, k) + if KeyOfName(name) == Some(k) then {name} else {};
  }
}
