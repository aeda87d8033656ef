/** The portable type registry that directs the codec. */
module TypeRegistry {
  import opened Wrappers
  import opened ByteStrings
  import opened BitPacking

  type TypeId = nat

  /** Bytes of a fixed-width integer type. */
  type IntWidth = w: nat | w == 1 || w == 2 || w == 4 || w == 8 || w == 16 witness 1

  datatype PrimitiveKind =
    | BoolType
    | CharType
    | StrType
    | UnsignedType(width: IntWidth)
    | SignedType(width: IntWidth)
    | U256Type
    | I256Type

  datatype Field = Field(name: Option<string>, ty: TypeId)

  datatype VariantKind = VariantKind(name: string, index: Byte, fields: seq<Field>)

  datatype TypeDef =
    | CompositeType(fields: seq<Field>)
    | VariantType(variants: seq<VariantKind>)
    | SequenceType(elem: TypeId)
    | ArrayType(len: nat, elem: TypeId)
    | TupleType(types: seq<TypeId>)
    | PrimitiveType(kind: PrimitiveKind)
    | CompactType(param: TypeId)
    | BitSequenceType(store: TypeId, order: TypeId)

  datatype TypeInfo = TypeInfo(path: seq<string>, def: TypeDef)

  /** The types whose encodings follow directly, without any byte of the type itself. */
  function Inline(def: TypeDef): seq<TypeId> {
    match def
    case CompositeType(fields) => FieldTypes(fields)
    case TupleType(ids) => ids
    case ArrayType(len, elem) => if len == 0 then [] else [elem]
    case _ => []
  }

  function FieldTypes(fields: seq<Field>): (ids: seq<TypeId>)
    ensures |ids| == |fields|
  {
    seq(|fields|, i requires 0 <= i < |fields| => fields[i].ty)
  }

  /** `n` times the same type: the elements of a sequence or an array. */
  function Repeat(id: TypeId, n: nat): (ids: seq<TypeId>)
    ensures |ids| == n && (forall i :: i in ids ==> i == id)
  {
    seq(n, _ => id)
  }

  ghost predicate IsRank(types: seq<TypeInfo>, rank: seq<nat>) {
    && |rank| == |types|
    && forall id, sub ::
        0 <= id < |types| && sub in Inline(types[id].def) && sub < |types| ==> rank[sub] < rank[id]
  }

  /**
   Types can be ranked by how deep they are nested inline: none contains itself (`AcyclicExactly`). A type
   that does has no finite value. On some of these the interpreters recurse for ever (a struct whose only
   field is itself), on others they stop with an error at the end of the input or of the value.
   */
  ghost predicate Acyclic(types: seq<TypeInfo>) {
    exists rank :: IsRank(types, rank)
  }

  type Registry = types: seq<TypeInfo> | Acyclic(types) ghost witness EmptyRegistry()

  ghost function EmptyRegistry(): (types: seq<TypeInfo>)
    ensures Acyclic(types)
  {
    assert IsRank([], []);
    []
  }

  /** How deep types are nested inline below `id`; zero for an id that does not resolve. */
  ghost function Rank(types: Registry, id: TypeId): nat {
    var rank :| IsRank(types, rank);
    if id < |types| then 1 + rank[id] else 0
  }

  ghost function RankAll(types: Registry, ids: seq<TypeId>): (r: nat)
    ensures forall i :: i in ids ==> Rank(types, i) <= r
  {
    if ids == [] then 0
    else
      var first, others := Rank(types, ids[0]), RankAll(types, ids[1..]);
      if first > others then first else others
  }

  lemma InlineRank(types: Registry, id: TypeId, sub: TypeId)
    requires id < |types| && sub in Inline(types[id].def)
    ensures Rank(types, sub) < Rank(types, id)
  {
  }

  lemma FieldRank(types: Registry, id: TypeId, k: nat)
    requires id < |types| && types[id].def.CompositeType? && k < |types[id].def.fields|
    ensures Rank(types, types[id].def.fields[k].ty) < Rank(types, id)
  {
    assert FieldTypes(types[id].def.fields)[k] == types[id].def.fields[k].ty;
  }

  lemma {:induction false} InlineRankAll(types: Registry, id: TypeId, ids: seq<TypeId>)
    requires id < |types| && forall i :: i in ids ==> i in Inline(types[id].def)
    ensures RankAll(types, ids) < Rank(types, id)
  {
    if ids != [] {
      InlineRank(types, id, ids[0]);
      InlineRankAll(types, id, ids[1..]);
    }
  }

  // ----- which registries are meant

  /** Each type of the path contains the next one inline. */
  ghost predicate InlinePath(types: seq<TypeInfo>, path: seq<TypeId>) {
    && (forall i :: 0 <= i < |path| ==> path[i] < |types|)
    && forall i :: 0 < i < |path| ==> path[i] in Inline(types[path[i - 1]].def)
  }

  ghost predicate Cycle(types: seq<TypeInfo>, path: seq<TypeId>) {
    InlinePath(types, path) && |path| > 1 && path[0] == path[|path| - 1]
  }

  /** The registries meant are those without a type that contains itself inline, directly or through others. */
  lemma AcyclicExactly(types: seq<TypeInfo>)
    ensures Acyclic(types) <==> !exists path :: Cycle(types, path)
  {
    if path :| Cycle(types, path) {
      CyclesExcluded(types, path);
    } else {
      var rank := seq(|types|, i requires 0 <= i < |types| => |Below(types, i)|);
      forall id, sub | 0 <= id < |types| && sub in Inline(types[id].def) && sub < |types|
        ensures rank[sub] < rank[id]
      {
        FewerBelow(types, id, sub);
      }
      assert IsRank(types, rank);
    }
  }

  /** A path of at least one step inside the registry. */
  ghost predicate Leads(types: seq<TypeInfo>, path: seq<TypeId>, id: TypeId, below: TypeId) {
    InlinePath(types, path) && |path| > 1 && path[0] == id && path[|path| - 1] == below
  }

  /** The types nested inline in a type, at any depth. */
  ghost function Below(types: seq<TypeInfo>, id: TypeId): set<TypeId> {
    set below | 0 <= below < |types| && NestedIn(types, id, below)
  }

  ghost predicate NestedIn(types: seq<TypeInfo>, id: TypeId, below: TypeId) {
    exists path :: Leads(types, path, id, below)
  }

  lemma FewerBelow(types: seq<TypeInfo>, id: TypeId, sub: TypeId)
    requires !exists path :: Cycle(types, path)
    requires id < |types| && sub < |types| && sub in Inline(types[id].def)
    ensures |Below(types, sub)| < |Below(types, id)|
  {
    hide Inline;
    assert Leads(types, [id, sub], id, sub);
    assert sub !in Below(types, sub) by {
      if path :| Leads(types, path, sub, sub) {
        assert Cycle(types, path);
      }
    }
    forall below | below in Below(types, sub)
      ensures below in Below(types, id)
    {
      var path :| Leads(types, path, sub, below);
      assert Leads(types, [id] + path, id, below);
    }
    SmallerSet(Below(types, sub), Below(types, id), sub);
  }

  lemma SmallerSet<A>(small: set<A>, large: set<A>, x: A)
    requires small <= large && x in large && x !in small
    ensures |small| < |large|
  {
    assert small <= large - {x};
    FewerElements(small, large - {x});
  }

  lemma FewerElements<A>(small: set<A>, large: set<A>)
    requires small <= large
    ensures |small| <= |large|
  {
    assert large == small + (large - small);
  }

  lemma CyclesExcluded(types: seq<TypeInfo>, path: seq<TypeId>)
    requires Cycle(types, path)
    ensures !Acyclic(types)
  {
    if rank :| IsRank(types, rank) {
      RanksFall(types, rank, path);
    }
  }

  lemma {:induction false} RanksFall(types: seq<TypeInfo>, rank: seq<nat>, path: seq<TypeId>)
    requires IsRank(types, rank) && InlinePath(types, path) && |path| > 1
    ensures rank[path[|path| - 1]] < rank[path[0]]
  {
    var n := |path| - 1;
    assert path[n] in Inline(types[path[n - 1]].def);
    if n > 1 {
      var shorter := path[..n];
      forall i | 0 < i < |shorter| ensures shorter[i] in Inline(types[shorter[i - 1]].def) {
        assert path[i] in Inline(types[path[i - 1]].def);
      }
      RanksFall(types, rank, shorter);
    }
  }

  /** Recursive types are in: what is behind a length or a variant index, or in an empty array, may lead back. */
  lemma RecursiveTypesMeant(name: string, index: Byte)
    ensures var tree := TypeInfo([], VariantType([VariantKind(name, index, [Field(None, 1), Field(None, 0)])]));
            var trees := TypeInfo([], SequenceType(0));
            var empty := TypeInfo([], ArrayType(0, 2));
            Acyclic([tree, trees, empty])
  {
    var tree := TypeInfo([], VariantType([VariantKind(name, index, [Field(None, 1), Field(None, 0)])]));
    var trees := TypeInfo([], SequenceType(0));
    var empty := TypeInfo([], ArrayType(0, 2));
    assert IsRank([tree, trees, empty], [0, 0, 0]);
  }

  // ----- what makes a registry describe Rust types

  /** Are the fields named? Encoding looks at the first field only. */
  predicate FirstNamed(fields: seq<Field>)
    requires fields != []
  {
    fields[0].name.Some?
  }

  /** Are the fields named? Decoding looks for any name. */
  predicate AnyNamed(fields: seq<Field>) {
    exists i :: 0 <= i < |fields| && fields[i].name.Some?
  }

  ghost predicate AllNamed(fields: seq<Field>) {
    forall i :: 0 <= i < |fields| ==> fields[i].name.Some?
  }

  ghost predicate DistinctNames(fields: seq<Field>) {
    forall i, j :: 0 <= i < j < |fields| ==> fields[i].name != fields[j].name
  }

  ghost predicate UniformFields(fields: seq<Field>) {
    (AllNamed(fields) && DistinctNames(fields)) || !AnyNamed(fields)
  }

  ghost predicate DistinctVariants(variants: seq<VariantKind>) {
    forall i, j :: 0 <= i < j < |variants| ==>
      variants[i].name != variants[j].name && variants[i].index != variants[j].index
  }

  ghost predicate WellFormedDef(def: TypeDef) {
    match def
    case CompositeType(fields) => UniformFields(fields)
    case VariantType(variants) =>
      && DistinctVariants(variants)
      && forall i :: 0 <= i < |variants| ==> UniformFields(variants[i].fields)
    case _ => true
  }

  ghost predicate WellFormed(types: Registry) {
    forall id :: 0 <= id < |types| ==> WellFormedDef(types[id].def)
  }

  // ----- lookups

  function FindName(variants: seq<VariantKind>, name: string): (r: Option<VariantKind>)
    ensures r.Some? ==> r.value in variants && r.value.name == name
    ensures r.None? ==> forall v :: v in variants ==> v.name != name
  {
    if variants == [] then None
    else if variants[0].name == name then Some(variants[0])
    else FindName(variants[1..], name)
  }

  function FindIndex(variants: seq<VariantKind>, index: Byte): (r: Option<VariantKind>)
    ensures r.Some? ==> r.value in variants && r.value.index == index
    ensures r.None? ==> forall v :: v in variants ==> v.index != index
  {
    if variants == [] then None
    else if variants[0].index == index then Some(variants[0])
    else FindIndex(variants[1..], index)
  }

  /** Names and indexes select the same variants. */
  lemma VariantLookups(variants: seq<VariantKind>, v: VariantKind)
    requires DistinctVariants(variants) && v in variants
    ensures FindName(variants, v.name) == Some(v) && FindIndex(variants, v.index) == Some(v)
  {
  }

  /** The store width and bit order of a bit sequence type. */
  function BitDetails(types: Registry, store: TypeId, order: TypeId): Option<(StoreBytes, BitOrder)> {
    if store >= |types| || order >= |types| || types[order].path == [] then
      None
    else
      var path := types[order].path;
      var w :- StoreWidth(types[store].def);
      var o :- OrderNamed(path[|path| - 1]);
      Some((w, o))
  }

  function StoreWidth(def: TypeDef): Option<StoreBytes> {
    match def
    case PrimitiveType(UnsignedType(w)) => if w == 16 then None else Some(w)
    case _ => None
  }

  function OrderNamed(ident: string): Option<BitOrder> {
    if ident == "Lsb0" then Some(Lsb0) else if ident == "Msb0" then Some(Msb0) else None
  }
}
