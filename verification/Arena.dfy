/** Binding feature buffers to data handles and projecting through the bindings
    (crates/dag-ml-data-core/src/buffer.rs). */
module Arena {
  import opened FeatureBuffer
  import opened FeatureStore
  import opened Fingerprint
  import opened Ordering
  import opened Projection
  import opened Words
  import opened Wrappers

  datatype Binding = Binding(
    featureSetId: Text,
    representationId: Text,
    sourceIds: seq<Text>,
    rowCount: nat,
    featureCount: nat,
    fingerprint: string)

  type Bindings = map<Text, Binding>

  /** All bindings of an arena, by data handle. */
  type Handles = map<U64, Bindings>

  ghost predicate StoreReady(host: Host, store: Store) {
    StoreValid(host, store) && forall id :: id in store ==> BufferLengthsFit(store[id])
  }

  // ----- which buffers a set of records binds -----

  function Sources(records: seq<Relation>): set<Text> {
    set r | r in records && r.sourceId.Some? :: r.sourceId.value
  }

  predicate Contains(b: Buffer, record: Relation) {
    record.observationId in b.rowIndex
  }

  predicate CoversAll(b: Buffer, records: seq<Relation>) {
    forall i :: 0 <= i < |records| ==> Contains(b, records[i])
  }

  /** `b` has a row for every record of `source`. */
  predicate Covers(b: Buffer, records: seq<Relation>, source: Text) {
    forall i :: 0 <= i < |records| && records[i].sourceId == Some(source) ==> Contains(b, records[i])
  }

  function CoveredOf(b: Buffer, records: seq<Relation>, sources: seq<Text>): (covered: seq<Text>)
    ensures forall s :: s in covered <==> s in sources && Covers(b, records, s)
  {
    if sources == [] then []
    else
      var last := sources[|sources| - 1];
      assert sources == sources[..|sources| - 1] + [last];
      CoveredOf(b, records, sources[..|sources| - 1]) + if Covers(b, records, last) then [last] else []
  }

  ghost function SourceOrder(records: seq<Relation>): seq<Text> {
    TextOrder();
    KeyOrder(TextLess, Sources(records))
  }

  ghost function Bound(host: Host, b: Buffer, sourceIds: seq<Text>): Binding
    requires BufferValid(host, b)
  {
    Binding(b.featureSetId, b.representationId, sourceIds, |b.observationIds|, |b.featureNames|,
            FingerprintOf(host, b).value)
  }

  /** The sources a buffer is bound for, if it is bound at all. */
  ghost function BoundSources(b: Buffer, records: seq<Relation>): Option<seq<Text>> {
    if Sources(records) == {} then
      if CoversAll(b, records) then Some([]) else None
    else
      var covered := CoveredOf(b, records, SourceOrder(records));
      if covered != [] then Some(covered) else None
  }

  ghost function BindingFor(host: Host, b: Buffer, records: seq<Relation>): Option<Binding>
    requires BufferValid(host, b)
  {
    match BoundSources(b, records)
    case None => None
    case Some(sources) => Some(Bound(host, b, sources))
  }

  ghost predicate Binds(host: Host, store: Store, records: seq<Relation>, representation: Text, id: Text)
    requires StoreReady(host, store)
  {
    id in store && store[id].representationId == representation && BindingFor(host, store[id], records).Some?
  }

  ghost function BindingsFor(host: Host, store: Store, records: seq<Relation>, representation: Text): Bindings
    requires StoreReady(host, store)
  {
    map id | id in store && Binds(host, store, records, representation, id) ::
      BindingFor(host, store[id], records).value
  }

  method BindBuffer(host: Host, b: Buffer, records: seq<Relation>, sources: seq<Text>) returns (r: Option<Binding>)
    requires BufferValid(host, b) && BufferLengthsFit(b) && sources == SourceOrder(records)
    ensures r == BindingFor(host, b, records)
  {
    hide FingerprintOf, BufferValid, CoveredOf, SourceOrder, CoversAll;
    NoSources(records);
    var fingerprint := Compute(host, b);
    ValidFingerprint(host, b);
    if sources == [] {
      return if CoversAll(b, records)
        then Some(Binding(b.featureSetId, b.representationId, [], |b.observationIds|, |b.featureNames|,
                          fingerprint.value))
        else None;
    }
    var covered := CoveredSources(b, records, sources);
    return if covered != []
      then Some(Binding(b.featureSetId, b.representationId, covered, |b.observationIds|, |b.featureNames|,
                        fingerprint.value))
      else None;
  }

  lemma ValidFingerprint(host: Host, b: Buffer)
    requires BufferValid(host, b)
    ensures FingerprintOf(host, b).Ok?
  {}

  lemma NoSources(records: seq<Relation>)
    ensures SourceOrder(records) == [] <==> Sources(records) == {}
  {
    TextOrder();
    assert SourceOrder(records) != [] ==> SourceOrder(records)[0] in SourceOrder(records);
  }

  method CoveredSources(b: Buffer, records: seq<Relation>, sources: seq<Text>) returns (covered: seq<Text>)
    ensures covered == CoveredOf(b, records, sources)
  {
    covered := [];
    for i := 0 to |sources|
      invariant covered == CoveredOf(b, records, sources[..i])
    {
      assert sources[..i + 1][..i] == sources[..i];
      if Covers(b, records, sources[i]) {
        covered := covered + [sources[i]];
      }
    }
    assert sources[..|sources|] == sources;
  }

  function AsMap(bindings: seq<Binding>): Bindings {
    if bindings == [] then map[]
    else
      var last := bindings[|bindings| - 1];
      AsMap(bindings[..|bindings| - 1])[last.featureSetId := last]
  }

  /** `bindings_for_relations`: one binding per buffer that covers a source. */
  method BindingsForRelations(host: Host, store: Store, rs: RelationSet, representation: Text)
    returns (r: Result<seq<Binding>>)
    requires StoreReady(host, store)
    ensures r.Ok? <==> RelationsValid(rs)
    ensures r.Ok? ==> AsMap(r.value) == BindingsFor(host, store, rs.records, representation)
    ensures r.Ok? ==> InKeyOrder(r.value)
  {
    hide StoreReady, RelationsValid, BindingsFor, SourceOrder, InKeyOrder, AsMap;
    var relationsOk := ValidateRelations(rs);
    if !relationsOk {
      return ValidationError;
    }
    var sources := OrderedSources(rs.records);
    var bindings := BindStore(host, store, rs.records, representation, sources);
    return Ok(bindings);
  }

  /** The loop over the buffers. */
  method BindStore(host: Host, store: Store, records: seq<Relation>, representation: Text, sources: seq<Text>)
    returns (bindings: seq<Binding>)
    requires StoreReady(host, store) && sources == SourceOrder(records)
    ensures AsMap(bindings) == BindingsFor(host, store, records, representation) && InKeyOrder(bindings)
  {
    bindings := [];
    assert InKeyOrder([]);
    hide StoreReady, BoundSoFar, BindingsFor, SourceOrder, InKeyOrder, TextLess, AsMap;
    var keys := StoreKeys(store);
    assert keys[..0] == [];
    NothingBound(host, store, records, representation);
    for i := 0 to |keys|
      invariant BoundSoFar(host, store, records, representation, keys[..i], AsMap(bindings))
      invariant Ordered(bindings, keys[..i])
    {
      bindings := BindNext(host, store, records, representation, sources, keys, i, bindings);
    }
    assert keys[..|keys|] == keys;
    AllBound(host, store, records, representation, keys, AsMap(bindings));
  }

  /** The body of that loop. */
  method BindNext(host: Host, store: Store, records: seq<Relation>, representation: Text, sources: seq<Text>,
                  keys: seq<Text>, i: nat, bindings: seq<Binding>)
    returns (more: seq<Binding>)
    requires StoreReady(host, store) && sources == SourceOrder(records)
    requires i < |keys| && keys[i] in store && StrictlyAscending(TextLess, keys)
    requires BoundSoFar(host, store, records, representation, keys[..i], AsMap(bindings))
    requires Ordered(bindings, keys[..i])
    ensures BoundSoFar(host, store, records, representation, keys[..i + 1], AsMap(more))
    ensures Ordered(more, keys[..i + 1])
  {
    hide BindingFor, StoreReady, BoundSoFar, SourceOrder, Ordered, StrictlyAscending, TextLess, AsMap;
    var key := keys[i];
    assert keys[..i + 1] == keys[..i] + [key];
    var binding := BindKey(host, store, key, records, representation, sources);
    BindOne(host, store, records, representation, keys[..i], key, AsMap(bindings), binding);
    OrderedNext(bindings, keys, i, binding);
    more := bindings;
    if binding.Some? {
      AsMapPush(bindings, binding.value);
      more := bindings + [binding.value];
    }
  }

  method BindKey(host: Host, store: Store, key: Text, records: seq<Relation>, representation: Text,
                 sources: seq<Text>)
    returns (binding: Option<Binding>)
    requires StoreReady(host, store) && key in store && sources == SourceOrder(records)
    ensures BufferValid(host, store[key])
    ensures binding == if store[key].representationId == representation
                       then BindingFor(host, store[key], records) else None
  {
    hide BindingFor, BufferValid, SourceOrder;
    binding := None;
    if store[key].representationId == representation {
      binding := BindBuffer(host, store[key], records, sources);
    }
  }

  method OrderedSources(records: seq<Relation>) returns (sources: seq<Text>)
    ensures sources == SourceOrder(records)
  {
    TextOrder();
    sources := KeysInOrder(TextLess, Sources(records));
  }

  /** Ascending feature-set ids, hence one entry for each. */
  ghost predicate InKeyOrder(bindings: seq<Binding>) {
    forall i, j :: 0 <= i < j < |bindings| ==> TextLess(bindings[i].featureSetId, bindings[j].featureSetId)
  }

  ghost predicate Ordered(bindings: seq<Binding>, done: seq<Text>) {
    InKeyOrder(bindings) && forall k :: 0 <= k < |bindings| ==> bindings[k].featureSetId in done
  }

  lemma OrderedNext(bindings: seq<Binding>, keys: seq<Text>, i: nat, binding: Option<Binding>)
    requires i < |keys| && StrictlyAscending(TextLess, keys) && Ordered(bindings, keys[..i])
    requires binding.Some? ==> binding.value.featureSetId == keys[i]
    ensures Ordered(if binding.Some? then bindings + [binding.value] else bindings, keys[..i + 1])
  {
    hide TextLess;
    assert forall key :: key in keys[..i] ==> key in keys[..i + 1] && TextLess(key, keys[i]);
    assert keys[i] in keys[..i + 1];
  }

  lemma AsMapPush(bindings: seq<Binding>, b: Binding)
    ensures AsMap(bindings + [b]) == AsMap(bindings)[b.featureSetId := b]
  {
    assert (bindings + [b])[..|bindings|] == bindings;
  }

  lemma {:induction false} AsMapEntries(bindings: seq<Binding>)
    requires InKeyOrder(bindings)
    ensures forall b :: b in bindings <==> b.featureSetId in AsMap(bindings) && AsMap(bindings)[b.featureSetId] == b
    ensures forall id :: id in AsMap(bindings) ==> AsMap(bindings)[id].featureSetId == id
  {
    if bindings != [] {
      var front, last := bindings[..|bindings| - 1], bindings[|bindings| - 1];
      AsMapEntries(front);
      assert bindings == front + [last];
      TextOrder();
      forall b | b in front
        ensures b.featureSetId != last.featureSetId
      {
        var i :| 0 <= i < |front| && front[i] == b;
        assert TextLess(bindings[i].featureSetId, last.featureSetId);
      }
    }
  }

  /** In key order there is only one list of the same bindings. */
  lemma BindingListUnique(a: seq<Binding>, b: seq<Binding>)
    requires InKeyOrder(a) && InKeyOrder(b) && AsMap(a) == AsMap(b)
    ensures a == b
  {
    AsMapEntries(a);
    AsMapEntries(b);
    TextOrder();
    AscendingUnique(BindingLess, a, b);
  }

  predicate BindingLess(a: Binding, b: Binding) { TextLess(a.featureSetId, b.featureSetId) }

  lemma NothingBound(host: Host, store: Store, records: seq<Relation>, representation: Text)
    requires StoreReady(host, store)
    ensures BoundSoFar(host, store, records, representation, [], AsMap([]))
  {}

  lemma BindOne(host: Host, store: Store, records: seq<Relation>, representation: Text,
                done: seq<Text>, key: Text, bound: Bindings, binding: Option<Binding>)
    requires StoreReady(host, store) && key in store
    requires BoundSoFar(host, store, records, representation, done, bound)
    requires binding == if store[key].representationId == representation
                        then BindingFor(host, store[key], records) else None
    ensures binding.Some? ==> binding.value.featureSetId == key
    ensures BoundSoFar(host, store, records, representation, done + [key],
                       if binding.Some? then bound[key := binding.value] else bound)
  {
    hide BindingFor, BufferValid, BufferLengthsFit;
    if binding.Some? { BindingNamed(host, store[key], records); }
    var bound' := if binding.Some? then bound[key := binding.value] else bound;
    forall id
      ensures id in bound' <==> id in done + [key] && Binds(host, store, records, representation, id)
    {
      assert id in done + [key] <==> id in done || id == key;
    }
  }

  lemma AllBound(host: Host, store: Store, records: seq<Relation>, representation: Text, keys: seq<Text>,
                 bound: Bindings)
    requires StoreReady(host, store) && forall id :: id in store <==> id in keys
    requires BoundSoFar(host, store, records, representation, keys, bound)
    ensures bound == BindingsFor(host, store, records, representation)
  {
    hide BindingFor, BufferValid;
  }

  ghost predicate BoundSoFar(host: Host, store: Store, records: seq<Relation>, representation: Text,
                             done: seq<Text>, bound: Bindings)
    requires StoreReady(host, store)
  {
    && (forall id :: id in bound <==> id in done && Binds(host, store, records, representation, id))
    && (forall id :: id in bound ==> bound[id] == BindingFor(host, store[id], records).value)
  }

  lemma BindingNamed(host: Host, b: Buffer, records: seq<Relation>)
    requires BufferValid(host, b) && BindingFor(host, b, records).Some?
    ensures BindingFor(host, b, records).value.featureSetId == b.featureSetId
    ensures BoundSources(b, records) == Some(BindingFor(host, b, records).value.sourceIds)
  {
    hide BufferValid, BoundSources;
  }

  method StoreKeys(store: Store) returns (keys: seq<Text>)
    ensures (forall i :: 0 <= i < |keys| ==> keys[i] in store) && forall id :: id in store <==> id in keys
    ensures StrictlyAscending(TextLess, keys)
  {
    TextOrder();
    keys := KeysInOrder(TextLess, store.Keys);
    assert forall i :: 0 <= i < |keys| ==> keys[i] in keys;
  }

  // ----- the source check in front of a bound projection -----

  ghost predicate SourcesBound(bindings: Bindings, featureSetId: Text, view: RelationSet, source: Option<Text>) {
    && RelationsValid(view)
    && featureSetId in bindings
    && (source.Some? ==> source.value in Sources(view.records))
    && (forall s :: s in Sources(view.records) && (source.Some? ==> s == source.value) ==>
          s in bindings[featureSetId].sourceIds)
  }

  ghost predicate HandleBound(handles: Handles, handle: U64, featureSetId: Text, view: RelationSet,
                              source: Option<Text>)
  {
    handle in handles && SourcesBound(handles[handle], featureSetId, view, source)
  }

  // ----- bindings, in the fields of buffers and records -----

  /** A source is covered if the buffer has a row for each of its records. */
  lemma CoveredInFields(host: Host, b: Buffer, records: seq<Relation>, source: Text)
    requires BufferValid(host, b)
    ensures source in Sources(records) && Covers(b, records, source) <==>
      && (exists i :: 0 <= i < |records| && records[i].sourceId == Some(source))
      && (forall i :: 0 <= i < |records| && records[i].sourceId == Some(source) ==>
            records[i].observationId in b.observationIds)
  {
    hide BufferValid, Sources;
    RowsListed(host, b);
    SourceNamed(records, source);
  }

  /** What a binding says about its buffer and the records it was made for. */
  lemma BindingInFields(host: Host, b: Buffer, records: seq<Relation>)
    requires BufferValid(host, b) && BindingFor(host, b, records).Some?
    ensures
      var binding := BindingFor(host, b, records).value;
      && binding.featureSetId == b.featureSetId && binding.representationId == b.representationId
      && binding.rowCount == |b.observationIds| && binding.featureCount == |b.featureNames|
      && FingerprintOf(host, b) == Ok(binding.fingerprint)
      && (forall s :: s in binding.sourceIds <==>
            && (exists i :: 0 <= i < |records| && records[i].sourceId == Some(s))
            && (forall i :: 0 <= i < |records| && records[i].sourceId == Some(s) ==>
                  records[i].observationId in b.observationIds))
      && (forall i, j :: 0 <= i < j < |binding.sourceIds| ==> TextLess(binding.sourceIds[i], binding.sourceIds[j]))
  {
    hide CoveredOf, FingerprintOf, BufferValid, SourceOrder, Covers, TextLess;
    ValidFingerprint(host, b);
    SourceMembers(records);
    var sources := SourceOrder(records);
    forall i, j | 0 <= i < j < |CoveredOf(b, records, sources)|
      ensures TextLess(CoveredOf(b, records, sources)[i], CoveredOf(b, records, sources)[j])
    {
      CoveredAscends(b, records, sources, i, j);
    }
    forall s
      ensures s in Sources(records) && Covers(b, records, s) <==>
        && (exists i :: 0 <= i < |records| && records[i].sourceId == Some(s))
        && (forall i :: 0 <= i < |records| && records[i].sourceId == Some(s) ==>
              records[i].observationId in b.observationIds)
    {
      CoveredInFields(host, b, records, s);
    }
  }

  lemma SourceMembers(records: seq<Relation>)
    ensures forall s :: s in SourceOrder(records) <==> s in Sources(records)
    ensures StrictlyAscending(TextLess, SourceOrder(records))
  {
    TextOrder();
  }

  lemma UnsourcedInFields(records: seq<Relation>)
    ensures Sources(records) == {} <==> forall i :: 0 <= i < |records| ==> records[i].sourceId.None?
  {
    if s :| s in Sources(records) {
      SourceNamed(records, s);
    }
    forall i | 0 <= i < |records| && records[i].sourceId.Some?
      ensures Sources(records) != {}
    {
      SourceNamed(records, records[i].sourceId.value);
    }
  }

  lemma AnyCovered(host: Host, b: Buffer, records: seq<Relation>)
    requires BufferValid(host, b)
    ensures CoveredOf(b, records, SourceOrder(records)) != [] <==>
      exists i :: 0 <= i < |records| && records[i].sourceId.Some? &&
        forall k :: 0 <= k < |records| && records[k].sourceId == records[i].sourceId ==>
          records[k].observationId in b.observationIds
  {
    hide CoveredOf, SourceOrder, Covers, BufferValid, Sources;
    SourceMembers(records);
    var covered := CoveredOf(b, records, SourceOrder(records));
    if covered != [] {
      assert covered[0] in covered;
      CoveredInFields(host, b, records, covered[0]);
    } else {
      forall i | 0 <= i < |records| && records[i].sourceId.Some?
        ensures exists k :: 0 <= k < |records| && records[k].sourceId == records[i].sourceId
                  && records[k].observationId !in b.observationIds
      {
        CoveredInFields(host, b, records, records[i].sourceId.value);
      }
    }
  }

  lemma SourcedBinding(host: Host, b: Buffer, records: seq<Relation>)
    requires BufferValid(host, b) && Sources(records) != {}
    ensures BindingFor(host, b, records).Some? <==> CoveredOf(b, records, SourceOrder(records)) != []
  {
    hide CoveredOf, FingerprintOf, SourceOrder, BufferValid;
  }

  /** When records that name sources bind a buffer: if it covers one of these sources. */
  lemma BoundInFields(host: Host, b: Buffer, records: seq<Relation>)
    requires BufferValid(host, b) && exists i :: 0 <= i < |records| && records[i].sourceId.Some?
    ensures BindingFor(host, b, records).Some? <==>
      exists i :: 0 <= i < |records| && records[i].sourceId.Some? &&
        forall k :: 0 <= k < |records| && records[k].sourceId == records[i].sourceId ==>
          records[k].observationId in b.observationIds
  {
    hide BindingFor, CoveredOf, SourceOrder, BufferValid, Sources;
    AnyCovered(host, b, records);
    UnsourcedInFields(records);
    SourcedBinding(host, b, records);
  }

  /** When records without sources bind a buffer: if it has a row for each of them. */
  lemma UnsourcedBoundInFields(host: Host, b: Buffer, records: seq<Relation>)
    requires BufferValid(host, b) && forall i :: 0 <= i < |records| ==> records[i].sourceId.None?
    ensures BindingFor(host, b, records).Some? <==>
      forall i :: 0 <= i < |records| ==> records[i].observationId in b.observationIds
  {
    RowsListed(host, b);
    UnsourcedInFields(records);
    hide CoveredOf, FingerprintOf, SourceOrder, BufferValid, Sources;
  }

  lemma {:induction false} CoveredAscends(b: Buffer, records: seq<Relation>, sources: seq<Text>, i: nat, j: nat)
    requires StrictlyAscending(TextLess, sources)
    requires i < j < |CoveredOf(b, records, sources)|
    ensures TextLess(CoveredOf(b, records, sources)[i], CoveredOf(b, records, sources)[j])
  {
    hide TextLess, Covers;
    if sources != [] {
      var front, last := sources[..|sources| - 1], sources[|sources| - 1];
      var covered := CoveredOf(b, records, front);
      if j < |covered| {
        CoveredAscends(b, records, front, i, j);
      } else {
        assert covered[i] in covered && covered[i] in front;
        var p :| 0 <= p < |front| && front[p] == covered[i];
        assert sources[p] == covered[i];
      }
    }
  }

  /** The list of bindings holds those of the store's buffers in this representation, and no other,
      in ascending order of their ids. */
  lemma BindingsInFields(host: Host, store: Store, records: seq<Relation>, representation: Text,
                         bindings: seq<Binding>)
    requires StoreReady(host, store) && InKeyOrder(bindings)
    requires AsMap(bindings) == BindingsFor(host, store, records, representation)
    ensures forall i, j :: 0 <= i < j < |bindings| ==> TextLess(bindings[i].featureSetId, bindings[j].featureSetId)
    ensures forall k :: 0 <= k < |bindings| ==>
      var id := bindings[k].featureSetId;
      && id in store && store[id].representationId == representation
      && BindingFor(host, store[id], records) == Some(bindings[k])
    ensures forall id ::
      id in store && store[id].representationId == representation && BindingFor(host, store[id], records).Some?
      ==> BindingFor(host, store[id], records).value in bindings
  {
    hide BindingFor, BufferValid, TextLess, AsMap;
    AsMapEntries(bindings);
    forall id | id in store && store[id].representationId == representation
                && BindingFor(host, store[id], records).Some?
      ensures BindingFor(host, store[id], records).value in bindings
    {
      BindingNamed(host, store[id], records);
      assert Binds(host, store, records, representation, id);
    }
    forall k | 0 <= k < |bindings|
      ensures var id := bindings[k].featureSetId;
        && id in store && store[id].representationId == representation
        && BindingFor(host, store[id], records) == Some(bindings[k])
    {
      assert bindings[k] in bindings;
    }
  }

  /** What the source check asks for. */
  lemma HandleBoundInFields(handles: Handles, handle: U64, featureSetId: Text, view: RelationSet, source: Option<Text>)
    ensures HandleBound(handles, handle, featureSetId, view, source) <==>
      && view.records != [] && view.unitsOk
      && (forall i, j :: 0 <= i < j < |view.records| ==>
            view.records[i].observationId != view.records[j].observationId)
      && handle in handles && featureSetId in handles[handle]
      && (source.Some? ==> exists i :: 0 <= i < |view.records| && view.records[i].sourceId == source)
      && (forall i :: 0 <= i < |view.records| && view.records[i].sourceId.Some?
              && (source.Some? ==> view.records[i].sourceId == source)
            ==> view.records[i].sourceId.value in handles[handle][featureSetId].sourceIds)
  {
    RelationsInFields(view);
    hide RelationsValid;
    forall s
      ensures s in Sources(view.records) <==>
        exists i :: 0 <= i < |view.records| && view.records[i].sourceId == Some(s)
    {
      SourceNamed(view.records, s);
    }
  }

  lemma SourceNamed(records: seq<Relation>, source: Text)
    ensures source in Sources(records) <==> exists i :: 0 <= i < |records| && records[i].sourceId == Some(source)
  {
    if source in Sources(records) {
      var record :| record in records && record.sourceId == Some(source);
      var i :| 0 <= i < |records| && records[i] == record;
    }
    if i :| 0 <= i < |records| && records[i].sourceId == Some(source) {
      assert records[i] in records;
    }
  }

  // ----- the arena -----

  datatype Op = Bind(handle: U64, relations: RelationSet, representation: Text) | Release(target: U64)

  /** One call: a bind replaces the handle's bindings if its relations are valid, a release
      drops them. */
  ghost function Step(host: Host, store: Store, handles: Handles, op: Op): Handles
    requires StoreReady(host, store)
  {
    match op
    case Bind(h, relations, representation) =>
      if RelationsValid(relations)
      then handles[h := BindingsFor(host, store, relations.records, representation)] else handles
    case Release(h) => handles - {h}
  }

  ghost function Run(host: Host, store: Store, ops: seq<Op>): Handles
    requires StoreReady(host, store)
  {
    if ops == [] then map[] else Step(host, store, Run(host, store, ops[..|ops| - 1]), ops[|ops| - 1])
  }

  class FeatureArena {
    const host: Host
    const store: Store
    var dataBindings: Handles
    /** Every bind and release so far. */
    ghost var history: seq<Op>

    ghost predicate Valid()
      reads this
    {
      StoreReady(host, store) && dataBindings == Run(host, store, history)
    }

    constructor (host: Host, store: Store)
      requires StoreReady(host, store)
      ensures Valid() && history == [] && dataBindings == map[] && this.host == host && this.store == store
    {
      this.host, this.store := host, store;
      dataBindings, history := map[], [];
    }

    method BindDataHandle(handle: U64, relations: RelationSet, representation: Text) returns (r: Result<seq<Binding>>)
      requires Valid()
      modifies this
      ensures Valid() && history == old(history) + [Bind(handle, relations, representation)]
      ensures r.Ok? <==> RelationsValid(relations)
      ensures r.Ok? ==> dataBindings == old(dataBindings)[handle := AsMap(r.value)]
      ensures r.Ok? ==> AsMap(r.value) == BindingsFor(host, store, relations.records, representation)
      ensures r.Ok? ==> InKeyOrder(r.value)
      ensures !r.Ok? ==> dataBindings == old(dataBindings)
    {
      hide BindingsFor, RelationsValid, StoreReady;
      r := BindingsForRelations(host, store, relations, representation);
      if r.Ok? {
        dataBindings := dataBindings[handle := AsMap(r.value)];
      }
      history := history + [Bind(handle, relations, representation)];
      assert history[..|history| - 1] == old(history);
    }

    method ReleaseDataHandle(handle: U64) returns (released: bool)
      requires Valid()
      modifies this
      ensures Valid() && history == old(history) + [Release(handle)]
      ensures released <==> handle in old(dataBindings)
      ensures dataBindings == old(dataBindings) - {handle}
    {
      released := handle in dataBindings;
      dataBindings := dataBindings - {handle};
      history := history + [Release(handle)];
      assert history[..|history| - 1] == old(history);
    }

    method ValidateBoundSources(handle: U64, featureSetId: Text, view: RelationSet, source: Option<Text>)
      returns (ok: bool)
      requires Valid()
      ensures ok <==> HandleBound(dataBindings, handle, featureSetId, view, source)
    {
      var relationsOk := ValidateRelations(view);
      if !relationsOk || handle !in dataBindings || featureSetId !in dataBindings[handle] {
        return false;
      }
      var binding := dataBindings[handle][featureSetId];
      var viewSources := Sources(view.records);
      if source.Some? && source.value !in viewSources {
        return false;
      }
      var required := if source.Some? then {source.value} else viewSources;
      var remaining := required;
      while remaining != {}
        invariant remaining <= required && forall s :: s in required && s !in remaining ==> s in binding.sourceIds
        decreases remaining
      {
        var s :| s in remaining;
        remaining := remaining - {s};
        if s !in binding.sourceIds {
          return false;
        }
      }
      return true;
    }

    method ProjectBoundRelations(handle: U64, featureSetId: Text, view: RelationSet, source: Option<Text>,
                                 columns: Option<seq<Text>>)
      returns (r: Result<Block>)
      requires Valid()
      ensures r.Ok? <==>
        && HandleBound(dataBindings, handle, featureSetId, view, source)
        && featureSetId in store
        && Projectable(host, store[featureSetId], view, source, columns)
      ensures r.Ok? ==> exists indices ::
        && Selects(store[featureSetId], columns, indices)
        && IsBoxed(store[featureSetId], indices, Filter(view.records, source), r.value)
    {
      var ok := ValidateBoundSources(handle, featureSetId, view, source);
      if !ok || featureSetId !in store {
        return ValidationError;
      }
      r := ProjectRelations(host, store[featureSetId], view, source, columns);
    }

    method ProjectBoundRelationsF64(handle: U64, featureSetId: Text, view: RelationSet, source: Option<Text>,
                                    columns: Option<seq<Text>>)
      returns (outcome: Outcome<BlockF64>)
      requires Valid()
      ensures outcome.Trapped? <==>
        && HandleBound(dataBindings, handle, featureSetId, view, source)
        && featureSetId in store
        && TypedTraps(host, store[featureSetId], view, columns)
      ensures outcome.Returned? ==> (outcome.result.Ok? <==>
        && HandleBound(dataBindings, handle, featureSetId, view, source)
        && featureSetId in store
        && TypedProjectable(host, store[featureSetId], view, source, columns))
      ensures outcome.Returned? && outcome.result.Ok? ==> exists indices ::
        && Selects(store[featureSetId], columns, indices)
        && IsTyped(store[featureSetId], indices, Filter(view.records, source), outcome.result.value)
    {
      hide TypedTraps, TypedProjectable, HandleBound, IsTyped, Selects;
      var ok := ValidateBoundSources(handle, featureSetId, view, source);
      if !ok || featureSetId !in store {
        return Returned(ValidationError);
      }
      outcome := ProjectRelationsF64(host, store[featureSetId], view, source, columns);
    }
  }
}
