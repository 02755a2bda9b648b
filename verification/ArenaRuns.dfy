/** What holds in every state an arena can reach
    (crates/dag-ml-data-core/src/buffer.rs). */
module ArenaRuns {
  import opened Arena
  import opened FeatureBuffer
  import opened FeatureStore
  import opened Fingerprint
  import opened Projection
  import opened Words
  import opened Wrappers

  datatype LastBind = LastBind(relations: RelationSet, representation: Text)

  /** The last bind of `h` that took effect and was not released since. */
  ghost function Latest(ops: seq<Op>, h: U64): Option<LastBind> {
    if ops == [] then None
    else
      match ops[|ops| - 1]
      case Bind(handle, relations, representation) =>
        if handle == h && RelationsValid(relations) then Some(LastBind(relations, representation))
        else Latest(ops[..|ops| - 1], h)
      case Release(target) => if target == h then None else Latest(ops[..|ops| - 1], h)
  }

  /** After any run, what a handle holds is decided by its latest effective bind alone. */
  lemma {:induction false} RunIsLatest(host: Host, store: Store, ops: seq<Op>, h: U64)
    requires StoreReady(host, store)
    ensures h in Run(host, store, ops) <==> Latest(ops, h).Some?
    ensures Latest(ops, h).Some? ==>
      && RelationsValid(Latest(ops, h).value.relations)
      && Run(host, store, ops)[h]
         == BindingsFor(host, store, Latest(ops, h).value.relations.records, Latest(ops, h).value.representation)
  {
    hide RelationsValid, BindingsFor, StoreReady;
    if ops != [] {
      RunIsLatest(host, store, ops[..|ops| - 1], h);
    }
  }

  ghost predicate Rebinds(op: Op, h: U64) {
    op.Bind? && op.handle == h && RelationsValid(op.relations)
  }

  /** Once released, a handle stays unbound, and every projection through it fails, until
      a bind of that handle takes effect. */
  lemma {:induction false} ReleasedUntilRebound(host: Host, store: Store, before: seq<Op>, h: U64, after: seq<Op>,
                                                featureSetId: Text, view: RelationSet, source: Option<Text>)
    requires StoreReady(host, store)
    requires forall i :: 0 <= i < |after| ==> !Rebinds(after[i], h)
    ensures !HandleBound(Run(host, store, before + [Release(h)] + after), h, featureSetId, view, source)
    decreases |after|
  {
    var ops := before + [Release(h)] + after;
    LatestAfterRelease(before, h, after);
    RunIsLatest(host, store, ops, h);
  }

  lemma {:induction false} LatestAfterRelease(before: seq<Op>, h: U64, after: seq<Op>)
    requires forall i :: 0 <= i < |after| ==> !Rebinds(after[i], h)
    ensures Latest(before + [Release(h)] + after, h).None?
    decreases |after|
  {
    var ops := before + [Release(h)] + after;
    if after == [] {
      assert ops[|ops| - 1] == Release(h);
    } else {
      var front := after[..|after| - 1];
      assert ops[..|ops| - 1] == before + [Release(h)] + front;
      assert ops[|ops| - 1] == after[|after| - 1];
      assert !Rebinds(after[|after| - 1], h);
      LatestAfterRelease(before, h, front);
    }
  }

  // ----- a bound view finds its rows -----

  /** Records without a source among the visible ones all have rows. */
  ghost predicate SourcelessFound(b: Buffer, kept: seq<Relation>) {
    forall k :: 0 <= k < |kept| && kept[k].sourceId.None? ==> Contains(b, kept[k])
  }

  /** When a source filter is given, every record has a source, or nothing bound had one. */
  ghost predicate SourcesSettled(bound: seq<Relation>, view: seq<Relation>, source: Option<Text>) {
    || source.Some?
    || (forall k :: 0 <= k < |view| ==> view[k].sourceId.Some?)
    || Sources(bound) == {}
  }

  lemma BoundCovers(b: Buffer, records: seq<Relation>, s: Text)
    requires BoundSources(b, records).Some? && s in BoundSources(b, records).value
    ensures Covers(b, records, s)
  {
    assert s in CoveredOf(b, records, SourceOrder(records));
  }

  lemma SourceListed(records: seq<Relation>, r: Relation)
    requires r in records && r.sourceId.Some?
    ensures r.sourceId.value in Sources(records)
  {}

  /** A visible record with a source has a row, because the binding covers that source. */
  lemma SourcedRecordFound(b: Buffer, bound: seq<Relation>, view: seq<Relation>, source: Option<Text>, r: Relation)
    requires BoundSources(b, bound).Some?
    requires forall x :: x in view ==> x in bound
    requires r in Filter(view, source) && r.sourceId.Some?
    requires forall s :: s in Sources(view) && (source.Some? ==> s == source.value) ==>
      s in BoundSources(b, bound).value
    ensures Contains(b, r)
  {
    hide BoundSources, Sources;
    SourceListed(view, r);
    BoundCovers(b, bound, r.sourceId.value);
    assert r in bound;
    var i :| 0 <= i < |bound| && bound[i] == r;
  }

  /** In every reachable state, for a view whose records are among those bound to the handle:
      if the source check passes, the projection finds all rows exactly when the visible
      records without a source have rows. */
  lemma BoundViewFindsRows(host: Host, store: Store, ops: seq<Op>, h: U64, featureSetId: Text,
                           view: RelationSet, source: Option<Text>)
    requires StoreReady(host, store) && Latest(ops, h).Some?
    requires HandleBound(Run(host, store, ops), h, featureSetId, view, source)
    requires forall r :: r in view.records ==> r in Latest(ops, h).value.relations.records
    ensures featureSetId in store
    ensures RowsFound(store[featureSetId], Filter(view.records, source))
      <==> SourcelessFound(store[featureSetId], Filter(view.records, source))
    ensures SourcesSettled(Latest(ops, h).value.relations.records, view.records, source) ==>
      RowsFound(store[featureSetId], Filter(view.records, source))
  {
    hide BindingFor, BoundSources, BufferValid, RelationsValid, Filter, Run, Latest, BufferLengthsFit;
    RunIsLatest(host, store, ops, h);
    var bound := Latest(ops, h).value.relations.records;
    var b := store[featureSetId];
    var kept := Filter(view.records, source);
    BindingNamed(host, b, bound);
    forall k | 0 <= k < |kept| && kept[k].sourceId.Some?
      ensures Contains(b, kept[k])
    {
      SourcedRecordFound(b, bound, view.records, source, kept[k]);
    }
    if SourcesSettled(bound, view.records, source) {
      forall k | 0 <= k < |kept| && kept[k].sourceId.None?
        ensures Contains(b, kept[k])
      {
        assert kept[k] in kept;
        SourcelessBound(b, bound, kept[k]);
      }
    }
  }

  lemma SourcelessBound(b: Buffer, bound: seq<Relation>, r: Relation)
    requires BoundSources(b, bound).Some? && r in bound
    requires Sources(bound) == {}
    ensures Contains(b, r)
  {
    assert CoversAll(b, bound);
  }

  /** So a bound projection succeeds exactly when its columns exist, under that condition. */
  lemma BoundProjectionSucceeds(host: Host, store: Store, ops: seq<Op>, h: U64, featureSetId: Text,
                                view: RelationSet, source: Option<Text>, columns: Option<seq<Text>>)
    requires StoreReady(host, store) && Latest(ops, h).Some?
    requires HandleBound(Run(host, store, ops), h, featureSetId, view, source)
    requires forall r :: r in view.records ==> r in Latest(ops, h).value.relations.records
    requires SourcesSettled(Latest(ops, h).value.relations.records, view.records, source)
    ensures featureSetId in store
    ensures Projectable(host, store[featureSetId], view, source, columns)
      <==> ColumnsValid(store[featureSetId], columns)
  {
    BoundViewFindsRows(host, store, ops, h, featureSetId, view, source);
  }

  /** Why the condition is needed: a buffer without a row for a sourceless record is bound
      all the same once it covers some source, and the check then lets the view through. */
  lemma SourcelessRecordSlipsThrough(host: Host, store: Store, featureSetId: Text, s: Text, r1: Relation, r2: Relation)
    requires StoreReady(host, store) && featureSetId in store
    requires r1.sourceId == Some(s) && Contains(store[featureSetId], r1)
    requires r2.sourceId.None? && !Contains(store[featureSetId], r2)
    ensures
      var rs := RelationSet([r1, r2], true);
      var bindings := BindingsFor(host, store, rs.records, store[featureSetId].representationId);
      && RelationsValid(rs)
      && SourcesBound(bindings, featureSetId, rs, None)
      && !RowsFound(store[featureSetId], Filter(rs.records, None))
  {
    hide BufferValid, BufferLengthsFit;
    var b := store[featureSetId];
    var records := [r1, r2];
    assert r1.observationId != r2.observationId;
    SourceListed(records, records[0]);
    assert Sources(records) == {s};
    assert Covers(b, records, s);
    TextOrder();
    assert s in SourceOrder(records);
    assert s in CoveredOf(b, records, SourceOrder(records));
    assert records[1] in Filter(records, None);
  }
}
