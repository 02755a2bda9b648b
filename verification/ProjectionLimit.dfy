/** What the reservation of the typed projection does where a machine word has 32 bits
    (crates/dag-ml-data-core/src/buffer.rs). */
module ProjectionLimit {
  import opened FeatureBuffer
  import opened Projection
  import opened RowMajorLimit
  import opened Sequences
  import opened Words
  import opened Wrappers

  const SIDE: nat := 16_384

  const SOURCE := Letters(1, 0)

  /** One observation of many features. */
  function OneRow(): (b: Buffer)
    ensures |b.featureNames| == SIDE
  {
    Buffer(Letters(1, 0), Letters(1, 0), WideNames()[..SIDE], [Letters(4, 0)], seq(SIDE, _ => [Some(ZERO)]),
           map[Letters(4, 0) := 0])
  }

  function RecordAt(i: nat): Relation {
    Relation(Letters(4, i), Letters(4, i), if i == 0 then Some(SOURCE) else None)
  }

  /** As many records as there are features, of which only the first has the source. */
  function Records(): (records: seq<Relation>)
    ensures |records| == SIDE
  {
    seq(SIDE, i requires 0 <= i < SIDE => RecordAt(i))
  }

  lemma RecordsValid()
    ensures RelationsValid(RelationSet(Records(), true))
  {
    NamesDistinct();
    var ids := ObservationIds(Records());
    forall i, j | 0 <= i < j < SIDE
      ensures ids[i] != ids[j]
    {
      assert WideNames()[i] != WideNames()[j];
    }
  }

  lemma OneRowValid(host: Host)
    requires LettersShow(host)
    ensures BufferValid(host, OneRow())
  {
    NamesDistinct();
  }

  lemma OneRecordKept(kept: seq<Relation>)
    requires kept == Filter(Records(), Some(SOURCE))
    ensures forall k :: 0 <= k < |kept| ==> kept[k] == RecordAt(0)
  {
    forall k | 0 <= k < |kept|
      ensures kept[k] == RecordAt(0)
    {
      assert kept[k] in kept && kept[k] in Records();
    }
  }

  lemma FirstRecordShown(indices: seq<nat>)
    requires forall j :: 0 <= j < |indices| ==> indices[j] < SIDE
    ensures Bounded(OneRow(), indices, RecordAt(0)) && NoneMasked(Cells(OneRow(), indices, RecordAt(0)))
  {
    hide Letters, WideNames;
  }

  lemma TooManyCells(host: Host, b: Buffer, rs: RelationSet)
    requires host.usizeMax == U32_MAX && RelationsValid(rs) && BufferValid(host, b)
    requires |rs.records| == SIDE && |b.featureNames| == SIDE
    ensures TypedTraps(host, b, rs, None)
  {
    hide RelationsValid, BufferValid;
  }

  lemma OneKind(host: Host, b: Buffer, rs: RelationSet, source: Option<Text>, record: Relation, indices: seq<nat>)
    requires RelationsValid(rs) && BufferValid(host, b) && Selects(b, None, indices)
    requires forall k :: 0 <= k < |Filter(rs.records, source)| ==> Filter(rs.records, source)[k] == record
    requires Bounded(b, indices, record) && NoneMasked(Cells(b, indices, record))
    ensures TypedProjectable(host, b, rs, source, None)
  {
    hide RelationsValid, BufferValid, Filter, Selects, NoneMasked, Cells;
    assert NothingMasked(b, indices, Filter(rs.records, source));
  }

  /** With 32-bit words a projection that would return a single row stops the program. */
  lemma WideProjectionTraps(host: Host)
    requires host.usizeMax == U32_MAX && LettersShow(host)
    ensures TypedTraps(host, OneRow(), RelationSet(Records(), true), None)
    ensures TypedProjectable(host, OneRow(), RelationSet(Records(), true), Some(SOURCE), None)
  {
    RecordsValid();
    OneRowValid(host);
    var indices: seq<nat> := seq(SIDE, i => i);
    FirstRecordShown(indices);
    OneRecordKept(Filter(Records(), Some(SOURCE)));
    hide OneRow, Records, RecordAt, Letters, RelationsValid, BufferValid, Filter, Bounded, Cells, NoneMasked,
         LettersShow;
    TooManyCells(host, OneRow(), RelationSet(Records(), true));
    OneKind(host, OneRow(), RelationSet(Records(), true), Some(SOURCE), RecordAt(0), indices);
  }
}
