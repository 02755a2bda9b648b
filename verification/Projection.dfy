/** Projections of a feature buffer onto the records of a view
    (crates/dag-ml-data-core/src/buffer.rs). */
module Projection {
  import opened FeatureBuffer
  import opened Sequences
  import opened Words
  import opened Wrappers

  /** One coordinator record, as far as projections read it. */
  datatype Relation = Relation(observationId: Text, sampleId: Text, sourceId: Option<Text>)

  /** `unitsOk` stands for the checks on units, weights and combos that read other fields. */
  datatype RelationSet = RelationSet(records: seq<Relation>, unitsOk: bool)

  datatype Block = Block(
    featureSetId: Text,
    representationId: Text,
    featureNames: seq<Text>,
    observationIds: seq<Text>,
    sampleIds: seq<Text>,
    values: seq<seq<Json>>)

  datatype BlockF64 = BlockF64(
    featureSetId: Text,
    representationId: Text,
    featureNames: seq<Text>,
    observationIds: seq<Text>,
    sampleIds: seq<Text>,
    values: seq<F64>)

  function ObservationIds(records: seq<Relation>): seq<Text> {
    seq(|records|, i requires 0 <= i < |records| => records[i].observationId)
  }

  function SampleIds(records: seq<Relation>): seq<Text> {
    seq(|records|, i requires 0 <= i < |records| => records[i].sampleId)
  }

  ghost predicate RelationsValid(rs: RelationSet) {
    rs.records != [] && Distinct(ObservationIds(rs.records)) && rs.unitsOk
  }

  method ValidateRelations(rs: RelationSet) returns (ok: bool)
    ensures ok <==> RelationsValid(rs)
  {
    if rs.records == [] || !rs.unitsOk {
      return false;
    }
    ok := AllDistinct(ObservationIds(rs.records));
  }

  // ----- which columns and rows are selected -----

  ghost predicate ColumnsValid(b: Buffer, columns: Option<seq<Text>>) {
    columns.Some? ==>
      && columns.value != []
      && Distinct(columns.value)
      && forall i :: 0 <= i < |columns.value| ==> columns.value[i] in b.featureNames
  }

  /** The feature positions a selection names, in the order it names them. */
  ghost predicate Selects(b: Buffer, columns: Option<seq<Text>>, indices: seq<nat>) {
    match columns
    case None => indices == seq(|b.featureNames|, i => i)
    case Some(names) =>
      && |indices| == |names|
      && forall i :: 0 <= i < |names| ==> indices[i] < |b.featureNames| && b.featureNames[indices[i]] == names[i]
  }

  lemma SelectsUnique(b: Buffer, columns: Option<seq<Text>>, i1: seq<nat>, i2: seq<nat>)
    requires Distinct(b.featureNames) && Selects(b, columns, i1) && Selects(b, columns, i2)
    ensures i1 == i2
  {}

  method SelectedIndices(host: Host, b: Buffer, columns: Option<seq<Text>>) returns (r: Result<seq<nat>>)
    ensures r.Ok? <==> BufferValid(host, b) && ColumnsValid(b, columns)
    ensures r.Ok? ==> Selects(b, columns, r.value) && forall j :: 0 <= j < |r.value| ==> r.value[j] < |b.featureNames|
  {
    hide BufferValid;
    var valid := Validate(host, b);
    if !valid {
      return ValidationError;
    }
    if columns.None? {
      return Ok(seq(|b.featureNames|, i => i));
    }
    var names := columns.value;
    var indexByName := IndexOf(b.featureNames);
    IndexOfKeys(b.featureNames);
    var seen: set<Text> := {};
    var indices: seq<nat> := [];
    for i := 0 to |names|
      invariant forall x :: x in seen <==> x in names[..i]
      invariant Distinct(names[..i])
      invariant |indices| == i
      invariant forall k :: 0 <= k < i ==>
        names[k] in b.featureNames && indices[k] < |b.featureNames| && b.featureNames[indices[k]] == names[k]
    {
      assert names[i] in seen ==> exists k :: 0 <= k < i && names[k] == names[i];
      if names[i] in seen || names[i] !in indexByName {
        return ValidationError;
      }
      assert names[..i + 1] == names[..i] + [names[i]];
      seen := seen + {names[i]};
      indices := indices + [indexByName[names[i]]];
    }
    assert names[..|names|] == names;
    if indices == [] {
      return ValidationError;
    }
    return Ok(indices);
  }

  predicate Visible(record: Relation, source: Option<Text>) {
    source.Some? ==> record.sourceId == source
  }

  /** The records a source filter lets through, in order. */
  function Filter(records: seq<Relation>, source: Option<Text>): (kept: seq<Relation>)
    ensures forall x :: x in kept <==> x in records && Visible(x, source)
  {
    if records == [] then []
    else
      var last := records[|records| - 1];
      assert records == records[..|records| - 1] + [last];
      Filter(records[..|records| - 1], source) + if Visible(last, source) then [last] else []
  }

  lemma FilterPush(records: seq<Relation>, i: nat, source: Option<Text>)
    requires i < |records|
    ensures Filter(records[..i + 1], source) ==
            Filter(records[..i], source) + if Visible(records[i], source) then [records[i]] else []
  {
    assert records[..i + 1][..i] == records[..i];
  }

  ghost predicate RowsFound(b: Buffer, kept: seq<Relation>) {
    forall k :: 0 <= k < |kept| ==> kept[k].observationId in b.rowIndex
  }

  // ----- the cells of a record -----

  ghost predicate Bounded(b: Buffer, indices: seq<nat>, record: Relation) {
    && record.observationId in b.rowIndex
    && forall j :: 0 <= j < |indices| ==>
         indices[j] < |b.columns| && b.rowIndex[record.observationId] < |b.columns[indices[j]]|
  }

  ghost predicate AllBounded(b: Buffer, indices: seq<nat>, kept: seq<Relation>) {
    forall k :: 0 <= k < |kept| ==> Bounded(b, indices, kept[k])
  }

  /** The selected cells of the record's row. */
  function Cells(b: Buffer, indices: seq<nat>, record: Relation): seq<Option<F64>>
    requires Bounded(b, indices, record)
  {
    seq(|indices|, j requires 0 <= j < |indices| => b.columns[indices[j]][b.rowIndex[record.observationId]])
  }

  predicate NoneMasked(cells: seq<Option<F64>>) {
    forall j :: 0 <= j < |cells| ==> cells[j].Some?
  }

  lemma ValidBounded(host: Host, b: Buffer, columns: Option<seq<Text>>, indices: seq<nat>, record: Relation)
    requires BufferValid(host, b) && Selects(b, columns, indices) && record.observationId in b.rowIndex
    ensures Bounded(b, indices, record)
  {
    IndexOfUnique(b.observationIds, b.rowIndex);
    IndexOfKeys(b.observationIds);
  }

  // ----- the boxed projection -----

  /** A JSON number cannot carry a NaN or an infinity. */
  function Boxed(cell: Option<F64>): Json {
    match cell
    case Some(v) => if IsFinite(v) then Number(Some(v)) else Null
    case None => Null
  }

  function BoxedRow(cells: seq<Option<F64>>): seq<Json> {
    seq(|cells|, j requires 0 <= j < |cells| => Boxed(cells[j]))
  }

  ghost function BoxedRows(b: Buffer, indices: seq<nat>, kept: seq<Relation>): seq<seq<Json>>
    requires AllBounded(b, indices, kept)
  {
    seq(|kept|, k requires 0 <= k < |kept| => BoxedRow(Cells(b, indices, kept[k])))
  }

  function Names(b: Buffer, indices: seq<nat>): seq<Text>
    requires forall j :: 0 <= j < |indices| ==> indices[j] < |b.featureNames|
  {
    seq(|indices|, j requires 0 <= j < |indices| => b.featureNames[indices[j]])
  }

  ghost predicate IsBoxed(b: Buffer, indices: seq<nat>, kept: seq<Relation>, block: Block) {
    && AllBounded(b, indices, kept)
    && (forall j :: 0 <= j < |indices| ==> indices[j] < |b.featureNames|)
    && block == Block(b.featureSetId, b.representationId, Names(b, indices), ObservationIds(kept), SampleIds(kept),
                      BoxedRows(b, indices, kept))
  }

  ghost predicate Projectable(host: Host, b: Buffer, rs: RelationSet, source: Option<Text>,
                              columns: Option<seq<Text>>)
  {
    RelationsValid(rs) && BufferValid(host, b) && ColumnsValid(b, columns) && RowsFound(b, Filter(rs.records, source))
  }

  method ProjectRelations(host: Host, b: Buffer, rs: RelationSet, source: Option<Text>, columns: Option<seq<Text>>)
    returns (r: Result<Block>)
    ensures r.Ok? <==> Projectable(host, b, rs, source, columns)
    ensures r.Ok? ==> exists indices ::
      Selects(b, columns, indices) && IsBoxed(b, indices, Filter(rs.records, source), r.value)
    // every value stands under the name of its feature and beside the id of its observation
    ensures r.Ok? ==> |b.columns| == |b.featureNames|
    ensures r.Ok? ==> forall f :: 0 <= f < |b.columns| ==> |b.columns[f]| == |b.observationIds|
    ensures r.Ok? ==> |r.value.values| == |r.value.observationIds|
    ensures r.Ok? ==> forall k :: 0 <= k < |r.value.values| ==> |r.value.values[k]| == |r.value.featureNames|
    ensures r.Ok? ==> forall k, j, row, f ::
      && 0 <= k < |r.value.observationIds| && 0 <= j < |r.value.featureNames|
      && 0 <= row < |b.observationIds| && 0 <= f < |b.featureNames|
      && r.value.observationIds[k] == b.observationIds[row] && r.value.featureNames[j] == b.featureNames[f]
      ==> r.value.values[k][j] == Boxed(b.columns[f][row])
  {
    hide BufferValid, ColumnsValid, Selects, RelationsValid, BoxedRows, Filter;
    var relationsOk := ValidateRelations(rs);
    if !relationsOk {
      return ValidationError;
    }
    var selected := SelectedIndices(host, b, columns);
    if selected.ValidationError? {
      return ValidationError;
    }
    var indices := selected.value;
    var observations, samples, values := BoxedLoop(host, b, rs.records, source, columns, indices);
    if values.ValidationError? {
      return ValidationError;
    }
    r := Ok(Block(b.featureSetId, b.representationId, Names(b, indices), observations, samples, values.value));
    BoxedValues(host, b, indices, Filter(rs.records, source), r.value);
  }

  /** The loop over the visible records. */
  method BoxedLoop(host: Host, b: Buffer, records: seq<Relation>, source: Option<Text>,
                   ghost columns: Option<seq<Text>>,
                   indices: seq<nat>)
    returns (observations: seq<Text>, samples: seq<Text>, values: Result<seq<seq<Json>>>)
    requires BufferValid(host, b) && Selects(b, columns, indices)
    ensures values.Ok? <==> RowsFound(b, Filter(records, source))
    ensures values.Ok? ==>
      var kept := Filter(records, source);
      && AllBounded(b, indices, kept)
      && observations == ObservationIds(kept) && samples == SampleIds(kept)
      && values.value == BoxedRows(b, indices, kept)
  {
    hide BufferValid, Selects, Cells, BoxedRow, Filter, BoxedRows, ObservationIds, SampleIds;
    observations, samples := [], [];
    var rows: seq<seq<Json>> := [];
    ghost var kept: seq<Relation> := [];
    NothingKept(b, indices, records, source);
    for i := 0 to |records|
      invariant kept == Filter(records[..i], source) && AllBounded(b, indices, kept)
      invariant observations == ObservationIds(kept) && samples == SampleIds(kept)
      invariant rows == BoxedRows(b, indices, kept)
    {
      FilterPush(records, i, source);
      var record := records[i];
      if Visible(record, source) {
        assert record in Filter(records, source);
        if record.observationId !in b.rowIndex {
          return observations, samples, ValidationError;
        }
        ValidBounded(host, b, columns, indices, record);
        KeepOne(b, indices, kept, record);
        observations, samples := observations + [record.observationId], samples + [record.sampleId];
        rows := rows + [BoxedRow(Cells(b, indices, record))];
        kept := kept + [record];
      }
    }
    assert records[..|records|] == records;
    values := Ok(rows);
  }

  lemma NothingKept(b: Buffer, indices: seq<nat>, records: seq<Relation>, source: Option<Text>)
    ensures Filter(records[..0], source) == [] && ObservationIds([]) == [] && SampleIds([]) == []
    ensures BoxedRows(b, indices, []) == [] && TypedRows(b, indices, []) == [] && Flatten<F64>([]) == []
  {}

  lemma KeepOne(b: Buffer, indices: seq<nat>, kept: seq<Relation>, record: Relation)
    requires AllBounded(b, indices, kept) && Bounded(b, indices, record)
    ensures ObservationIds(kept + [record]) == ObservationIds(kept) + [record.observationId]
    ensures SampleIds(kept + [record]) == SampleIds(kept) + [record.sampleId]
    ensures BoxedRows(b, indices, kept + [record])
         == BoxedRows(b, indices, kept) + [BoxedRow(Cells(b, indices, record))]
    ensures TypedRows(b, indices, kept + [record]) == TypedRows(b, indices, kept) + [Values(Cells(b, indices, record))]
  {
    hide Cells, BoxedRow, Values;
  }

  // ----- the typed projection -----

  ghost predicate NothingMasked(b: Buffer, indices: seq<nat>, kept: seq<Relation>) {
    AllBounded(b, indices, kept) && forall k :: 0 <= k < |kept| ==> NoneMasked(Cells(b, indices, kept[k]))
  }

  ghost function TypedRows(b: Buffer, indices: seq<nat>, kept: seq<Relation>): seq<seq<F64>>
    requires AllBounded(b, indices, kept)
  {
    seq(|kept|, k requires 0 <= k < |kept| => Values(Cells(b, indices, kept[k])))
  }

  ghost predicate IsTyped(b: Buffer, indices: seq<nat>, kept: seq<Relation>, block: BlockF64) {
    && NothingMasked(b, indices, kept)
    && (forall j :: 0 <= j < |indices| ==> indices[j] < |b.featureNames|)
    && block == BlockF64(b.featureSetId, b.representationId, Names(b, indices), ObservationIds(kept), SampleIds(kept),
                         Flatten(TypedRows(b, indices, kept)))
  }

  /** How many columns a selection has. */
  function SelectedWidth(b: Buffer, columns: Option<seq<Text>>): nat {
    if columns.Some? then |columns.value| else |b.featureNames|
  }

  /** The calls that stop the program. Room is reserved for all records before the filter is
      applied, and the product of both counts, which wraps, can be more than one allocation
      may hold. */
  ghost predicate TypedTraps(host: Host, b: Buffer, rs: RelationSet, columns: Option<seq<Text>>) {
    && RelationsValid(rs) && BufferValid(host, b) && ColumnsValid(b, columns)
    && VALUE_BYTES * WrappedProduct(host, |rs.records|, SelectedWidth(b, columns)) > SignedMax(host.usizeMax)
  }

  /** What a caller can check to rule that out. */
  lemma SmallProjectionReturns(host: Host, b: Buffer, rs: RelationSet, columns: Option<seq<Text>>)
    requires VALUE_BYTES * (|rs.records| * SelectedWidth(b, columns)) <= SignedMax(host.usizeMax)
    ensures !TypedTraps(host, b, rs, columns)
  {
    SmallRemainder(|rs.records| * SelectedWidth(b, columns), host.usizeMax + 1);
  }

  ghost predicate TypedProjectable(host: Host, b: Buffer, rs: RelationSet, source: Option<Text>,
                                   columns: Option<seq<Text>>) {
    Projectable(host, b, rs, source, columns) &&
    exists indices :: Selects(b, columns, indices) && NothingMasked(b, indices, Filter(rs.records, source))
  }

  /** The row of one record, or an error at its first masked cell. */
  method TypedRow(b: Buffer, indices: seq<nat>, record: Relation) returns (r: Result<seq<F64>>)
    requires Bounded(b, indices, record)
    ensures r == if NoneMasked(Cells(b, indices, record))
                 then Ok(Values(Cells(b, indices, record))) else ValidationError
  {
    var row := b.rowIndex[record.observationId];
    var values: seq<F64> := [];
    for j := 0 to |indices|
      invariant values == Values(Cells(b, indices, record))[..j]
      invariant forall i :: 0 <= i < j ==> Cells(b, indices, record)[i].Some?
    {
      var cell := b.columns[indices[j]][row];
      assert cell == Cells(b, indices, record)[j];
      if cell.None? {
        return ValidationError;
      }
      values := values + [cell.value];
    }
    assert Values(Cells(b, indices, record))[..|indices|] == Values(Cells(b, indices, record));
    return Ok(values);
  }

  method ProjectRelationsF64(host: Host, b: Buffer, rs: RelationSet, source: Option<Text>, columns: Option<seq<Text>>)
    returns (outcome: Outcome<BlockF64>)
    ensures outcome.Trapped? <==> TypedTraps(host, b, rs, columns)
    ensures outcome.Returned? ==> (outcome.result.Ok? <==> TypedProjectable(host, b, rs, source, columns))
    ensures outcome.Returned? && outcome.result.Ok? ==> exists indices ::
      Selects(b, columns, indices) && IsTyped(b, indices, Filter(rs.records, source), outcome.result.value)
  {
    hide BufferValid, ColumnsValid, Selects, RelationsValid, TypedRows, NothingMasked, Filter, Flatten, WrappedProduct;
    var relationsOk := ValidateRelations(rs);
    if !relationsOk {
      return Returned(ValidationError);
    }
    var selected := SelectedIndices(host, b, columns);
    if selected.ValidationError? {
      return Returned(ValidationError);
    }
    var indices := selected.value;
    SelectedCount(b, columns, indices);
    if VALUE_BYTES * WrappedProduct(host, |rs.records|, |indices|) > SignedMax(host.usizeMax) {
      return Trapped;
    }
    var observations, samples, values := TypedLoop(host, b, rs.records, source, columns, indices);
    if values.ValidationError? {
      forall other | Selects(b, columns, other)
        ensures other == indices
      {
        ValidNames(host, b);
        SelectsUnique(b, columns, indices, other);
      }
      return Returned(ValidationError);
    }
    UnmaskedRowsFound(b, indices, Filter(rs.records, source));
    var block := BlockF64(b.featureSetId, b.representationId, Names(b, indices), observations, samples, values.value);
    return Returned(Ok(block));
  }

  lemma SelectedCount(b: Buffer, columns: Option<seq<Text>>, indices: seq<nat>)
    requires Selects(b, columns, indices)
    ensures |indices| == SelectedWidth(b, columns)
  {}

  lemma UnmaskedRowsFound(b: Buffer, indices: seq<nat>, kept: seq<Relation>)
    requires NothingMasked(b, indices, kept)
    ensures RowsFound(b, kept) && AllBounded(b, indices, kept)
  {}

  /** The loop over the visible records. */
  method TypedLoop(host: Host, b: Buffer, records: seq<Relation>, source: Option<Text>,
                   ghost columns: Option<seq<Text>>,
                   indices: seq<nat>)
    returns (observations: seq<Text>, samples: seq<Text>, values: Result<seq<F64>>)
    requires BufferValid(host, b) && Selects(b, columns, indices)
    ensures values.Ok? <==> NothingMasked(b, indices, Filter(records, source))
    ensures values.Ok? ==>
      var kept := Filter(records, source);
      && observations == ObservationIds(kept) && samples == SampleIds(kept)
      && values.value == Flatten(TypedRows(b, indices, kept))
  {
    hide BufferValid, Selects, Cells, Values, NoneMasked, Filter, TypedRows, ObservationIds, SampleIds, Flatten;
    observations, samples := [], [];
    var flat: seq<F64> := [];
    ghost var kept: seq<Relation> := [];
    NothingKept(b, indices, records, source);
    for i := 0 to |records|
      invariant kept == Filter(records[..i], source) && NothingMasked(b, indices, kept)
      invariant observations == ObservationIds(kept) && samples == SampleIds(kept)
      invariant flat == Flatten(TypedRows(b, indices, kept))
    {
      FilterPush(records, i, source);
      var record := records[i];
      if Visible(record, source) {
        assert record in Filter(records, source);
        if record.observationId !in b.rowIndex {
          return observations, samples, ValidationError;
        }
        ValidBounded(host, b, columns, indices, record);
        var row := TypedRow(b, indices, record);
        if row.ValidationError? {
          return observations, samples, ValidationError;
        }
        KeepOne(b, indices, kept, record);
        FlattenPush(TypedRows(b, indices, kept), row.value);
        flat := flat + row.value;
        observations, samples := observations + [record.observationId], samples + [record.sampleId];
        kept := kept + [record];
      }
    }
    assert records[..|records|] == records;
    values := Ok(flat);
  }

  // ----- the typed projection refines the boxed one -----

  function Unboxed(rows: seq<seq<Json>>): seq<seq<F64>> {
    seq(|rows|, k requires 0 <= k < |rows| => UnboxedRow(rows[k]))
  }

  function UnboxedRow(row: seq<Json>): seq<F64> {
    seq(|row|, j requires 0 <= j < |row| =>
      if row[j].Number? && row[j].asF64.Some? then row[j].asF64.value else ZERO)
  }

  ghost predicate NoNulls(rows: seq<seq<Json>>) {
    forall k, j :: 0 <= k < |rows| && 0 <= j < |rows[k]| ==> rows[k][j] != Null
  }

  lemma RowNullsAreMasks(cells: seq<Option<F64>>)
    requires forall j :: 0 <= j < |cells| && cells[j].Some? ==> IsFinite(cells[j].value)
    ensures NoneMasked(cells) <==> forall j :: 0 <= j < |cells| ==> BoxedRow(cells)[j] != Null
    ensures NoneMasked(cells) ==> UnboxedRow(BoxedRow(cells)) == Values(cells)
  {
    forall j | 0 <= j < |cells|
      ensures BoxedRow(cells)[j] == Null <==> cells[j].None?
    {
      assert BoxedRow(cells)[j] == Boxed(cells[j]);
    }
  }

  /** On the same arguments the typed projection succeeds exactly when the boxed one does
      and has no null in it, and then it is the boxed block with its rows laid end to end. */
  lemma TypedRefinesBoxed(host: Host, b: Buffer, rs: RelationSet, source: Option<Text>, columns: Option<seq<Text>>,
                          i1: seq<nat>, boxed: Block)
    requires PresentFinite(b.columns) && Projectable(host, b, rs, source, columns)
    requires Selects(b, columns, i1) && IsBoxed(b, i1, Filter(rs.records, source), boxed)
    ensures TypedProjectable(host, b, rs, source, columns) <==> NoNulls(boxed.values)
    ensures forall i2, typed :: Selects(b, columns, i2) && IsTyped(b, i2, Filter(rs.records, source), typed) ==>
      typed == BlockF64(boxed.featureSetId, boxed.representationId, boxed.featureNames, boxed.observationIds,
                        boxed.sampleIds, Flatten(Unboxed(boxed.values)))
  {
    hide ColumnsValid, RelationsValid, Flatten, Selects, PresentFinite, BufferValid;
    var kept := Filter(rs.records, source);
    NullsAreMasks(b, i1, kept);
    assert Distinct(b.featureNames) by { ValidNames(host, b); }
    forall i2 | Selects(b, columns, i2)
      ensures i1 == i2
    {
      SelectsUnique(b, columns, i1, i2);
    }
  }

  lemma ValidNames(host: Host, b: Buffer)
    requires BufferValid(host, b)
    ensures Distinct(b.featureNames)
  {}

  lemma NullsAreMasks(b: Buffer, indices: seq<nat>, kept: seq<Relation>)
    requires PresentFinite(b.columns) && AllBounded(b, indices, kept)
    ensures NothingMasked(b, indices, kept) <==> NoNulls(BoxedRows(b, indices, kept))
    ensures NothingMasked(b, indices, kept) ==> Unboxed(BoxedRows(b, indices, kept)) == TypedRows(b, indices, kept)
  {
    forall k | 0 <= k < |kept|
      ensures NoneMasked(Cells(b, indices, kept[k])) <==>
        forall j :: 0 <= j < |BoxedRows(b, indices, kept)[k]| ==> BoxedRows(b, indices, kept)[k][j] != Null
      ensures NoneMasked(Cells(b, indices, kept[k])) ==>
        UnboxedRow(BoxedRows(b, indices, kept)[k]) == Values(Cells(b, indices, kept[k]))
    {
      assert |BoxedRows(b, indices, kept)[k]| == |Cells(b, indices, kept[k])|;
      RowNullsAreMasks(Cells(b, indices, kept[k]));
    }
  }

  // ----- blocks, in the fields of buffers and records -----

  /** Where the visible records stand. */
  ghost function Positions(records: seq<Relation>, source: Option<Text>): (positions: seq<nat>)
    ensures forall k :: 0 <= k < |positions| ==>
      positions[k] < |records| && (source.Some? ==> records[positions[k]].sourceId == source)
    ensures forall k, l :: 0 <= k < l < |positions| ==> positions[k] < positions[l]
  {
    if records == [] then []
    else
      var n := |records| - 1;
      var front := Positions(records[..n], source);
      if Visible(records[n], source) then front + [n] else front
  }

  /** No visible record is left out. */
  lemma {:induction false} PositionKept(records: seq<Relation>, source: Option<Text>, i: nat)
    requires i < |records| && (source.Some? ==> records[i].sourceId == source)
    ensures i in Positions(records, source)
  {
    var n := |records| - 1;
    if i < n {
      PositionKept(records[..n], source, i);
    } else {
      assert (Positions(records[..n], source) + [n])[|Positions(records[..n], source)|] == n;
    }
  }

  /** The records are kept in their order. */
  lemma {:induction false} VisibleAt(records: seq<Relation>, source: Option<Text>, k: nat)
    requires k < |Positions(records, source)|
    ensures k < |Filter(records, source)| == |Positions(records, source)|
    ensures Filter(records, source)[k] == records[Positions(records, source)[k]]
  {
    var n := |records| - 1;
    SameCount(records[..n], source);
    if k < |Positions(records[..n], source)| {
      VisibleAt(records[..n], source, k);
    }
  }

  lemma {:induction false} SameCount(records: seq<Relation>, source: Option<Text>)
    ensures |Filter(records, source)| == |Positions(records, source)|
  {
    if records != [] { SameCount(records[..|records| - 1], source); }
  }

  /** The visible records are those at `positions`, in their order. */
  lemma VisibleInOrder(records: seq<Relation>, source: Option<Text>) returns (positions: seq<nat>)
    ensures |positions| == |Filter(records, source)|
    ensures forall k :: 0 <= k < |positions| ==>
      && positions[k] < |records|
      && Filter(records, source)[k] == records[positions[k]]
      && (source.Some? ==> records[positions[k]].sourceId == source)
    ensures forall k, l :: 0 <= k < l < |positions| ==> positions[k] < positions[l]
    ensures forall i :: 0 <= i < |records| && (source.Some? ==> records[i].sourceId == source) ==> i in positions
  {
    hide Filter, Positions;
    positions := Positions(records, source);
    SameCount(records, source);
    forall k | 0 <= k < |positions|
      ensures Filter(records, source)[k] == records[positions[k]]
    {
      VisibleAt(records, source, k);
    }
    forall i | 0 <= i < |records| && (source.Some? ==> records[i].sourceId == source)
      ensures i in positions
    {
      PositionKept(records, source, i);
    }
  }

  /** The names above the columns are those asked for, or all of them. */
  lemma NamesInFields(b: Buffer, columns: Option<seq<Text>>, indices: seq<nat>)
    requires Selects(b, columns, indices)
    ensures (forall j :: 0 <= j < |indices| ==> indices[j] < |b.featureNames|)
    ensures Names(b, indices) == if columns.Some? then columns.value else b.featureNames
  {}

  /** The rows of a boxed block are the visible records in their order, its names those asked for. */
  lemma BlockRows(b: Buffer, records: seq<Relation>, source: Option<Text>, columns: Option<seq<Text>>,
                  indices: seq<nat>, block: Block)
    returns (positions: seq<nat>)
    requires Selects(b, columns, indices) && IsBoxed(b, indices, Filter(records, source), block)
    ensures block.featureNames == if columns.Some? then columns.value else b.featureNames
    ensures |block.observationIds| == |block.sampleIds| == |positions|
    ensures forall k :: 0 <= k < |positions| ==>
      && positions[k] < |records|
      && block.observationIds[k] == records[positions[k]].observationId
      && block.sampleIds[k] == records[positions[k]].sampleId
      && (source.Some? ==> records[positions[k]].sourceId == source)
    ensures forall k, l :: 0 <= k < l < |positions| ==> positions[k] < positions[l]
    ensures forall i :: 0 <= i < |records| && (source.Some? ==> records[i].sourceId == source) ==> i in positions
  {
    NamesInFields(b, columns, indices);
    positions := VisibleInOrder(records, source);
    hide Selects, Filter, BoxedRows, Names;
  }

  /** So are those of a typed block. */
  lemma TypedBlockRows(b: Buffer, records: seq<Relation>, source: Option<Text>, columns: Option<seq<Text>>,
                       indices: seq<nat>, block: BlockF64)
    returns (positions: seq<nat>)
    requires Selects(b, columns, indices) && IsTyped(b, indices, Filter(records, source), block)
    ensures block.featureNames == if columns.Some? then columns.value else b.featureNames
    ensures |block.observationIds| == |block.sampleIds| == |positions|
    ensures forall k :: 0 <= k < |positions| ==>
      && positions[k] < |records|
      && block.observationIds[k] == records[positions[k]].observationId
      && block.sampleIds[k] == records[positions[k]].sampleId
      && (source.Some? ==> records[positions[k]].sourceId == source)
    ensures forall k, l :: 0 <= k < l < |positions| ==> positions[k] < positions[l]
    ensures forall i :: 0 <= i < |records| && (source.Some? ==> records[i].sourceId == source) ==> i in positions
  {
    NamesInFields(b, columns, indices);
    positions := VisibleInOrder(records, source);
    hide Selects, Filter, TypedRows, Names, NothingMasked, Flatten;
  }

  /** What a set of records has to satisfy. */
  lemma RelationsInFields(rs: RelationSet)
    ensures RelationsValid(rs) <==>
      && rs.records != [] && rs.unitsOk
      && forall i, j :: 0 <= i < j < |rs.records| ==> rs.records[i].observationId != rs.records[j].observationId
  {
    assert forall i :: 0 <= i < |rs.records| ==> ObservationIds(rs.records)[i] == rs.records[i].observationId;
  }

  /** What a projection accepts. */
  lemma ProjectableInFields(host: Host, b: Buffer, rs: RelationSet, source: Option<Text>, columns: Option<seq<Text>>)
    ensures Projectable(host, b, rs, source, columns) <==>
      && BufferValid(host, b)
      && rs.records != [] && rs.unitsOk
      && (forall i, j :: 0 <= i < j < |rs.records| ==> rs.records[i].observationId != rs.records[j].observationId)
      && (columns.Some? ==>
            && columns.value != []
            && (forall i, j :: 0 <= i < j < |columns.value| ==> columns.value[i] != columns.value[j])
            && (forall i :: 0 <= i < |columns.value| ==> columns.value[i] in b.featureNames))
      && (forall i :: 0 <= i < |rs.records| && (source.Some? ==> rs.records[i].sourceId == source) ==>
            rs.records[i].observationId in b.observationIds)
  {
    hide Filter;
    RelationsInFields(rs);
    if BufferValid(host, b) {
      RowsListed(host, b);
      hide BufferValid, RelationsValid;
      var kept := Filter(rs.records, source);
      forall i | 0 <= i < |rs.records| && (source.Some? ==> rs.records[i].sourceId == source)
        ensures exists k :: 0 <= k < |kept| && kept[k] == rs.records[i]
      {
        assert Visible(rs.records[i], source) && rs.records[i] in kept;
      }
      forall k | 0 <= k < |kept|
        ensures exists i :: 0 <= i < |rs.records| && rs.records[i] == kept[k]
                  && (source.Some? ==> rs.records[i].sourceId == source)
      {
        assert kept[k] in kept && Visible(kept[k], source);
      }
    }
  }

  lemma RowsListed(host: Host, b: Buffer)
    requires BufferValid(host, b)
    ensures forall x :: x in b.rowIndex <==> x in b.observationIds
  {
    IndexOfUnique(b.observationIds, b.rowIndex);
    IndexOfKeys(b.observationIds);
  }

  lemma SelectionExists(b: Buffer, columns: Option<seq<Text>>) returns (indices: seq<nat>)
    requires ColumnsValid(b, columns)
    ensures Selects(b, columns, indices)
  {
    indices := [];
    if columns.None? {
      indices := seq(|b.featureNames|, i => i);
    } else {
      for i := 0 to |columns.value|
        invariant |indices| == i
        invariant forall k :: 0 <= k < i ==>
          indices[k] < |b.featureNames| && b.featureNames[indices[k]] == columns.value[k]
      {
        assert columns.value[i] in b.featureNames;
        var f :| 0 <= f < |b.featureNames| && b.featureNames[f] == columns.value[i];
        indices := indices + [f];
      }
    }
  }

  /** Every visible record and selected feature have their cell in the block. */
  lemma CellShown(host: Host, b: Buffer, records: seq<Relation>, source: Option<Text>, columns: Option<seq<Text>>,
                  indices: seq<nat>, i: nat, row: nat, f: nat)
    returns (k: nat, j: nat)
    requires BufferValid(host, b) && Selects(b, columns, indices)
    requires AllBounded(b, indices, Filter(records, source))
    requires i < |records| && (source.Some? ==> records[i].sourceId == source)
    requires row < |b.observationIds| && b.observationIds[row] == records[i].observationId
    requires f < |b.featureNames| && (columns.Some? ==> b.featureNames[f] in columns.value)
    ensures k < |Filter(records, source)| && j < |indices| && f < |b.columns| && row < |b.columns[f]|
    ensures Bounded(b, indices, Filter(records, source)[k])
    ensures Cells(b, indices, Filter(records, source)[k])[j] == b.columns[f][row]
  {
    hide Filter;
    var kept := Filter(records, source);
    assert Visible(records[i], source) && records[i] in kept;
    k :| 0 <= k < |kept| && kept[k] == records[i];
    if columns.Some? {
      j :| 0 <= j < |columns.value| && columns.value[j] == b.featureNames[f];
    } else {
      j := f;
    }
    NamesInFields(b, columns, indices);
    assert Bounded(b, indices, kept[k]);
    Located(host, b, indices, kept, k, j, row, f);
  }

  /** Every cell of the block comes from a visible record and a selected feature. */
  lemma CellFrom(host: Host, b: Buffer, records: seq<Relation>, source: Option<Text>, columns: Option<seq<Text>>,
                 indices: seq<nat>, k: nat, j: nat)
    returns (i: nat, row: nat, f: nat)
    requires BufferValid(host, b) && Selects(b, columns, indices)
    requires AllBounded(b, indices, Filter(records, source))
    requires k < |Filter(records, source)| && j < |indices|
    ensures i < |records| && (source.Some? ==> records[i].sourceId == source)
    ensures row < |b.observationIds| && b.observationIds[row] == records[i].observationId
    ensures f < |b.featureNames| && (columns.Some? ==> b.featureNames[f] in columns.value)
    ensures f < |b.columns| && row < |b.columns[f]|
    ensures Bounded(b, indices, Filter(records, source)[k])
    ensures Cells(b, indices, Filter(records, source)[k])[j] == b.columns[f][row]
  {
    hide Filter;
    var kept := Filter(records, source);
    assert kept[k] in kept && Visible(kept[k], source);
    i :| 0 <= i < |records| && records[i] == kept[k];
    RowsListed(host, b);
    row :| 0 <= row < |b.observationIds| && b.observationIds[row] == kept[k].observationId;
    f := indices[j];
    NamesInFields(b, columns, indices);
    assert Bounded(b, indices, kept[k]);
    Located(host, b, indices, kept, k, j, row, f);
  }

  /** The typed projection also wants a number in every visible cell. */
  lemma TypedProjectableInFields(host: Host, b: Buffer, rs: RelationSet, source: Option<Text>,
                                 columns: Option<seq<Text>>)
    ensures TypedProjectable(host, b, rs, source, columns) <==>
      && Projectable(host, b, rs, source, columns)
      && forall i, row, f ::
           && 0 <= i < |rs.records| && (source.Some? ==> rs.records[i].sourceId == source)
           && 0 <= row < |b.observationIds| && b.observationIds[row] == rs.records[i].observationId
           && 0 <= f < |b.featureNames| && (columns.Some? ==> b.featureNames[f] in columns.value)
           && f < |b.columns| && row < |b.columns[f]|
           ==> b.columns[f][row].Some?
  {
    hide Selects, BufferValid, Filter, Projectable;
    if Projectable(host, b, rs, source, columns) {
      var indices := SelectionOf(host, b, rs, source, columns);
      var kept := Filter(rs.records, source);
      if TypedProjectable(host, b, rs, source, columns) {
        forall i, row, f |
          && 0 <= i < |rs.records| && (source.Some? ==> rs.records[i].sourceId == source)
          && 0 <= row < |b.observationIds| && b.observationIds[row] == rs.records[i].observationId
          && 0 <= f < |b.featureNames| && (columns.Some? ==> b.featureNames[f] in columns.value)
          && f < |b.columns| && row < |b.columns[f]|
          ensures b.columns[f][row].Some?
        {
          var k, j := CellShown(host, b, rs.records, source, columns, indices, i, row, f);
          assert NoneMasked(Cells(b, indices, kept[k]));
        }
      } else {
        var k :| 0 <= k < |kept| && !NoneMasked(Cells(b, indices, kept[k]));
        var j :| 0 <= j < |Cells(b, indices, kept[k])| && Cells(b, indices, kept[k])[j].None?;
        var i, row, f := CellFrom(host, b, rs.records, source, columns, indices, k, j);
      }
    }
  }

  lemma SelectionOf(host: Host, b: Buffer, rs: RelationSet, source: Option<Text>, columns: Option<seq<Text>>)
    returns (indices: seq<nat>)
    requires Projectable(host, b, rs, source, columns)
    ensures BufferValid(host, b) && Selects(b, columns, indices)
    ensures AllBounded(b, indices, Filter(rs.records, source))
    ensures TypedProjectable(host, b, rs, source, columns) <==>
      NothingMasked(b, indices, Filter(rs.records, source))
  {
    hide Filter, NothingMasked;
    indices := SelectionExists(b, columns);
    var kept := Filter(rs.records, source);
    forall k | 0 <= k < |kept|
      ensures Bounded(b, indices, kept[k])
    {
      ValidBounded(host, b, columns, indices, kept[k]);
    }
    ValidNames(host, b);
    forall other | Selects(b, columns, other)
      ensures other == indices
    {
      SelectsUnique(b, columns, indices, other);
    }
  }

  /** When the typed projection stops the program. */
  lemma TrapsInFields(host: Host, b: Buffer, rs: RelationSet, columns: Option<seq<Text>>)
    ensures TypedTraps(host, b, rs, columns) <==>
      var width := if columns.Some? then |columns.value| else |b.featureNames|;
      && RelationsValid(rs) && BufferValid(host, b) && ColumnsValid(b, columns)
      && 8 * (|rs.records| * width % (host.usizeMax + 1)) > host.usizeMax / 2
  {
    hide RelationsValid, BufferValid, ColumnsValid;
  }

  /** Each value of a boxed block stands under the name of its feature and beside the id of its
      observation. */
  lemma BoxedInFields(host: Host, b: Buffer, indices: seq<nat>, kept: seq<Relation>, block: Block,
                      k: nat, j: nat, row: nat, f: nat)
    requires BufferValid(host, b) && IsBoxed(b, indices, kept, block)
    requires k < |block.observationIds| && j < |block.featureNames|
    requires row < |b.observationIds| && f < |b.featureNames|
    requires block.observationIds[k] == b.observationIds[row] && block.featureNames[j] == b.featureNames[f]
    ensures block.featureSetId == b.featureSetId && block.representationId == b.representationId
    ensures |block.values| == |block.observationIds| && |block.values[k]| == |block.featureNames|
    ensures |b.columns| == |b.featureNames| && |b.columns[f]| == |b.observationIds|
    ensures block.values[k][j] ==
      match b.columns[f][row]
      case None => Null
      case Some(v) => if v % 0x8000_0000_0000_0000 < 0x7FF0_0000_0000_0000 then Number(Some(v)) else Null
  {
    Located(host, b, indices, kept, k, j, row, f);
    if b.columns[f][row].Some? { FiniteMeans(b.columns[f][row].value); }
  }

  lemma Located(host: Host, b: Buffer, indices: seq<nat>, kept: seq<Relation>, k: nat, j: nat, row: nat, f: nat)
    requires BufferValid(host, b) && AllBounded(b, indices, kept)
    requires forall i :: 0 <= i < |indices| ==> indices[i] < |b.featureNames|
    requires k < |kept| && j < |indices| && row < |b.observationIds| && f < |b.featureNames|
    requires kept[k].observationId == b.observationIds[row] && b.featureNames[indices[j]] == b.featureNames[f]
    ensures |b.columns| == |b.featureNames| && |b.columns[f]| == |b.observationIds|
    ensures Cells(b, indices, kept[k])[j] == b.columns[f][row]
  {
    ValidNames(host, b);
    assert indices[j] == f;
  }

  /** Each value of a typed block is that cell too, row after row. */
  lemma TypedInFields(host: Host, b: Buffer, indices: seq<nat>, kept: seq<Relation>, block: BlockF64,
                      k: nat, j: nat, row: nat, f: nat)
    requires BufferValid(host, b) && IsTyped(b, indices, kept, block)
    requires k < |block.observationIds| && j < |block.featureNames|
    requires row < |b.observationIds| && f < |b.featureNames|
    requires block.observationIds[k] == b.observationIds[row] && block.featureNames[j] == b.featureNames[f]
    ensures block.featureSetId == b.featureSetId && block.representationId == b.representationId
    ensures |b.columns| == |b.featureNames| && |b.columns[f]| == |b.observationIds|
    ensures |block.values| == |block.observationIds| * |block.featureNames|
    ensures k * |block.featureNames| + j < |block.values|
    ensures b.columns[f][row] == Some(block.values[k * |block.featureNames| + j])
  {
    hide Flatten;
    Located(host, b, indices, kept, k, j, row, f);
    FlattenCell(TypedRows(b, indices, kept), |indices|, k, j);
  }

  lemma BoxedValues(host: Host, b: Buffer, indices: seq<nat>, kept: seq<Relation>, block: Block)
    requires BufferValid(host, b) && IsBoxed(b, indices, kept, block)
    ensures |b.columns| == |b.featureNames|
    ensures forall f :: 0 <= f < |b.columns| ==> |b.columns[f]| == |b.observationIds|
    ensures |block.values| == |block.observationIds|
    ensures forall k :: 0 <= k < |block.values| ==> |block.values[k]| == |block.featureNames|
    ensures forall k, j, row, f ::
      && 0 <= k < |block.observationIds| && 0 <= j < |block.featureNames|
      && 0 <= row < |b.observationIds| && 0 <= f < |b.featureNames|
      && block.observationIds[k] == b.observationIds[row] && block.featureNames[j] == b.featureNames[f]
      ==> block.values[k][j] == Boxed(b.columns[f][row])
  {
    forall k, j, row, f |
      && 0 <= k < |block.observationIds| && 0 <= j < |block.featureNames|
      && 0 <= row < |b.observationIds| && 0 <= f < |b.featureNames|
      && block.observationIds[k] == b.observationIds[row] && block.featureNames[j] == b.featureNames[f]
      ensures block.values[k][j] == Boxed(b.columns[f][row])
    {
      Located(host, b, indices, kept, k, j, row, f);
    }
  }

  /** Every value of a typed block stands under the name of its feature and beside the id of its
      observation, row after row. */
  lemma TypedValues(host: Host, b: Buffer, indices: seq<nat>, kept: seq<Relation>, block: BlockF64)
    requires BufferValid(host, b) && IsTyped(b, indices, kept, block)
    ensures |b.columns| == |b.featureNames|
    ensures forall f :: 0 <= f < |b.columns| ==> |b.columns[f]| == |b.observationIds|
    ensures |block.values| == |block.observationIds| * |block.featureNames|
    ensures forall k, j, row, f ::
      && 0 <= k < |block.observationIds| && 0 <= j < |block.featureNames|
      && 0 <= row < |b.observationIds| && 0 <= f < |b.featureNames|
      && block.observationIds[k] == b.observationIds[row] && block.featureNames[j] == b.featureNames[f]
      ==>
      var at := k * |block.featureNames| + j;
      at < |block.values| && b.columns[f][row] == Some(block.values[at])
  {
    hide IsTyped, BufferValid;
    ValidShape(host, b);
    TypedLength(b, indices, kept, block);
    forall k, j, row, f |
      && 0 <= k < |block.observationIds| && 0 <= j < |block.featureNames|
      && 0 <= row < |b.observationIds| && 0 <= f < |b.featureNames|
      && block.observationIds[k] == b.observationIds[row] && block.featureNames[j] == b.featureNames[f]
      ensures k * |block.featureNames| + j < |block.values|
      ensures b.columns[f][row] == Some(block.values[k * |block.featureNames| + j])
    {
      TypedInFields(host, b, indices, kept, block, k, j, row, f);
    }
  }

  lemma ValidShape(host: Host, b: Buffer)
    requires BufferValid(host, b)
    ensures |b.columns| == |b.featureNames|
    ensures forall f :: 0 <= f < |b.columns| ==> |b.columns[f]| == |b.observationIds|
  {}

  lemma TypedLength(b: Buffer, indices: seq<nat>, kept: seq<Relation>, block: BlockF64)
    requires IsTyped(b, indices, kept, block)
    ensures |block.values| == |block.observationIds| * |block.featureNames|
  {
    hide Flatten;
    FlattenLength(TypedRows(b, indices, kept), |indices|);
  }
}
