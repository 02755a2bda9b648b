/** Merging Arrow record batches into feature buffers
    (crates/dag-ml-data-arrow/src/lib.rs). A batch is modelled by its decoded columns. */
module BatchMerge {
  import opened FeatureBuffer
  import opened FeatureStore
  import opened Ordering
  import opened Words
  import opened Wrappers

  /** A record batch after decoding: a null cell is `None`. */
  datatype Batch = Batch(
    featureSetId: Text,
    representationId: Text,
    featureNames: seq<Text>,
    observationIds: seq<Text>,
    columns: seq<seq<Option<F64>>>)

  /** What the reader yields: a decoded batch, or an error of the reader or the decoding. */
  type Item = Result<Batch>

  /** Arrow keeps the columns of a batch equally long, one per field. */
  predicate BatchOk(b: Batch) {
    |b.columns| == |b.featureNames| && forall f :: 0 <= f < |b.columns| ==> |b.columns[f]| == |b.observationIds|
  }

  ghost predicate ItemsOk(items: seq<Item>) {
    forall i :: 0 <= i < |items| && items[i].Ok? ==> BatchOk(items[i].value)
  }

  predicate SameTable(a: Batch, b: Batch) {
    a.featureSetId == b.featureSetId && a.representationId == b.representationId && a.featureNames == b.featureNames
  }

  /** The rows of `b` after those of `a`. */
  function Append(a: Batch, b: Batch): Batch
    requires |a.columns| == |b.columns|
  {
    Batch(a.featureSetId, a.representationId, a.featureNames, a.observationIds + b.observationIds,
          seq(|a.columns|, f requires 0 <= f < |a.columns| => a.columns[f] + b.columns[f]))
  }

  // ----- the matrix of a batch -----

  /** `record_batch_to_matrix`: values with zeros for nulls, masks only if there is a null. */
  ghost function MatrixOf(b: Batch): ColumnMatrix {
    CellMatrix(b.featureSetId, b.representationId, b.featureNames, b.observationIds, b.columns)
  }

  method RecordBatchToMatrix(b: Batch) returns (r: Result<ColumnMatrix>)
    ensures r == if b.featureNames == [] then ValidationError else Ok(MatrixOf(b))
  {
    var m := ToF64ColumnMatrix(
      Buffer(b.featureSetId, b.representationId, b.featureNames, b.observationIds, b.columns, map[]));
    return if b.featureNames == [] then ValidationError else Ok(m);
  }

  // ----- what merging means -----

  /** The tables collected so far, by feature-set id. */
  type Tables = map<Text, Batch>

  function Merge(tables: Tables, b: Batch): Result<Tables>
    requires BatchOk(b) && forall id :: id in tables ==> BatchOk(tables[id])
  {
    if b.featureNames == [] then ValidationError
    else if b.observationIds == [] then Ok(tables)
    else if b.featureSetId !in tables then Ok(tables[b.featureSetId := b])
    else if tables[b.featureSetId].representationId != b.representationId
         || tables[b.featureSetId].featureNames != b.featureNames then ValidationError
    else
      assert BatchOk(tables[b.featureSetId]);
      Ok(tables[b.featureSetId := Append(tables[b.featureSetId], b)])
  }

  ghost predicate TablesOk(tables: Tables) {
    forall id :: id in tables ==> BatchOk(tables[id]) && tables[id].featureSetId == id
  }

  lemma MergeKeepsOk(tables: Tables, b: Batch)
    requires TablesOk(tables) && BatchOk(b) && Merge(tables, b).Ok?
    ensures TablesOk(Merge(tables, b).value)
  {}

  ghost function Collect(items: seq<Item>): (r: Result<Tables>)
    requires ItemsOk(items)
    ensures r.Ok? ==> TablesOk(r.value)
  {
    if items == [] then Ok(map[])
    else
      var last := items[|items| - 1];
      match Collect(items[..|items| - 1])
      case ValidationError => ValidationError
      case Ok(tables) =>
        if last.ValidationError? then ValidationError
        else
          var merged := Merge(tables, last.value);
          if merged.Ok? then (MergeKeepsOk(tables, last.value); merged) else ValidationError
  }

  ghost function MatricesFor(tables: Tables, keys: seq<Text>): seq<ColumnMatrix>
    requires forall i :: 0 <= i < |keys| ==> keys[i] in tables
  {
    seq(|keys|, i requires 0 <= i < |keys| => MatrixOf(tables[keys[i]]))
  }

  /** The matrices of the tables in ascending order of feature-set id. */
  ghost function TableMatrices(tables: Tables): seq<ColumnMatrix> {
    TextOrder();
    var keys := KeyOrder(TextLess, tables.Keys);
    assert forall i :: 0 <= i < |keys| ==> keys[i] in keys;
    MatricesFor(tables, keys)
  }

  /** The store a stream of batches gives. */
  ghost function StoreFromBatches(host: Host, items: seq<Item>): Result<Store>
    requires ItemsOk(items)
  {
    match Collect(items)
    case ValidationError => ValidationError
    case Ok(tables) => StoreOf(host, TableMatrices(tables))
  }

  // ----- the code -----

  function Trues(n: nat): seq<bool> { seq(n, _ => true) }

  /** Extends a collected matrix by the next one, creating the masks on the first null. */
  method ExtendMatrix(matrix: ColumnMatrix, next: ColumnMatrix) returns (extended: ColumnMatrix)
    requires |matrix.columns| == |next.columns|
    requires matrix.validityMasks.Some? ==> |matrix.validityMasks.value| == |matrix.columns|
    requires next.validityMasks.Some? ==> |next.validityMasks.value| == |next.columns|
    ensures extended.featureSetId == matrix.featureSetId && extended.representationId == matrix.representationId
    ensures extended.featureNames == matrix.featureNames
    ensures extended.observationIds == matrix.observationIds + next.observationIds
    ensures |extended.columns| == |matrix.columns|
    ensures forall f :: 0 <= f < |matrix.columns| ==> extended.columns[f] == matrix.columns[f] + next.columns[f]
    ensures extended.validityMasks.None? <==> matrix.validityMasks.None? && next.validityMasks.None?
    ensures extended.validityMasks.Some? ==>
      && |extended.validityMasks.value| == |matrix.columns|
      && forall f :: 0 <= f < |matrix.columns| ==>
           extended.validityMasks.value[f]
           == (if matrix.validityMasks.Some? then matrix.validityMasks.value[f] else Trues(|matrix.observationIds|))
            + (if next.validityMasks.Some? then next.validityMasks.value[f] else Trues(|next.observationIds|))
  {
    var masks := matrix.validityMasks;
    if masks.None? && next.validityMasks.Some? {
      masks := Some(seq(|matrix.columns|, _ => Trues(|matrix.observationIds|)));
    }
    if masks.Some? {
      var grown: seq<seq<bool>> := [];
      for f := 0 to |masks.value|
        invariant |grown| == f
        invariant forall k :: 0 <= k < f ==>
          grown[k] == masks.value[k]
            + (if next.validityMasks.Some? then next.validityMasks.value[k] else Trues(|next.observationIds|))
      {
        grown := grown + [masks.value[f] +
          (if next.validityMasks.Some? then next.validityMasks.value[f] else Trues(|next.observationIds|))];
      }
      masks := Some(grown);
    }
    var columns: seq<seq<F64>> := [];
    for f := 0 to |matrix.columns|
      invariant |columns| == f && forall k :: 0 <= k < f ==> columns[k] == matrix.columns[k] + next.columns[k]
    {
      columns := columns + [matrix.columns[f] + next.columns[f]];
    }
    extended := ColumnMatrix(matrix.featureSetId, matrix.representationId, matrix.featureNames,
                             matrix.observationIds + next.observationIds, columns, masks);
  }

  lemma PresenceWithoutNulls(columns: seq<seq<Option<F64>>>, f: nat)
    requires f < |columns| && !AnyNull(columns)
    ensures Presence(columns[f]) == Trues(|columns[f]|)
  {
    assert forall r :: 0 <= r < |columns[f]| ==> columns[f][r].Some?;
  }

  /** The lazily created masks come out as if the merged rows had been one batch. */
  lemma ExtendedIsMatrixOfAppend(a: Batch, b: Batch, extended: ColumnMatrix)
    requires BatchOk(a) && BatchOk(b) && a.featureNames == b.featureNames
    requires extended.featureSetId == a.featureSetId && extended.representationId == a.representationId
    requires extended.featureNames == a.featureNames && extended.observationIds == a.observationIds + b.observationIds
    requires |extended.columns| == |a.columns|
    requires forall f :: 0 <= f < |a.columns| ==> extended.columns[f] == Values(a.columns[f]) + Values(b.columns[f])
    requires extended.validityMasks.None? <==> !AnyNull(a.columns) && !AnyNull(b.columns)
    requires extended.validityMasks.Some? ==>
      && |extended.validityMasks.value| == |a.columns|
      && forall f :: 0 <= f < |a.columns| ==>
           extended.validityMasks.value[f]
           == (if AnyNull(a.columns) then Presence(a.columns[f]) else Trues(|a.observationIds|))
            + (if AnyNull(b.columns) then Presence(b.columns[f]) else Trues(|b.observationIds|))
    ensures extended == MatrixOf(Append(a, b))
  {
    hide AnyNull;
    var whole := Append(a, b);
    AnyNullAppend(a, b);
    forall f | 0 <= f < |a.columns|
      ensures Values(whole.columns[f]) == Values(a.columns[f]) + Values(b.columns[f])
      ensures Presence(whole.columns[f]) == Presence(a.columns[f]) + Presence(b.columns[f])
    {}
    forall f | 0 <= f < |a.columns| && extended.validityMasks.Some?
      ensures extended.validityMasks.value[f] == Presence(whole.columns[f])
    {
      if !AnyNull(a.columns) { PresenceWithoutNulls(a.columns, f); }
      if !AnyNull(b.columns) { PresenceWithoutNulls(b.columns, f); }
    }
    assert extended.columns == MatrixOf(whole).columns;
    if extended.validityMasks.Some? {
      assert extended.validityMasks.value == MatrixOf(whole).validityMasks.value;
    }
  }

  lemma AnyNullAppend(a: Batch, b: Batch)
    requires BatchOk(a) && BatchOk(b) && a.featureNames == b.featureNames
    ensures AnyNull(Append(a, b).columns) <==> AnyNull(a.columns) || AnyNull(b.columns)
  {
    var whole := Append(a, b);
    if AnyNull(a.columns) {
      var f, r :| 0 <= f < |a.columns| && 0 <= r < |a.columns[f]| && a.columns[f][r].None?;
      assert whole.columns[f][r].None?;
    }
    if AnyNull(b.columns) {
      var f, r :| 0 <= f < |b.columns| && 0 <= r < |b.columns[f]| && b.columns[f][r].None?;
      assert whole.columns[f][|a.columns[f]| + r].None?;
    }
    if AnyNull(whole.columns) {
      var f, r :| 0 <= f < |whole.columns| && 0 <= r < |whole.columns[f]| && whole.columns[f][r].None?;
      if r < |a.columns[f]| {
        assert a.columns[f][r].None?;
      } else {
        assert b.columns[f][r - |a.columns[f]|].None?;
      }
    }
  }

  type Matrices = map<Text, ColumnMatrix>

  ghost predicate Represents(matrices: Matrices, tables: Tables) {
    matrices.Keys == tables.Keys && forall id :: id in tables ==> matrices[id] == MatrixOf(tables[id])
  }

  /** The body of the merge loop for one matrix. */
  method MergeOne(matrices: Matrices, b: Batch, ghost tables: Tables) returns (r: Result<Matrices>)
    requires BatchOk(b) && TablesOk(tables) && Represents(matrices, tables)
    ensures r.Ok? <==> Merge(tables, b).Ok?
    ensures r.Ok? ==> Represents(r.value, Merge(tables, b).value)
  {
    hide AnyNull, Values, Presence;
    var converted := RecordBatchToMatrix(b);
    if converted.ValidationError? {
      return ValidationError;
    }
    var next := converted.value;
    if next.observationIds == [] {
      return Ok(matrices);
    }
    if next.featureSetId !in matrices {
      return Ok(matrices[next.featureSetId := next]);
    }
    var matrix := matrices[next.featureSetId];
    if matrix.representationId != next.representationId || matrix.featureNames != next.featureNames {
      return ValidationError;
    }
    var extended := ExtendMatrix(matrix, next);
    ExtendedIsMatrixOfAppend(tables[b.featureSetId], b, extended);
    return Ok(matrices[next.featureSetId := extended]);
  }

  method ReadBatches(host: Host, items: seq<Item>) returns (r: Result<Store>)
    requires ItemsOk(items)
    ensures r == StoreFromBatches(host, items)
  {
    hide Merge, MatrixOf, StoreOf, BatchOk;
    var matrices: Matrices := map[];
    ghost var tables: Tables := map[];
    for i := 0 to |items|
      invariant Collect(items[..i]) == Ok(tables) && Represents(matrices, tables)
    {
      assert items[..i + 1][..i] == items[..i];
      if items[i].ValidationError? {
        CollectStops(items, i + 1);
        return ValidationError;
      }
      var merged := MergeOne(matrices, items[i].value, tables);
      if merged.ValidationError? {
        CollectStops(items, i + 1);
        return ValidationError;
      }
      tables := Merge(tables, items[i].value).value;
      matrices := merged.value;
    }
    assert items[..|items|] == items;
    r := BuildStore(host, matrices, tables);
  }

  method BuildStore(host: Host, matrices: Matrices, ghost tables: Tables) returns (r: Result<Store>)
    requires Represents(matrices, tables)
    ensures r == StoreOf(host, TableMatrices(tables))
  {
    hide MatrixOf, StoreOf, TableMatrices, KeyOrder, Represents;
    TextOrder();
    var keys := KeysInOrder(TextLess, matrices.Keys);
    assert forall i :: 0 <= i < |keys| ==> keys[i] in keys;
    var list := seq(|keys|, i requires 0 <= i < |keys| => matrices[keys[i]]);
    ListInOrder(matrices, tables, keys, list);
    r := FromF64ColumnMatrices(host, list);
  }

  lemma ListInOrder(matrices: Matrices, tables: Tables, keys: seq<Text>, list: seq<ColumnMatrix>)
    requires Represents(matrices, tables) && StrictTotal(TextLess) && keys == KeyOrder(TextLess, matrices.Keys)
    requires |list| == |keys| && forall i :: 0 <= i < |keys| ==> keys[i] in matrices && list[i] == matrices[keys[i]]
    ensures list == TableMatrices(tables)
  {
    hide MatrixOf, KeyOrder;
  }

  lemma {:induction false} CollectStops(items: seq<Item>, k: nat)
    requires ItemsOk(items) && k <= |items| && Collect(items[..k]).ValidationError?
    ensures Collect(items).ValidationError?
    decreases |items|
  {
    if k < |items| {
      assert items[..|items| - 1][..k] == items[..k];
      CollectStops(items[..|items| - 1], k);
    } else {
      assert items[..k] == items;
    }
  }

  // ----- how rows are split into batches does not matter -----

  lemma AppendOk(a: Batch, b: Batch)
    requires BatchOk(a) && BatchOk(b) && SameTable(a, b)
    ensures BatchOk(Append(a, b)) && SameTable(Append(a, b), b)
  {}

  lemma AppendAssociative(a: Batch, b: Batch, c: Batch)
    requires BatchOk(a) && BatchOk(b) && BatchOk(c) && |a.columns| == |b.columns| == |c.columns|
    ensures Append(Append(a, b), c) == Append(a, Append(b, c))
  {
    forall f | 0 <= f < |a.columns|
      ensures Append(Append(a, b), c).columns[f] == Append(a, Append(b, c)).columns[f]
    {
      assert a.columns[f] + b.columns[f] + c.columns[f] == a.columns[f] + (b.columns[f] + c.columns[f]);
    }
    assert a.observationIds + b.observationIds + c.observationIds
        == a.observationIds + (b.observationIds + c.observationIds);
  }

  /** Merging two batches of a table one after the other is merging their rows at once. */
  lemma MergeSplit(tables: Tables, a: Batch, b: Batch)
    requires TablesOk(tables) && BatchOk(a) && BatchOk(b) && SameTable(a, b)
    ensures BatchOk(Append(a, b))
    ensures Merge(tables, a).Ok? ==> TablesOk(Merge(tables, a).value)
    ensures Merge(tables, Append(a, b))
         == if Merge(tables, a).Ok? then Merge(Merge(tables, a).value, b) else ValidationError
  {
    AppendOk(a, b);
    var id := a.featureSetId;
    if a.observationIds == [] {
      assert forall f :: 0 <= f < |a.columns| ==> a.columns[f] + b.columns[f] == b.columns[f];
      assert Append(a, b) == b;
    } else if b.observationIds == [] {
      assert forall f :: 0 <= f < |a.columns| ==> a.columns[f] + b.columns[f] == a.columns[f];
      assert Append(a, b) == a;
    } else if id !in tables {
      assert tables[id := a][id := Append(a, b)] == tables[id := Append(a, b)];
    } else if tables[id].featureNames == a.featureNames {
      AppendAssociative(tables[id], a, b);
      var grown := Append(tables[id], a);
      assert tables[id := grown][id := Append(grown, b)] == tables[id := Append(grown, b)];
    }
  }

  lemma {:induction false} CollectSplit(pre: seq<Item>, a: Batch, b: Batch, post: seq<Item>)
    requires ItemsOk(pre) && ItemsOk(post) && BatchOk(a) && BatchOk(b) && SameTable(a, b)
    ensures BatchOk(Append(a, b))
    ensures ItemsOk(pre + [Ok(a), Ok(b)] + post) && ItemsOk(pre + [Ok(Append(a, b))] + post)
    ensures Collect(pre + [Ok(a), Ok(b)] + post) == Collect(pre + [Ok(Append(a, b))] + post)
    decreases |post|
  {
    hide Merge, Append, TablesOk;
    AppendOk(a, b);
    var split, whole := pre + [Ok(a), Ok(b)] + post, pre + [Ok(Append(a, b))] + post;
    if post == [] {
      var one := pre + [Ok(a)];
      assert split[..|split| - 1] == one && one[..|one| - 1] == pre && whole[..|whole| - 1] == pre;
      if Collect(pre).Ok? {
        MergeSplit(Collect(pre).value, a, b);
      }
    } else {
      var front := post[..|post| - 1];
      CollectSplit(pre, a, b, front);
      assert split[..|split| - 1] == pre + [Ok(a), Ok(b)] + front;
      assert whole[..|whole| - 1] == pre + [Ok(Append(a, b))] + front;
      assert split[|split| - 1] == post[|post| - 1] == whole[|whole| - 1];
    }
  }

  /** All rows of the pieces as one batch. */
  function Whole(pieces: seq<Batch>): (b: Batch)
    requires pieces != [] && forall i :: 0 <= i < |pieces| ==> BatchOk(pieces[i]) && SameTable(pieces[i], pieces[0])
    ensures BatchOk(b) && SameTable(b, pieces[0])
  {
    if |pieces| == 1 then pieces[0]
    else
      var last := |pieces| - 1;
      var front := Whole(pieces[..last]);
      assert SameTable(pieces[last], pieces[0]);
      AppendOk(front, pieces[last]);
      Append(front, pieces[last])
  }

  function Items(pieces: seq<Batch>): seq<Item> {
    seq(|pieces|, i requires 0 <= i < |pieces| => Ok(pieces[i]))
  }

  lemma {:induction false} CollectPieces(pre: seq<Item>, pieces: seq<Batch>, post: seq<Item>)
    requires ItemsOk(pre) && ItemsOk(post) && pieces != []
    requires forall i :: 0 <= i < |pieces| ==> BatchOk(pieces[i]) && SameTable(pieces[i], pieces[0])
    ensures ItemsOk(pre + Items(pieces) + post) && ItemsOk(pre + [Ok(Whole(pieces))] + post)
    ensures Collect(pre + Items(pieces) + post) == Collect(pre + [Ok(Whole(pieces))] + post)
    decreases |pieces|
  {
    hide Collect, Append, BatchOk;
    if |pieces| == 1 {
      assert Items(pieces) == [Ok(pieces[0])];
    } else {
      var last := |pieces| - 1;
      var front := pieces[..last];
      CollectPieces(pre, front, [Ok(pieces[last])] + post);
      assert pre + Items(pieces) + post == pre + Items(front) + ([Ok(pieces[last])] + post);
      CollectSplit(pre, Whole(front), pieces[last], post);
      assert pre + [Ok(Whole(front)), Ok(pieces[last])] + post
          == pre + [Ok(Whole(front))] + ([Ok(pieces[last])] + post);
    }
  }

  /** Batch-split invariance: however the rows of a table are cut into consecutive batches,
      empty ones included and wherever its nulls fall, and whatever else is in the stream,
      the outcome is that of the single batch: the same store, or the same rejection. */
  lemma SplitInvariant(host: Host, pre: seq<Item>, pieces: seq<Batch>, post: seq<Item>)
    requires ItemsOk(pre) && ItemsOk(post) && pieces != []
    requires forall i :: 0 <= i < |pieces| ==> BatchOk(pieces[i]) && SameTable(pieces[i], pieces[0])
    ensures ItemsOk(pre + Items(pieces) + post) && ItemsOk(pre + [Ok(Whole(pieces))] + post)
    ensures StoreFromBatches(host, pre + Items(pieces) + post)
         == StoreFromBatches(host, pre + [Ok(Whole(pieces))] + post)
  {
    hide Collect, StoreOf, TableMatrices, Append, BatchOk;
    CollectPieces(pre, pieces, post);
  }

  // ----- how the batches of different tables are interleaved does not matter -----

  ghost predicate AllRead(items: seq<Item>) {
    forall i :: 0 <= i < |items| ==> items[i].Ok?
  }

  /** The batches of one feature set, in their order in the stream. */
  ghost function Only(items: seq<Item>, id: Text): (own: seq<Item>)
    ensures ItemsOk(items) ==> ItemsOk(own)
  {
    if items == [] then []
    else
      var front, last := items[..|items| - 1], items[|items| - 1];
      assert ItemsOk(items) ==> ItemsOk(front);
      if last.Ok? && last.value.featureSetId == id then Only(front, id) + [last] else Only(front, id)
  }

  /** Both have the same table `id`, or none. */
  ghost predicate AgreeOn(a: Tables, b: Tables, id: Text) {
    (id in a <==> id in b) && (id in a ==> a[id] == b[id])
  }

  /** Merging a batch looks at the table of its feature set and changes no other. */
  lemma MergeLocal(a: Tables, b: Tables, batch: Batch)
    requires TablesOk(a) && TablesOk(b) && BatchOk(batch) && AgreeOn(a, b, batch.featureSetId)
    ensures Merge(a, batch).Ok? <==> Merge(b, batch).Ok?
    ensures Merge(a, batch).Ok? ==> AgreeOn(Merge(a, batch).value, Merge(b, batch).value, batch.featureSetId)
    ensures Merge(a, batch).Ok? ==> forall id :: id != batch.featureSetId ==> AgreeOn(Merge(a, batch).value, a, id)
  {}

  lemma CollectPush(items: seq<Item>, last: Item)
    requires ItemsOk(items) && (last.Ok? ==> BatchOk(last.value))
    ensures ItemsOk(items + [last])
    ensures Collect(items + [last])
         == if Collect(items).Ok? && last.Ok? then Merge(Collect(items).value, last.value) else ValidationError
  {
    hide Merge, BatchOk;
    assert (items + [last])[..|items|] == items;
  }

  lemma OnlyPush(items: seq<Item>, last: Item, id: Text)
    requires ItemsOk(items + [last])
    ensures ItemsOk(items) && (last.Ok? ==> BatchOk(last.value))
    ensures Only(items + [last], id)
         == if last.Ok? && last.value.featureSetId == id then Only(items, id) + [last] else Only(items, id)
  {
    assert (items + [last])[..|items|] == items;
    assert forall i :: 0 <= i < |items| ==> (items + [last])[i] == items[i];
    assert (items + [last])[|items|] == last;
  }

  /** What collecting `items` has to do with collecting the batches of `id` alone. */
  ghost predicate TableAgrees(items: seq<Item>, id: Text)
    requires ItemsOk(items)
  {
    && Collect(Only(items, id)).Ok?
    && (Collect(items).Ok? ==> AgreeOn(Collect(items).value, Collect(Only(items, id)).value, id))
  }

  /** A stream is collected table by table: it is accepted exactly if nothing failed to be
      read and the batches of every feature set are accepted by themselves, and each table
      is the one those batches give. */
  lemma {:induction false} CollectByTable(items: seq<Item>)
    requires ItemsOk(items)
    ensures Collect(items).Ok? <==> AllRead(items) && forall id :: TableAgrees(items, id)
  {
    hide Merge, BatchOk, TablesOk, Collect, Only, AgreeOn;
    if items == [] {
      NothingCollected();
    } else {
      var front, last := items[..|items| - 1], items[|items| - 1];
      assert items == front + [last];
      forall id
        ensures Only(items, id) == if last.Ok? && last.value.featureSetId == id
                                   then Only(front, id) + [last] else Only(front, id)
      {
        OnlyPush(front, last, id);
      }
      OnlyPush(front, last, []);
      CollectByTable(front);
      CollectPush(front, last);
      assert AllRead(items) <==> AllRead(front) && last.Ok?;
      if last.Ok? {
        CollectOneMore(front, last.value);
      }
    }
  }

  lemma NothingCollected()
    ensures Collect([]).Ok? && forall id :: TableAgrees([], id)
  {}

  lemma CollectOneMore(front: seq<Item>, batch: Batch)
    requires ItemsOk(front) && ItemsOk(front + [Ok(batch)])
    requires Collect(front).Ok? <==> AllRead(front) && forall id :: TableAgrees(front, id)
    ensures Collect(front + [Ok(batch)]).Ok? <==>
      AllRead(front) && forall id :: TableAgrees(front + [Ok(batch)], id)
  {
    hide Merge, BatchOk, TablesOk, Collect, Only, AgreeOn;
    var items, own := front + [Ok(batch)], Only(front, batch.featureSetId);
    assert items[|front|] == Ok(batch);
    OnlyPush(front, Ok(batch), batch.featureSetId);
    CollectPush(front, Ok(batch));
    CollectPush(own, Ok(batch));
    forall id | id != batch.featureSetId
      ensures Only(items, id) == Only(front, id)
    {
      OnlyPush(front, Ok(batch), id);
    }
    if Collect(front).Ok? {
      assert TableAgrees(front, batch.featureSetId);
      MergeLocal(Collect(front).value, Collect(own).value, batch);
      if Collect(items).Ok? {
        forall id
          ensures TableAgrees(items, id)
        {
          assert TableAgrees(front, id);
          if id != batch.featureSetId {
            AgreeTrans(Collect(items).value, Collect(front).value, Collect(Only(front, id)).value, id);
          }
        }
      } else {
        assert !TableAgrees(items, batch.featureSetId);
      }
    } else if AllRead(front) {
      var id :| !TableAgrees(front, id);
      assert !TableAgrees(items, id);
    }
  }

  lemma AgreeTrans(a: Tables, b: Tables, c: Tables, id: Text)
    requires AgreeOn(a, b, id) && AgreeOn(b, c, id)
    ensures AgreeOn(a, c, id)
  {}

  /** Streams that hold the same batches of every feature set in the same order, however these
      are interleaved, give the same store, or the same rejection. It is enough that the
      batches of every feature set are collected alike. */
  lemma InterleavingIrrelevant(host: Host, s1: seq<Item>, s2: seq<Item>)
    requires ItemsOk(s1) && ItemsOk(s2) && (AllRead(s1) <==> AllRead(s2))
    requires forall id :: Collect(Only(s1, id)) == Collect(Only(s2, id))
    ensures StoreFromBatches(host, s1) == StoreFromBatches(host, s2)
  {
    hide Collect, Only, StoreOf, TableMatrices;
    if Collect(s1).Ok? {
      AcceptedAlike(s1, s2);
    } else if Collect(s2).Ok? {
      AcceptedAlike(s2, s1);
    }
  }

  lemma AcceptedAlike(s1: seq<Item>, s2: seq<Item>)
    requires ItemsOk(s1) && ItemsOk(s2) && (AllRead(s1) <==> AllRead(s2))
    requires forall id :: Collect(Only(s1, id)) == Collect(Only(s2, id))
    requires Collect(s1).Ok?
    ensures Collect(s2) == Collect(s1)
  {
    hide Collect, Only, TablesOk, BatchOk, Merge, AllRead;
    CollectByTable(s1);
    CollectByTable(s2);
    forall id
      ensures Collect(Only(s2, id)).Ok? && AgreeOn(Collect(s1).value, Collect(Only(s2, id)).value, id)
    {
      assert TableAgrees(s1, id);
    }
    assert Collect(s2).Ok?;
    var t1, t2 := Collect(s1).value, Collect(s2).value;
    forall id
      ensures AgreeOn(t1, t2, id)
    {
      assert TableAgrees(s2, id);
    }
    SameTables(t1, t2);
  }

  lemma SameTables(a: Tables, b: Tables)
    requires forall id :: AgreeOn(a, b, id)
    ensures a == b
  {
    forall id
      ensures (id in a <==> id in b) && (id in a ==> a[id] == b[id])
    {
      assert AgreeOn(a, b, id);
    }
  }

  /** Split invariance in full: the rows of a table may be cut into any pieces and these be
      interleaved in any way with the batches of other feature sets. */
  lemma InterleavedSplitInvariant(host: Host, s1: seq<Item>, s2: seq<Item>, id: Text,
                                  pre: seq<Item>, pieces: seq<Batch>, post: seq<Item>)
    requires ItemsOk(s1) && ItemsOk(s2) && (AllRead(s1) <==> AllRead(s2))
    requires ItemsOk(pre) && ItemsOk(post) && pieces != []
    requires forall i :: 0 <= i < |pieces| ==> BatchOk(pieces[i]) && SameTable(pieces[i], pieces[0])
    requires Only(s1, id) == pre + Items(pieces) + post && Only(s2, id) == pre + [Ok(Whole(pieces))] + post
    requires forall other :: other != id ==> Only(s1, other) == Only(s2, other)
    ensures StoreFromBatches(host, s1) == StoreFromBatches(host, s2)
  {
    hide Collect, Only, StoreFromBatches, Whole;
    CollectPieces(pre, pieces, post);
    InterleavingIrrelevant(host, s1, s2);
  }

  // ----- the tables, in the fields of the batches -----

  /** What merging one batch does. */
  lemma MergeInFields(tables: Tables, b: Batch)
    requires TablesOk(tables) && BatchOk(b)
    ensures Merge(tables, b).Ok? <==>
      && b.featureNames != []
      && (b.observationIds != [] && b.featureSetId in tables ==>
            && tables[b.featureSetId].representationId == b.representationId
            && tables[b.featureSetId].featureNames == b.featureNames)
    ensures Merge(tables, b).Ok? && b.observationIds == [] ==> Merge(tables, b).value == tables
    ensures Merge(tables, b).Ok? && b.observationIds != [] ==>
      var merged := Merge(tables, b).value;
      && merged.Keys == tables.Keys + {b.featureSetId}
      && (forall id :: id in tables && id != b.featureSetId ==> merged[id] == tables[id])
      && merged[b.featureSetId].featureSetId == b.featureSetId
      && merged[b.featureSetId].representationId == b.representationId
      && merged[b.featureSetId].featureNames == b.featureNames
      && merged[b.featureSetId].observationIds
         == (if b.featureSetId in tables then tables[b.featureSetId].observationIds else []) + b.observationIds
      && |merged[b.featureSetId].columns| == |b.columns| == |b.featureNames|
      && forall f :: 0 <= f < |b.columns| ==>
           merged[b.featureSetId].columns[f]
           == (if b.featureSetId in tables then tables[b.featureSetId].columns[f] else []) + b.columns[f]
  {
  }

  /** The tables of an accepted stream come from batches with rows. */
  lemma {:induction false} CollectedFrom(items: seq<Item>)
    requires ItemsOk(items) && Collect(items).Ok?
    ensures forall i :: 0 <= i < |items| ==> items[i].Ok? && items[i].value.featureNames != []
    ensures forall id :: id in Collect(items).value ==> exists i ::
      0 <= i < |items| && items[i].value.featureSetId == id && items[i].value.observationIds != []
  {
    hide Merge, BatchOk, TablesOk, Collect;
    if items == [] {
      NoTables(items);
    } else {
      var n := |items| - 1;
      var front := items[..n];
      assert items == front + [items[n]];
      CollectPush(front, items[n]);
      CollectedFrom(front);
      MergeInFields(Collect(front).value, items[n].value);
    }
  }

  /** Every batch with rows has its table, of its representation and names. */
  lemma {:induction false} CollectedTables(items: seq<Item>)
    requires ItemsOk(items) && Collect(items).Ok?
    ensures forall i :: 0 <= i < |items| && items[i].Ok? && items[i].value.observationIds != [] ==>
      var tables, b := Collect(items).value, items[i].value;
      && b.featureSetId in tables
      && tables[b.featureSetId].representationId == b.representationId
      && tables[b.featureSetId].featureNames == b.featureNames
  {
    hide Merge, BatchOk, TablesOk, Collect;
    if items == [] {
      NoTables(items);
    } else {
      var n := |items| - 1;
      var front := items[..n];
      assert items == front + [items[n]];
      CollectPush(front, items[n]);
      CollectedTables(front);
      MergeInFields(Collect(front).value, items[n].value);
    }
  }

  lemma NoTables(items: seq<Item>)
    requires items == []
    ensures Collect(items) == Ok(map[])
  {}

  /** A stream is accepted exactly if every item was read and has columns, and any two batches
      with rows of one feature set have the same representation and names. */
  lemma {:induction false} CollectInFields(items: seq<Item>)
    requires ItemsOk(items)
    ensures Collect(items).Ok? <==>
      && (forall i :: 0 <= i < |items| ==> items[i].Ok? && items[i].value.featureNames != [])
      && (forall i, j ::
            && 0 <= i < j < |items|
            && items[i].value.observationIds != [] && items[j].value.observationIds != []
            && items[i].value.featureSetId == items[j].value.featureSetId
            ==>
            && items[i].value.representationId == items[j].value.representationId
            && items[i].value.featureNames == items[j].value.featureNames)
  {
    hide Merge, BatchOk, TablesOk, Collect;
    if Collect(items).Ok? {
      CollectedFrom(items);
      CollectedTables(items);
    } else if items == [] {
      NoTables(items);
    } else {
      var n := |items| - 1;
      var front := items[..n];
      assert items == front + [items[n]];
      CollectPush(front, items[n]);
      CollectInFields(front);
      if Collect(front).Ok? && items[n].Ok? {
        CollectedFrom(front);
        CollectedTables(front);
        MergeInFields(Collect(front).value, items[n].value);
      }
    }
  }

  /** How many rows of a feature set the first `n` items carry. */
  ghost function RowsBefore(items: seq<Item>, id: Text, n: nat): nat
    requires n <= |items|
  {
    if n == 0 then 0
    else
      RowsBefore(items, id, n - 1) +
        if items[n - 1].Ok? && items[n - 1].value.featureSetId == id then |items[n - 1].value.observationIds| else 0
  }

  lemma {:induction false} RowsBeforePush(front: seq<Item>, last: Item, id: Text, n: nat)
    requires n <= |front|
    ensures RowsBefore(front + [last], id, n) == RowsBefore(front, id, n)
  {
    if n > 0 { RowsBeforePush(front, last, id, n - 1); }
  }

  lemma {:induction false} CollectedCount(items: seq<Item>, id: Text)
    requires ItemsOk(items) && Collect(items).Ok?
    ensures RowsBefore(items, id, |items|)
         == if id in Collect(items).value then |Collect(items).value[id].observationIds| else 0
  {
    hide Merge, BatchOk, TablesOk, Collect;
    if items == [] {
      NoTables(items);
    } else {
      var n := |items| - 1;
      var front := items[..n];
      assert items == front + [items[n]];
      CollectPush(front, items[n]);
      CollectedCount(front, id);
      RowsBeforePush(front, items[n], id, n);
      MergeInFields(Collect(front).value, items[n].value);
    }
  }

  /** Rows once collected stay where they are. */
  lemma MergeKeepsRows(tables: Tables, b: Batch, id: Text, f: nat, at: nat)
    requires TablesOk(tables) && BatchOk(b) && Merge(tables, b).Ok? && id in tables
    requires f < |tables[id].columns| && at < |tables[id].observationIds|
    ensures
      var merged := Merge(tables, b).value;
      && id in merged && at < |merged[id].observationIds| && at < |tables[id].columns[f]|
      && merged[id].observationIds[at] == tables[id].observationIds[at]
      && f < |merged[id].columns| && at < |merged[id].columns[f]|
      && merged[id].columns[f][at] == tables[id].columns[f][at]
  {}

  /** New rows come behind the collected ones. */
  lemma MergeAppendsRow(tables: Tables, b: Batch, r: nat, f: nat)
    requires TablesOk(tables) && BatchOk(b) && Merge(tables, b).Ok?
    requires r < |b.observationIds| && f < |b.featureNames|
    ensures
      var merged, id := Merge(tables, b).value, b.featureSetId;
      var at := (if id in tables then |tables[id].observationIds| else 0) + r;
      && id in merged && at < |merged[id].observationIds|
      && merged[id].observationIds[at] == b.observationIds[r]
      && f < |b.columns| && r < |b.columns[f]|
      && f < |merged[id].columns| && at < |merged[id].columns[f]|
      && merged[id].columns[f][at] == b.columns[f][r]
  {}

  /** The tables hold the rows of all batches and no other, those of one batch together and
      behind those of the earlier batches of its feature set. */
  lemma {:induction false} CollectedRows(items: seq<Item>, i: nat, r: nat, f: nat)
    requires ItemsOk(items) && Collect(items).Ok?
    requires i < |items| && items[i].Ok? && r < |items[i].value.observationIds| && f < |items[i].value.featureNames|
    ensures
      var b, tables := items[i].value, Collect(items).value;
      var at := RowsBefore(items, b.featureSetId, i) + r;
      && b.featureSetId in tables
      && RowsBefore(items, b.featureSetId, |items|) == |tables[b.featureSetId].observationIds|
      && at < |tables[b.featureSetId].observationIds|
      && tables[b.featureSetId].observationIds[at] == b.observationIds[r]
      && f < |b.columns| && r < |b.columns[f]|
      && f < |tables[b.featureSetId].columns| && at < |tables[b.featureSetId].columns[f]|
      && tables[b.featureSetId].columns[f][at] == b.columns[f][r]
  {
    hide Merge, BatchOk, TablesOk, Collect;
    var n := |items| - 1;
    var front := items[..n];
    var id := items[i].value.featureSetId;
    assert items == front + [items[n]];
    CollectPush(front, items[n]);
    CollectedCount(items, id);
    RowsBeforePush(front, items[n], id, i);
    if i < n {
      CollectedRows(front, i, r, f);
      RowsBeforePush(front, items[n], id, n);
      MergeKeepsRows(Collect(front).value, items[n].value, id, f, RowsBefore(front, id, i) + r);
    } else {
      CollectedCount(front, id);
      MergeAppendsRow(Collect(front).value, items[n].value, r, f);
    }
  }

  /** A missing cell of a table is written as zero, with masks only if a cell is missing. */
  lemma TableMatrixInFields(b: Batch, f: nat, r: nat)
    requires BatchOk(b) && f < |b.featureNames| && r < |b.observationIds|
    ensures
      var m := MatrixOf(b);
      && m.featureSetId == b.featureSetId && m.representationId == b.representationId
      && m.featureNames == b.featureNames && m.observationIds == b.observationIds
      && |m.columns| == |b.columns| && |m.columns[f]| == |b.columns[f]|
      && m.columns[f][r] == (if b.columns[f][r].Some? then b.columns[f][r].value else 0)
      && (m.validityMasks.Some? <==>
            exists k, i :: 0 <= k < |b.columns| && 0 <= i < |b.columns[k]| && b.columns[k][i].None?)
      && (m.validityMasks.Some? ==>
            && |m.validityMasks.value| == |b.columns| && |m.validityMasks.value[f]| == |b.columns[f]|
            && m.validityMasks.value[f][r] == b.columns[f][r].Some?)
  {}

  lemma TableList(tables: Tables)
    requires TablesOk(tables)
    ensures
      var ms := TableMatrices(tables);
      && (forall id :: id in tables ==> exists i :: 0 <= i < |ms| && ms[i].featureSetId == id)
      && (forall i :: 0 <= i < |ms| ==>
            ms[i].featureSetId in tables && ms[i] == MatrixOf(tables[ms[i].featureSetId]))
      && (forall i, j :: 0 <= i < j < |ms| ==> ms[i].featureSetId != ms[j].featureSetId)
  {
    hide TextLess, BatchOk;
    TextOrder();
    var keys := KeyOrder(TextLess, tables.Keys);
    var ms := TableMatrices(tables);
    forall i | 0 <= i < |ms|
      ensures keys[i] in tables && ms[i] == MatrixOf(tables[keys[i]]) && ms[i].featureSetId == keys[i]
    {
      assert keys[i] in keys;
    }
    forall id | id in tables
      ensures exists i :: 0 <= i < |ms| && ms[i].featureSetId == id
    {
      var i :| 0 <= i < |keys| && keys[i] == id;
      assert ms[i].featureSetId == id;
    }
  }

  /** The store of a stream has one buffer for each table, and there is one exactly if the stream
      is accepted and so is the matrix of each table. */
  lemma StoreInFields(host: Host, items: seq<Item>)
    requires ItemsOk(items)
    ensures StoreFromBatches(host, items).Ok? <==>
      && Collect(items).Ok?
      && forall id :: id in Collect(items).value ==> FromColumns(host, MatrixOf(Collect(items).value[id])).Ok?
    ensures StoreFromBatches(host, items).Ok? ==>
      var s, tables := StoreFromBatches(host, items).value, Collect(items).value;
      && s.Keys == tables.Keys
      && forall id :: id in tables ==> FromColumns(host, MatrixOf(tables[id])) == Ok(s[id])
  {
    hide FromColumns, Collect, StoreOf, BatchOk, MatrixOf, TableMatrices;
    if Collect(items).Ok? {
      TableList(Collect(items).value);
      StoreOfInFields(host, TableMatrices(Collect(items).value));
    }
  }
}
