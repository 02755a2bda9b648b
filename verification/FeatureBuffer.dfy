/** Numeric feature buffers and the typed matrices they are built from
    (crates/dag-ml-data-core/src/buffer.rs). */
module FeatureBuffer {
  import opened Sequences
  import opened Words
  import opened Wrappers

  /** A 64-bit float by its bit pattern. */
  type F64 = U64

  const ZERO: F64 := 0

  // the size of an `f64`
  const VALUE_BYTES := 8

  /** Neither infinite nor NaN: the eleven exponent bits are not all ones. */
  predicate IsFinite(v: F64) {
    v / 0x10_0000_0000_0000 % 2048 != 2047
  }

  type Digest = d: seq<Byte> | |d| == 32 witness seq(32, _ => 0)

  /** What the program takes from its platform: SHA-256, UTF-8 validity, the test for
      strings of white space, and the largest machine word. */
  datatype Host = Host(sha256: seq<Byte> -> Digest, utf8: seq<Byte> -> bool, blank: seq<Byte> -> bool, usizeMax: nat)

  datatype Buffer = Buffer(
    featureSetId: Text,
    representationId: Text,
    featureNames: seq<Text>,
    observationIds: seq<Text>,
    columns: seq<seq<Option<F64>>>,
    rowIndex: map<Text, nat>)

  /** `NumericFeatureMatrixF64Columnar`: one value sequence per feature. */
  datatype ColumnMatrix = ColumnMatrix(
    featureSetId: Text,
    representationId: Text,
    featureNames: seq<Text>,
    observationIds: seq<Text>,
    columns: seq<seq<F64>>,
    validityMasks: Option<seq<seq<bool>>>)

  /** `NumericFeatureMatrixF64`: one flat row-major value sequence. */
  datatype RowMatrix = RowMatrix(
    featureSetId: Text,
    representationId: Text,
    featureNames: seq<Text>,
    observationIds: seq<Text>,
    values: seq<F64>,
    validityMask: Option<seq<bool>>)

  datatype Json = Null | Number(asF64: Option<F64>) | Other

  datatype FeatureRow = FeatureRow(observationId: Text, values: seq<Json>)

  /** `CoordinatorFeatureTable`: rows of boxed values. */
  datatype FeatureTable = FeatureTable(
    featureSetId: Text,
    representationId: Text,
    featureNames: seq<Text>,
    rows: seq<FeatureRow>)

  // ----- well-formedness -----

  ghost predicate NamesOk(host: Host, names: seq<Text>) {
    names != [] && Distinct(names) && forall i :: 0 <= i < |names| ==> !host.blank(names[i])
  }

  ghost predicate ShapeOk(host: Host, featureSetId: Text, names: seq<Text>, observations: seq<Text>) {
    !host.blank(featureSetId) && NamesOk(host, names) && observations != [] && Distinct(observations)
  }

  ghost predicate Rectangular<T>(columns: seq<seq<T>>, width: nat, height: nat) {
    |columns| == width && forall f :: 0 <= f < width ==> |columns[f]| == height
  }

  ghost predicate ColumnShape(host: Host, m: ColumnMatrix) {
    && ShapeOk(host, m.featureSetId, m.featureNames, m.observationIds)
    && Rectangular(m.columns, |m.featureNames|, |m.observationIds|)
    && (m.validityMasks.Some? ==> Rectangular(m.validityMasks.value, |m.featureNames|, |m.observationIds|))
  }

  ghost predicate RowShape(host: Host, m: RowMatrix) {
    && ShapeOk(host, m.featureSetId, m.featureNames, m.observationIds)
    && |m.values| == |m.featureNames| * |m.observationIds|
    && (m.validityMask.Some? ==> |m.validityMask.value| == |m.featureNames| * |m.observationIds|)
  }

  ghost predicate TableShape(host: Host, t: FeatureTable) {
    && !host.blank(t.featureSetId) && NamesOk(host, t.featureNames)
    && t.rows != []
    && Distinct(RowIds(t))
    && forall r :: 0 <= r < |t.rows| ==> |t.rows[r].values| == |t.featureNames|
  }

  function RowIds(t: FeatureTable): seq<Text> {
    seq(|t.rows|, r requires 0 <= r < |t.rows| => t.rows[r].observationId)
  }

  // ----- the logical cell of each input layout -----

  function Masked(valid: bool, value: F64): Option<F64> {
    if valid then Some(value) else None
  }

  lemma FlatInRange(features: nat, rows: nat, r: nat, f: nat)
    requires r < rows && f < features
    ensures RowMajorAt(features, r, f) < features * rows
  {
    assert (r + 1) * features <= rows * features;
  }

  ghost function ColumnCell(host: Host, m: ColumnMatrix, r: nat, f: nat): Option<F64>
    requires ColumnShape(host, m) && r < |m.observationIds| && f < |m.featureNames|
  {
    Masked(m.validityMasks.None? || m.validityMasks.value[f][r], m.columns[f][r])
  }

  ghost function RowCell(host: Host, m: RowMatrix, r: nat, f: nat): Option<F64>
    requires RowShape(host, m) && r < |m.observationIds| && f < |m.featureNames|
  {
    FlatInRange(|m.featureNames|, |m.observationIds|, r, f);
    FlatCell(m, RowMajorAt(|m.featureNames|, r, f))
  }

  function FlatCell(m: RowMatrix, at: nat): Option<F64>
    requires at < |m.values| && (m.validityMask.Some? ==> |m.validityMask.value| == |m.values|)
  {
    Masked(m.validityMask.None? || m.validityMask.value[at], m.values[at])
  }

  function JsonCell(v: Json): Result<Option<F64>> {
    match v
    case Null => Ok(None)
    case Number(Some(x)) => Ok(Some(x))
    case _ => ValidationError
  }

  ghost predicate PresentFinite(columns: seq<seq<Option<F64>>>) {
    forall f, r :: 0 <= f < |columns| && 0 <= r < |columns[f]| && columns[f][r].Some? ==> IsFinite(columns[f][r].value)
  }

  // ----- which buffer an input describes -----

  ghost function ColumnCells(host: Host, m: ColumnMatrix): (columns: seq<seq<Option<F64>>>)
    requires ColumnShape(host, m)
  {
    seq(|m.featureNames|, f requires 0 <= f < |m.featureNames| =>
      seq(|m.observationIds|, r requires 0 <= r < |m.observationIds| => ColumnCell(host, m, r, f)))
  }

  ghost function RowCells(host: Host, m: RowMatrix): (columns: seq<seq<Option<F64>>>)
    requires RowShape(host, m)
  {
    seq(|m.featureNames|, f requires 0 <= f < |m.featureNames| =>
      seq(|m.observationIds|, r requires 0 <= r < |m.observationIds| => RowCell(host, m, r, f)))
  }

  /** The buffer a columnar matrix describes, if the constructor accepts it. */
  ghost function FromColumns(host: Host, m: ColumnMatrix): Result<Buffer> {
    if ColumnShape(host, m) && PresentFinite(ColumnCells(host, m)) then
      Ok(Buffer(m.featureSetId, m.representationId, m.featureNames, m.observationIds,
                ColumnCells(host, m), IndexOf(m.observationIds)))
    else ValidationError
  }

  ghost function FromRows(host: Host, m: RowMatrix): Result<Buffer> {
    if RowShape(host, m) && PresentFinite(RowCells(host, m)) then
      Ok(Buffer(m.featureSetId, m.representationId, m.featureNames, m.observationIds,
                RowCells(host, m), IndexOf(m.observationIds)))
    else ValidationError
  }

  ghost function FromTable(host: Host, t: FeatureTable): Result<Buffer> {
    if TableShape(host, t) && AllNumeric(t) then
      Ok(Buffer(t.featureSetId, t.representationId, t.featureNames, RowIds(t), TableCells(t), IndexOf(RowIds(t))))
    else ValidationError
  }

  ghost predicate AllNumeric(t: FeatureTable) {
    forall r, f :: 0 <= r < |t.rows| && 0 <= f < |t.rows[r].values| ==> JsonCell(t.rows[r].values[f]).Ok?
  }

  ghost function TableCells(t: FeatureTable): seq<seq<Option<F64>>>
    requires AllNumeric(t) && forall r :: 0 <= r < |t.rows| ==> |t.rows[r].values| == |t.featureNames|
  {
    seq(|t.featureNames|, f requires 0 <= f < |t.featureNames| =>
      seq(|t.rows|, r requires 0 <= r < |t.rows| => JsonCell(t.rows[r].values[f]).value))
  }

  // ----- the checks, as the source runs them -----

  method ValidateNames(host: Host, featureSetId: Text, names: seq<Text>) returns (ok: bool)
    ensures ok <==> !host.blank(featureSetId) && NamesOk(host, names)
  {
    if host.blank(featureSetId) || names == [] {
      return false;
    }
    var seen: set<Text> := {};
    for i := 0 to |names|
      invariant forall x :: x in seen <==> x in names[..i]
      invariant Distinct(names[..i])
      invariant forall k :: 0 <= k < i ==> !host.blank(names[k])
    {
      if host.blank(names[i]) {
        return false;
      }
      assert names[i] in seen ==> exists k :: 0 <= k < i && names[k] == names[i];
      if names[i] in seen {
        return false;
      }
      assert names[..i + 1] == names[..i] + [names[i]];
      seen := seen + {names[i]};
    }
    assert names[..|names|] == names;
    return true;
  }

  method ValidateFeatureShape(host: Host, featureSetId: Text, names: seq<Text>, observations: seq<Text>)
    returns (ok: bool)
    ensures ok <==> ShapeOk(host, featureSetId, names, observations)
  {
    ok := ValidateNames(host, featureSetId, names);
    if !ok || observations == [] {
      return false;
    }
    ok := AllDistinct(observations);
  }

  /** Column `f` has one finite or masked value per row. */
  ghost predicate ColumnOk(m: ColumnMatrix, f: nat)
    requires f < |m.columns| && (m.validityMasks.Some? ==> f < |m.validityMasks.value|)
  {
    && |m.columns[f]| == |m.observationIds|
    && (m.validityMasks.Some? ==> |m.validityMasks.value[f]| == |m.observationIds|)
    && forall r :: 0 <= r < |m.observationIds| && (m.validityMasks.None? || m.validityMasks.value[f][r]) ==>
         IsFinite(m.columns[f][r])
  }

  lemma ColumnsOk(host: Host, m: ColumnMatrix)
    requires ShapeOk(host, m.featureSetId, m.featureNames, m.observationIds)
    requires |m.columns| == |m.featureNames|
    requires m.validityMasks.Some? ==> |m.validityMasks.value| == |m.featureNames|
    ensures (forall f :: 0 <= f < |m.featureNames| ==> ColumnOk(m, f))
      <==> ColumnShape(host, m) && PresentFinite(ColumnCells(host, m))
  {
    if forall f :: 0 <= f < |m.featureNames| ==> ColumnOk(m, f) {
      forall f | 0 <= f < |m.featureNames|
        ensures |m.columns[f]| == |m.observationIds|
        ensures m.validityMasks.Some? ==> |m.validityMasks.value[f]| == |m.observationIds|
      {
        assert ColumnOk(m, f);
      }
      assert ColumnShape(host, m);
      forall f, r | 0 <= f < |m.featureNames| && 0 <= r < |m.observationIds| && ColumnCells(host, m)[f][r].Some?
        ensures IsFinite(ColumnCells(host, m)[f][r].value)
      {
        assert ColumnOk(m, f);
      }
    }
    if ColumnShape(host, m) && PresentFinite(ColumnCells(host, m)) {
      forall f, r | 0 <= f < |m.featureNames| && 0 <= r < |m.observationIds| &&
                    (m.validityMasks.None? || m.validityMasks.value[f][r])
        ensures IsFinite(m.columns[f][r])
      {
        assert ColumnCells(host, m)[f][r] == Some(m.columns[f][r]);
      }
    }
  }

  method ValidateColumns(host: Host, m: ColumnMatrix) returns (ok: bool)
    ensures ok <==> ColumnShape(host, m) && PresentFinite(ColumnCells(host, m))
  {
    ok := ValidateFeatureShape(host, m.featureSetId, m.featureNames, m.observationIds);
    if !ok || |m.columns| != |m.featureNames| {
      return false;
    }
    if m.validityMasks.Some? && |m.validityMasks.value| != |m.featureNames| {
      return false;
    }
    ColumnsOk(host, m);
    var rowCount := |m.observationIds|;
    for f := 0 to |m.columns|
      invariant forall k :: 0 <= k < f ==> ColumnOk(m, k)
    {
      assert ColumnOk(m, f) ==> |m.columns[f]| == rowCount;
      if |m.columns[f]| != rowCount {
        return false;
      }
      if m.validityMasks.Some? && |m.validityMasks.value[f]| != rowCount {
        return false;
      }
      for r := 0 to rowCount
        invariant forall k :: 0 <= k < r && (m.validityMasks.None? || m.validityMasks.value[f][k]) ==>
          IsFinite(m.columns[f][k])
      {
        var isValid := if m.validityMasks.Some? then m.validityMasks.value[f][r] else true;
        if isValid && !IsFinite(m.columns[f][r]) {
          assert !ColumnOk(m, f);
          return false;
        }
      }
    }
    return true;
  }

  /** Lengths of lists in memory fit a machine word. */
  ghost predicate Addressable(host: Host, m: RowMatrix) {
    && |m.featureNames| <= host.usizeMax && |m.observationIds| <= host.usizeMax
    && |m.values| <= host.usizeMax
  }

  /** What the unchecked product of both counts comes to. */
  function WrappedProduct(host: Host, a: nat, b: nat): nat {
    a * b % (host.usizeMax + 1)
  }

  /** The product of the counts does not fit a machine word, and what is left of it is the
      number of values, so that the length check cannot tell. */
  ghost predicate Wraps(host: Host, m: RowMatrix) {
    var product := |m.featureNames| * |m.observationIds|;
    && ShapeOk(host, m.featureSetId, m.featureNames, m.observationIds)
    && product > host.usizeMax
    && |m.values| == WrappedProduct(host, |m.featureNames|, |m.observationIds|)
    && (m.validityMask.Some? ==> |m.validityMask.value| == |m.values|)
    && FlatFinite(m, |m.values|)
  }

  lemma ProductThatFits(host: Host, m: RowMatrix)
    requires Addressable(host, m)
    ensures RowShape(host, m) ==> WrappedProduct(host, |m.featureNames|, |m.observationIds|) == |m.values|
    ensures |m.featureNames| * |m.observationIds| <= host.usizeMax ==>
      WrappedProduct(host, |m.featureNames|, |m.observationIds|) == |m.featureNames| * |m.observationIds|
  {
    var product := |m.featureNames| * |m.observationIds|;
    SmallRemainder(product, host.usizeMax + 1);
    assert RowShape(host, m) ==> |m.values| == product;
  }

  lemma SmallRemainder(x: nat, n: nat)
    ensures x < n ==> x % n == x
  {}

  method ValidateRows(host: Host, m: RowMatrix) returns (ok: bool)
    requires Addressable(host, m)
    ensures ok <==> (RowShape(host, m) && PresentFinite(RowCells(host, m))) || Wraps(host, m)
  {
    ProductThatFits(host, m);
    hide RowCells, PresentFinite, WrappedProduct;
    ok := ValidateFeatureShape(host, m.featureSetId, m.featureNames, m.observationIds);
    var expected := WrappedProduct(host, |m.featureNames|, |m.observationIds|);
    if !ok || |m.values| != expected {
      return false;
    }
    if m.validityMask.Some? && |m.validityMask.value| != expected {
      return false;
    }
    if RowShape(host, m) { FlatFiniteIsCellFinite(host, m); }
    for i := 0 to |m.values|
      invariant FlatFinite(m, i)
    {
      var isValid := if m.validityMask.Some? then m.validityMask.value[i] else true;
      if isValid && !IsFinite(m.values[i]) {
        return false;
      }
    }
    return true;
  }

  /** The first `n` values are finite wherever the mask shows them. */
  ghost predicate FlatFinite(m: RowMatrix, n: nat)
    requires n <= |m.values| && (m.validityMask.Some? ==> n <= |m.validityMask.value|)
  {
    forall k :: 0 <= k < n && (m.validityMask.None? || m.validityMask.value[k]) ==> IsFinite(m.values[k])
  }

  lemma FlatFiniteIsCellFinite(host: Host, m: RowMatrix)
    requires RowShape(host, m)
    ensures FlatFinite(m, |m.values|) <==> PresentFinite(RowCells(host, m))
  {
    hide ShapeOk, IsFinite;
    var cells := RowCells(host, m);
    if PresentFinite(cells) {
      forall k | 0 <= k < |m.values| && (m.validityMask.None? || m.validityMask.value[k])
        ensures IsFinite(m.values[k])
      {
        RowOfFlat(|m.featureNames|, |m.observationIds|, k);
        assert cells[k % |m.featureNames|][k / |m.featureNames|] == Some(m.values[k]);
      }
    }
    if FlatFinite(m, |m.values|) {
      forall f, r | 0 <= f < |cells| && 0 <= r < |cells[f]| && cells[f][r].Some?
        ensures IsFinite(cells[f][r].value)
      {
        FlatInRange(|m.featureNames|, |m.observationIds|, r, f);
      }
    }
  }

  /** Every flat position is the cell of exactly the row and feature division yields. */
  lemma RowOfFlat(features: nat, rows: nat, i: nat)
    requires i < features * rows
    ensures i / features < rows && i % features < features
    ensures RowMajorAt(features, i / features, i % features) == i
  {
    var q := i / features;
    assert i == features * q + i % features;
    assert q >= rows ==> features * q >= features * rows;
  }

  // ----- the constructors -----

  method FromF64ColumnMatrix(host: Host, m: ColumnMatrix) returns (result: Result<Buffer>)
    ensures result == FromColumns(host, m)
  {
    var valid := ValidateColumns(host, m);
    if !valid {
      return ValidationError;
    }
    var columns: seq<seq<Option<F64>>> := [];
    for f := 0 to |m.columns|
      invariant columns == ColumnCells(host, m)[..f]
    {
      var column: seq<Option<F64>> := [];
      for r := 0 to |m.columns[f]|
        invariant column == ColumnCells(host, m)[f][..r]
      {
        var isValid := if m.validityMasks.Some? then m.validityMasks.value[f][r] else true;
        column := column + [if isValid then Some(m.columns[f][r]) else None];
      }
      assert column == ColumnCells(host, m)[f];
      columns := columns + [column];
    }
    assert columns == ColumnCells(host, m);
    return Ok(Buffer(m.featureSetId, m.representationId, m.featureNames, m.observationIds,
                     columns, IndexOf(m.observationIds)));
  }

  /** The cells of feature `f` in the first `n` rows, as far as the values reach. */
  ghost predicate Filled(m: RowMatrix, column: seq<Option<F64>>, f: nat, n: nat)
    requires m.validityMask.Some? ==> |m.validityMask.value| == |m.values|
  {
    && |column| == n
    && forall r :: 0 <= r < n ==>
         RowMajorAt(|m.featureNames|, r, f) < |m.values| && column[r] == FlatCell(m, RowMajorAt(|m.featureNames|, r, f))
  }

  /** Builds the buffer the matrix describes; when the product of the counts wraps to the
      number of values, it stops the program: here at the first value that is not there, on a
      32-bit machine already on reserving room for more cells than its memory has. */
  method FromF64Matrix(host: Host, m: RowMatrix) returns (outcome: Outcome<Buffer>)
    requires Addressable(host, m)
    ensures outcome == if Wraps(host, m) then Trapped else Returned(FromRows(host, m))
  {
    hide WrappedProduct, IndexOf, NamesOk, Distinct, ShapeOk, IsFinite;
    var valid := ValidateRows(host, m);
    if !valid {
      return Returned(ValidationError);
    }
    var rowCount, featureCount := |m.observationIds|, |m.featureNames|;
    var columns: seq<seq<Option<F64>>> := seq(featureCount, _ => []);
    for r := 0 to rowCount
      invariant |columns| == featureCount && RowMajorAt(featureCount, r, 0) <= |m.values|
      invariant forall f :: 0 <= f < featureCount ==> Filled(m, columns[f], f, r)
    {
      for f := 0 to featureCount
        invariant |columns| == featureCount && RowMajorAt(featureCount, r, f) <= |m.values|
        invariant forall k :: 0 <= k < f ==> Filled(m, columns[k], k, r + 1)
        invariant forall k :: f <= k < featureCount ==> Filled(m, columns[k], k, r)
      {
        FlatInRange(featureCount, rowCount, r, f);
        var flat := RowMajorAt(featureCount, r, f);
        assert flat <= host.usizeMax;
        if flat >= |m.values| {
          return Trapped;
        }
        var isValid := if m.validityMask.Some? then m.validityMask.value[flat] else true;
        columns := columns[f := columns[f] + [if isValid then Some(m.values[flat]) else None]];
      }
      NextRow(featureCount, r);
    }
    FilledAll(host, m, columns);
    return Returned(Ok(Buffer(m.featureSetId, m.representationId, m.featureNames, m.observationIds,
                              columns, IndexOf(m.observationIds))));
  }

  lemma NextRow(features: nat, r: nat)
    ensures RowMajorAt(features, r, features) == RowMajorAt(features, r + 1, 0)
  {}

  lemma FilledAll(host: Host, m: RowMatrix, columns: seq<seq<Option<F64>>>)
    requires Addressable(host, m) && (RowShape(host, m) || Wraps(host, m))
    requires |columns| == |m.featureNames| && RowMajorAt(|m.featureNames|, |m.observationIds|, 0) <= |m.values|
    requires forall f :: 0 <= f < |columns| ==> Filled(m, columns[f], f, |m.observationIds|)
    ensures !Wraps(host, m) && columns == RowCells(host, m)
  {
    hide ShapeOk;
    forall f | 0 <= f < |columns|
      ensures columns[f] == RowCells(host, m)[f]
    {
      assert Filled(m, columns[f], f, |m.observationIds|);
    }
  }

  /** A row-major matrix is accepted only if the product of its counts fits. */
  lemma AcceptedProductFits(host: Host, m: RowMatrix)
    requires Addressable(host, m) && FromRows(host, m).Ok?
    ensures |m.featureNames| * |m.observationIds| <= host.usizeMax && !Wraps(host, m)
  {}

  method FromFeatureTable(host: Host, t: FeatureTable) returns (result: Result<Buffer>)
    ensures result == FromTable(host, t)
  {
    var valid := ValidateTable(host, t);
    if !valid {
      return ValidationError;
    }
    var columns: seq<seq<Option<F64>>> := seq(|t.featureNames|, _ => []);
    for r := 0 to |t.rows|
      invariant |columns| == |t.featureNames|
      invariant forall r', f :: 0 <= r' < r && 0 <= f < |t.featureNames| ==> JsonCell(t.rows[r'].values[f]).Ok?
      invariant forall f :: 0 <= f < |t.featureNames| ==> |columns[f]| == r
      invariant forall f, k :: 0 <= f < |t.featureNames| && 0 <= k < r ==>
        columns[f][k] == JsonCell(t.rows[k].values[f]).value
    {
      var values := t.rows[r].values;
      for f := 0 to |values|
        invariant |columns| == |t.featureNames|
        invariant forall k :: 0 <= k < f ==> JsonCell(values[k]).Ok?
        invariant forall k :: 0 <= k < |t.featureNames| ==> |columns[k]| == if k < f then r + 1 else r
        invariant forall k, i :: 0 <= k < |t.featureNames| && 0 <= i < r ==>
          columns[k][i] == JsonCell(t.rows[i].values[k]).value
        invariant forall k :: 0 <= k < f ==> columns[k][r] == JsonCell(values[k]).value
      {
        var cell := JsonCell(values[f]);
        if cell.ValidationError? {
          return ValidationError;
        }
        columns := columns[f := columns[f] + [cell.value]];
      }
    }
    assert AllNumeric(t);
    assert forall f :: 0 <= f < |t.featureNames| ==> columns[f] == TableCells(t)[f];
    assert columns == TableCells(t);
    return Ok(Buffer(t.featureSetId, t.representationId, t.featureNames, RowIds(t), columns, IndexOf(RowIds(t))));
  }

  method ValidateTable(host: Host, t: FeatureTable) returns (ok: bool)
    ensures ok <==> TableShape(host, t)
  {
    ok := ValidateNames(host, t.featureSetId, t.featureNames);
    if !ok || t.rows == [] {
      return false;
    }
    ok := AllDistinct(RowIds(t));
    for r := 0 to |t.rows|
      invariant ok ==> Distinct(RowIds(t)) && forall k :: 0 <= k < r ==> |t.rows[k].values| == |t.featureNames|
      invariant !ok ==> !TableShape(host, t)
    {
      if |t.rows[r].values| != |t.featureNames| {
        ok := false;
      }
    }
  }

  // ----- the constructors, in the fields of their inputs -----

  /** Apart from its sign bit, the pattern lies below that of infinity. */
  lemma FiniteMeans(v: F64)
    ensures IsFinite(v) <==> v % 0x8000_0000_0000_0000 < 0x7FF0_0000_0000_0000
  {
    var q := v / 0x10_0000_0000_0000;
    assert v == q * 0x10_0000_0000_0000 + v % 0x10_0000_0000_0000;
    assert q == q / 2048 * 2048 + q % 2048;
  }

  /** A cell that may be there keeps its value, a masked one keeps none. */
  lemma ColumnsInFields(host: Host, m: ColumnMatrix, b: Buffer, f: nat, r: nat)
    requires FromColumns(host, m) == Ok(b)
    ensures b.featureSetId == m.featureSetId && b.representationId == m.representationId
    ensures b.featureNames == m.featureNames && b.observationIds == m.observationIds
    ensures |b.columns| == |m.featureNames| == |m.columns|
    ensures f < |m.featureNames| ==> |b.columns[f]| == |m.observationIds| == |m.columns[f]|
    ensures f < |m.featureNames| && r < |m.observationIds| ==>
      b.columns[f][r] == if m.validityMasks.Some? && !m.validityMasks.value[f][r] then None else Some(m.columns[f][r])
    ensures r < |m.observationIds| ==> m.observationIds[r] in b.rowIndex && b.rowIndex[m.observationIds[r]] == r
  {
    IndexOfDistinct(m.observationIds);
  }

  /** What the columnar constructor asks of a matrix. */
  lemma ColumnsAccepted(host: Host, m: ColumnMatrix)
    ensures FromColumns(host, m).Ok? <==>
      && !host.blank(m.featureSetId) && m.featureNames != [] && m.observationIds != []
      && (forall i :: 0 <= i < |m.featureNames| ==> !host.blank(m.featureNames[i]))
      && (forall i, j :: 0 <= i < j < |m.featureNames| ==> m.featureNames[i] != m.featureNames[j])
      && (forall i, j :: 0 <= i < j < |m.observationIds| ==> m.observationIds[i] != m.observationIds[j])
      && |m.columns| == |m.featureNames|
      && (forall f :: 0 <= f < |m.columns| ==> |m.columns[f]| == |m.observationIds|)
      && (m.validityMasks.Some? ==>
            && |m.validityMasks.value| == |m.featureNames|
            && forall f :: 0 <= f < |m.validityMasks.value| ==> |m.validityMasks.value[f]| == |m.observationIds|)
      && (forall f, r :: 0 <= f < |m.columns| && 0 <= r < |m.observationIds| ==>
            || (m.validityMasks.Some? && !m.validityMasks.value[f][r])
            || m.columns[f][r] % 0x8000_0000_0000_0000 < 0x7FF0_0000_0000_0000)
  {
    hide IsFinite;
    if ColumnShape(host, m) {
      forall f, r | 0 <= f < |m.columns| && 0 <= r < |m.observationIds|
        ensures IsFinite(m.columns[f][r]) <==> m.columns[f][r] % 0x8000_0000_0000_0000 < 0x7FF0_0000_0000_0000
        ensures ColumnCells(host, m)[f][r] == ColumnCell(host, m, r, f)
      {
        FiniteMeans(m.columns[f][r]);
      }
    }
  }

  /** Row-major: the cell of row `r` and feature `f` comes from value `r * features + f`. */
  lemma RowsInFields(host: Host, m: RowMatrix, b: Buffer, f: nat, r: nat)
    requires FromRows(host, m) == Ok(b)
    ensures b.featureSetId == m.featureSetId && b.representationId == m.representationId
    ensures b.featureNames == m.featureNames && b.observationIds == m.observationIds
    ensures |b.columns| == |m.featureNames| && |m.values| == |m.featureNames| * |m.observationIds|
    ensures f < |m.featureNames| ==> |b.columns[f]| == |m.observationIds|
    ensures f < |m.featureNames| && r < |m.observationIds| ==>
      var at := r * |m.featureNames| + f;
      && at < |m.values| && (m.validityMask.Some? ==> at < |m.validityMask.value|)
      && b.columns[f][r] == if m.validityMask.Some? && !m.validityMask.value[at] then None else Some(m.values[at])
    ensures r < |m.observationIds| ==> m.observationIds[r] in b.rowIndex && b.rowIndex[m.observationIds[r]] == r
  {
    IndexOfDistinct(m.observationIds);
    if f < |m.featureNames| && r < |m.observationIds| {
      FlatInRange(|m.featureNames|, |m.observationIds|, r, f);
    }
  }

  /** Rows and masks laid end to end come back as rows: cell (f, r) is element f of row r. */
  lemma RowsLaidEndToEnd(host: Host, m: RowMatrix, rows: seq<seq<F64>>, masks: seq<seq<bool>>, b: Buffer,
                         f: nat, r: nat)
    requires FromRows(host, m) == Ok(b) && m.values == Flatten(rows)
    requires m.validityMask.Some? ==> m.validityMask.value == Flatten(masks)
    requires |rows| == |masks| == |m.observationIds|
    requires forall k :: 0 <= k < |rows| ==> |rows[k]| == |masks[k]| == |m.featureNames|
    requires f < |m.featureNames| && r < |rows|
    ensures |b.columns| == |m.featureNames| && |b.columns[f]| == |rows|
    ensures b.columns[f][r] == if m.validityMask.None? || masks[r][f] then Some(rows[r][f]) else None
  {
    hide Flatten;
    RowsInFields(host, m, b, f, r);
    FlattenCell(rows, |m.featureNames|, r, f);
    FlattenCell(masks, |m.featureNames|, r, f);
  }

  /** What the row-major constructor asks of a matrix. */
  lemma RowsAccepted(host: Host, m: RowMatrix)
    ensures FromRows(host, m).Ok? <==>
      && !host.blank(m.featureSetId) && m.featureNames != [] && m.observationIds != []
      && (forall i :: 0 <= i < |m.featureNames| ==> !host.blank(m.featureNames[i]))
      && (forall i, j :: 0 <= i < j < |m.featureNames| ==> m.featureNames[i] != m.featureNames[j])
      && (forall i, j :: 0 <= i < j < |m.observationIds| ==> m.observationIds[i] != m.observationIds[j])
      && |m.values| == |m.featureNames| * |m.observationIds|
      && (m.validityMask.Some? ==> |m.validityMask.value| == |m.featureNames| * |m.observationIds|)
      && (forall i :: 0 <= i < |m.values| && (m.validityMask.Some? ==> m.validityMask.value[i]) ==>
            m.values[i] % 0x8000_0000_0000_0000 < 0x7FF0_0000_0000_0000)
  {
    hide IsFinite, PresentFinite, RowCells;
    forall i | 0 <= i < |m.values|
      ensures IsFinite(m.values[i]) <==> m.values[i] % 0x8000_0000_0000_0000 < 0x7FF0_0000_0000_0000
    {
      FiniteMeans(m.values[i]);
    }
    if RowShape(host, m) { FlatFiniteIsCellFinite(host, m); }
  }

  /** When it stops the program: all else is in order, and the product of the counts is too large
      for a word but leaves the number of values modulo the word. */
  lemma WrapsInFields(host: Host, m: RowMatrix)
    ensures Wraps(host, m) <==>
      && !host.blank(m.featureSetId) && m.featureNames != [] && m.observationIds != []
      && (forall i :: 0 <= i < |m.featureNames| ==> !host.blank(m.featureNames[i]))
      && (forall i, j :: 0 <= i < j < |m.featureNames| ==> m.featureNames[i] != m.featureNames[j])
      && (forall i, j :: 0 <= i < j < |m.observationIds| ==> m.observationIds[i] != m.observationIds[j])
      && |m.featureNames| * |m.observationIds| > host.usizeMax
      && |m.values| == |m.featureNames| * |m.observationIds| % (host.usizeMax + 1)
      && (m.validityMask.Some? ==> |m.validityMask.value| == |m.values|)
      && (forall i :: 0 <= i < |m.values| && (m.validityMask.Some? ==> m.validityMask.value[i]) ==>
            m.values[i] % 0x8000_0000_0000_0000 < 0x7FF0_0000_0000_0000)
  {
    hide IsFinite;
    forall i | 0 <= i < |m.values|
      ensures IsFinite(m.values[i]) <==> m.values[i] % 0x8000_0000_0000_0000 < 0x7FF0_0000_0000_0000
    {
      FiniteMeans(m.values[i]);
    }
  }

  /** A table is accepted if its names and rows are well formed and it holds only numbers that
      are floats, and nulls; the numbers are its cells. */
  lemma TableInFields(host: Host, t: FeatureTable, f: nat, r: nat)
    ensures FromTable(host, t).Ok? <==>
      && !host.blank(t.featureSetId) && t.featureNames != [] && t.rows != []
      && (forall i :: 0 <= i < |t.featureNames| ==> !host.blank(t.featureNames[i]))
      && (forall i, j :: 0 <= i < j < |t.featureNames| ==> t.featureNames[i] != t.featureNames[j])
      && (forall i, j :: 0 <= i < j < |t.rows| ==> t.rows[i].observationId != t.rows[j].observationId)
      && (forall i :: 0 <= i < |t.rows| ==> |t.rows[i].values| == |t.featureNames|)
      && (forall i, j :: 0 <= i < |t.rows| && 0 <= j < |t.rows[i].values| ==>
            t.rows[i].values[j] == Null || (t.rows[i].values[j].Number? && t.rows[i].values[j].asF64.Some?))
    ensures FromTable(host, t).Ok? ==>
      var b := FromTable(host, t).value;
      && b.featureSetId == t.featureSetId && b.representationId == t.representationId
      && b.featureNames == t.featureNames && |b.columns| == |t.featureNames| && |b.observationIds| == |t.rows|
      && (r < |t.rows| ==> b.observationIds[r] == t.rows[r].observationId)
      && (f < |t.featureNames| && r < |t.rows| ==>
            && |b.columns[f]| == |t.rows|
            && b.columns[f][r] == if t.rows[r].values[f] == Null then None else t.rows[r].values[f].asF64)
  {
    assert forall i :: 0 <= i < |t.rows| ==> RowIds(t)[i] == t.rows[i].observationId;
  }

  /** What a buffer has to satisfy. */
  lemma BufferValidInFields(host: Host, b: Buffer)
    ensures BufferValid(host, b) <==>
      && !host.blank(b.featureSetId) && b.featureNames != [] && b.observationIds != []
      && (forall i :: 0 <= i < |b.featureNames| ==> !host.blank(b.featureNames[i]))
      && (forall i, j :: 0 <= i < j < |b.featureNames| ==> b.featureNames[i] != b.featureNames[j])
      && |b.columns| == |b.featureNames| && |b.rowIndex| == |b.observationIds|
      && (forall i :: 0 <= i < |b.observationIds| ==>
            b.observationIds[i] in b.rowIndex && b.rowIndex[b.observationIds[i]] == i)
      && (forall f :: 0 <= f < |b.columns| ==> |b.columns[f]| == |b.observationIds|)
  {}

  // ----- one logical matrix, one buffer -----

  /** The row-major and the columnar constructor agree, on acceptance and on the buffer,
      whenever the two inputs carry the same header and the same logical cells. */
  lemma LayoutIndependent(host: Host, rm: RowMatrix, cm: ColumnMatrix)
    requires RowShape(host, rm) && ColumnShape(host, cm)
    requires rm.featureSetId == cm.featureSetId && rm.representationId == cm.representationId
    requires rm.featureNames == cm.featureNames && rm.observationIds == cm.observationIds
    requires forall r, f :: 0 <= r < |rm.observationIds| && 0 <= f < |rm.featureNames| ==>
      RowCell(host, rm, r, f) == ColumnCell(host, cm, r, f)
    ensures FromRows(host, rm) == FromColumns(host, cm)
  {
    forall f | 0 <= f < |rm.featureNames|
      ensures RowCells(host, rm)[f] == ColumnCells(host, cm)[f]
    {
      forall r | 0 <= r < |rm.observationIds|
        ensures RowCells(host, rm)[f][r] == ColumnCells(host, cm)[f][r]
      {
        assert RowCell(host, rm, r, f) == ColumnCell(host, cm, r, f);
      }
    }
    assert RowCells(host, rm) == ColumnCells(host, cm);
  }

  /** A table of numbers and nulls gives the same buffer as a columnar matrix with the
      same logical cells, provided its numbers are finite, which JSON numbers are. */
  lemma TableAgrees(host: Host, t: FeatureTable, cm: ColumnMatrix)
    requires TableShape(host, t) && AllNumeric(t) && ColumnShape(host, cm)
    requires PresentFinite(TableCells(t))
    requires t.featureSetId == cm.featureSetId && t.representationId == cm.representationId
    requires t.featureNames == cm.featureNames && RowIds(t) == cm.observationIds
    requires forall r, f :: 0 <= r < |t.rows| && 0 <= f < |t.featureNames| ==>
      JsonCell(t.rows[r].values[f]) == Ok(ColumnCell(host, cm, r, f))
    ensures FromTable(host, t) == FromColumns(host, cm)
  {
    forall f | 0 <= f < |t.featureNames|
      ensures TableCells(t)[f] == ColumnCells(host, cm)[f]
    {
      forall r | 0 <= r < |t.rows|
        ensures TableCells(t)[f][r] == ColumnCells(host, cm)[f][r]
      {
        assert JsonCell(t.rows[r].values[f]) == Ok(ColumnCell(host, cm, r, f));
      }
    }
    assert TableCells(t) == ColumnCells(host, cm);
  }

  // ----- valid buffers, and the way back to a matrix -----

  /** `NumericFeatureBuffer::validate`. */
  ghost predicate BufferValid(host: Host, b: Buffer) {
    && !host.blank(b.featureSetId)
    && NamesOk(host, b.featureNames)
    && |b.featureNames| == |b.columns|
    && b.observationIds != []
    && |b.observationIds| == |b.rowIndex|
    && (forall i :: 0 <= i < |b.observationIds| ==>
          b.observationIds[i] in b.rowIndex && b.rowIndex[b.observationIds[i]] == i)
    && (forall f :: 0 <= f < |b.columns| ==> |b.columns[f]| == |b.observationIds|)
  }

  method Validate(host: Host, b: Buffer) returns (ok: bool)
    ensures ok <==> BufferValid(host, b)
  {
    if host.blank(b.featureSetId) || b.featureNames == [] || |b.featureNames| != |b.columns|
       || b.observationIds == [] || |b.observationIds| != |b.rowIndex| {
      return false;
    }
    ok := ValidateNames(host, b.featureSetId, b.featureNames);
    if !ok {
      return false;
    }
    for i := 0 to |b.observationIds|
      invariant forall k :: 0 <= k < i ==>
        b.observationIds[k] in b.rowIndex && b.rowIndex[b.observationIds[k]] == k
    {
      if b.observationIds[i] !in b.rowIndex || b.rowIndex[b.observationIds[i]] != i {
        return false;
      }
    }
    for f := 0 to |b.columns|
      invariant forall k :: 0 <= k < f ==> |b.columns[k]| == |b.observationIds|
    {
      if |b.columns[f]| != |b.observationIds| {
        return false;
      }
    }
    return true;
  }

  /** A buffer a constructor accepted is valid and holds only finite values. */
  lemma ConstructedValid(host: Host, m: ColumnMatrix)
    requires FromColumns(host, m).Ok?
    ensures BufferValid(host, FromColumns(host, m).value)
    ensures PresentFinite(FromColumns(host, m).value.columns)
  {
    IndexOfDistinct(m.observationIds);
  }

  ghost predicate AnyNull(columns: seq<seq<Option<F64>>>) {
    exists f, r :: 0 <= f < |columns| && 0 <= r < |columns[f]| && columns[f][r].None?
  }

  function Values(column: seq<Option<F64>>): seq<F64> {
    seq(|column|, r requires 0 <= r < |column| => if column[r].Some? then column[r].value else ZERO)
  }

  function Presence(column: seq<Option<F64>>): seq<bool> {
    seq(|column|, r requires 0 <= r < |column| => column[r].Some?)
  }

  /** Columns of optional cells as plain values, with masks only if a cell is missing. */
  ghost function CellMatrix(featureSetId: Text, representationId: Text, names: seq<Text>, observations: seq<Text>,
                            columns: seq<seq<Option<F64>>>): ColumnMatrix {
    ColumnMatrix(featureSetId, representationId, names, observations,
                 seq(|columns|, f requires 0 <= f < |columns| => Values(columns[f])),
                 if AnyNull(columns)
                 then Some(seq(|columns|, f requires 0 <= f < |columns| => Presence(columns[f])))
                 else None)
  }

  ghost function ToColumns(b: Buffer): ColumnMatrix {
    CellMatrix(b.featureSetId, b.representationId, b.featureNames, b.observationIds, b.columns)
  }

  method ToF64ColumnMatrix(b: Buffer) returns (m: ColumnMatrix)
    ensures m == ToColumns(b)
  {
    var columns: seq<seq<F64>> := [];
    var masks: seq<seq<bool>> := [];
    var anyNull := false;
    for f := 0 to |b.columns|
      invariant |columns| == |masks| == f
      invariant forall k :: 0 <= k < f ==> columns[k] == Values(b.columns[k]) && masks[k] == Presence(b.columns[k])
      invariant anyNull <==> exists k, r :: 0 <= k < f && 0 <= r < |b.columns[k]| && b.columns[k][r].None?
    {
      var values: seq<F64> := [];
      var mask: seq<bool> := [];
      ghost var nullBefore := anyNull;
      for r := 0 to |b.columns[f]|
        invariant values == Values(b.columns[f])[..r] && mask == Presence(b.columns[f])[..r]
        invariant anyNull <==> nullBefore || exists k :: 0 <= k < r && b.columns[f][k].None?
      {
        match b.columns[f][r] {
          case Some(value) =>
            values, mask := values + [value], mask + [true];
          case None =>
            values, mask := values + [ZERO], mask + [false];
            anyNull := true;
        }
      }
      columns, masks := columns + [values], masks + [mask];
    }
    assert columns == ToColumns(b).columns;
    assert anyNull ==> masks == ToColumns(b).validityMasks.value;
    m := ColumnMatrix(b.featureSetId, b.representationId, b.featureNames, b.observationIds,
                      columns, if anyNull then Some(masks) else None);
  }

  /** Flattening a valid buffer to a matrix and constructing it again changes nothing,
      masked cells and row index included. */
  lemma ToColumnsAndBack(host: Host, b: Buffer)
    requires BufferValid(host, b) && PresentFinite(b.columns)
    ensures FromColumns(host, ToColumns(b)) == Ok(b)
  {
    IndexOfUnique(b.observationIds, b.rowIndex);
    var m := ToColumns(b);
    assert ColumnShape(host, m);
    forall f | 0 <= f < |b.columns|
      ensures ColumnCells(host, m)[f] == b.columns[f]
    {
      forall r | 0 <= r < |b.observationIds|
        ensures ColumnCell(host, m, r, f) == b.columns[f][r]
      {
        assert b.columns[f][r].None? ==> AnyNull(b.columns);
      }
    }
    assert ColumnCells(host, m) == b.columns;
  }

  /** A missing cell is written as zero, with masks only if a cell is missing. */
  lemma MatrixInFields(b: Buffer, f: nat, r: nat)
    ensures
      var m := ToColumns(b);
      && m.featureSetId == b.featureSetId && m.representationId == b.representationId
      && m.featureNames == b.featureNames && m.observationIds == b.observationIds
      && |m.columns| == |b.columns|
      && (m.validityMasks.Some? <==>
            exists k, i :: 0 <= k < |b.columns| && 0 <= i < |b.columns[k]| && b.columns[k][i].None?)
      && (m.validityMasks.Some? ==> |m.validityMasks.value| == |b.columns|)
      && (f < |b.columns| ==> |m.columns[f]| == |b.columns[f]|)
      && (f < |b.columns| && r < |b.columns[f]| ==>
            m.columns[f][r] == if b.columns[f][r].Some? then b.columns[f][r].value else 0)
      && (f < |b.columns| && r < |b.columns[f]| && m.validityMasks.Some? ==>
            && |m.validityMasks.value[f]| == |b.columns[f]|
            && m.validityMasks.value[f][r] == b.columns[f][r].Some?)
  {}
}
