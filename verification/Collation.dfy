/** Padding and truncating ragged numeric rows into a dense tensor
    (crates/dag-ml-data-core/src/collation.rs). */
module Collation {
  import opened FeatureBuffer
  import opened Sequences
  import opened Words
  import opened Wrappers

  datatype Padding = NoPadding | PadRight | PadLeft | PadCenter

  datatype Policy = Policy(
    padding: Padding,
    truncate: bool,
    batchContainer: Option<Text>,
    emitMask: bool,
    maxLength: Option<nat>,
    padValue: F64)

  datatype Input = Input(
    blockId: Text,
    representationId: Text,
    observationIds: seq<Text>,
    sampleIds: seq<Text>,
    rows: seq<seq<Option<F64>>>,
    featureNames: Option<seq<Text>>)

  datatype Tensor = Tensor(
    blockId: Text,
    representationId: Text,
    batchContainer: Text,
    observationIds: seq<Text>,
    sampleIds: seq<Text>,
    batch: nat,
    width: nat,
    values: seq<F64>,
    presenceMask: Option<seq<bool>>,
    validityMask: Option<seq<bool>>,
    featureNames: Option<seq<Text>>)

  // the size of an `Option<f64>`
  const CELL_BYTES := 16

  // ----- what is accepted -----

  ghost predicate RowOk(row: seq<Option<F64>>) {
    row != [] && forall j :: 0 <= j < |row| && row[j].Some? ==> IsFinite(row[j].value)
  }

  ghost predicate InputOk(host: Host, input: Input) {
    && !host.blank(input.blockId)
    && input.observationIds != []
    && |input.observationIds| == |input.sampleIds| == |input.rows|
    && Distinct(input.observationIds)
    && (forall r :: 0 <= r < |input.rows| ==> RowOk(input.rows[r]))
    && (input.featureNames.Some? ==> NamesOk(host, input.featureNames.value))
  }

  ghost predicate PolicyOk(host: Host, policy: Policy) {
    && policy.maxLength != Some(0)
    && (policy.batchContainer.Some? ==> !host.blank(policy.batchContainer.value))
    && IsFinite(policy.padValue)
  }

  function LongestRow(rows: seq<seq<Option<F64>>>): (n: nat)
    ensures forall r :: 0 <= r < |rows| ==> |rows[r]| <= n
    ensures rows != [] ==> exists r :: 0 <= r < |rows| && |rows[r]| == n
  {
    if rows == [] then 0
    else
      var last := |rows| - 1;
      var front := LongestRow(rows[..last]);
      assert forall r :: 0 <= r < last ==> |rows[..last][r]| == |rows[r]|;
      if |rows[last]| > front then |rows[last]| else front
  }

  function Target(input: Input, policy: Policy): nat {
    if policy.maxLength.Some? then policy.maxLength.value else LongestRow(input.rows)
  }

  /** A row can be brought to the target length under the policy. */
  predicate RowFits(row: seq<Option<F64>>, target: nat, policy: Policy) {
    (|row| > target ==> policy.truncate) && (|row| < target ==> policy.padding != NoPadding)
  }

  ghost predicate TargetOk(input: Input, policy: Policy) {
    && Target(input, policy) > 0
    && forall r :: 0 <= r < |input.rows| ==> RowFits(input.rows[r], Target(input, policy), policy)
  }

  ghost predicate NamesFit(input: Input, policy: Policy) {
    input.featureNames.Some? ==>
      var names := |input.featureNames.value|;
      && (forall r :: 0 <= r < |input.rows| ==> |input.rows[r]| == names)
      && Target(input, policy) <= names
      && (Target(input, policy) < names ==> policy.truncate)
  }

  /** `count` elements of `size` bytes are not more than one allocation may hold. */
  predicate Reservable(host: Host, count: nat, size: nat) {
    count * size <= SignedMax(host.usizeMax)
  }

  /** A row that has to be padded needs room for its cells, 16 bytes each. */
  predicate Paddable(host: Host, row: seq<Option<F64>>, target: nat) {
    |row| < target ==> Reservable(host, target, CELL_BYTES)
  }

  /** The four checks in front of the projection, and the size of the tensor in cells and bytes. */
  ghost predicate Accepted(host: Host, input: Input, policy: Policy) {
    && InputOk(host, input)
    && PolicyOk(host, policy)
    && TargetOk(input, policy)
    && NamesFit(input, policy)
    && |input.rows| * Target(input, policy) <= host.usizeMax
    && Reservable(host, |input.rows| * Target(input, policy), VALUE_BYTES)
    && forall r :: 0 <= r < |input.rows| ==> Paddable(host, input.rows[r], Target(input, policy))
  }

  // ----- one row -----

  /** Where truncation to `target` starts. */
  function TruncateStart(length: nat, target: nat, padding: Padding): nat
    requires target <= length
  {
    match padding
    case PadLeft => length - target
    case PadCenter => (length - target) / 2
    case _ => 0
  }

  /** The columns a row keeps: `[KeptFrom, KeptFrom + KeptCount)`. */
  function KeptFrom(length: nat, target: nat, padding: Padding): nat {
    if length > target then TruncateStart(length, target, padding) else 0
  }

  function KeptCount(length: nat, target: nat): nat {
    if length > target then target else length
  }

  /** How many padding cells stand in front of a row that is too short. */
  function PadBefore(length: nat, target: nat, padding: Padding): nat {
    if length >= target then 0
    else
      match padding
      case PadLeft => target - length
      case PadCenter => (target - length) / 2
      case _ => 0
  }

  /** Whether column `j` of a projected row comes from the row. */
  predicate Present(length: nat, target: nat, padding: Padding, j: nat) {
    PadBefore(length, target, padding) <= j < PadBefore(length, target, padding) + KeptCount(length, target)
  }

  /** Which column of the row it comes from. */
  function SourceColumn(length: nat, target: nat, padding: Padding, j: nat): nat
    requires Present(length, target, padding, j)
  {
    KeptFrom(length, target, padding) + j - PadBefore(length, target, padding)
  }

  lemma SourceInRange(length: nat, target: nat, padding: Padding, j: nat)
    requires Present(length, target, padding, j)
    ensures SourceColumn(length, target, padding, j) < length && j < target
  {}

  function CellRow(row: seq<Option<F64>>, target: nat, padding: Padding): (cells: seq<Option<F64>>)
    ensures |cells| == target
  {
    seq(target, j requires 0 <= j < target =>
      if Present(|row|, target, padding, j)
      then (SourceInRange(|row|, target, padding, j); row[SourceColumn(|row|, target, padding, j)])
      else None)
  }

  function PresenceRow(row: seq<Option<F64>>, target: nat, padding: Padding): (presence: seq<bool>)
    ensures |presence| == target
  {
    seq(target, j requires 0 <= j < target => Present(|row|, target, padding, j))
  }

  function ValueRow(row: seq<Option<F64>>, target: nat, policy: Policy): (values: seq<F64>)
    ensures |values| == target
  {
    var cells := CellRow(row, target, policy.padding);
    seq(target, j requires 0 <= j < target => if cells[j].Some? then cells[j].value else policy.padValue)
  }

  function ValidRow(row: seq<Option<F64>>, target: nat, padding: Padding): (valid: seq<bool>)
    ensures |valid| == target
  {
    var cells := CellRow(row, target, padding);
    seq(target, j requires 0 <= j < target => Present(|row|, target, padding, j) && cells[j].Some?)
  }

  datatype ProjectedRow = ProjectedRow(values: seq<Option<F64>>, presence: seq<bool>)

  /** `reserve_collation`, for elements of `size` bytes. */
  method ReserveCollation<T>(host: Host, count: nat, size: nat) returns (r: Result<seq<T>>)
    ensures r == if Reservable(host, count, size) then Ok([]) else ValidationError
  {
    return if Reservable(host, count, size) then Ok([]) else ValidationError;
  }

  /** `project_row`. Apart from a row too large to pad, its error branches are taken only by
      rows that do not fit. */
  method ProjectRow(host: Host, row: seq<Option<F64>>, target: nat, policy: Policy) returns (r: Result<ProjectedRow>)
    ensures r.Ok? <==> RowFits(row, target, policy) && Paddable(host, row, target)
    ensures r.Ok? ==>
      r.value == ProjectedRow(CellRow(row, target, policy.padding), PresenceRow(row, target, policy.padding))
  {
    var truncated := row;
    if |row| > target {
      if !policy.truncate {
        return ValidationError;
      }
      var start := TruncateStart(|row|, target, policy.padding);
      truncated := row[start..start + target];
    }
    if |truncated| == target {
      var all := seq(target, j => true);
      assert all == PresenceRow(row, target, policy.padding);
      assert truncated == CellRow(row, target, policy.padding);
      return Ok(ProjectedRow(truncated, all));
    }
    if policy.padding == NoPadding {
      return ValidationError;
    }
    var missing := target - |truncated|;
    var leftPad := match policy.padding
      case PadLeft => missing
      case PadCenter => missing / 2
      case _ => 0;
    var rightPad := missing - leftPad;
    var cells := ReserveCollation<Option<F64>>(host, target, CELL_BYTES);
    var flags := ReserveCollation<bool>(host, target, 1);
    if cells.ValidationError? || flags.ValidationError? {
      return ValidationError;
    }
    var values := cells.value + seq(leftPad, _ => None) + truncated + seq(rightPad, _ => None);
    var presence := flags.value + seq(leftPad, _ => false)
                    + seq(target - leftPad - rightPad, _ => true) + seq(rightPad, _ => false);
    assert values == CellRow(row, target, policy.padding);
    assert presence == PresenceRow(row, target, policy.padding);
    return Ok(ProjectedRow(values, presence));
  }

  // ----- the whole tensor -----

  ghost function ValueRows(input: Input, policy: Policy): seq<seq<F64>> {
    seq(|input.rows|, r requires 0 <= r < |input.rows| => ValueRow(input.rows[r], Target(input, policy), policy))
  }

  ghost function PresenceRows(input: Input, policy: Policy): seq<seq<bool>> {
    seq(|input.rows|, r requires 0 <= r < |input.rows| =>
      PresenceRow(input.rows[r], Target(input, policy), policy.padding))
  }

  ghost function ValidRows(input: Input, policy: Policy): seq<seq<bool>> {
    seq(|input.rows|, r requires 0 <= r < |input.rows| =>
      ValidRow(input.rows[r], Target(input, policy), policy.padding))
  }

  ghost predicate AllTrue(flags: seq<bool>) {
    forall j :: 0 <= j < |flags| ==> flags[j]
  }

  ghost predicate FullyValid(input: Input, policy: Policy) {
    forall r :: 0 <= r < |input.rows| ==> AllTrue(ValidRows(input, policy)[r])
  }

  /** The names of the kept columns. */
  function NamesKept(names: Option<seq<Text>>, target: nat, padding: Padding): Option<seq<Text>>
    requires names.Some? ==> target <= |names.value|
  {
    if names.None? then None
    else
      var start := KeptFrom(|names.value|, target, padding);
      Some(names.value[start..start + target])
  }

  const NDARRAY: Text := [0x6E, 0x64, 0x61, 0x72, 0x72, 0x61, 0x79]

  ghost predicate IsCollated(input: Input, policy: Policy, t: Tensor) {
    && (input.featureNames.Some? ==> Target(input, policy) <= |input.featureNames.value|)
    && t.blockId == input.blockId && t.representationId == input.representationId
    && t.observationIds == input.observationIds && t.sampleIds == input.sampleIds
    && t.batchContainer == (if policy.batchContainer.Some? then policy.batchContainer.value else NDARRAY)
    && t.batch == |input.rows| && t.width == Target(input, policy)
    && t.values == Flatten(ValueRows(input, policy))
    && t.presenceMask == (if policy.emitMask then Some(Flatten(PresenceRows(input, policy))) else None)
    && t.validityMask == (if FullyValid(input, policy) then None else Some(Flatten(ValidRows(input, policy))))
    && t.featureNames == NamesKept(input.featureNames, Target(input, policy), policy.padding)
  }

  /** `projected_feature_names`, whose error branch needs more columns than names. */
  method ProjectedFeatureNames(names: Option<seq<Text>>, target: nat, policy: Policy)
    returns (r: Result<Option<seq<Text>>>)
    ensures r.Ok? <==> (names.Some? ==> target <= |names.value|)
    ensures r.Ok? ==> r.value == NamesKept(names, target, policy.padding)
  {
    if names.None? {
      return Ok(None);
    }
    if target == |names.value| {
      assert names.value[0..target] == names.value;
      return Ok(names);
    }
    if target > |names.value| {
      return ValidationError;
    }
    var start := TruncateStart(|names.value|, target, policy.padding);
    return Ok(Some(names.value[start..start + target]));
  }

  method ValidateInput(host: Host, input: Input) returns (ok: bool)
    ensures ok <==> InputOk(host, input)
  {
    if host.blank(input.blockId) || input.observationIds == []
       || |input.observationIds| != |input.sampleIds| || |input.sampleIds| != |input.rows| {
      return false;
    }
    var seen: set<Text> := {};
    for r := 0 to |input.rows|
      invariant forall x :: x in seen <==> x in input.observationIds[..r]
      invariant Distinct(input.observationIds[..r])
      invariant forall k :: 0 <= k < r ==> RowOk(input.rows[k])
    {
      var id := input.observationIds[r];
      assert id in seen ==> exists k :: 0 <= k < r && input.observationIds[k] == id;
      if id in seen || input.rows[r] == [] {
        return false;
      }
      assert input.observationIds[..r + 1] == input.observationIds[..r] + [id];
      seen := seen + {id};
      var row := input.rows[r];
      for j := 0 to |row|
        invariant forall k :: 0 <= k < j && row[k].Some? ==> IsFinite(row[k].value)
      {
        if row[j].Some? && !IsFinite(row[j].value) {
          assert !RowOk(row);
          return false;
        }
      }
    }
    assert input.observationIds[..|input.rows|] == input.observationIds;
    if input.featureNames.Some? {
      ok := ValidateNames(host, input.blockId, input.featureNames.value);
      return;
    }
    return true;
  }

  /** `target_length`. */
  method TargetLength(input: Input, policy: Policy) returns (r: Result<nat>)
    ensures r == if TargetOk(input, policy) then Ok(Target(input, policy)) else ValidationError
  {
    var target := Target(input, policy);
    if target == 0 {
      return ValidationError;
    }
    if !policy.truncate && exists r :: 0 <= r < |input.rows| && |input.rows[r]| > target {
      return ValidationError;
    }
    if policy.padding == NoPadding && exists r :: 0 <= r < |input.rows| && |input.rows[r]| < target {
      return ValidationError;
    }
    return Ok(target);
  }

  method ValidateNamesFit(input: Input, policy: Policy, target: nat) returns (ok: bool)
    requires target == Target(input, policy)
    ensures ok <==> NamesFit(input, policy)
  {
    if input.featureNames.None? {
      return true;
    }
    var names := |input.featureNames.value|;
    for r := 0 to |input.rows|
      invariant forall k :: 0 <= k < r ==> |input.rows[k]| == names
    {
      if |input.rows[r]| != names {
        return false;
      }
    }
    return target <= names && (target < names ==> policy.truncate);
  }

  /** The loop over the rows. */
  method CollateRows(host: Host, input: Input, policy: Policy, target: nat)
    returns (r: Result<(seq<F64>, seq<bool>, seq<bool>, bool)>)
    requires target == Target(input, policy)
    ensures r.Ok? <==>
      && Reservable(host, |input.rows| * target, VALUE_BYTES)
      && (forall k :: 0 <= k < |input.rows| ==> RowFits(input.rows[k], target, policy))
      && (forall k :: 0 <= k < |input.rows| ==> Paddable(host, input.rows[k], target))
    ensures r.Ok? ==> r.value.0 == Flatten(ValueRows(input, policy))
    ensures r.Ok? ==> r.value.1 == Flatten(PresenceRows(input, policy))
    ensures r.Ok? ==> r.value.2 == Flatten(ValidRows(input, policy)) && (r.value.3 <==> !FullyValid(input, policy))
  {
    hide Flatten, CellRow, PresenceRow, ValueRow, ValidRow, Target, AllTrue, RowFits;
    var room := ReserveCollation<F64>(host, |input.rows| * target, VALUE_BYTES);
    var flags := ReserveCollation<bool>(host, |input.rows| * target, 1);
    if room.ValidationError? || flags.ValidationError? {
      return ValidationError;
    }
    var values, presence, validity := room.value, flags.value, flags.value;
    var hasInvalid := false;
    ghost var valueRows, presenceRows := ValueRows(input, policy), PresenceRows(input, policy);
    ghost var validRows := ValidRows(input, policy);
    FlattenEmpty(valueRows[..0]);
    FlattenEmpty(presenceRows[..0]);
    FlattenEmpty(validRows[..0]);
    for r := 0 to |input.rows|
      invariant forall k :: 0 <= k < r ==>
        RowFits(input.rows[k], target, policy) && Paddable(host, input.rows[k], target)
      invariant values == Flatten(valueRows[..r]) && presence == Flatten(presenceRows[..r])
      invariant validity == Flatten(validRows[..r])
      invariant !hasInvalid <==> forall k :: 0 <= k < r ==> AllTrue(validRows[k])
    {
      var projected := ProjectRow(host, input.rows[r], target, policy);
      if projected.ValidationError? {
        return ValidationError;
      }
      var row, present, valid, anyInvalid := FillRow(input.rows[r], target, policy, projected.value);
      values, presence, validity := values + row, presence + present, validity + valid;
      assert validRows[r] == valid && (AllTrue(validRows[r]) <==> !anyInvalid);
      hasInvalid := hasInvalid || anyInvalid;
      FlattenPush(valueRows[..r], row);
      FlattenPush(presenceRows[..r], present);
      FlattenPush(validRows[..r], valid);
      assert valueRows[..r + 1] == valueRows[..r] + [row];
      assert presenceRows[..r + 1] == presenceRows[..r] + [present];
      assert validRows[..r + 1] == validRows[..r] + [valid];
    }
    assert valueRows[..|valueRows|] == valueRows && presenceRows[..|presenceRows|] == presenceRows;
    assert validRows[..|validRows|] == validRows;
    return Ok((values, presence, validity, hasInvalid));
  }

  lemma AllTruePush(flags: seq<bool>, flag: bool)
    ensures AllTrue(flags + [flag]) <==> AllTrue(flags) && flag
  {
    assert forall j :: 0 <= j < |flags| ==> (flags + [flag])[j] == flags[j];
    assert (flags + [flag])[|flags|] == flag;
  }

  lemma FlattenEmpty<T>(rows: seq<seq<T>>)
    requires rows == []
    ensures Flatten(rows) == []
  {}

  /** One row's values, presence and validity. */
  method FillRow(source: seq<Option<F64>>, target: nat, policy: Policy, projected: ProjectedRow)
    returns (row: seq<F64>, present: seq<bool>, valid: seq<bool>, anyInvalid: bool)
    requires projected
          == ProjectedRow(CellRow(source, target, policy.padding), PresenceRow(source, target, policy.padding))
    ensures row == ValueRow(source, target, policy) && present == PresenceRow(source, target, policy.padding)
    ensures valid == ValidRow(source, target, policy.padding)
    ensures !anyInvalid <==> AllTrue(valid)
  {
    row := seq(target, j requires 0 <= j < target =>
      if projected.values[j].Some? then projected.values[j].value else policy.padValue);
    present := projected.presence;
    valid := [];
    anyInvalid := false;
    for j := 0 to target
      invariant valid == ValidRow(source, target, policy.padding)[..j]
      invariant !anyInvalid <==> AllTrue(valid)
    {
      var isValid := projected.presence[j] && projected.values[j].Some?;
      AllTruePush(valid, isValid);
      anyInvalid := anyInvalid || !isValid;
      valid := valid + [isValid];
    }
  }

  /** `collate_numeric_block`: after the checks nothing can fail any more. */
  method CollateNumericBlock(host: Host, input: Input, policy: Policy) returns (r: Result<Tensor>)
    ensures r.Ok? <==> Accepted(host, input, policy)
    ensures r.Ok? ==> IsCollated(input, policy, r.value)
  {
    hide InputOk, Flatten, FullyValid, Target, CellRow;
    var inputOk := ValidateInput(host, input);
    if !inputOk {
      return ValidationError;
    }
    if policy.maxLength == Some(0) || (policy.batchContainer.Some? && host.blank(policy.batchContainer.value))
       || !IsFinite(policy.padValue) {
      return ValidationError;
    }
    var target := TargetLength(input, policy);
    if target.ValidationError? {
      return ValidationError;
    }
    var namesOk := ValidateNamesFit(input, policy, target.value);
    if !namesOk || |input.rows| * target.value > host.usizeMax {
      return ValidationError;
    }
    var filled := CollateRows(host, input, policy, target.value);
    if filled.ValidationError? {
      return ValidationError;
    }
    var (values, presence, validity, hasInvalid) := filled.value;
    var names := ProjectedFeatureNames(input.featureNames, target.value, policy);
    if names.ValidationError? {
      return ValidationError;
    }
    return Ok(Tensor(input.blockId, input.representationId,
                     if policy.batchContainer.Some? then policy.batchContainer.value else NDARRAY,
                     input.observationIds, input.sampleIds, |input.rows|, target.value, values,
                     if policy.emitMask then Some(presence) else None,
                     if hasInvalid then Some(validity) else None, names.value));
  }

  /** A tensor whose cells can be counted but whose bytes cannot be addressed is refused. */
  lemma UnaddressableRefused(host: Host, input: Input, policy: Policy)
    requires Target(input, policy) > SignedMax(host.usizeMax) / VALUE_BYTES
    ensures !Accepted(host, input, policy)
  {
    assert |input.rows| >= 1 ==> |input.rows| * Target(input, policy) >= 1 * Target(input, policy);
  }

  // ----- what a caller can rely on -----

  /** Every cell of the tensor: inside a row's window it is the source cell in order, with
      nulls replaced by the pad value; outside it is the pad value. */
  lemma TensorCell(host: Host, input: Input, policy: Policy, t: Tensor, r: nat, j: nat)
    requires Accepted(host, input, policy) && IsCollated(input, policy, t) && r < t.batch && j < t.width
    ensures |t.values| == t.batch * t.width && RowMajorAt(t.width, r, j) == r * t.width + j < |t.values|
    ensures
      var value := t.values[RowMajorAt(t.width, r, j)];
      var row := input.rows[r];
      if Present(|row|, t.width, policy.padding, j) then
        var from := SourceColumn(|row|, t.width, policy.padding, j);
        from < |row| && value == (if row[from].Some? then row[from].value else policy.padValue)
      else value == policy.padValue
  {
    hide Flatten, Target, InputOk, PolicyOk, TargetOk, NamesFit;
    FlattenCell(ValueRows(input, policy), t.width, r, j);
    if Present(|input.rows[r]|, t.width, policy.padding, j) {
      SourceInRange(|input.rows[r]|, t.width, policy.padding, j);
    }
  }

  /** An emitted presence mask is true exactly inside the windows. */
  lemma TensorPresence(host: Host, input: Input, policy: Policy, t: Tensor, r: nat, j: nat)
    requires Accepted(host, input, policy) && IsCollated(input, policy, t) && r < t.batch && j < t.width
    requires policy.emitMask
    ensures t.presenceMask.Some? && |t.presenceMask.value| == t.batch * t.width
    ensures RowMajorAt(t.width, r, j) == r * t.width + j < |t.presenceMask.value|
    ensures t.presenceMask.value[RowMajorAt(t.width, r, j)] <==> Present(|input.rows[r]|, t.width, policy.padding, j)
  {
    hide Flatten, Target, InputOk, PolicyOk, TargetOk, NamesFit;
    FlattenCell(PresenceRows(input, policy), t.width, r, j);
  }

  /** A validity mask is true exactly at the cells that show a number of their row. */
  lemma TensorValidity(host: Host, input: Input, policy: Policy, t: Tensor, r: nat, j: nat)
    requires Accepted(host, input, policy) && IsCollated(input, policy, t) && r < t.batch && j < t.width
    requires t.validityMask.Some?
    ensures |t.validityMask.value| == t.batch * t.width
    ensures RowMajorAt(t.width, r, j) == r * t.width + j < |t.validityMask.value|
    ensures t.validityMask.value[RowMajorAt(t.width, r, j)] <==>
      && Present(|input.rows[r]|, t.width, policy.padding, j)
      && input.rows[r][SourceColumn(|input.rows[r]|, t.width, policy.padding, j)].Some?
  {
    hide Flatten, Target, InputOk, PolicyOk, TargetOk, NamesFit;
    FlattenCell(ValidRows(input, policy), t.width, r, j);
  }

  /** The present columns form one window inside the tensor, which shows consecutive source
      columns in order; a row at least as long as the tensor fills it. */
  lemma WindowIsContiguous(length: nat, target: nat, padding: Padding, i: nat, j: nat, k: nat)
    requires Present(length, target, padding, i) && Present(length, target, padding, k) && i <= j <= k
    ensures k < target && Present(length, target, padding, j)
    ensures SourceColumn(length, target, padding, j) == SourceColumn(length, target, padding, i) + j - i
    ensures length >= target ==> Present(length, target, padding, 0) && Present(length, target, padding, target - 1)
  {}

  /** Where padding and truncation put the window: right padding keeps rows at the left edge
      and their first columns, left padding keeps them at the right edge and their last
      columns, and centring splits evenly, the odd cell going right. */
  lemma WindowPlacement(length: nat, target: nat, padding: Padding)
    ensures
      var before := PadBefore(length, target, padding);
      var after := target - before - KeptCount(length, target);
      var dropped := KeptFrom(length, target, padding);
      var droppedAfter := length - dropped - KeptCount(length, target);
      && after >= 0 && droppedAfter >= 0
      && (length <= target ==> dropped == 0 && droppedAfter == 0)
      && (length >= target ==> before == 0 && after == 0)
      && (padding == PadRight || padding == NoPadding ==> before == 0 && dropped == 0)
      && (padding == PadLeft ==> after == 0 && droppedAfter == 0)
      && (padding == PadCenter ==> before <= after <= before + 1 && dropped <= droppedAfter <= dropped + 1)
  {}

  /** Every kept column of a row is shown, at one place; a row that is not truncated keeps all. */
  lemma KeptColumnsShown(length: nat, target: nat, padding: Padding, c: nat)
    requires KeptFrom(length, target, padding) <= c < KeptFrom(length, target, padding) + KeptCount(length, target)
    ensures
      var j := PadBefore(length, target, padding) + c - KeptFrom(length, target, padding);
      Present(length, target, padding, j) && SourceColumn(length, target, padding, j) == c
    ensures length <= target ==> KeptFrom(length, target, padding) == 0 && KeptCount(length, target) == length
  {}

  /** The validity mask is left out exactly if every cell is a present number. */
  lemma ValidityMaskAbsent(host: Host, input: Input, policy: Policy, t: Tensor)
    requires Accepted(host, input, policy) && IsCollated(input, policy, t)
    ensures t.validityMask.None? <==>
      forall r, j :: 0 <= r < t.batch && 0 <= j < t.width ==>
        Present(|input.rows[r]|, t.width, policy.padding, j)
        && input.rows[r][SourceColumn(|input.rows[r]|, t.width, policy.padding, j)].Some?
  {
    hide Flatten, InputOk, PolicyOk, TargetOk, NamesFit, Target;
    forall r, j | 0 <= r < t.batch && 0 <= j < t.width
      ensures ValidRows(input, policy)[r][j] <==>
        Present(|input.rows[r]|, t.width, policy.padding, j)
        && input.rows[r][SourceColumn(|input.rows[r]|, t.width, policy.padding, j)].Some?
    {
      if Present(|input.rows[r]|, t.width, policy.padding, j) {
        SourceInRange(|input.rows[r]|, t.width, policy.padding, j);
      }
    }
    assert FullyValid(input, policy) <==>
      forall r, j :: 0 <= r < t.batch && 0 <= j < t.width ==> ValidRows(input, policy)[r][j];
  }

  /** With names, column j of the tensor is the source column named `featureNames[j]`, in every row. */
  lemma NamesMatchColumns(host: Host, input: Input, policy: Policy, t: Tensor, r: nat, j: nat)
    requires Accepted(host, input, policy) && IsCollated(input, policy, t)
    requires input.featureNames.Some? && r < t.batch && j < t.width
    ensures t.featureNames.Some? && |t.featureNames.value| == t.width
    ensures Present(|input.rows[r]|, t.width, policy.padding, j)
    ensures
      var from := SourceColumn(|input.rows[r]|, t.width, policy.padding, j);
      from < |input.featureNames.value| && t.featureNames.value[j] == input.featureNames.value[from]
  {}

  // ----- the tensor and what is accepted, in the fields of input and policy -----

  /** How wide the tensor is, and what it says besides its cells. */
  lemma TensorInFields(input: Input, policy: Policy, t: Tensor)
    requires IsCollated(input, policy, t)
    ensures policy.maxLength.Some? ==> t.width == policy.maxLength.value
    ensures policy.maxLength.None? ==> forall r :: 0 <= r < |input.rows| ==> |input.rows[r]| <= t.width
    ensures policy.maxLength.None? && input.rows != [] ==>
      exists r :: 0 <= r < |input.rows| && |input.rows[r]| == t.width
    ensures t.batch == |input.rows| && t.blockId == input.blockId && t.representationId == input.representationId
    ensures t.observationIds == input.observationIds && t.sampleIds == input.sampleIds
    ensures policy.batchContainer.Some? ==> t.batchContainer == policy.batchContainer.value
    ensures policy.batchContainer.None? ==>
      |t.batchContainer| == 7 && forall i :: 0 <= i < 7 ==> t.batchContainer[i] == "ndarray"[i] as int
    ensures t.presenceMask.Some? <==> policy.emitMask
    ensures t.featureNames.Some? <==> input.featureNames.Some?
  {
    hide Flatten, ValueRows, PresenceRows, ValidRows, FullyValid;
  }

  /** What is accepted. */
  lemma AcceptedInFields(host: Host, input: Input, policy: Policy)
    ensures Accepted(host, input, policy) <==>
      var width := if policy.maxLength.Some? then policy.maxLength.value else LongestRow(input.rows);
      && !host.blank(input.blockId) && input.observationIds != []
      && |input.observationIds| == |input.rows| && |input.sampleIds| == |input.rows|
      && (forall i, j :: 0 <= i < j < |input.observationIds| ==> input.observationIds[i] != input.observationIds[j])
      && (forall r :: 0 <= r < |input.rows| ==> input.rows[r] != [])
      && (forall r, j :: 0 <= r < |input.rows| && 0 <= j < |input.rows[r]| && input.rows[r][j].Some? ==>
            input.rows[r][j].value % 0x8000_0000_0000_0000 < 0x7FF0_0000_0000_0000)
      && (input.featureNames.Some? ==>
            && input.featureNames.value != []
            && (forall i :: 0 <= i < |input.featureNames.value| ==> !host.blank(input.featureNames.value[i]))
            && (forall i, j :: 0 <= i < j < |input.featureNames.value| ==>
                  input.featureNames.value[i] != input.featureNames.value[j])
            && (forall r :: 0 <= r < |input.rows| ==> |input.rows[r]| == |input.featureNames.value|)
            && width <= |input.featureNames.value|
            && (width < |input.featureNames.value| ==> policy.truncate))
      && (policy.batchContainer.Some? ==> !host.blank(policy.batchContainer.value))
      && policy.padValue % 0x8000_0000_0000_0000 < 0x7FF0_0000_0000_0000
      && width > 0
      && (forall r :: 0 <= r < |input.rows| && |input.rows[r]| > width ==> policy.truncate)
      && (forall r :: 0 <= r < |input.rows| && |input.rows[r]| < width ==> policy.padding != NoPadding)
      && |input.rows| * width <= host.usizeMax && |input.rows| * width * 8 <= host.usizeMax / 2
      && (forall r :: 0 <= r < |input.rows| && |input.rows[r]| < width ==> width * 16 <= host.usizeMax / 2)
  {
    hide IsFinite, LongestRow;
    FiniteMeans(policy.padValue);
    forall r, j | 0 <= r < |input.rows| && 0 <= j < |input.rows[r]| && input.rows[r][j].Some?
      ensures IsFinite(input.rows[r][j].value) <==>
        input.rows[r][j].value % 0x8000_0000_0000_0000 < 0x7FF0_0000_0000_0000
    {
      FiniteMeans(input.rows[r][j].value);
    }
  }

  /** Where the window of a row stands and where its cells come from. */
  lemma WindowInFields(length: nat, target: nat, padding: Padding, j: nat)
    ensures
      var before := if length >= target then 0
                    else if padding == PadLeft then target - length
                    else if padding == PadCenter then (target - length) / 2 else 0;
      var dropped := if length <= target then 0
                     else if padding == PadLeft then length - target
                     else if padding == PadCenter then (length - target) / 2 else 0;
      && (Present(length, target, padding, j) <==>
            before <= j < before + if length < target then length else target)
      && (Present(length, target, padding, j) ==> SourceColumn(length, target, padding, j) == j - before + dropped)
  {}
}
