/** Writing and parsing `.n4d` files
    (crates/dag-ml-data-core/src/buffer_file_store.rs). */
module BufferCodec {
  import opened BufferFormat
  import opened FeatureBuffer
  import opened FeatureStore
  import opened Ordering
  import opened Sequences
  import opened Words
  import opened Wrappers

  // ----- writing -----

  method WriteString(payload: seq<Byte>, value: Text) returns (out: seq<Byte>)
    requires |value| <= U32_MAX
    ensures out == payload + EncString(value)
  {
    out := payload + LE(4, |value|);
    out := out + value;
  }

  method WriteStrings(payload: seq<Byte>, values: seq<Text>) returns (out: seq<Byte>)
    requires forall i :: 0 <= i < |values| ==> |values[i]| <= U32_MAX
    ensures out == payload + EncAll(EncString, values)
  {
    out := payload;
    hide EncString;
    for i := 0 to |values|
      invariant out == payload + EncAll(EncString, values[..i])
    {
      ghost var done := EncAll(EncString, values[..i]);
      EncAllStep(EncString, values, i);
      out := WriteString(out, values[i]);
      assert out == payload + (done + EncString(values[i]));
    }
    assert values[..|values|] == values;
  }

  method WriteColumn(payload: seq<Byte>, column: seq<F64>) returns (out: seq<Byte>)
    ensures out == payload + EncColumn(column)
  {
    out := payload;
    for r := 0 to |column|
      invariant out == payload + EncAll(EncF64, column[..r])
    {
      ghost var done := EncAll(EncF64, column[..r]);
      EncAllStep(EncF64, column, r);
      out := out + LE(8, column[r]);
      assert out == payload + (done + EncF64(column[r]));
    }
    assert column[..|column|] == column;
  }

  method WriteMask(payload: seq<Byte>, mask: seq<bool>) returns (out: seq<Byte>)
    ensures out == payload + EncMask(mask)
  {
    out := payload;
    for r := 0 to |mask|
      invariant out == payload + EncAll(EncBit, mask[..r])
    {
      ghost var done := EncAll(EncBit, mask[..r]);
      EncAllStep(EncBit, mask, r);
      out := out + [if mask[r] then 1 else 0];
      assert out == payload + (done + EncBit(mask[r]));
    }
    assert mask[..|mask|] == mask;
  }

  method WriteHeader(payload: seq<Byte>, h: Header) returns (out: seq<Byte>)
    requires |h.featureSetId| <= U32_MAX && |h.representationId| <= U32_MAX
    ensures out == payload + EncHeader(h)
  {
    out := WriteString(payload, h.featureSetId);
    out := WriteString(out, h.representationId);
    out := out + LE(4, h.rows);
    out := out + LE(4, h.features);
    out := out + [if h.hasValidity then 1 else 0];
  }

  method WriteColumns(payload: seq<Byte>, columns: seq<seq<F64>>) returns (out: seq<Byte>)
    ensures out == payload + EncAll(EncColumn, columns)
  {
    out := payload;
    for f := 0 to |columns|
      invariant out == payload + EncAll(EncColumn, columns[..f])
    {
      ghost var done := EncAll(EncColumn, columns[..f]);
      EncAllStep(EncColumn, columns, f);
      out := WriteColumn(out, columns[f]);
      assert out == payload + (done + EncColumn(columns[f]));
    }
    assert columns[..|columns|] == columns;
  }

  method WriteMasks(payload: seq<Byte>, masks: seq<seq<bool>>) returns (out: seq<Byte>)
    ensures out == payload + EncAll(EncMask, masks)
  {
    out := payload;
    for f := 0 to |masks|
      invariant out == payload + EncAll(EncMask, masks[..f])
    {
      ghost var done := EncAll(EncMask, masks[..f]);
      EncAllStep(EncMask, masks, f);
      out := WriteMask(out, masks[f]);
      assert out == payload + (done + EncMask(masks[f]));
    }
    assert masks[..|masks|] == masks;
  }

  method WriteBuffer(ghost host: Host, payload: seq<Byte>, m: ColumnMatrix) returns (out: seq<Byte>)
    requires Fits(host, m)
    ensures out == payload + EncMatrix(m)
  {
    hide EncHeader, EncAll;
    out := WriteHeader(payload, HeaderOf(m));
    out := WriteStrings(out, m.featureNames);
    out := WriteStrings(out, m.observationIds);
    out := WriteColumns(out, m.columns);
    if m.validityMasks.Some? {
      out := WriteMasks(out, m.validityMasks.value);
    }
  }

  // ----- parsing -----

  predicate EnsureRemaining(end: nat, cursor: nat, needed: nat) {
    !(cursor > end || needed > end - cursor)
  }

  predicate EnsureCountFits(host: Host, end: nat, cursor: nat, count: nat, minimum: nat) {
    count * minimum <= host.usizeMax && EnsureRemaining(end, cursor, count * minimum)
  }

  lemma StringAt(bytes: seq<Byte>, cursor: nat, end: nat, t: Text)
    ensures At(bytes, cursor, end, EncString(t)) <==>
      At(bytes, cursor, end, LE(4, |t|)) && At(bytes, cursor + 4, end, t)
    ensures |EncString(t)| == 4 + |t|
  {
    hide At;
    AtConcat(bytes, cursor, end, LE(4, |t|), t);
  }

  method ReadU32(bytes: seq<Byte>, cursor: nat, end: nat) returns (r: Result<U32>, next: nat)
    requires end <= |bytes|
    ensures r.Ok? ==> At(bytes, cursor, end, LE(4, r.value)) && next == cursor + 4
    ensures forall n: U32 :: At(bytes, cursor, end, LE(4, n)) ==> r == Ok(n)
  {
    Pow256Values();
    if !EnsureRemaining(end, cursor, 4) {
      return ValidationError, cursor;
    }
    var raw := bytes[cursor..cursor + 4];
    WriteBack(raw);
    forall n: U32 | At(bytes, cursor, end, LE(4, n))
      ensures n == FromLE(raw)
    {
      ReadBack(4, n);
    }
    return Ok(FromLE(raw)), cursor + 4;
  }

  method ReadU8(bytes: seq<Byte>, cursor: nat, end: nat) returns (r: Result<Byte>, next: nat)
    requires end <= |bytes|
    ensures r.Ok? ==> At(bytes, cursor, end, [r.value]) && next == cursor + 1
    ensures forall b: Byte :: At(bytes, cursor, end, [b]) ==> r == Ok(b)
  {
    if !EnsureRemaining(end, cursor, 1) {
      return ValidationError, cursor;
    }
    return Ok(bytes[cursor]), cursor + 1;
  }

  method ReadString(host: Host, bytes: seq<Byte>, cursor: nat, end: nat) returns (r: Result<Text>, next: nat)
    requires end <= |bytes|
    ensures r.Ok? ==> StringFits(host, r.value) && At(bytes, cursor, end, EncString(r.value)) &&
                      next == cursor + |EncString(r.value)|
    ensures forall t :: StringFits(host, t) && At(bytes, cursor, end, EncString(t)) ==> r == Ok(t)
  {
    hide At, EncString, LE;
    var len, at := ReadU32(bytes, cursor, end);
    forall t | StringFits(host, t) && At(bytes, cursor, end, EncString(t))
      ensures len == Ok(|t|) && at == cursor + 4 && at + |t| <= end && At(bytes, at, end, t)
    {
      StringAt(bytes, cursor, end, t);
      AtBounds(bytes, cursor + 4, end, t);
    }
    if len.ValidationError? || !EnsureRemaining(end, at, len.value) {
      return ValidationError, cursor;
    }
    var raw := bytes[at..at + len.value];
    AtSlice(bytes, at, end, len.value);
    StringAt(bytes, cursor, end, raw);
    if !host.utf8(raw) {
      return ValidationError, cursor;
    }
    return Ok(raw), at + len.value;
  }

  predicate NameOk(host: Host, identifiers: bool, text: Text) {
    StringFits(host, text) && (identifiers ==> ValidId(text))
  }

  /** `count` names that the reader accepts, as they would stand at `cursor`. */
  ghost predicate NamesAt(host: Host, identifiers: bool, count: nat, bytes: seq<Byte>, cursor: nat, end: nat,
                          ts: seq<Text>)
  {
    && |ts| == count
    && (forall i :: 0 <= i < count ==> NameOk(host, identifiers, ts[i]))
    && At(bytes, cursor, end, EncAll(EncString, ts))
  }

  /** `reserved_vec`: an empty vector with room for `count` elements. It may be called only for
      counts that the payload backs with four bytes each, so that every call below, on bytes
      that are accepted or refused later, shows what it reserves to be bounded by the payload. */
  method ReservedVec<T>(ghost payloadEnd: nat, count: nat) returns (v: seq<T>)
    requires 4 * count <= payloadEnd
    ensures v == []
  {
    v := [];
  }

  method ReadStrings(host: Host, bytes: seq<Byte>, cursor: nat, end: nat, count: nat, identifiers: bool)
    returns (r: Result<seq<Text>>, next: nat)
    requires cursor <= end <= |bytes| && 4 * count <= end
    ensures r.Ok? ==> NamesAt(host, identifiers, count, bytes, cursor, end, r.value)
    ensures r.Ok? ==> next == cursor + |EncAll(EncString, r.value)|
    ensures forall ts :: NamesAt(host, identifiers, count, bytes, cursor, end, ts) ==> r == Ok(ts)
  {
    hide At, EncAll, EncString, StringFits, ValidId;
    var read := ReservedVec<Text>(end, count);
    var at := cursor;
    EncAllNone(EncString, bytes, cursor, end);
    for i := 0 to count
      invariant |read| == i && forall k :: 0 <= k < i ==> NameOk(host, identifiers, read[k])
      invariant At(bytes, cursor, end, EncAll(EncString, read)) && at == cursor + |EncAll(EncString, read)|
      invariant forall ts :: NamesAt(host, identifiers, count, bytes, cursor, end, ts) ==> ts[..i] == read
    {
      forall ts | NamesAt(host, identifiers, count, bytes, cursor, end, ts)
        ensures NameOk(host, identifiers, ts[i]) && At(bytes, at, end, EncString(ts[i]))
        ensures ts[..i + 1] == read + [ts[i]]
      {
        EncAllAt(EncString, ts, i, bytes, cursor, end);
      }
      var text, after := ReadString(host, bytes, at, end);
      if text.ValidationError? || (identifiers && !ValidId(text.value)) {
        return ValidationError, cursor;
      }
      EncAllExtend(EncString, read, text.value, bytes, cursor, end);
      read, at := read + [text.value], after;
    }
    forall ts | NamesAt(host, identifiers, count, bytes, cursor, end, ts)
      ensures ts == read
    {
      assert ts[..count] == ts;
    }
    return Ok(read), at;
  }

  ghost predicate ColumnAt(rows: nat, bytes: seq<Byte>, cursor: nat, end: nat, column: seq<F64>) {
    |column| == rows && At(bytes, cursor, end, EncColumn(column))
  }

  /** The value standing at a place is the one its eight bytes spell. */
  lemma F64At(bytes: seq<Byte>, cursor: nat, end: nat)
    requires cursor + 8 <= end <= |bytes|
    ensures FromLE(bytes[cursor..cursor + 8]) <= U64_MAX
    ensures At(bytes, cursor, end, EncF64(FromLE(bytes[cursor..cursor + 8])))
    ensures forall v: F64 :: At(bytes, cursor, end, EncF64(v)) ==> v == FromLE(bytes[cursor..cursor + 8])
  {
    Pow256Values();
    WriteBack(bytes[cursor..cursor + 8]);
    forall v: F64 | At(bytes, cursor, end, EncF64(v))
      ensures v == FromLE(bytes[cursor..cursor + 8])
    {
      ReadBack(8, v);
    }
  }

  method ReadColumn(host: Host, bytes: seq<Byte>, cursor: nat, end: nat, rows: nat)
    returns (r: Result<seq<F64>>, next: nat)
    requires cursor <= end <= |bytes| <= host.usizeMax && 4 * rows <= end
    ensures r.Ok? ==> ColumnAt(rows, bytes, cursor, end, r.value) && next == cursor + |EncColumn(r.value)|
    ensures forall c :: ColumnAt(rows, bytes, cursor, end, c) ==> r == Ok(c)
  {
    hide At, EncAll, EncF64;
    var needed := rows * 8;
    forall c | ColumnAt(rows, bytes, cursor, end, c)
      ensures cursor + needed <= end
    {
      ColumnLength(c);
      AtBounds(bytes, cursor, end, EncColumn(c));
    }
    if needed > host.usizeMax || !EnsureRemaining(end, cursor, needed) {
      return ValidationError, cursor;
    }
    var column := ReservedVec<F64>(end, rows);
    EncAllNone(EncF64, bytes, cursor, end);
    for row := 0 to rows
      invariant |column| == row
      invariant At(bytes, cursor, end, EncAll(EncF64, column))
      invariant forall c :: ColumnAt(rows, bytes, cursor, end, c) ==> c[..row] == column
    {
      var offset := cursor + row * 8;
      ColumnLength(column);
      forall c | ColumnAt(rows, bytes, cursor, end, c)
        ensures At(bytes, offset, end, EncF64(c[row])) && c[..row + 1] == column + [c[row]]
      {
        EncAllAt(EncF64, c, row, bytes, cursor, end);
      }
      F64At(bytes, offset, end);
      var value: F64 := FromLE(bytes[offset..offset + 8]);
      EncAllExtend<F64>(EncF64, column, value, bytes, cursor, end);
      column := column + [value];
    }
    ColumnLength(column);
    forall c | ColumnAt(rows, bytes, cursor, end, c)
      ensures c == column
    {
      assert c[..rows] == c;
    }
    return Ok(column), cursor + needed;
  }

  ghost predicate ColumnsAt(features: nat, rows: nat, bytes: seq<Byte>, cursor: nat, end: nat, columns: seq<seq<F64>>) {
    Rectangular(columns, features, rows) && At(bytes, cursor, end, EncAll(EncColumn, columns))
  }

  method ReadColumns(host: Host, bytes: seq<Byte>, cursor: nat, end: nat, features: nat, rows: nat)
    returns (r: Result<seq<seq<F64>>>, next: nat)
    requires cursor <= end <= |bytes| <= host.usizeMax && 4 * features <= end && 4 * rows <= end
    ensures r.Ok? ==> ColumnsAt(features, rows, bytes, cursor, end, r.value)
    ensures r.Ok? ==> next == cursor + |EncAll(EncColumn, r.value)|
    ensures forall cs :: ColumnsAt(features, rows, bytes, cursor, end, cs) ==> r == Ok(cs)
  {
    hide At, EncAll, EncColumn;
    var columns := ReservedVec<seq<F64>>(end, features);
    var at := cursor;
    EncAllNone(EncColumn, bytes, cursor, end);
    for f := 0 to features
      invariant Rectangular(columns, f, rows)
      invariant At(bytes, cursor, end, EncAll(EncColumn, columns)) && at == cursor + |EncAll(EncColumn, columns)|
      invariant forall cs :: ColumnsAt(features, rows, bytes, cursor, end, cs) ==> cs[..f] == columns
    {
      forall cs | ColumnsAt(features, rows, bytes, cursor, end, cs)
        ensures ColumnAt(rows, bytes, at, end, cs[f]) && cs[..f + 1] == columns + [cs[f]]
      {
        EncAllAt(EncColumn, cs, f, bytes, cursor, end);
      }
      AtBounds(bytes, cursor, end, EncAll(EncColumn, columns));
      var column, after := ReadColumn(host, bytes, at, end, rows);
      if column.ValidationError? {
        return ValidationError, cursor;
      }
      EncAllExtend(EncColumn, columns, column.value, bytes, cursor, end);
      columns, at := columns + [column.value], after;
    }
    forall cs | ColumnsAt(features, rows, bytes, cursor, end, cs)
      ensures cs == columns
    {
      assert cs[..features] == cs;
    }
    return Ok(columns), at;
  }

  ghost predicate MaskAt(rows: nat, bytes: seq<Byte>, cursor: nat, end: nat, mask: seq<bool>) {
    |mask| == rows && At(bytes, cursor, end, EncMask(mask))
  }

  lemma BitAt(bytes: seq<Byte>, cursor: nat, end: nat)
    requires cursor + 1 <= end <= |bytes|
    ensures bytes[cursor] <= 1 ==> At(bytes, cursor, end, EncBit(bytes[cursor] == 1))
    ensures forall b: bool :: At(bytes, cursor, end, EncBit(b)) ==> bytes[cursor] <= 1 && b == (bytes[cursor] == 1)
  {
    forall b: bool | At(bytes, cursor, end, EncBit(b))
      ensures bytes[cursor] <= 1 && b == (bytes[cursor] == 1)
    {
      assert bytes[cursor..cursor + 1][0] == EncBit(b)[0];
    }
  }

  method ReadMask(host: Host, bytes: seq<Byte>, cursor: nat, end: nat, rows: nat)
    returns (r: Result<seq<bool>>, next: nat)
    requires cursor <= end <= |bytes| <= host.usizeMax && 4 * rows <= end
    ensures r.Ok? ==> MaskAt(rows, bytes, cursor, end, r.value) && next == cursor + |EncMask(r.value)|
    ensures forall m :: MaskAt(rows, bytes, cursor, end, m) ==> r == Ok(m)
  {
    hide At, EncAll, EncBit;
    forall m | MaskAt(rows, bytes, cursor, end, m)
      ensures cursor + rows <= end
    {
      MaskLength(m);
      AtBounds(bytes, cursor, end, EncMask(m));
    }
    if !EnsureRemaining(end, cursor, rows) {
      return ValidationError, cursor;
    }
    var mask := ReservedVec<bool>(end, rows);
    EncAllNone(EncBit, bytes, cursor, end);
    for row := 0 to rows
      invariant |mask| == row
      invariant At(bytes, cursor, end, EncAll(EncBit, mask))
      invariant forall m :: MaskAt(rows, bytes, cursor, end, m) ==> m[..row] == mask
    {
      MaskLength(mask);
      forall m | MaskAt(rows, bytes, cursor, end, m)
        ensures At(bytes, cursor + row, end, EncBit(m[row])) && m[..row + 1] == mask + [m[row]]
      {
        EncAllAt(EncBit, m, row, bytes, cursor, end);
      }
      BitAt(bytes, cursor + row, end);
      var byte := bytes[cursor + row];
      if byte > 1 {
        return ValidationError, cursor;
      }
      EncAllExtend(EncBit, mask, byte == 1, bytes, cursor, end);
      mask := mask + [byte == 1];
    }
    MaskLength(mask);
    forall m | MaskAt(rows, bytes, cursor, end, m)
      ensures m == mask
    {
      assert m[..rows] == m;
    }
    return Ok(mask), cursor + rows;
  }

  ghost predicate MasksAt(features: nat, rows: nat, bytes: seq<Byte>, cursor: nat, end: nat, masks: seq<seq<bool>>) {
    Rectangular(masks, features, rows) && At(bytes, cursor, end, EncAll(EncMask, masks))
  }

  method ReadMasks(host: Host, bytes: seq<Byte>, cursor: nat, end: nat, features: nat, rows: nat)
    returns (r: Result<seq<seq<bool>>>, next: nat)
    requires cursor <= end <= |bytes| <= host.usizeMax && 4 * features <= end && 4 * rows <= end
    ensures r.Ok? ==> MasksAt(features, rows, bytes, cursor, end, r.value)
    ensures r.Ok? ==> next == cursor + |EncAll(EncMask, r.value)|
    ensures forall ms :: MasksAt(features, rows, bytes, cursor, end, ms) ==> r == Ok(ms)
  {
    hide At, EncAll, EncMask;
    var masks := ReservedVec<seq<bool>>(end, features);
    var at := cursor;
    EncAllNone(EncMask, bytes, cursor, end);
    for f := 0 to features
      invariant Rectangular(masks, f, rows)
      invariant At(bytes, cursor, end, EncAll(EncMask, masks)) && at == cursor + |EncAll(EncMask, masks)|
      invariant forall ms :: MasksAt(features, rows, bytes, cursor, end, ms) ==> ms[..f] == masks
    {
      forall ms | MasksAt(features, rows, bytes, cursor, end, ms)
        ensures MaskAt(rows, bytes, at, end, ms[f]) && ms[..f + 1] == masks + [ms[f]]
      {
        EncAllAt(EncMask, ms, f, bytes, cursor, end);
      }
      AtBounds(bytes, cursor, end, EncAll(EncMask, masks));
      var mask, after := ReadMask(host, bytes, at, end, rows);
      if mask.ValidationError? {
        return ValidationError, cursor;
      }
      EncAllExtend(EncMask, masks, mask.value, bytes, cursor, end);
      masks, at := masks + [mask.value], after;
    }
    forall ms | MasksAt(features, rows, bytes, cursor, end, ms)
      ensures ms == masks
    {
      assert ms[..features] == ms;
    }
    return Ok(masks), at;
  }

  method ReadHeader(host: Host, bytes: seq<Byte>, cursor: nat, end: nat) returns (r: Result<Header>, next: nat)
    requires end <= |bytes|
    ensures r.Ok? ==> HeaderFits(host, r.value) && At(bytes, cursor, end, EncHeader(r.value)) &&
                      next == cursor + |EncHeader(r.value)|
    ensures forall h :: HeaderFits(host, h) && At(bytes, cursor, end, EncHeader(h)) ==> r == Ok(h)
  {
    hide At, EncString, StringFits, ValidId;
    forall h | HeaderFits(host, h) && At(bytes, cursor, end, EncHeader(h))
      ensures HeaderAt(bytes, cursor, end, h)
    {
      HeaderFields(bytes, cursor, end, h);
    }
    var featureSetId, c1 := ReadString(host, bytes, cursor, end);
    if featureSetId.ValidationError? {
      return ValidationError, cursor;
    }
    var representation, c2 := ReadString(host, bytes, c1, end);
    if representation.ValidationError? || !ValidId(representation.value) {
      return ValidationError, cursor;
    }
    var rows, c3 := ReadU32(bytes, c2, end);
    if rows.ValidationError? {
      return ValidationError, cursor;
    }
    var features, c4 := ReadU32(bytes, c3, end);
    if features.ValidationError? {
      return ValidationError, cursor;
    }
    var flag, c5 := ReadFlag(bytes, c4, end);
    if flag.ValidationError? {
      return ValidationError, cursor;
    }
    var h := Header(featureSetId.value, representation.value, rows.value, features.value, flag.value);
    HeaderFields(bytes, cursor, end, h);
    return Ok(h), c5;
  }

  /** The `has_validity` byte, which must be 0 or 1. */
  method ReadFlag(bytes: seq<Byte>, cursor: nat, end: nat) returns (r: Result<bool>, next: nat)
    requires end <= |bytes|
    ensures r.Ok? ==> At(bytes, cursor, end, EncBit(r.value)) && next == cursor + 1
    ensures forall b: bool :: At(bytes, cursor, end, EncBit(b)) ==> r == Ok(b)
  {
    var byte, after := ReadU8(bytes, cursor, end);
    if byte.ValidationError? || byte.value > 1 {
      return ValidationError, cursor;
    }
    return Ok(byte.value == 1), after;
  }

  /** What a matrix with header `h` puts after its header. */
  ghost predicate BodyOf(host: Host, h: Header, bytes: seq<Byte>, cursor: nat, end: nat, m: ColumnMatrix) {
    Fits(host, m) && HeaderOf(m) == h && BodyAt(bytes, cursor, end, m)
  }

  /** A body leaves at least four bytes per name and per row, and eight or nine per cell. */
  lemma BodyNeeds(host: Host, h: Header, bytes: seq<Byte>, cursor: nat, end: nat, m: ColumnMatrix)
    requires BodyOf(host, h, bytes, cursor, end, m)
    ensures cursor + h.features * 4 <= end <= |bytes| && cursor + h.rows * 4 <= end
    ensures cursor + h.rows * h.features * (8 + if h.hasValidity then 1 else 0) <= end
  {
    hide At, EncAll, ValidId;
    EncAllMinLength(EncString, m.featureNames, 4);
    EncAllMinLength(EncString, m.observationIds, 4);
    CellsLength(m, h.features, h.rows);
    var c6 := cursor + |EncAll(EncString, m.featureNames)|;
    var c7 := c6 + |EncAll(EncString, m.observationIds)|;
    var c8 := c7 + |EncAll(EncColumn, m.columns)|;
    AtBounds(bytes, c8, end, EncMasks(m.validityMasks));
    assert h.features * (8 * h.rows) == h.rows * h.features * 8;
    assert h.features * h.rows == h.rows * h.features;
    assert h.rows * h.features * 9 == h.rows * h.features * 8 + h.rows * h.features;
  }

  /** The checks of all counts against what is left of the payload. */
  method CheckCounts(host: Host, h: Header, ghost bytes: seq<Byte>, cursor: nat, end: nat) returns (ok: bool)
    requires cursor <= end <= |bytes| <= host.usizeMax
    ensures ok ==> cursor + h.features * 4 <= end && cursor + h.rows * 4 <= end
    ensures forall m :: BodyOf(host, h, bytes, cursor, end, m) ==> ok
  {
    hide BodyOf;
    forall m | BodyOf(host, h, bytes, cursor, end, m)
      ensures EnsureCountFits(host, end, cursor, h.features, 4) && EnsureCountFits(host, end, cursor, h.rows, 4)
      ensures EnsureCountFits(host, end, cursor, h.rows * h.features, 8 + if h.hasValidity then 1 else 0)
      ensures h.rows * h.features <= host.usizeMax
    {
      BodyNeeds(host, h, bytes, cursor, end, m);
    }
    if !EnsureCountFits(host, end, cursor, h.features, 4) || !EnsureCountFits(host, end, cursor, h.rows, 4) {
      return false;
    }
    var cells := h.rows * h.features;
    return cells <= host.usizeMax && EnsureCountFits(host, end, cursor, cells, 8 + if h.hasValidity then 1 else 0);
  }

  ghost predicate MaskPartAt(h: Header, bytes: seq<Byte>, cursor: nat, end: nat, masks: Option<seq<seq<bool>>>) {
    && (masks.Some? <==> h.hasValidity)
    && (masks.Some? ==> Rectangular(masks.value, h.features, h.rows))
    && At(bytes, cursor, end, EncMasks(masks))
  }

  /** The masks, if the header announces them. */
  method ReadMaskPart(host: Host, h: Header, bytes: seq<Byte>, cursor: nat, end: nat)
    returns (r: Result<Option<seq<seq<bool>>>>, next: nat)
    requires cursor <= end <= |bytes| <= host.usizeMax && 4 * h.features <= end && 4 * h.rows <= end
    ensures r.Ok? ==> MaskPartAt(h, bytes, cursor, end, r.value) && next == cursor + |EncMasks(r.value)| <= end
    ensures forall ms :: MaskPartAt(h, bytes, cursor, end, ms) ==> r == Ok(ms)
  {
    hide At, EncAll, Rectangular;
    if !h.hasValidity {
      EncAllNone(EncMask, bytes, cursor, end);
      return Ok(None), cursor;
    }
    forall ms | MaskPartAt(h, bytes, cursor, end, ms)
      ensures MasksAt(h.features, h.rows, bytes, cursor, end, ms.value)
    {}
    var read, after := ReadMasks(host, bytes, cursor, end, h.features, h.rows);
    if read.ValidationError? {
      return ValidationError, cursor;
    }
    AtBounds(bytes, cursor, end, EncAll(EncMask, read.value));
    return Ok(Some(read.value)), after;
  }

  method ReadBody(host: Host, h: Header, bytes: seq<Byte>, cursor: nat, end: nat)
    returns (r: Result<ColumnMatrix>, next: nat)
    requires cursor <= end <= |bytes| <= host.usizeMax && HeaderFits(host, h)
    ensures r.Ok? ==> BodyOf(host, h, bytes, cursor, end, r.value)
    ensures r.Ok? ==> cursor + h.features * 4 <= end && cursor + h.rows * 4 <= end
    ensures r.Ok? ==> next + |EncHeader(h)| == cursor + |EncMatrix(r.value)| && next <= end
    ensures forall m :: BodyOf(host, h, bytes, cursor, end, m) ==> r == Ok(m)
  {
    hide At, EncAll, StringFits, ValidId, EncHeader, EncMasks;
    var ok := CheckCounts(host, h, bytes, cursor, end);
    if !ok {
      return ValidationError, cursor;
    }
    forall m | BodyOf(host, h, bytes, cursor, end, m)
      ensures NamesAt(host, false, h.features, bytes, cursor, end, m.featureNames)
    {}
    var names, c6 := ReadStrings(host, bytes, cursor, end, h.features, false);
    if names.ValidationError? {
      return ValidationError, cursor;
    }
    AtBounds(bytes, cursor, end, EncAll(EncString, names.value));
    forall m | BodyOf(host, h, bytes, cursor, end, m)
      ensures NamesAt(host, true, h.rows, bytes, c6, end, m.observationIds)
    {}
    var observations, c7 := ReadStrings(host, bytes, c6, end, h.rows, true);
    if observations.ValidationError? {
      return ValidationError, cursor;
    }
    AtBounds(bytes, c6, end, EncAll(EncString, observations.value));
    forall m | BodyOf(host, h, bytes, cursor, end, m)
      ensures ColumnsAt(h.features, h.rows, bytes, c7, end, m.columns)
    {}
    var columns, c8 := ReadColumns(host, bytes, c7, end, h.features, h.rows);
    if columns.ValidationError? {
      return ValidationError, cursor;
    }
    AtBounds(bytes, c7, end, EncAll(EncColumn, columns.value));
    forall m | BodyOf(host, h, bytes, cursor, end, m)
      ensures MaskPartAt(h, bytes, c8, end, m.validityMasks)
    {}
    var masks;
    masks, next := ReadMaskPart(host, h, bytes, c8, end);
    if masks.ValidationError? {
      return ValidationError, cursor;
    }
    r := Ok(ColumnMatrix(h.featureSetId, h.representationId, names.value, observations.value, columns.value,
                         masks.value));
  }

  /** `read_buffer`. */
  method ReadBuffer(host: Host, bytes: seq<Byte>, cursor: nat, end: nat)
    returns (r: Result<ColumnMatrix>, next: nat)
    requires cursor <= end <= |bytes| <= host.usizeMax
    ensures r.Ok? ==> Fits(host, r.value) && At(bytes, cursor, end, EncMatrix(r.value))
    ensures r.Ok? ==> next == cursor + |EncMatrix(r.value)| && next <= end
    ensures forall m :: Fits(host, m) && At(bytes, cursor, end, EncMatrix(m)) ==> r == Ok(m)
  {
    hide At, EncAll, EncHeader, EncMatrix, HeaderFits;
    var header, c5 := ReadHeader(host, bytes, cursor, end);
    forall m | Fits(host, m) && At(bytes, cursor, end, EncMatrix(m))
      ensures header == Ok(HeaderOf(m)) && BodyOf(host, HeaderOf(m), bytes, c5, end, m)
    {
      MatrixFields(bytes, cursor, end, m);
    }
    if header.ValidationError? {
      return ValidationError, cursor;
    }
    AtBounds(bytes, cursor, end, EncHeader(header.value));
    r, next := ReadBody(host, header.value, bytes, c5, end);
    if r.Ok? {
      MatrixFields(bytes, cursor, end, r.value);
    }
  }

  ghost predicate MatricesAt(host: Host, count: nat, bytes: seq<Byte>, cursor: nat, end: nat, ms: seq<ColumnMatrix>) {
    && |ms| == count
    && (forall i :: 0 <= i < count ==> Fits(host, ms[i]))
    && At(bytes, cursor, end, EncAll(EncMatrix, ms))
  }

  method ReadBuffers(host: Host, bytes: seq<Byte>, cursor: nat, end: nat, count: nat)
    returns (r: Result<seq<ColumnMatrix>>, next: nat)
    requires cursor <= end <= |bytes| <= host.usizeMax && 4 * count <= end
    ensures r.Ok? ==> MatricesAt(host, count, bytes, cursor, end, r.value)
    ensures r.Ok? ==> next == cursor + |EncAll(EncMatrix, r.value)| && next <= end
    ensures forall ms :: MatricesAt(host, count, bytes, cursor, end, ms) ==> r == Ok(ms)
  {
    hide At, EncAll, EncMatrix, Fits;
    var matrices := ReservedVec<ColumnMatrix>(end, count);
    var at := cursor;
    EncAllNone(EncMatrix, bytes, cursor, end);
    for i := 0 to count
      invariant |matrices| == i && forall k :: 0 <= k < i ==> Fits(host, matrices[k])
      invariant At(bytes, cursor, end, EncAll(EncMatrix, matrices)) && at == cursor + |EncAll(EncMatrix, matrices)|
      invariant forall ms :: MatricesAt(host, count, bytes, cursor, end, ms) ==> ms[..i] == matrices
    {
      forall ms | MatricesAt(host, count, bytes, cursor, end, ms)
        ensures Fits(host, ms[i]) && At(bytes, at, end, EncMatrix(ms[i])) && ms[..i + 1] == matrices + [ms[i]]
      {
        EncAllAt(EncMatrix, ms, i, bytes, cursor, end);
      }
      AtBounds(bytes, cursor, end, EncAll(EncMatrix, matrices));
      var matrix, after := ReadBuffer(host, bytes, at, end);
      if matrix.ValidationError? {
        return ValidationError, cursor;
      }
      EncAllExtend(EncMatrix, matrices, matrix.value, bytes, cursor, end);
      matrices, at := matrices + [matrix.value], after;
    }
    forall ms | MatricesAt(host, count, bytes, cursor, end, ms)
      ensures ms == matrices
    {
      assert ms[..count] == ms;
    }
    AtBounds(bytes, cursor, end, EncAll(EncMatrix, matrices));
    return Ok(matrices), at;
  }

  /** `bytes` ends in a trailer, and before it hold the matrices `ms` under the right header. */
  ghost predicate Framed(host: Host, bytes: seq<Byte>, end: nat, ms: seq<ColumnMatrix>) {
    && end + TRAILER_LEN == |bytes|
    && bytes[end..] == host.sha256(bytes[..end])
    && At(bytes, 0, end, MAGIC)
    && At(bytes, 4, |bytes|, LE(4, FORMAT_VERSION))
    && At(bytes, 8, |bytes|, LE(4, |ms|))
    && |ms| <= U32_MAX
    && MatricesAt(host, |ms|, bytes, 12, end, ms)
    && 12 + |EncAll(EncMatrix, ms)| == end
  }

  lemma FileFrame(host: Host, bytes: seq<Byte>, ms: seq<ColumnMatrix>)
    ensures IsFileOf(host, bytes, ms) <==> |bytes| >= 12 + TRAILER_LEN && Framed(host, bytes, |bytes| - TRAILER_LEN, ms)
  {
    hide At, EncAll, EncMatrix, Fits;
    if |bytes| >= 12 + TRAILER_LEN {
      var end := |bytes| - TRAILER_LEN;
      SealedFields(host, bytes, end, Payload(ms));
      PayloadFields(bytes, end, ms);
      AtAnyEnd(bytes, 4, end, |bytes|, LE(4, FORMAT_VERSION));
      AtAnyEnd(bytes, 8, end, |bytes|, LE(4, |ms|));
    }
  }

  /** A file has room for 17 bytes per declared buffer. */
  lemma FramedNeeds(host: Host, bytes: seq<Byte>, end: nat, ms: seq<ColumnMatrix>)
    requires Framed(host, bytes, end, ms)
    ensures 12 + |ms| * 17 <= end
  {
    forall i | 0 <= i < |ms|
      ensures |EncMatrix(ms[i])| >= 17
    {
      MatrixMinLength(ms[i]);
    }
    EncAllMinLength(EncMatrix, ms, 17);
  }

  /** The checks of `deserialize_columnar_store` in front of the first matrix. */
  method ReadFrame(host: Host, bytes: seq<Byte>) returns (count: Result<U32>)
    requires |bytes| <= host.usizeMax
    ensures count.Ok? ==>
      var end := |bytes| - TRAILER_LEN;
      && 12 + 17 * count.value <= end
      && bytes[end..] == host.sha256(bytes[..end])
      && At(bytes, 0, end, MAGIC)
      && At(bytes, 4, |bytes|, LE(4, FORMAT_VERSION))
      && At(bytes, 8, |bytes|, LE(4, count.value))
    ensures forall ms :: IsFileOf(host, bytes, ms) ==> count == Ok(|ms|)
  {
    hide At, EncAll, EncMatrix, Fits, MatricesAt, IsFileOf;
    forall ms | IsFileOf(host, bytes, ms)
      ensures |bytes| >= 12 + TRAILER_LEN && Framed(host, bytes, |bytes| - TRAILER_LEN, ms)
      ensures 12 + |ms| * 17 <= |bytes| - TRAILER_LEN
    {
      FileFrame(host, bytes, ms);
      FramedNeeds(host, bytes, |bytes| - TRAILER_LEN, ms);
    }
    if |bytes| < 12 + TRAILER_LEN {
      return ValidationError;
    }
    var payloadEnd := |bytes| - TRAILER_LEN;
    AtSlice(bytes, 0, payloadEnd, 4);
    if bytes[0..4] != MAGIC {
      return ValidationError;
    }
    var computed := host.sha256(bytes[..payloadEnd]);
    if computed != bytes[payloadEnd..] {
      return ValidationError;
    }
    var version, _ := ReadU32(bytes, 4, |bytes|);
    if version != Ok(FORMAT_VERSION) {
      return ValidationError;
    }
    var after;
    count, after := ReadU32(bytes, 8, |bytes|);
    // even an empty buffer needs two string lengths, two dimensions and a flag
    if count.Ok? && !EnsureCountFits(host, payloadEnd, 12, count.value, 17) {
      return ValidationError;
    }
  }

  /** The matrices of a file: arbitrary bytes are accepted exactly if some list of matrices
      is written to them, and that list is returned. */
  method ReadFile(host: Host, bytes: seq<Byte>) returns (r: Result<seq<ColumnMatrix>>)
    requires |bytes| <= host.usizeMax
    ensures r.Ok? ==> IsFileOf(host, bytes, r.value)
    ensures forall ms :: IsFileOf(host, bytes, ms) ==> r == Ok(ms)
  {
    hide At, EncAll, EncMatrix, Fits, MatricesAt, IsFileOf;
    var count := ReadFrame(host, bytes);
    if count.ValidationError? {
      return ValidationError;
    }
    var payloadEnd := |bytes| - TRAILER_LEN;
    forall ms | IsFileOf(host, bytes, ms)
      ensures Framed(host, bytes, payloadEnd, ms) && MatricesAt(host, count.value, bytes, 12, payloadEnd, ms)
    {
      FileFrame(host, bytes, ms);
    }
    var matrices, cursor := ReadBuffers(host, bytes, 12, payloadEnd, count.value);
    if matrices.ValidationError? || cursor != payloadEnd {
      return ValidationError;
    }
    MatricesCount(host, count.value, bytes, 12, payloadEnd, matrices.value);
    FileFrame(host, bytes, matrices.value);
    return matrices;
  }

  lemma MatricesCount(host: Host, count: nat, bytes: seq<Byte>, cursor: nat, end: nat, ms: seq<ColumnMatrix>)
    requires MatricesAt(host, count, bytes, cursor, end, ms)
    ensures |ms| == count
  {}

  /** `deserialize_columnar_store`. */
  method Deserialize(host: Host, bytes: seq<Byte>) returns (r: Result<Store>)
    requires |bytes| <= host.usizeMax
    ensures r.Ok? ==> exists ms :: IsFileOf(host, bytes, ms) && r == StoreOf(host, ms)
    ensures forall ms :: IsFileOf(host, bytes, ms) ==> r == StoreOf(host, ms)
  {
    hide IsFileOf, StoreOf;
    var matrices := ReadFile(host, bytes);
    if matrices.ValidationError? {
      return ValidationError;
    }
    r := FromF64ColumnMatrices(host, matrices.value);
  }

  /** The keys of the store in the order of its `BTreeMap`. */
  method StoredKeys(s: Store) returns (keys: seq<Text>)
    ensures |keys| == |s| && (forall i :: 0 <= i < |keys| ==> keys[i] in s)
    ensures StoredMatrices(s) == MatricesOf(s, keys)
  {
    TextOrder();
    keys := KeysInOrder(TextLess, s.Keys);
    KeyCount(s);
    assert forall i :: 0 <= i < |keys| ==> keys[i] in keys;
  }

  /** `serialize_columnar_store`. The precondition is what the source's `expect`s demand. */
  method Serialize(host: Host, s: Store) returns (bytes: seq<Byte>)
    requires StoreFits(host, s)
    ensures bytes == FileBytes(host, s)
  {
    hide EncMatrix, Fits, EncAll, StoredMatrices;
    var keys := StoredKeys(s);
    ghost var ms := StoredMatrices(s);
    var header := MAGIC + LE(4, FORMAT_VERSION) + LE(4, |s|);
    var payload := header;
    EncAllNone(EncMatrix, [], 0, 0);
    assert ms[..0] == [];
    for i := 0 to |keys|
      invariant payload == header + EncAll(EncMatrix, ms[..i])
    {
      var matrix := ToF64ColumnMatrix(s[keys[i]]);
      payload := WriteBuffer(host, payload, matrix);
      EncAllPush(EncMatrix, ms[..i], ms[i]);
      assert ms[..i + 1] == ms[..i] + [ms[i]];
    }
    assert ms[..|ms|] == ms;
    bytes := payload + host.sha256(payload);
  }

  lemma KeyCount(s: Store)
    ensures |StoredMatrices(s)| == |s|
  {
    TextOrder();
    var keys := KeyOrder(TextLess, s.Keys);
    DistinctFitsIn(keys, s.Keys);
    SetFitsIn(s.Keys, keys);
  }
}
