/** The `.n4d` file format: what the bytes of a file mean
    (crates/dag-ml-data-core/src/buffer_file_store.rs). */
module BufferFormat {
  import opened FeatureBuffer
  import opened FeatureStore
  import opened Words
  import opened Wrappers

  const MAGIC: seq<Byte> := [0x4E, 0x34, 0x44, 0x46]
  const FORMAT_VERSION := 1
  const TRAILER_LEN := 32

  function EncString(text: Text): seq<Byte> { EncText(4, text) }

  function EncF64(value: F64): seq<Byte> { LE(8, value) }

  function EncBit(bit: bool): seq<Byte> { [if bit then 1 else 0] }

  function EncColumn(column: seq<F64>): seq<Byte> { EncAll(EncF64, column) }

  function EncMask(mask: seq<bool>): seq<Byte> { EncAll(EncBit, mask) }

  function EncMasks(masks: Option<seq<seq<bool>>>): seq<Byte> {
    if masks.Some? then EncAll(EncMask, masks.value) else []
  }

  /** The fixed part in front of a matrix: its two names, its counts and the mask flag. */
  datatype Header = Header(featureSetId: Text, representationId: Text, rows: nat, features: nat, hasValidity: bool)

  function HeaderOf(m: ColumnMatrix): Header {
    Header(m.featureSetId, m.representationId, |m.observationIds|, |m.featureNames|, m.validityMasks.Some?)
  }

  function EncHeader(h: Header): seq<Byte> {
    EncString(h.featureSetId) + EncString(h.representationId) + LE(4, h.rows) + LE(4, h.features)
    + EncBit(h.hasValidity)
  }

  function EncMatrix(m: ColumnMatrix): seq<Byte> {
    EncHeader(HeaderOf(m)) + EncAll(EncString, m.featureNames) + EncAll(EncString, m.observationIds)
    + EncAll(EncColumn, m.columns) + EncMasks(m.validityMasks)
  }

  function Payload(ms: seq<ColumnMatrix>): seq<Byte> {
    MAGIC + LE(4, FORMAT_VERSION) + LE(4, |ms|) + EncAll(EncMatrix, ms)
  }

  function Seal(host: Host, payload: seq<Byte>): seq<Byte> {
    payload + host.sha256(payload)
  }

  // ----- what can be written at all -----

  predicate IdChar(b: Byte) {
    || 'a' as int <= b <= 'z' as int || 'A' as int <= b <= 'Z' as int || '0' as int <= b <= '9' as int
    || b == '_' as int || b == '-' as int || b == '.' as int
  }

  /** The identifier grammar of `ids.rs`. */
  predicate ValidId(text: Text) {
    0 < |text| <= 128 && forall i :: 0 <= i < |text| ==> IdChar(text[i])
  }

  predicate StringFits(host: Host, text: Text) {
    host.utf8(text) && |text| <= U32_MAX
  }

  predicate IdFits(host: Host, text: Text) {
    StringFits(host, text) && ValidId(text)
  }

  predicate HeaderFits(host: Host, h: Header) {
    StringFits(host, h.featureSetId) && IdFits(host, h.representationId) && h.rows <= U32_MAX && h.features <= U32_MAX
  }

  /** A rectangular matrix of strings and identifiers whose counts fit 32 bits. */
  ghost predicate Fits(host: Host, m: ColumnMatrix) {
    && HeaderFits(host, HeaderOf(m))
    && (forall i :: 0 <= i < |m.featureNames| ==> StringFits(host, m.featureNames[i]))
    && (forall i :: 0 <= i < |m.observationIds| ==> IdFits(host, m.observationIds[i]))
    && Rectangular(m.columns, |m.featureNames|, |m.observationIds|)
    && (m.validityMasks.Some? ==> Rectangular(m.validityMasks.value, |m.featureNames|, |m.observationIds|))
  }

  ghost predicate AllFit(host: Host, ms: seq<ColumnMatrix>) {
    |ms| <= U32_MAX && forall i :: 0 <= i < |ms| ==> Fits(host, ms[i])
  }

  ghost predicate StoreFits(host: Host, s: Store) {
    |s| <= U32_MAX && forall id :: id in s ==> Fits(host, ToColumns(s[id]))
  }

  ghost function FileBytes(host: Host, s: Store): seq<Byte> {
    Seal(host, Payload(StoredMatrices(s)))
  }

  /** `bytes` is the file the matrices `ms` are written to. */
  ghost predicate IsFileOf(host: Host, bytes: seq<Byte>, ms: seq<ColumnMatrix>) {
    AllFit(host, ms) && bytes == Seal(host, Payload(ms))
  }

  // ----- the fields of a matrix, one by one -----

  ghost predicate HeaderAt(bytes: seq<Byte>, cursor: nat, end: nat, h: Header) {
    var c1 := cursor + |EncString(h.featureSetId)|;
    var c2 := c1 + |EncString(h.representationId)|;
    && At(bytes, cursor, end, EncString(h.featureSetId))
    && At(bytes, c1, end, EncString(h.representationId))
    && At(bytes, c2, end, LE(4, h.rows))
    && At(bytes, c2 + 4, end, LE(4, h.features))
    && At(bytes, c2 + 4 + 4, end, EncBit(h.hasValidity))
  }

  lemma HeaderFields(bytes: seq<Byte>, cursor: nat, end: nat, h: Header)
    ensures At(bytes, cursor, end, EncHeader(h)) <==> HeaderAt(bytes, cursor, end, h)
  {
    AtFive(bytes, cursor, end, EncString(h.featureSetId), EncString(h.representationId),
           LE(4, h.rows), LE(4, h.features), EncBit(h.hasValidity));
  }

  ghost predicate BodyAt(bytes: seq<Byte>, c5: nat, end: nat, m: ColumnMatrix) {
    var c6 := c5 + |EncAll(EncString, m.featureNames)|;
    var c7 := c6 + |EncAll(EncString, m.observationIds)|;
    var c8 := c7 + |EncAll(EncColumn, m.columns)|;
    && At(bytes, c5, end, EncAll(EncString, m.featureNames))
    && At(bytes, c6, end, EncAll(EncString, m.observationIds))
    && At(bytes, c7, end, EncAll(EncColumn, m.columns))
    && At(bytes, c8, end, EncMasks(m.validityMasks))
  }

  /** The fields of `m` stand one after the other from `cursor` on. */
  lemma MatrixFields(bytes: seq<Byte>, cursor: nat, end: nat, m: ColumnMatrix)
    ensures At(bytes, cursor, end, EncMatrix(m)) <==>
      At(bytes, cursor, end, EncHeader(HeaderOf(m))) && BodyAt(bytes, cursor + |EncHeader(HeaderOf(m))|, end, m)
  {
    hide At, EncHeader, EncAll, EncMasks;
    AtFive(bytes, cursor, end, EncHeader(HeaderOf(m)), EncAll(EncString, m.featureNames),
           EncAll(EncString, m.observationIds), EncAll(EncColumn, m.columns), EncMasks(m.validityMasks));
  }

  // ----- sizes, which the parser checks counts against -----

  lemma ColumnLength(column: seq<F64>)
    ensures |EncColumn(column)| == 8 * |column|
  {
    EncAllLength(EncF64, column, 8);
  }

  lemma MaskLength(mask: seq<bool>)
    ensures |EncMask(mask)| == |mask|
  {
    EncAllLength(EncBit, mask, 1);
  }

  lemma CellsLength(m: ColumnMatrix, width: nat, height: nat)
    requires Rectangular(m.columns, width, height)
    requires m.validityMasks.Some? ==> Rectangular(m.validityMasks.value, width, height)
    ensures |EncAll(EncColumn, m.columns)| == width * (8 * height)
    ensures m.validityMasks.Some? ==> |EncMasks(m.validityMasks)| == width * height
  {
    forall f | 0 <= f < width
      ensures |EncColumn(m.columns[f])| == 8 * height
    {
      ColumnLength(m.columns[f]);
    }
    EncAllLength(EncColumn, m.columns, 8 * height);
    if m.validityMasks.Some? {
      forall f | 0 <= f < width
        ensures |EncMask(m.validityMasks.value[f])| == height
      {
        MaskLength(m.validityMasks.value[f]);
      }
      EncAllLength(EncMask, m.validityMasks.value, height);
    }
  }

  lemma MatrixMinLength(m: ColumnMatrix)
    ensures |EncMatrix(m)| >= 17
  {}

  lemma PayloadFields(bytes: seq<Byte>, end: nat, ms: seq<ColumnMatrix>)
    ensures At(bytes, 0, end, Payload(ms)) <==>
      && At(bytes, 0, end, MAGIC)
      && At(bytes, 4, end, LE(4, FORMAT_VERSION))
      && At(bytes, 8, end, LE(4, |ms|))
      && At(bytes, 12, end, EncAll(EncMatrix, ms))
  {
    hide At, EncAll, LE, EncMatrix;
    AtConcat(bytes, 0, end, MAGIC + LE(4, FORMAT_VERSION) + LE(4, |ms|), EncAll(EncMatrix, ms));
    AtConcat(bytes, 0, end, MAGIC + LE(4, FORMAT_VERSION), LE(4, |ms|));
    AtConcat(bytes, 0, end, MAGIC, LE(4, FORMAT_VERSION));
  }

  /** A sealed file: the payload fills everything up to the trailer. */
  lemma SealedFields(host: Host, bytes: seq<Byte>, end: nat, payload: seq<Byte>)
    requires |bytes| == end + TRAILER_LEN
    ensures bytes == Seal(host, payload) <==>
      |payload| == end && At(bytes, 0, end, payload) && bytes[end..] == host.sha256(bytes[..end])
  {
    assert bytes == bytes[..end] + bytes[end..] && bytes[0..end] == bytes[..end];
    if bytes == Seal(host, payload) {
      assert bytes[..end] == payload && bytes[end..] == host.sha256(payload);
    }
  }

  // ----- what can be written, in the fields of a matrix -----

  /** The identifier grammar by character codes: letters, digits, underscore, hyphen and dot. */
  lemma IdInFields(host: Host, text: Text)
    ensures IdFits(host, text) <==>
      && host.utf8(text) && 1 <= |text| <= 128
      && forall i :: 0 <= i < |text| ==>
           || 65 <= text[i] <= 90 || 97 <= text[i] <= 122 || 48 <= text[i] <= 57
           || text[i] == 95 || text[i] == 45 || text[i] == 46
  {
    assert 'a' as int == 97 && 'z' as int == 122 && 'A' as int == 65 && 'Z' as int == 90;
    assert '0' as int == 48 && '9' as int == 57 && '_' as int == 95 && '-' as int == 45 && '.' as int == 46;
  }

  /** Which matrices can be written. */
  lemma FitsInFields(host: Host, m: ColumnMatrix)
    ensures Fits(host, m) <==>
      && host.utf8(m.featureSetId) && |m.featureSetId| <= 0xFFFF_FFFF
      && IdFits(host, m.representationId)
      && |m.observationIds| <= 0xFFFF_FFFF && |m.featureNames| <= 0xFFFF_FFFF
      && (forall i :: 0 <= i < |m.featureNames| ==>
            host.utf8(m.featureNames[i]) && |m.featureNames[i]| <= 0xFFFF_FFFF)
      && (forall i :: 0 <= i < |m.observationIds| ==> IdFits(host, m.observationIds[i]))
      && |m.columns| == |m.featureNames|
      && (forall f :: 0 <= f < |m.columns| ==> |m.columns[f]| == |m.observationIds|)
      && (m.validityMasks.Some? ==>
            && |m.validityMasks.value| == |m.featureNames|
            && forall f :: 0 <= f < |m.featureNames| ==> |m.validityMasks.value[f]| == |m.observationIds|)
  {
    hide IdFits;
  }
}
