/** Where each value of a file stands, byte by byte
    (crates/dag-ml-data-core/src/buffer_file_store.rs). */
module FileLayout {
  import opened BufferFormat
  import opened FeatureBuffer
  import opened FeatureStore
  import opened Words
  import opened Wrappers

  /** A file starts with its magic, its version and the number of its matrices, and ends with
      the digest of all that stands before. */
  lemma Frame(host: Host, file: seq<Byte>, ms: seq<ColumnMatrix>)
    requires IsFileOf(host, file, ms)
    ensures |file| >= 44
    ensures file[..8] == [0x4E, 0x34, 0x44, 0x46, 1, 0, 0, 0]
    ensures var b: seq<int> := file; b[8] + 256 * b[9] + 65_536 * b[10] + 16_777_216 * b[11] == |ms|
    ensures file[|file| - 32..] == host.sha256(file[..|file| - 32])
  {
    hide EncAll, EncMatrix, Fits;
    var payload := Payload(ms);
    assert |host.sha256(payload)| == 32;
    assert file[..|file| - 32] == payload && file[|file| - 32..] == host.sha256(payload);
    FourBytes(|ms|);
    assert payload[8..12] == LE(4, |ms|);
    VersionBytes();
    assert payload[..8] == MAGIC + LE(4, FORMAT_VERSION);
  }

  lemma VersionBytes()
    ensures MAGIC + LE(4, FORMAT_VERSION) == [0x4E, 0x34, 0x44, 0x46, 1, 0, 0, 0]
  {}

  /** The matrices of a stored file stand one after the other from byte 12 on. */
  lemma MatrixStands(host: Host, file: seq<Byte>, ms: seq<ColumnMatrix>, at: seq<nat>, i: nat)
    requires IsFileOf(host, file, ms) && i < |ms|
    requires |at| == |ms| + 1 && at[0] == 12 && forall k :: 0 <= k < |ms| ==> at[k + 1] == at[k] + |EncMatrix(ms[k])|
    ensures At(file, at[i], |file|, EncMatrix(ms[i])) && at[|ms|] + 32 == |file|
  {
    hide EncMatrix, Fits, EncAll, LE;
    var payload := Payload(ms);
    assert |host.sha256(payload)| == 32;
    assert payload[12..] == EncAll(EncMatrix, ms) && file[12..|payload|] == payload[12..];
    EncAllAt(EncMatrix, ms, i, file, 12, |file|);
    OffsetsSum(EncMatrix, ms, at, i);
    OffsetsSum(EncMatrix, ms, at, |ms|);
    assert ms[..|ms|] == ms;
  }

  /** A matrix is its header, its feature names, its observation ids, its values and its masks. */
  lemma MatrixParts(bytes: seq<Byte>, at: nat, m: ColumnMatrix, names: nat, ids: nat, values: nat, masks: nat)
    requires At(bytes, at, |bytes|, EncMatrix(m))
    requires names == at + 17 + |m.featureSetId| + |m.representationId|
    requires ids == names + |EncAll(EncString, m.featureNames)|
    requires values == ids + |EncAll(EncString, m.observationIds)|
    requires masks == values + |EncAll(EncColumn, m.columns)|
    ensures At(bytes, at, |bytes|, EncHeader(HeaderOf(m)))
    ensures At(bytes, names, |bytes|, EncAll(EncString, m.featureNames))
    ensures At(bytes, ids, |bytes|, EncAll(EncString, m.observationIds))
    ensures At(bytes, values, |bytes|, EncAll(EncColumn, m.columns))
    ensures m.validityMasks.Some? ==> At(bytes, masks, |bytes|, EncAll(EncMask, m.validityMasks.value))
  {
    hide EncMatrix, EncAll, At, EncHeader, EncString, EncColumn, EncMask;
    MatrixFields(bytes, at, |bytes|, m);
    HeaderLength(HeaderOf(m));
  }

  lemma HeaderLength(h: Header)
    ensures |EncHeader(h)| == 17 + |h.featureSetId| + |h.representationId|
  {}

  /** The header: both strings with their lengths, the counts of rows and of features, and
      whether masks follow. */
  lemma HeaderBytes(bytes: seq<Byte>, at: nat, m: ColumnMatrix)
    requires |m.featureSetId| <= U32_MAX && |m.representationId| <= U32_MAX
    requires |m.observationIds| <= U32_MAX && |m.featureNames| <= U32_MAX
    requires At(bytes, at, |bytes|, EncHeader(HeaderOf(m)))
    ensures
      var b: seq<int> := bytes;
      var p := at + 4 + |m.featureSetId|;
      var q := p + 4 + |m.representationId|;
      && q + 9 <= |b|
      && b[at] + 256 * b[at + 1] + 65_536 * b[at + 2] + 16_777_216 * b[at + 3] == |m.featureSetId|
      && bytes[at + 4..p] == m.featureSetId
      && b[p] + 256 * b[p + 1] + 65_536 * b[p + 2] + 16_777_216 * b[p + 3] == |m.representationId|
      && bytes[p + 4..q] == m.representationId
      && b[q] + 256 * b[q + 1] + 65_536 * b[q + 2] + 16_777_216 * b[q + 3] == |m.observationIds|
      && b[q + 4] + 256 * b[q + 5] + 65_536 * b[q + 6] + 16_777_216 * b[q + 7] == |m.featureNames|
      && b[q + 8] == (if m.validityMasks.Some? then 1 else 0)
  {
    hide At, EncHeader, EncString, LE;
    var p := at + 4 + |m.featureSetId|;
    var q := p + 4 + |m.representationId|;
    HeaderFields(bytes, at, |bytes|, HeaderOf(m));
    StringLength(m.featureSetId);
    StringLength(m.representationId);
    StringStands(bytes, at, m.featureSetId);
    StringStands(bytes, p, m.representationId);
    WordStands(bytes, q, |m.observationIds|);
    WordStands(bytes, q + 4, |m.featureNames|);
    BitStands(bytes, q + 8, m.validityMasks.Some?);
  }

  lemma StringLength(text: Text)
    ensures |EncString(text)| == 4 + |text|
  {}

  lemma BitStands(bytes: seq<Byte>, at: nat, bit: bool)
    requires At(bytes, at, |bytes|, EncBit(bit))
    ensures at < |bytes| && bytes[at] == (if bit then 1 else 0)
  {
    assert bytes[at..at + 1][0] == EncBit(bit)[0];
  }

  lemma WordStands(bytes: seq<Byte>, at: nat, n: U32)
    requires At(bytes, at, |bytes|, LE(4, n))
    ensures at + 4 <= |bytes|
    ensures var b: seq<int> := bytes; b[at] + 256 * b[at + 1] + 65_536 * b[at + 2] + 16_777_216 * b[at + 3] == n
  {
    FourBytes(n);
    var e := bytes[at..at + 4];
    assert e[0] == bytes[at] && e[1] == bytes[at + 1] && e[2] == bytes[at + 2] && e[3] == bytes[at + 3];
    hide LE;
  }

  lemma StringStands(bytes: seq<Byte>, at: nat, text: Text)
    requires |text| <= U32_MAX && At(bytes, at, |bytes|, EncString(text))
    ensures at + 4 + |text| <= |bytes|
    ensures var b: seq<int> := bytes; b[at] + 256 * b[at + 1] + 65_536 * b[at + 2] + 16_777_216 * b[at + 3] == |text|
    ensures bytes[at + 4..at + 4 + |text|] == text
  {
    AtConcat(bytes, at, |bytes|, LE(4, |text|), text);
    WordStands(bytes, at, |text|);
  }

  /** Strings stand one after the other, each with its length. */
  lemma StringBytes(bytes: seq<Byte>, texts: seq<Text>, at: seq<nat>, i: nat)
    requires i < |texts| && |texts[i]| <= U32_MAX
    requires |at| == |texts| + 1 && forall k :: 0 <= k < |texts| ==> at[k + 1] == at[k] + 4 + |texts[k]|
    requires At(bytes, at[0], |bytes|, EncAll(EncString, texts))
    ensures
      var b: seq<int> := bytes; var p := at[i];
      && at[i + 1] <= |b|
      && b[p] + 256 * b[p + 1] + 65_536 * b[p + 2] + 16_777_216 * b[p + 3] == |texts[i]|
      && bytes[p + 4..at[i + 1]] == texts[i]
    ensures at[|texts|] == at[0] + |EncAll(EncString, texts)|
  {
    hide EncAll, LE, At, EncString;
    forall k | 0 <= k < |texts|
      ensures at[k + 1] == at[k] + |EncString(texts[k])|
    {
      StringLength(texts[k]);
    }
    EncAllAt(EncString, texts, i, bytes, at[0], |bytes|);
    OffsetsSum(EncString, texts, at, i);
    OffsetsSum(EncString, texts, at, |texts|);
    assert texts[..|texts|] == texts;
    StringStands(bytes, at[i], texts[i]);
  }

  /** The values stand feature after feature, eight bytes each. */
  lemma ValueBytes(bytes: seq<Byte>, start: nat, columns: seq<seq<F64>>, features: nat, rows: nat, f: nat, r: nat)
    requires |columns| == features && forall k :: 0 <= k < features ==> |columns[k]| == rows
    requires f < features && r < rows
    requires At(bytes, start, |bytes|, EncAll(EncColumn, columns))
    ensures |EncAll(EncColumn, columns)| == 8 * (features * rows)
    ensures
      var b: seq<int> := bytes;
      var p := start + 8 * (f * rows + r);
      && p + 8 <= |b|
      && b[p] + 0x100 * b[p + 1] + 0x1_0000 * b[p + 2] + 0x100_0000 * b[p + 3] + 0x1_0000_0000 * b[p + 4]
         + 0x100_0000_0000 * b[p + 5] + 0x1_0000_0000_0000 * b[p + 6] + 0x100_0000_0000_0000 * b[p + 7]
         == columns[f][r]
  {
    hide At, EncAll, LE;
    GridCell(EncF64, EncColumn, 8, bytes, start, columns, features, rows, f, r);
    LongStands(bytes, start + 8 * (f * rows + r), columns[f][r]);
  }

  /** The mask bytes stand in the same order. */
  lemma MaskBytes(bytes: seq<Byte>, start: nat, masks: seq<seq<bool>>, features: nat, rows: nat, f: nat, r: nat)
    requires |masks| == features && forall k :: 0 <= k < features ==> |masks[k]| == rows
    requires f < features && r < rows
    requires At(bytes, start, |bytes|, EncAll(EncMask, masks))
    ensures start + f * rows + r < |bytes|
    ensures bytes[start + f * rows + r] == (if masks[f][r] then 1 else 0)
  {
    hide At, EncAll;
    GridCell(EncBit, EncMask, 1, bytes, start, masks, features, rows, f, r);
    BitStands(bytes, start + f * rows + r, masks[f][r]);
  }
}
