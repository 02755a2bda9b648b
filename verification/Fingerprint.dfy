/** The content fingerprint of a feature buffer
    (crates/dag-ml-data-core/src/buffer.rs). */
module Fingerprint {
  import opened ContentHash
  import opened FeatureBuffer
  import opened Sequences
  import opened Words
  import opened Wrappers

  function AsciiByte(c: char): Byte { c as int % 256 }

  const DOMAIN_TAG := "dag-ml-data.numeric-feature-buffer.v2\0"
  const DOMAIN: seq<Byte> := seq(|DOMAIN_TAG|, i requires 0 <= i < |DOMAIN_TAG| => AsciiByte(DOMAIN_TAG[i]))

  ghost predicate Aligned(b: Buffer) {
    Rectangular(b.columns, |b.featureNames|, |b.observationIds|)
  }

  /** The cells of a row from left to right. */
  function Row(b: Buffer, r: nat): seq<Option<F64>>
    requires r < |b.observationIds| && forall f :: 0 <= f < |b.columns| ==> |b.columns[f]| == |b.observationIds|
  {
    seq(|b.columns|, f requires 0 <= f < |b.columns| => b.columns[f][r])
  }

  function FrameRow(row: seq<Option<F64>>): seq<Byte> { EncAll(FrameCell, row) }

  function Rows(b: Buffer): seq<seq<Option<F64>>>
    requires forall f :: 0 <= f < |b.columns| ==> |b.columns[f]| == |b.observationIds|
  {
    seq(|b.observationIds|, r requires 0 <= r < |b.observationIds| => Row(b, r))
  }

  /** The bytes the fingerprint hashes. */
  function Preimage(b: Buffer): seq<Byte>
    requires forall f :: 0 <= f < |b.columns| ==> |b.columns[f]| == |b.observationIds|
  {
    DOMAIN + FrameStr(b.featureSetId) + FrameStr(b.representationId)
    + FrameStrs(b.featureNames) + FrameStrs(b.observationIds)
    + LE(8, |b.observationIds|) + LE(8, |b.featureNames|)
    + EncAll(FrameRow, Rows(b))
  }

  /** Lengths fit 64 bits, which every real string and vector does. */
  predicate BufferLengthsFit(b: Buffer) {
    && LengthsFit(Str(b.featureSetId)) && LengthsFit(Str(b.representationId))
    && LengthsFit(Strs(b.featureNames)) && LengthsFit(Strs(b.observationIds))
  }

  ghost function FingerprintOf(host: Host, b: Buffer): Result<string> {
    if BufferValid(host, b) then Ok(Hex(host.sha256(Preimage(b)))) else ValidationError
  }

  method Compute(host: Host, b: Buffer) returns (r: Result<string>)
    requires BufferLengthsFit(b)
    ensures r == FingerprintOf(host, b)
    ensures r.Ok? <==> BufferValid(host, b)
    ensures r.Ok? ==> r.value == Hex(host.sha256(Preimage(b)))
  {
    var valid := Validate(host, b);
    if !valid {
      return ValidationError;
    }
    var hasher := new StreamingHasher(host, DOMAIN);
    hasher.AbsorbStr(b.featureSetId);
    hasher.AbsorbStr(b.representationId);
    hasher.AbsorbStrCollection(b.featureNames);
    hasher.AbsorbStrCollection(b.observationIds);
    hasher.AbsorbLen(|b.observationIds|);
    hasher.AbsorbLen(|b.featureNames|);
    AbsorbCells(hasher, b);
    var hex := hasher.FinalizeHex();
    return Ok(hex);
  }

  /** The row-major traversal of the column-major storage. */
  method AbsorbCells(hasher: StreamingHasher, b: Buffer)
    requires hasher.Valid()
    requires forall f :: 0 <= f < |b.columns| ==> |b.columns[f]| == |b.observationIds|
    modifies hasher
    ensures hasher.Valid() && hasher.Stream() == old(hasher.Stream()) + EncAll(FrameRow, Rows(b))
  {
    hide EncAll, FrameCell;
    ghost var base := hasher.Stream();
    ghost var rows := Rows(b);
    assert EncAll(FrameRow, rows[..0]) == [] by { EncAllNone(FrameRow, [], 0, 0); assert rows[..0] == []; }
    for r := 0 to |b.observationIds|
      invariant hasher.Valid() && hasher.Stream() == base + EncAll(FrameRow, rows[..r])
    {
      AbsorbRow(hasher, b, r);
      EncAllPush(FrameRow, rows[..r], rows[r]);
      assert rows[..r + 1] == rows[..r] + [rows[r]];
    }
    assert rows[..|rows|] == rows;
  }

  method AbsorbRow(hasher: StreamingHasher, b: Buffer, r: nat)
    requires hasher.Valid() && r < |b.observationIds|
    requires forall f :: 0 <= f < |b.columns| ==> |b.columns[f]| == |b.observationIds|
    modifies hasher
    ensures hasher.Valid() && hasher.Stream() == old(hasher.Stream()) + FrameRow(Row(b, r))
  {
    hide EncAll, FrameCell;
    ghost var base := hasher.Stream();
    ghost var row := Row(b, r);
    assert EncAll(FrameCell, row[..0]) == [] by { EncAllNone(FrameCell, [], 0, 0); assert row[..0] == []; }
    for f := 0 to |b.columns|
      invariant hasher.Valid() && hasher.Stream() == base + EncAll(FrameCell, row[..f])
    {
      hasher.AbsorbCell(b.columns[f][r]);
      EncAllPush(FrameCell, row[..f], row[f]);
      assert row[..f + 1] == row[..f] + [row[f]];
    }
    assert row[..|row|] == row;
  }

  // ----- the preimage determines the buffer -----

  /** Two valid buffers with the same preimage are the same buffer: names, ids, shape and
      every optional cell, bit for bit. */
  lemma PreimageInjective(host: Host, a: Buffer, b: Buffer)
    requires BufferValid(host, a) && BufferValid(host, b) && BufferLengthsFit(a) && BufferLengthsFit(b)
    requires Preimage(a) == Preimage(b)
    ensures a == b
  {
    hide FrameStr, FrameStrs, EncAll, LE;
    var a1, b1 := Tail(a), Tail(b);
    var a2, b2 := FrameStrs(a.observationIds) + a1, FrameStrs(b.observationIds) + b1;
    var a3, b3 := FrameStrs(a.featureNames) + a2, FrameStrs(b.featureNames) + b2;
    var a4, b4 := FrameStr(a.representationId) + a3, FrameStr(b.representationId) + b3;
    var a5, b5 := FrameStr(a.featureSetId) + a4, FrameStr(b.featureSetId) + b4;
    PreimageNested(a);
    PreimageNested(b);
    SplitEqual(DOMAIN, a5, DOMAIN, b5);
    StrCode();
    assert ShortStr(a.featureSetId) && ShortStr(b.featureSetId);
    assert ShortStr(a.representationId) && ShortStr(b.representationId);
    StrsUnique(a.featureNames, a2, b.featureNames, b2);
    StrsUnique(a.observationIds, a1, b.observationIds, b1);
    TailUnique(a, b);
    IndexOfUnique(a.observationIds, a.rowIndex);
    IndexOfUnique(b.observationIds, b.rowIndex);
  }

  /** Shape and cells, after the strings. */
  function Tail(b: Buffer): seq<Byte>
    requires forall f :: 0 <= f < |b.columns| ==> |b.columns[f]| == |b.observationIds|
  {
    LE(8, |b.observationIds|) + LE(8, |b.featureNames|) + EncAll(FrameRow, Rows(b))
  }

  lemma PreimageNested(b: Buffer)
    requires forall f :: 0 <= f < |b.columns| ==> |b.columns[f]| == |b.observationIds|
    ensures Preimage(b) ==
            DOMAIN + (FrameStr(b.featureSetId) + (FrameStr(b.representationId)
            + (FrameStrs(b.featureNames) + (FrameStrs(b.observationIds) + Tail(b)))))
  {
    hide FrameStr, FrameStrs, EncAll, LE;
    Assoc5(DOMAIN, FrameStr(b.featureSetId), FrameStr(b.representationId), FrameStrs(b.featureNames),
           FrameStrs(b.observationIds), Tail(b));
  }

  lemma TailUnique(a: Buffer, b: Buffer)
    requires Aligned(a) && Aligned(b)
    requires a.observationIds == b.observationIds && a.featureNames == b.featureNames && Tail(a) == Tail(b)
    ensures a.columns == b.columns
  {
    hide EncAll, LE;
    var shape := LE(8, |a.observationIds|) + LE(8, |a.featureNames|);
    SplitEqual(shape, EncAll(FrameRow, Rows(a)), shape, EncAll(FrameRow, Rows(b)));
    var width := |a.featureNames|;
    RowCode(width);
    EncAllUnique(FrameRow, (row: seq<Option<F64>>) => |row| == width, Rows(a), [], Rows(b), []);
    forall f | 0 <= f < width
      ensures a.columns[f] == b.columns[f]
    {
      forall r | 0 <= r < |a.observationIds|
        ensures a.columns[f][r] == b.columns[f][r]
      {
        assert Rows(a)[r][f] == Rows(b)[r][f];
      }
    }
  }

  lemma RowCode(width: nat)
    ensures PrefixCode(FrameRow, (row: seq<Option<F64>>) => |row| == width)
  {
    CellCode();
    forall a: seq<Option<F64>>, b: seq<Option<F64>>, x, y |
      |a| == width && |b| == width && FrameRow(a) + x == FrameRow(b) + y
      ensures a == b && x == y
    {
      EncAllUnique(FrameCell, AnyCell, a, x, b, y);
    }
  }

  /** Equal fingerprints mean equal buffers, as long as SHA-256 keeps their preimages apart. */
  lemma FingerprintIdentifies(host: Host, a: Buffer, b: Buffer)
    requires BufferValid(host, a) && BufferValid(host, b) && BufferLengthsFit(a) && BufferLengthsFit(b)
    requires FingerprintOf(host, a) == FingerprintOf(host, b)
    requires Preimage(a) != Preimage(b) ==> host.sha256(Preimage(a)) != host.sha256(Preimage(b))
    ensures a == b
  {
    HexInjective(host.sha256(Preimage(a)), host.sha256(Preimage(b)));
    PreimageInjective(host, a, b);
  }

  // ----- the preimage, byte by byte -----

  /** The parts of the preimage and where they stand. */
  lemma PreimageParts(b: Buffer, representation: nat, names: nat, ids: nat, shape: nat)
    requires forall f :: 0 <= f < |b.columns| ==> |b.columns[f]| == |b.observationIds|
    requires representation == 46 + |b.featureSetId| && names == representation + 8 + |b.representationId|
    requires ids == names + 8 + |EncAll(FrameStr, b.featureNames)|
    requires shape == ids + 8 + |EncAll(FrameStr, b.observationIds)|
    ensures
      var bytes := Preimage(b);
      && At(bytes, 38, |bytes|, FrameStr(b.featureSetId))
      && At(bytes, representation, |bytes|, FrameStr(b.representationId))
      && At(bytes, names, |bytes|, LE(8, |b.featureNames|))
      && At(bytes, names + 8, |bytes|, EncAll(FrameStr, b.featureNames))
      && At(bytes, ids, |bytes|, LE(8, |b.observationIds|))
      && At(bytes, ids + 8, |bytes|, EncAll(FrameStr, b.observationIds))
      && At(bytes, shape, |bytes|, LE(8, |b.observationIds|))
      && At(bytes, shape + 8, |bytes|, LE(8, |b.featureNames|))
      && At(bytes, shape + 16, |bytes|, EncAll(FrameRow, Rows(b)))
      && |bytes| == shape + 16 + |EncAll(FrameRow, Rows(b))|
  {
    hide Preimage, DOMAIN, FrameStr, EncAll, At, LE, Rows;
    PreimageNested(b);
    FrameLength(b.featureSetId);
    FrameLength(b.representationId);
    EightParts(Preimage(b), DOMAIN, FrameStr(b.featureSetId), FrameStr(b.representationId),
               LE(8, |b.featureNames|), EncAll(FrameStr, b.featureNames),
               LE(8, |b.observationIds|), EncAll(FrameStr, b.observationIds),
               LE(8, |b.observationIds|), LE(8, |b.featureNames|), EncAll(FrameRow, Rows(b)));
  }

  lemma EightParts(bytes: seq<Byte>, tag: seq<Byte>, featureSet: seq<Byte>, representation: seq<Byte>,
                   nameCount: seq<Byte>, names: seq<Byte>, idCount: seq<Byte>, ids: seq<Byte>,
                   rows: seq<Byte>, features: seq<Byte>, cells: seq<Byte>)
    requires bytes == tag + (featureSet + (representation + ((nameCount + names)
                          + ((idCount + ids) + (rows + features + cells)))))
    ensures
      var p1 := |tag| + |featureSet|;
      var p2 := p1 + |representation|;
      var p3 := p2 + |nameCount| + |names|;
      var p4 := p3 + |idCount| + |ids|;
      && At(bytes, |tag|, |bytes|, featureSet)
      && At(bytes, p1, |bytes|, representation)
      && At(bytes, p2, |bytes|, nameCount)
      && At(bytes, p2 + |nameCount|, |bytes|, names)
      && At(bytes, p3, |bytes|, idCount)
      && At(bytes, p3 + |idCount|, |bytes|, ids)
      && At(bytes, p4, |bytes|, rows)
      && At(bytes, p4 + |rows|, |bytes|, features)
      && At(bytes, p4 + |rows| + |features|, |bytes|, cells)
      && |bytes| == p4 + |rows| + |features| + |cells|
  {
    WholeStands(bytes);
    hide At;
    var end := |bytes|;
    var tail := rows + features + cells;
    var rest4 := (idCount + ids) + tail;
    var rest3 := (nameCount + names) + rest4;
    var rest2 := representation + rest3;
    var p1 := |tag| + |featureSet|;
    var p2 := p1 + |representation|;
    var p3 := p2 + |nameCount + names|;
    var p4 := p3 + |idCount + ids|;
    AtConcat(bytes, 0, end, tag, featureSet + rest2);
    AtConcat(bytes, |tag|, end, featureSet, rest2);
    AtConcat(bytes, p1, end, representation, rest3);
    AtConcat(bytes, p2, end, nameCount + names, rest4);
    AtConcat(bytes, p2, end, nameCount, names);
    AtConcat(bytes, p3, end, idCount + ids, tail);
    AtConcat(bytes, p3, end, idCount, ids);
    AtConcat(bytes, p4, end, rows + features, cells);
    AtConcat(bytes, p4, end, rows, features);
  }

  lemma WholeStands(bytes: seq<Byte>)
    ensures At(bytes, 0, |bytes|, bytes)
  {
    assert bytes[0..|bytes|] == bytes;
  }

  lemma FrameLength(text: Text)
    ensures |FrameStr(text)| == 8 + |text| && |DOMAIN| == 38
  {}

  /** The preimage starts with the domain tag. */
  lemma PreimageTag(b: Buffer, i: nat)
    requires i < 38 && forall f :: 0 <= f < |b.columns| ==> |b.columns[f]| == |b.observationIds|
    ensures |Preimage(b)| >= 38
    ensures Preimage(b)[i] == "dag-ml-data.numeric-feature-buffer.v2\0"[i] as int
  {
    PreimageNested(b);
    DomainTag(i);
    hide Preimage, FrameStr, FrameStrs, EncAll, LE, Rows, Tail, DOMAIN;
    PrefixStands(DOMAIN, FrameStr(b.featureSetId) + (FrameStr(b.representationId)
                 + (FrameStrs(b.featureNames) + (FrameStrs(b.observationIds) + Tail(b)))), i);
  }

  lemma DomainTag(i: nat)
    requires i < 38
    ensures |DOMAIN| == 38 && DOMAIN[i] == "dag-ml-data.numeric-feature-buffer.v2\0"[i] as int
  {
    assert DOMAIN_TAG[i] as int < 256;
  }

  lemma PrefixStands(a: seq<Byte>, b: seq<Byte>, i: nat)
    requires i < |a|
    ensures (a + b)[i] == a[i]
  {}

  /** A framed string is its length in eight bytes and its bytes. */
  lemma FramedString(bytes: seq<Byte>, at: nat, text: Text)
    requires |text| <= U64_MAX && At(bytes, at, |bytes|, FrameStr(text))
    ensures at + 8 + |text| <= |bytes| && bytes[at + 8..at + 8 + |text|] == text
    ensures
      var b: seq<int> := bytes;
      b[at] + 0x100 * b[at + 1] + 0x1_0000 * b[at + 2] + 0x100_0000 * b[at + 3] + 0x1_0000_0000 * b[at + 4]
      + 0x100_0000_0000 * b[at + 5] + 0x1_0000_0000_0000 * b[at + 6] + 0x100_0000_0000_0000 * b[at + 7] == |text|
  {
    AtConcat(bytes, at, |bytes|, LE(8, |text|), text);
    LongStands(bytes, at, |text|);
  }

  /** Framed strings stand one after the other in their order. */
  lemma FramedStrings(bytes: seq<Byte>, texts: seq<Text>, at: seq<nat>, i: nat)
    requires i < |texts| && |texts[i]| <= U64_MAX
    requires |at| == |texts| + 1 && forall k :: 0 <= k < |texts| ==> at[k + 1] == at[k] + 8 + |texts[k]|
    requires At(bytes, at[0], |bytes|, EncAll(FrameStr, texts))
    ensures
      var b: seq<int> := bytes; var p := at[i];
      && at[i + 1] <= |b| && bytes[p + 8..at[i + 1]] == texts[i]
      && b[p] + 0x100 * b[p + 1] + 0x1_0000 * b[p + 2] + 0x100_0000 * b[p + 3] + 0x1_0000_0000 * b[p + 4]
         + 0x100_0000_0000 * b[p + 5] + 0x1_0000_0000_0000 * b[p + 6] + 0x100_0000_0000_0000 * b[p + 7] == |texts[i]|
    ensures at[|texts|] == at[0] + |EncAll(FrameStr, texts)|
  {
    hide EncAll, LE, At, FrameStr;
    forall k | 0 <= k < |texts|
      ensures at[k + 1] == at[k] + |FrameStr(texts[k])|
    {
      FrameLength(texts[k]);
    }
    EncAllAt(FrameStr, texts, i, bytes, at[0], |bytes|);
    OffsetsSum(FrameStr, texts, at, i);
    OffsetsSum(FrameStr, texts, at, |texts|);
    assert texts[..|texts|] == texts;
    FramedString(bytes, at[i], texts[i]);
  }

  /** The cells stand row after row, nine bytes each: whether a value is there, and the value,
      or zeros. */
  lemma PreimageCell(b: Buffer, bytes: seq<Byte>, start: nat, r: nat, f: nat, p: nat)
    requires Aligned(b) && r < |b.observationIds| && f < |b.featureNames|
    requires p == start + 9 * (r * |b.featureNames| + f)
    requires At(bytes, start, |bytes|, EncAll(FrameRow, Rows(b)))
    ensures
      var c: seq<int> := bytes;
      && p + 9 <= |c|
      && c[p] == (if b.columns[f][r].Some? then 1 else 0)
      && c[p + 1] + 0x100 * c[p + 2] + 0x1_0000 * c[p + 3] + 0x100_0000 * c[p + 4] + 0x1_0000_0000 * c[p + 5]
         + 0x100_0000_0000 * c[p + 6] + 0x1_0000_0000_0000 * c[p + 7] + 0x100_0000_0000_0000 * c[p + 8]
         == (if b.columns[f][r].Some? then b.columns[f][r].value else 0)
  {
    RowsCells(b, r, f);
    CellPlace(b, bytes, start, r, f, p);
    hide *;
    CellStands(bytes, p, b.columns[f][r]);
  }

  lemma CellPlace(b: Buffer, bytes: seq<Byte>, start: nat, r: nat, f: nat, p: nat)
    requires Aligned(b) && r < |b.observationIds| && f < |b.featureNames|
    requires p == start + 9 * (r * |b.featureNames| + f)
    requires At(bytes, start, |bytes|, EncAll(FrameRow, Rows(b)))
    ensures At(bytes, p, |bytes|, FrameCell(b.columns[f][r]))
  {
    RowsCells(b, r, f);
    hide LE, At, EncAll, Rows, Row, FrameCell;
    GridCell(FrameCell, FrameRow, 9, bytes, start, Rows(b), |b.observationIds|, |b.featureNames|, r, f);
  }

  lemma RowsCells(b: Buffer, r: nat, f: nat)
    requires Aligned(b) && r < |b.observationIds| && f < |b.featureNames|
    ensures |Rows(b)| == |b.observationIds| && forall k :: 0 <= k < |Rows(b)| ==> |Rows(b)[k]| == |b.featureNames|
    ensures Rows(b)[r][f] == b.columns[f][r]
  {}

  lemma CellStands(bytes: seq<Byte>, at: nat, cell: Option<F64>)
    requires At(bytes, at, |bytes|, FrameCell(cell))
    ensures
      var c: seq<int> := bytes;
      && at + 9 <= |c|
      && c[at] == (if cell.Some? then 1 else 0)
      && c[at + 1] + 0x100 * c[at + 2] + 0x1_0000 * c[at + 3] + 0x100_0000 * c[at + 4] + 0x1_0000_0000 * c[at + 5]
         + 0x100_0000_0000 * c[at + 6] + 0x1_0000_0000_0000 * c[at + 7] + 0x100_0000_0000_0000 * c[at + 8]
         == (if cell.Some? then cell.value else 0)
  {
    var value: F64 := if cell.Some? then cell.value else 0;
    var tag: seq<Byte> := [if cell.Some? then 1 else 0];
    AtConcat(bytes, at, |bytes|, tag, LE(8, value));
    assert bytes[at..at + 1][0] == tag[0];
    hide FrameCell;
    LongStands(bytes, at + 1, value);
  }
}
