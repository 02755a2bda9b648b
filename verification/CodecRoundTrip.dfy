/** What saving and loading `.n4d` files preserves
    (crates/dag-ml-data-core/src/buffer_file_store.rs). */
module CodecRoundTrip {
  import opened BufferCodec
  import opened BufferFormat
  import opened FeatureBuffer
  import opened FeatureStore
  import opened Ordering
  import opened Words
  import opened Wrappers

  // ----- round trip -----

  /** Every valid store whose counts fit is written to a file that is accepted again and
      builds the very same store, cell for cell, masked cells and row index included. */
  lemma RoundTrip(host: Host, s: Store)
    requires StoreValid(host, s) && StoreFinite(s) && StoreFits(host, s)
    ensures IsFileOf(host, FileBytes(host, s), StoredMatrices(s))
    ensures StoreOf(host, StoredMatrices(s)) == Ok(s)
  {
    hide Fits, StoreOf, StoreValid, StoreFinite, StoredMatrices, EncMatrix, EncAll, LE, ToColumns, Seal;
    StoreRestored(host, s);
    forall i | 0 <= i < |StoredMatrices(s)|
      ensures Fits(host, StoredMatrices(s)[i])
    {
      StoredFrom(s, i);
    }
  }

  lemma StoredFrom(s: Store, i: nat)
    requires i < |StoredMatrices(s)|
    ensures exists id :: id in s && StoredMatrices(s)[i] == ToColumns(s[id])
  {
    TextOrder();
    var keys := KeyOrder(TextLess, s.Keys);
    assert keys[i] in keys && keys[i] in s;
    assert StoredMatrices(s)[i] == ToColumns(s[keys[i]]);
  }

  method SaveAndLoad(host: Host, s: Store) returns (r: Result<Store>)
    requires StoreValid(host, s) && StoreFinite(s) && StoreFits(host, s)
    requires |FileBytes(host, s)| <= host.usizeMax
    ensures r == Ok(s)
  {
    RoundTrip(host, s);
    var bytes := Serialize(host, s);
    r := Deserialize(host, bytes);
  }

  /** Different stores are written to different files. */
  lemma SerializeInjective(host: Host, s1: Store, s2: Store)
    requires StoreValid(host, s1) && StoreFinite(s1) && StoreFits(host, s1)
    requires StoreValid(host, s2) && StoreFinite(s2) && StoreFits(host, s2)
    requires FileBytes(host, s1) == FileBytes(host, s2)
    ensures s1 == s2
  {
    RoundTrip(host, s1);
    RoundTrip(host, s2);
    FileDeterminesMatrices(host, FileBytes(host, s1), StoredMatrices(s1), StoredMatrices(s2));
  }

  /** Whatever file was accepted, the store it gave is itself writable, and writing it
      reaches a fixed point: that file loads to the same store, so a second save repeats it. */
  lemma ReserializeFixedPoint(host: Host, bytes: seq<Byte>, ms: seq<ColumnMatrix>, s: Store)
    requires IsFileOf(host, bytes, ms) && StoreOf(host, ms) == Ok(s)
    ensures StoreFits(host, s)
    ensures IsFileOf(host, FileBytes(host, s), StoredMatrices(s))
    ensures StoreOf(host, StoredMatrices(s)) == Ok(s)
  {
    StoreOfValid(host, ms);
    AcceptedFits(host, ms, s);
    RoundTrip(host, s);
  }

  lemma {:induction false} AcceptedFits(host: Host, ms: seq<ColumnMatrix>, s: Store)
    requires (forall i :: 0 <= i < |ms| ==> Fits(host, ms[i])) && StoreOf(host, ms) == Ok(s)
    ensures forall id :: id in s ==> Fits(host, ToColumns(s[id]))
  {
    if ms != [] {
      var last := ms[|ms| - 1];
      AcceptedFits(host, ms[..|ms| - 1], StoreOf(host, ms[..|ms| - 1]).value);
    }
  }

  // ----- a file determines what was written -----

  predicate ShortText(text: Text) { |text| <= U32_MAX }

  predicate AnyF64(value: F64) { true }

  predicate AnyBit(bit: bool) { true }

  lemma StringCode()
    ensures PrefixCode(EncString, ShortText)
  {
    Pow256Values();
    forall a, b, x, y | ShortText(a) && ShortText(b) && EncString(a) + x == EncString(b) + y
      ensures a == b && x == y
    {
      TextUnique(4, a, x, b, y);
    }
  }

  lemma F64Code()
    ensures PrefixCode(EncF64, AnyF64)
  {
    Pow256Values();
    forall a: F64, b: F64, x, y | EncF64(a) + x == EncF64(b) + y
      ensures a == b && x == y
    {
      WordUnique(8, a, x, b, y);
    }
  }

  lemma BitCode()
    ensures PrefixCode(EncBit, AnyBit)
  {
    forall a: bool, b: bool, x, y | EncBit(a) + x == EncBit(b) + y
      ensures a == b && x == y
    {
      SplitEqual(EncBit(a), x, EncBit(b), y);
      assert EncBit(a)[0] == EncBit(b)[0];
    }
  }

  lemma ColumnCode(rows: nat)
    ensures PrefixCode(EncColumn, (c: seq<F64>) => |c| == rows)
  {
    F64Code();
    forall a: seq<F64>, b: seq<F64>, x, y | |a| == rows && |b| == rows && EncColumn(a) + x == EncColumn(b) + y
      ensures a == b && x == y
    {
      EncAllUnique(EncF64, AnyF64, a, x, b, y);
    }
  }

  lemma MaskCode(rows: nat)
    ensures PrefixCode(EncMask, (m: seq<bool>) => |m| == rows)
  {
    BitCode();
    forall a: seq<bool>, b: seq<bool>, x, y | |a| == rows && |b| == rows && EncMask(a) + x == EncMask(b) + y
      ensures a == b && x == y
    {
      EncAllUnique(EncBit, AnyBit, a, x, b, y);
    }
  }

  lemma HeaderUnique(a: Header, x: seq<Byte>, b: Header, y: seq<Byte>)
    requires ShortText(a.featureSetId) && ShortText(a.representationId) && a.rows <= U32_MAX && a.features <= U32_MAX
    requires ShortText(b.featureSetId) && ShortText(b.representationId) && b.rows <= U32_MAX && b.features <= U32_MAX
    requires EncHeader(a) + x == EncHeader(b) + y
    ensures a == b && x == y
  {
    hide EncString, EncBit, LE;
    StringCode();
    BitCode();
    Pow256Values();
    var a5, b5 := EncBit(a.hasValidity) + x, EncBit(b.hasValidity) + y;
    var a4, b4 := LE(4, a.features) + a5, LE(4, b.features) + b5;
    var a3, b3 := LE(4, a.rows) + a4, LE(4, b.rows) + b4;
    var a2, b2 := EncString(a.representationId) + a3, EncString(b.representationId) + b3;
    Assoc5(EncString(a.featureSetId), EncString(a.representationId), LE(4, a.rows), LE(4, a.features),
           EncBit(a.hasValidity), x);
    Assoc5(EncString(b.featureSetId), EncString(b.representationId), LE(4, b.rows), LE(4, b.features),
           EncBit(b.hasValidity), y);
    assert a2 == b2;
    assert a3 == b3;
    WordUnique(4, a.rows, a4, b.rows, b4);
    WordUnique(4, a.features, a5, b.features, b5);
  }

  lemma MatrixUnique(host: Host, a: ColumnMatrix, x: seq<Byte>, b: ColumnMatrix, y: seq<Byte>)
    requires Fits(host, a) && Fits(host, b) && EncMatrix(a) + x == EncMatrix(b) + y
    ensures a == b && x == y
  {
    hide EncHeader, EncString, EncAll, ValidId;
    var a4, b4 := EncMasks(a.validityMasks) + x, EncMasks(b.validityMasks) + y;
    var a3, b3 := EncAll(EncColumn, a.columns) + a4, EncAll(EncColumn, b.columns) + b4;
    var a2, b2 := EncAll(EncString, a.observationIds) + a3, EncAll(EncString, b.observationIds) + b3;
    var a1, b1 := EncAll(EncString, a.featureNames) + a2, EncAll(EncString, b.featureNames) + b2;
    assert EncMatrix(a) + x == EncHeader(HeaderOf(a)) + a1;
    assert EncMatrix(b) + y == EncHeader(HeaderOf(b)) + b1;
    HeaderUnique(HeaderOf(a), a1, HeaderOf(b), b1);
    StringCode();
    EncAllUnique(EncString, ShortText, a.featureNames, a2, b.featureNames, b2);
    EncAllUnique(EncString, ShortText, a.observationIds, a3, b.observationIds, b3);
    var rows := |a.observationIds|;
    ColumnCode(rows);
    EncAllUnique(EncColumn, (c: seq<F64>) => |c| == rows, a.columns, a4, b.columns, b4);
    if a.validityMasks.Some? {
      MaskCode(rows);
      EncAllUnique(EncMask, (m: seq<bool>) => |m| == rows, a.validityMasks.value, x, b.validityMasks.value, y);
    } else {
      assert a4 == x && b4 == y;
    }
  }

  lemma FileDeterminesMatrices(host: Host, bytes: seq<Byte>, a: seq<ColumnMatrix>, b: seq<ColumnMatrix>)
    requires IsFileOf(host, bytes, a) && IsFileOf(host, bytes, b)
    ensures a == b
  {
    hide EncMatrix, Fits, EncAll;
    SplitEqual(Payload(a), host.sha256(Payload(a)), Payload(b), host.sha256(Payload(b)));
    var prefix := MAGIC + LE(4, FORMAT_VERSION);
    assert Payload(a) == prefix + (LE(4, |a|) + EncAll(EncMatrix, a));
    assert Payload(b) == prefix + (LE(4, |b|) + EncAll(EncMatrix, b));
    SplitEqual(prefix, LE(4, |a|) + EncAll(EncMatrix, a), prefix, LE(4, |b|) + EncAll(EncMatrix, b));
    Pow256Values();
    WordUnique(4, |a|, EncAll(EncMatrix, a), |b|, EncAll(EncMatrix, b));
    forall m1, m2, x, y | Fits(host, m1) && Fits(host, m2) && EncMatrix(m1) + x == EncMatrix(m2) + y
      ensures m1 == m2 && x == y
    {
      MatrixUnique(host, m1, x, m2, y);
    }
    EncAllUnique(EncMatrix, (m: ColumnMatrix) => Fits(host, m), a, [], b, []);
  }
}
