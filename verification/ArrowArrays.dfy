/** Columnar Arrow arrays as the C API builds them, and their decoders
    (crates/dag-ml-data-capi/src/lib.rs; Apache Arrow Columnar Format, sections
    "Validity bitmaps" and "Variable-size Binary Layout"). */
module ArrowArrays {
  import opened Words
  import opened Wrappers

  const I32_MAX := 0x7FFF_FFFF

  /** The bit for position `k` of a byte, least significant first: `1 << k`. */
  function Mask(k: nat): bv8
    requires k < 8
  {
    if k == 0 then 1 else if k == 1 then 2 else if k == 2 then 4 else if k == 3 then 8
    else if k == 4 then 16 else if k == 5 then 32 else if k == 6 then 64 else 128
  }

  lemma MaskIsShift(k: nat)
    requires k < 8
    ensures Mask(k) == (1 as bv8) << k
  {
    assert k == 0 || k == 1 || k == 2 || k == 3 || k == 4 || k == 5 || k == 6 || k == 7;
  }

  predicate Bit(bitmap: seq<bv8>, k: nat)
    requires k / 8 < |bitmap|
  {
    bitmap[k / 8] & Mask(k % 8) != 0
  }

  /** `is_valid`: an absent bitmap means every value is present. */
  predicate IsValid(bitmap: Option<seq<bv8>>, k: nat)
    requires bitmap.Some? ==> k / 8 < |bitmap.value|
  {
    bitmap.Some? ==> Bit(bitmap.value, k)
  }

  function ByteCount(bits: nat): nat { (bits + 7) / 8 }

  /** `bitmap` holds exactly the flags, with zeros after the last one. */
  ghost predicate Packs(bitmap: seq<bv8>, flags: seq<bool>) {
    && |bitmap| == ByteCount(|flags|)
    && forall k :: 0 <= k && k / 8 < |bitmap| ==> (Bit(bitmap, k) <==> k < |flags| && flags[k])
  }

  /** `set_bitmap`: grows the bitmap with zero bytes as needed, then sets one bit. */
  method SetBitmap(bitmap: seq<bv8>, idx: nat, value: bool) returns (out: seq<bv8>)
    ensures |out| == if |bitmap| <= idx / 8 then idx / 8 + 1 else |bitmap|
    ensures forall k :: 0 <= k && k / 8 < |out| ==>
      (Bit(out, k) <==> (k == idx && value) || (k / 8 < |bitmap| && Bit(bitmap, k)))
  {
    hide Mask;
    var byte := idx / 8;
    out := bitmap;
    if |out| <= byte {
      var zeros: seq<bv8> := seq(byte + 1 - |out|, _ => 0);
      out := out + zeros;
    }
    ghost var grown := out;
    assert forall k :: 0 <= k && k / 8 < |grown| ==> (Bit(grown, k) <==> k / 8 < |bitmap| && Bit(bitmap, k));
    if value {
      out := out[byte := out[byte] | Mask(idx % 8)];
      OneBit(grown, idx, out);
    }
  }

  lemma OneBit(bitmap: seq<bv8>, idx: nat, out: seq<bv8>)
    requires idx / 8 < |bitmap| && out == bitmap[idx / 8 := bitmap[idx / 8] | Mask(idx % 8)]
    ensures forall k :: 0 <= k && k / 8 < |bitmap| ==> (Bit(out, k) <==> k == idx || Bit(bitmap, k))
  {
    forall k | 0 <= k && k / 8 < |bitmap|
      ensures Bit(out, k) <==> k == idx || Bit(bitmap, k)
    {
      assert k / 8 == idx / 8 ==> (k % 8 == idx % 8 <==> k == idx);
    }
  }

  /** Setting the next bit appends a flag to a packed bitmap. */
  lemma SetBitmapPacks(bitmap: seq<bv8>, flags: seq<bool>, flag: bool, out: seq<bv8>)
    requires Packs(bitmap, flags)
    requires |out| == if |bitmap| <= |flags| / 8 then |flags| / 8 + 1 else |bitmap|
    requires forall k :: 0 <= k && k / 8 < |out| ==>
      (Bit(out, k) <==> (k == |flags| && flag) || (k / 8 < |bitmap| && Bit(bitmap, k)))
    ensures Packs(out, flags + [flag])
  {
    assert |out| == ByteCount(|flags| + 1);
  }

  // ----- the arrays -----

  datatype StringArray = StringArray(
    length: nat,
    nullCount: nat,
    validity: Option<seq<bv8>>,
    offsets: seq<int>,
    values: seq<Byte>)

  datatype F64Array = F64Array(length: nat, nullCount: nat, validity: Option<seq<bv8>>, values: seq<U64>)

  datatype BoolArray = BoolArray(length: nat, values: seq<bv8>)

  function NullCount<T>(values: seq<Option<T>>): nat {
    if values == [] then 0
    else NullCount(values[..|values| - 1]) + if values[|values| - 1].None? then 1 else 0
  }

  lemma {:induction false} NullCountZero<T>(values: seq<Option<T>>)
    ensures NullCount(values) == 0 <==> forall i :: 0 <= i < |values| ==> values[i].Some?
  {
    if values != [] {
      NullCountZero(values[..|values| - 1]);
    }
  }

  function Flags<T>(values: seq<Option<T>>): seq<bool> {
    seq(|values|, i requires 0 <= i < |values| => values[i].Some?)
  }

  /** A validity buffer is kept exactly if there is a null, and then marks the present values. */
  ghost predicate ValidityOk<T>(validity: Option<seq<bv8>>, nullCount: nat, values: seq<Option<T>>) {
    && nullCount == NullCount(values)
    && (validity.Some? <==> nullCount > 0)
    && (validity.Some? ==> Packs(validity.value, Flags(values)))
  }

  lemma ValidityMarks<T>(validity: Option<seq<bv8>>, nullCount: nat, values: seq<Option<T>>, i: nat)
    requires ValidityOk(validity, nullCount, values) && i < |values|
    ensures validity.Some? ==> i / 8 < |validity.value|
    ensures IsValid(validity, i) <==> values[i].Some?
  {
    NullCountZero(values);
    if validity.Some? {
      assert i / 8 < ByteCount(|values|);
      assert Flags(values)[i] == values[i].Some?;
    }
  }

  /** The layout rules of the variable-size binary layout. */
  ghost predicate StringLayout(a: StringArray) {
    && |a.offsets| == a.length + 1
    && a.offsets[0] == 0
    && (forall i, j :: 0 <= i <= j <= a.length ==> 0 <= a.offsets[i] <= a.offsets[j] <= |a.values|)
    && a.offsets[a.length] == |a.values| <= I32_MAX
    && (a.validity.Some? ==> |a.validity.value| == ByteCount(a.length))
  }

  /** `utf8_values`: value `i` is the bytes between offsets `i` and `i + 1`, if valid. */
  ghost function Utf8Value(a: StringArray, i: nat): Option<Text>
    requires StringLayout(a) && i < a.length
  {
    assert i / 8 < ByteCount(a.length);
    assert a.offsets[i] <= a.offsets[i + 1] <= |a.values|;
    if IsValid(a.validity, i) then Some(a.values[a.offsets[i]..a.offsets[i + 1]]) else None
  }

  ghost predicate Utf8Decodes(a: StringArray, values: seq<Option<Text>>) {
    StringLayout(a) && a.length == |values| && forall i :: 0 <= i < a.length ==> Utf8Value(a, i) == values[i]
  }

  /** `f64_values`. */
  ghost predicate F64Decodes(a: F64Array, values: seq<Option<U64>>) {
    && a.length == |values| == |a.values|
    && (a.validity.Some? ==> |a.validity.value| == ByteCount(a.length))
    && forall i :: 0 <= i < a.length ==>
         values[i] == if a.validity.Some? && !BitAt(a.validity.value, i) then None else Some(a.values[i])
  }

  ghost predicate BitAt(bitmap: seq<bv8>, i: nat) {
    i / 8 < |bitmap| && Bit(bitmap, i)
  }

  /** `bool_values`: the values themselves are the bitmap. */
  ghost predicate BoolDecodes(a: BoolArray, values: seq<bool>) {
    && a.length == |values|
    && |a.values| == ByteCount(a.length)
    && forall i :: 0 <= i < a.length ==> values[i] == BitAt(a.values, i)
  }

  // ----- the builders -----

  /** The bytes of all present values, end to end. */
  function Concat(values: seq<Option<Text>>): seq<Byte> {
    if values == [] then []
    else
      var last := values[|values| - 1];
      Concat(values[..|values| - 1]) + if last.Some? then last.value else []
  }

  lemma {:induction false} ConcatPrefix(values: seq<Option<Text>>, k: nat)
    requires k <= |values|
    ensures Concat(values[..k]) <= Concat(values)
    decreases |values|
  {
    if k < |values| {
      assert values[..|values| - 1][..k] == values[..k];
      ConcatPrefix(values[..|values| - 1], k);
    } else {
      assert values[..k] == values;
    }
  }

  /** Offset `i` is the length of all values before `i`. */
  ghost predicate OffsetsOf(offsets: seq<int>, values: seq<Option<Text>>) {
    |offsets| == |values| + 1 && forall i :: 0 <= i <= |values| ==> offsets[i] == |Concat(values[..i])|
  }

  lemma OffsetsMonotone(offsets: seq<int>, values: seq<Option<Text>>, i: nat, j: nat)
    requires OffsetsOf(offsets, values) && i <= j <= |values|
    ensures 0 <= offsets[i] <= offsets[j] <= |Concat(values)|
  {
    hide Concat;
    ConcatPrefix(values, j);
    ConcatPrefix(values[..j], i);
    assert values[..j][..i] == values[..i];
  }

  lemma ValueBetweenOffsets(offsets: seq<int>, values: seq<Option<Text>>, i: nat)
    requires OffsetsOf(offsets, values) && i < |values|
    ensures 0 <= offsets[i] <= offsets[i + 1] <= |Concat(values)|
    ensures values[i].Some? ==> Concat(values)[offsets[i]..offsets[i + 1]] == values[i].value
  {
    OffsetsMonotone(offsets, values, i, i + 1);
    ConcatPrefix(values, i + 1);
    assert values[..i + 1][..i] == values[..i];
    var before, upTo := Concat(values[..i]), Concat(values[..i + 1]);
    assert upTo == before + if values[i].Some? then values[i].value else [];
    assert Concat(values)[|before|..|upTo|] == upTo[|before|..];
  }

  lemma Utf8RoundTrip(a: StringArray, values: seq<Option<Text>>)
    requires a.length == |values| && OffsetsOf(a.offsets, values) && a.values == Concat(values)
    requires |Concat(values)| <= I32_MAX && ValidityOk(a.validity, a.nullCount, values)
    ensures Utf8Decodes(a, values)
  {
    hide Concat, Packs;
    ConcatNothing();
    assert values[..|values|] == values && values[..0] == [];
    forall i, j | 0 <= i <= j <= a.length
      ensures 0 <= a.offsets[i] <= a.offsets[j] <= |a.values|
    {
      OffsetsMonotone(a.offsets, values, i, j);
    }
    ValidityLength(a.validity, a.nullCount, values);
    forall i | 0 <= i < a.length
      ensures Utf8Value(a, i) == values[i]
    {
      ValidityMarks(a.validity, a.nullCount, values, i);
      ValueBetweenOffsets(a.offsets, values, i);
    }
  }

  lemma ConcatNothing()
    ensures Concat([]) == []
  {}

  lemma ValidityLength<T>(validity: Option<seq<bv8>>, nullCount: nat, values: seq<Option<T>>)
    requires ValidityOk(validity, nullCount, values)
    ensures validity.Some? ==> |validity.value| == ByteCount(|values|)
  {}

  method BuildStringArray(values: seq<Option<Text>>) returns (r: Result<StringArray>)
    ensures r.Ok? <==> |Concat(values)| <= 0x7FFF_FFFF
    ensures r.Ok? ==> OffsetsOf(r.value.offsets, values) && r.value.values == Concat(values)
    ensures r.Ok? ==> Utf8Decodes(r.value, values) && ValidityOk(r.value.validity, r.value.nullCount, values)
  {
    hide Packs;
    var validity: seq<bv8> := [];
    var offsets: seq<int> := [0];
    var data: seq<Byte> := [];
    var nullCount := 0;
    NothingPacked();
    assert values[..0] == [] && Flags(values[..0]) == [];
    for i := 0 to |values|
      invariant Packs(validity, Flags(values[..i]))
      invariant nullCount == NullCount(values[..i])
      invariant data == Concat(values[..i]) && |data| <= I32_MAX
      invariant OffsetsOf(offsets, values[..i])
    {
      var value := values[i];
      assert values[..i + 1][..i] == values[..i] && values[..i + 1][i] == value;
      ghost var before := validity;
      validity := SetBitmap(validity, i, value.Some?);
      SetBitmapPacks(before, Flags(values[..i]), value.Some?, validity);
      assert Flags(values[..i + 1]) == Flags(values[..i]) + [value.Some?];
      if value.Some? {
        data := data + value.value;
      } else {
        nullCount := nullCount + 1;
      }
      if |data| > I32_MAX {
        ConcatPrefix(values, i + 1);
        return ValidationError;
      }
      ExtendOffsets(offsets, values, i);
      offsets := offsets + [|data|];
    }
    assert values[..|values|] == values;
    var built := StringArray(|values|, nullCount, if nullCount > 0 then Some(validity) else None, offsets, data);
    Utf8RoundTrip(built, values);
    return Ok(built);
  }

  lemma NothingPacked()
    ensures Packs([], [])
  {}

  lemma ExtendOffsets(offsets: seq<int>, values: seq<Option<Text>>, i: nat)
    requires i < |values| && OffsetsOf(offsets, values[..i])
    ensures OffsetsOf(offsets + [|Concat(values[..i + 1])|], values[..i + 1])
  {
    assert forall k :: 0 <= k <= i ==> values[..i + 1][..k] == values[..i][..k];
    assert values[..i + 1][..i + 1] == values[..i + 1];
  }

  method BuildF64Array(values: seq<Option<U64>>) returns (a: F64Array)
    ensures F64Decodes(a, values) && ValidityOk(a.validity, a.nullCount, values)
    ensures forall i :: 0 <= i < |values| && values[i].None? ==> a.values[i] == 0
  {
    hide Packs;
    var validity: seq<bv8> := [];
    var data: seq<U64> := [];
    var nullCount := 0;
    NothingPacked();
    assert values[..0] == [] && Flags(values[..0]) == [];
    for i := 0 to |values|
      invariant Packs(validity, Flags(values[..i]))
      invariant nullCount == NullCount(values[..i])
      invariant |data| == i && forall k :: 0 <= k < i && values[k].Some? ==> data[k] == values[k].value
      invariant forall k :: 0 <= k < i && values[k].None? ==> data[k] == 0
    {
      var value := values[i];
      assert values[..i + 1][..i] == values[..i] && values[..i + 1][i] == value;
      ghost var before := validity;
      validity := SetBitmap(validity, i, value.Some?);
      SetBitmapPacks(before, Flags(values[..i]), value.Some?, validity);
      assert Flags(values[..i + 1]) == Flags(values[..i]) + [value.Some?];
      if value.Some? {
        data := data + [value.value];
      } else {
        data := data + [0];
        nullCount := nullCount + 1;
      }
    }
    assert values[..|values|] == values;
    a := F64Array(|values|, nullCount, if nullCount > 0 then Some(validity) else None, data);
    F64RoundTrip(a, values);
  }

  lemma F64RoundTrip(a: F64Array, values: seq<Option<U64>>)
    requires a.length == |values| == |a.values| && ValidityOk(a.validity, a.nullCount, values)
    requires forall k :: 0 <= k < |values| && values[k].Some? ==> a.values[k] == values[k].value
    ensures F64Decodes(a, values)
  {
    forall i | 0 <= i < a.length
      ensures values[i] == if a.validity.Some? && !BitAt(a.validity.value, i) then None else Some(a.values[i])
    {
      ValidityMarks(a.validity, a.nullCount, values, i);
    }
  }

  method BuildBoolArray(values: seq<bool>) returns (a: BoolArray)
    ensures BoolDecodes(a, values)
  {
    var bitmap: seq<bv8> := [];
    assert values[..0] == [];
    for i := 0 to |values|
      invariant Packs(bitmap, values[..i])
    {
      ghost var before := bitmap;
      bitmap := SetBitmap(bitmap, i, values[i]);
      SetBitmapPacks(before, values[..i], values[i], bitmap);
      assert values[..i + 1] == values[..i] + [values[i]];
    }
    assert values[..|values|] == values;
    assert forall i :: 0 <= i < |values| ==> i / 8 < ByteCount(|values|);
    return BoolArray(|values|, bitmap);
  }

  // ----- what was encoded can be told from the array -----

  /** Two lists with the same string array are the same list. */
  lemma Utf8Injective(a: StringArray, u: seq<Option<Text>>, v: seq<Option<Text>>)
    requires Utf8Decodes(a, u) && Utf8Decodes(a, v)
    ensures u == v
  {
    forall i | 0 <= i < |u|
      ensures u[i] == v[i]
    {
      assert Utf8Value(a, i) == u[i];
    }
  }

  // ----- the arrays, in offsets and bits -----

  ghost function Nulls<T>(values: seq<Option<T>>): set<nat> {
    set i: nat | i < |values| && values[i].None?
  }

  /** The null count is the number of nulls. */
  lemma {:induction false} NullsCounted<T>(values: seq<Option<T>>)
    ensures NullCount(values) == |set i: nat | i < |values| && values[i].None?|
    decreases |values|
  {
    if values == [] {
      assert Nulls(values) == {};
    } else {
      var n := |values| - 1;
      NullsCounted(values[..n]);
      assert Nulls(values) == if values[n].None? then Nulls(values[..n]) + {n} else Nulls(values[..n]);
    }
  }

  /** The validity buffer: absent without nulls, else one bit a value, least significant first,
      in whole bytes whose spare bits are zero. */
  lemma ValidityInFields<T>(validity: Option<seq<bv8>>, nullCount: nat, values: seq<Option<T>>, i: nat)
    requires ValidityOk(validity, nullCount, values)
    ensures validity.None? <==> forall k :: 0 <= k < |values| ==> values[k].Some?
    ensures validity.Some? ==> |validity.value| == (|values| + 7) / 8
    ensures validity.Some? && i / 8 < |validity.value| ==>
      (validity.value[i / 8] & ((1 as bv8) << (i % 8)) != 0 <==> i < |values| && values[i].Some?)
  {
    NullCountZero(values);
    MaskIsShift(i % 8);
    if validity.Some? && i / 8 < |validity.value| {
      assert Bit(validity.value, i) <==> i < |values| && Flags(values)[i];
    }
  }

  /** The offsets start at zero and grow by the length of each value. */
  lemma OffsetsInFields(offsets: seq<int>, values: seq<Option<Text>>, i: nat)
    requires OffsetsOf(offsets, values)
    ensures |offsets| == |values| + 1 && offsets[0] == 0 && offsets[|values|] == |Concat(values)|
    ensures i < |values| ==> offsets[i + 1] == offsets[i] + if values[i].Some? then |values[i].value| else 0
  {
    assert values[..0] == [] && values[..|values|] == values;
    if i < |values| {
      assert values[..i + 1][..i] == values[..i];
    }
  }

  /** A string array shows the bytes between two offsets, or a null. */
  lemma Utf8InFields(a: StringArray, values: seq<Option<Text>>, i: nat)
    requires Utf8Decodes(a, values) && i < |values|
    ensures a.length == |values| && |a.offsets| == a.length + 1
    ensures a.offsets[0] == 0 && a.offsets[a.length] == |a.values| <= 0x7FFF_FFFF
    ensures 0 <= a.offsets[i] <= a.offsets[i + 1] <= |a.values|
    ensures a.validity.Some? ==> i / 8 < |a.validity.value|
    ensures values[i] ==
      if a.validity.None? || a.validity.value[i / 8] & ((1 as bv8) << (i % 8)) != 0
      then Some(a.values[a.offsets[i]..a.offsets[i + 1]]) else None
  {
    MaskIsShift(i % 8);
    assert Utf8Value(a, i) == values[i];
    assert a.validity.Some? ==> i / 8 < ByteCount(a.length);
    assert a.offsets[i] <= a.offsets[i + 1];
  }

  /** A float array shows its values, or a null. */
  lemma F64InFields(a: F64Array, values: seq<Option<U64>>, i: nat)
    requires F64Decodes(a, values) && i < |values|
    ensures a.length == |values| == |a.values|
    ensures a.validity.Some? ==> i / 8 < |a.validity.value|
    ensures values[i] ==
      if a.validity.None? || a.validity.value[i / 8] & ((1 as bv8) << (i % 8)) != 0 then Some(a.values[i]) else None
  {
    MaskIsShift(i % 8);
    assert a.validity.Some? ==> i / 8 < ByteCount(a.length);
  }

  /** A Boolean array is its own bitmap. */
  lemma BoolInFields(a: BoolArray, values: seq<bool>, i: nat)
    requires BoolDecodes(a, values) && i < |values|
    ensures a.length == |values| && |a.values| == (a.length + 7) / 8 && i / 8 < |a.values|
    ensures values[i] <==> a.values[i / 8] & ((1 as bv8) << (i % 8)) != 0
  {
    MaskIsShift(i % 8);
    assert i / 8 < ByteCount(a.length);
  }
}
