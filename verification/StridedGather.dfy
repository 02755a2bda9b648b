/** Borrowed N-D tensor views and their canonical row-major bytes
    (crates/dag-ml-data-capi/src/lib.rs). */
module StridedGather {
  import opened Words
  import opened Wrappers

  const MAX_RANK := 16

  /** A machine by its largest `usize`. */
  datatype Machine = Machine(usizeMax: nat) {
    function IsizeMax(): nat { SignedMax(usizeMax) }

    // `*` and `+` of the source where it does not check them: may be used only where
    // the result is known to fit
    function UncheckedMul(a: nat, b: nat): nat
      requires a * b <= usizeMax
    {
      a * b
    }

    function UncheckedAdd(a: nat, b: nat): nat
      requires a + b <= usizeMax
    {
      a + b
    }
  }

  /** A view as the caller hands it in: `data` is the memory that can be read, `dataLen`
      what the caller says about it. */
  datatype TensorView = TensorView(
    data: seq<Byte>,
    dataLen: nat,
    shape: seq<nat>,
    strides: Option<seq<int>>,
    elementSize: nat,
    idsLen: nat)

  ghost predicate Positive(shape: seq<nat>) {
    forall i :: 0 <= i < |shape| ==> shape[i] > 0
  }

  // ----- row-major arithmetic, the last axis fastest -----

  function Product(shape: seq<nat>): nat {
    if shape == [] then 1 else Product(shape[..|shape| - 1]) * shape[|shape| - 1]
  }

  ghost predicate InShape(coords: seq<nat>, shape: seq<nat>) {
    |coords| == |shape| && forall i :: 0 <= i < |shape| ==> coords[i] < shape[i]
  }

  /** The flat position of an element in canonical order. */
  function RowMajor(shape: seq<nat>, coords: seq<nat>): nat
    requires |coords| == |shape|
  {
    if shape == [] then 0
    else
      var n := |shape| - 1;
      RowMajor(shape[..n], coords[..n]) * shape[n] + coords[n]
  }

  /** The byte position of an element in a strided view. */
  function ByteOffset(strides: seq<nat>, coords: seq<nat>): nat
    requires |coords| == |strides|
  {
    if strides == [] then 0
    else
      var n := |strides| - 1;
      ByteOffset(strides[..n], coords[..n]) + coords[n] * strides[n]
  }

  /** The byte position the unravelling loop reaches for flat position `flat`. */
  function OffsetOf(shape: seq<nat>, strides: seq<nat>, flat: nat): nat
    requires |shape| == |strides|
    requires forall i :: 0 <= i < |shape| ==> shape[i] > 0
  {
    if shape == [] then 0
    else
      var n := |shape| - 1;
      OffsetOf(shape[..n], strides[..n], flat / shape[n]) + flat % shape[n] * strides[n]
  }

  /** The offset of the last element along every axis. */
  function MaxOffset(shape: seq<nat>, strides: seq<nat>): nat
    requires |shape| == |strides|
    requires forall i :: 0 <= i < |shape| ==> shape[i] > 0
  {
    if shape == [] then 0
    else
      var n := |shape| - 1;
      MaxOffset(shape[..n], strides[..n]) + (shape[n] - 1) * strides[n]
  }

  lemma {:induction false} ProductPositive(shape: seq<nat>)
    requires Positive(shape)
    ensures Product(shape) > 0
  {
    if shape != [] {
      ProductPositive(shape[..|shape| - 1]);
    }
  }

  lemma {:induction false} RowMajorInRange(shape: seq<nat>, coords: seq<nat>)
    requires InShape(coords, shape)
    ensures RowMajor(shape, coords) < Product(shape)
  {
    if shape != [] {
      var n := |shape| - 1;
      RowMajorInRange(shape[..n], coords[..n]);
      CellBelow(RowMajor(shape[..n], coords[..n]), Product(shape[..n]), coords[n], shape[n]);
    }
  }

  lemma CellBelow(r: nat, rows: nat, c: nat, width: nat)
    requires r < rows && c < width
    ensures r * width + c < rows * width
  {
    MulMonotone(r + 1, rows, width);
    assert (r + 1) * width == r * width + width;
  }

  /** Unravelling the flat position of a coordinate vector gives back its byte offset. */
  lemma {:induction false} OffsetOfCoords(shape: seq<nat>, strides: seq<nat>, coords: seq<nat>)
    requires InShape(coords, shape) && |strides| == |shape| && Positive(shape)
    ensures OffsetOf(shape, strides, RowMajor(shape, coords)) == ByteOffset(strides, coords)
  {
    if shape != [] {
      var n := |shape| - 1;
      OffsetOfCoords(shape[..n], strides[..n], coords[..n]);
      DivModOfMulAdd(RowMajor(shape[..n], coords[..n]), shape[n], coords[n]);
    }
  }

  lemma DivModOfMulAdd(q: nat, d: nat, r: nat)
    requires r < d
    ensures (q * d + r) / d == q && (q * d + r) % d == r
  {
    var x := q * d + r;
    var k, rest := x / d, x % d;
    assert x == d * k + rest;
    if k > q {
      MulMonotone(q + 1, k, d);
    } else if k < q {
      MulMonotone(k + 1, q, d);
    }
  }

  lemma {:induction false} OffsetBounded(shape: seq<nat>, strides: seq<nat>, flat: nat)
    requires |shape| == |strides| && Positive(shape)
    ensures OffsetOf(shape, strides, flat) <= MaxOffset(shape, strides)
  {
    if shape != [] {
      var n := |shape| - 1;
      OffsetBounded(shape[..n], strides[..n], flat / shape[n]);
      MulMonotone(flat % shape[n], shape[n] - 1, strides[n]);
    }
  }

  lemma MulMonotone(a: nat, b: nat, c: nat)
    requires a <= b
    ensures a * c <= b * c
  {}

  // ----- what gathering means -----

  /** The first `count` elements in canonical order. */
  ghost function Gathered(data: seq<Byte>, shape: seq<nat>, strides: seq<nat>, elementSize: nat, count: nat): seq<Byte>
    requires |shape| == |strides| && Positive(shape)
    requires MaxOffset(shape, strides) + elementSize <= |data|
  {
    if count == 0 then []
    else
      OffsetBounded(shape, strides, count - 1);
      var at := OffsetOf(shape, strides, count - 1);
      Gathered(data, shape, strides, elementSize, count - 1) + data[at..at + elementSize]
  }

  lemma {:induction false} GatheredAt(data: seq<Byte>, shape: seq<nat>, strides: seq<nat>, elementSize: nat,
                                      count: nat, flat: nat)
    requires |shape| == |strides| && Positive(shape)
    requires MaxOffset(shape, strides) + elementSize <= |data|
    requires flat < count
    ensures
      var all := Gathered(data, shape, strides, elementSize, count);
      var at, from := flat * elementSize, OffsetOf(shape, strides, flat);
      && at + elementSize <= |all|
      && from + elementSize <= |data|
      && all[at..at + elementSize] == data[from..from + elementSize]
  {
    hide OffsetOf, MaxOffset, Gathered;
    OffsetBounded(shape, strides, flat);
    GatheredLength(data, shape, strides, elementSize, count - 1);
    GatheredStep(data, shape, strides, elementSize, count);
    var all := Gathered(data, shape, strides, elementSize, count);
    var front := Gathered(data, shape, strides, elementSize, count - 1);
    var at := flat * elementSize;
    if flat < count - 1 {
      GatheredAt(data, shape, strides, elementSize, count - 1, flat);
      assert all[at..at + elementSize] == front[at..at + elementSize];
    }
  }

  lemma GatheredStep(data: seq<Byte>, shape: seq<nat>, strides: seq<nat>, elementSize: nat, count: nat)
    requires |shape| == |strides| && Positive(shape) && count > 0
    requires MaxOffset(shape, strides) + elementSize <= |data|
    ensures
      var from := OffsetOf(shape, strides, count - 1);
      from + elementSize <= |data| &&
      Gathered(data, shape, strides, elementSize, count)
        == Gathered(data, shape, strides, elementSize, count - 1) + data[from..from + elementSize]
  {
    hide OffsetOf, MaxOffset;
    OffsetBounded(shape, strides, count - 1);
  }

  lemma {:induction false} GatheredLength(data: seq<Byte>, shape: seq<nat>, strides: seq<nat>, elementSize: nat,
                                          count: nat)
    requires |shape| == |strides| && Positive(shape)
    requires MaxOffset(shape, strides) + elementSize <= |data|
    ensures |Gathered(data, shape, strides, elementSize, count)| == count * elementSize
  {
    if count > 0 {
      GatheredLength(data, shape, strides, elementSize, count - 1);
      OffsetBounded(shape, strides, count - 1);
      assert count * elementSize == (count - 1) * elementSize + elementSize;
    }
  }

  /** The element at any coordinates lands at its row-major place in the output. */
  lemma GatheredByCoords(data: seq<Byte>, shape: seq<nat>, strides: seq<nat>, elementSize: nat, coords: seq<nat>)
    requires |shape| == |strides| && Positive(shape) && InShape(coords, shape)
    requires MaxOffset(shape, strides) + elementSize <= |data|
    ensures
      var out := Gathered(data, shape, strides, elementSize, Product(shape));
      var at, from := RowMajor(shape, coords) * elementSize, ByteOffset(strides, coords);
      && 0 <= at && at + elementSize <= |out|
      && from + elementSize <= |data|
      && out[at..at + elementSize] == data[from..from + elementSize]
  {
    RowMajorInRange(shape, coords);
    OffsetOfCoords(shape, strides, coords);
    GatheredAt(data, shape, strides, elementSize, Product(shape), RowMajor(shape, coords));
  }

  // ----- the code -----

  method CheckedProduct(m: Machine, shape: seq<nat>) returns (r: Result<nat>)
    requires Positive(shape) && m.usizeMax >= 1
    ensures r == if Product(shape) <= m.usizeMax then Ok(Product(shape)) else ValidationError
  {
    var product := 1;
    for i := 0 to |shape|
      invariant product == Product(shape[..i]) <= m.usizeMax
    {
      assert shape[..i + 1][..i] == shape[..i];
      if product * shape[i] > m.usizeMax {
        PrefixProduct(shape, i + 1);
        return ValidationError;
      }
      product := product * shape[i];
    }
    assert shape[..|shape|] == shape;
    return Ok(product);
  }

  lemma {:induction false} PrefixProduct(shape: seq<nat>, k: nat)
    requires Positive(shape) && k <= |shape|
    ensures Product(shape[..k]) <= Product(shape)
    decreases |shape|
  {
    if k < |shape| {
      var n := |shape| - 1;
      PrefixProduct(shape[..n], k);
      assert shape[..n][..k] == shape[..k];
      assert Product(shape[..n]) * 1 <= Product(shape[..n]) * shape[n];
    } else {
      assert shape[..k] == shape;
    }
  }

  ghost predicate StridesPositive(strides: seq<int>) {
    forall i :: 0 <= i < |strides| ==> strides[i] > 0
  }

  function AsUsize(strides: seq<int>): seq<nat>
    requires forall i :: 0 <= i < |strides| ==> strides[i] > 0
  {
    seq(|strides|, i requires 0 <= i < |strides| => strides[i])
  }

  /** The checked span: the offset of the last element, or an error if it overflows. */
  method CheckedMaxOffset(m: Machine, shape: seq<nat>, strides: seq<nat>) returns (r: Result<nat>)
    requires Positive(shape) && |strides| == |shape|
    ensures r == if MaxOffset(shape, strides) <= m.usizeMax then Ok(MaxOffset(shape, strides)) else ValidationError
  {
    var maxOffset := 0;
    for i := 0 to |shape|
      invariant maxOffset == MaxOffset(shape[..i], strides[..i]) <= m.usizeMax
    {
      assert shape[..i + 1][..i] == shape[..i] && strides[..i + 1][..i] == strides[..i];
      var span := (shape[i] - 1) * strides[i];
      if span > m.usizeMax || maxOffset + span > m.usizeMax {
        PrefixMaxOffset(shape, strides, i + 1);
        return ValidationError;
      }
      maxOffset := maxOffset + span;
    }
    assert shape[..|shape|] == shape && strides[..|strides|] == strides;
    return Ok(maxOffset);
  }

  lemma {:induction false} PrefixMaxOffset(shape: seq<nat>, strides: seq<nat>, k: nat)
    requires Positive(shape) && |strides| == |shape| && k <= |shape|
    ensures MaxOffset(shape[..k], strides[..k]) <= MaxOffset(shape, strides)
    decreases |shape|
  {
    if k < |shape| {
      var n := |shape| - 1;
      PrefixMaxOffset(shape[..n], strides[..n], k);
      assert shape[..n][..k] == shape[..k] && strides[..n][..k] == strides[..k];
    } else {
      assert shape[..k] == shape && strides[..k] == strides;
    }
  }

  /** Unravels one flat position. Its products and sums are unchecked; the checked span is
      what shows that they fit. */
  method Unravel(m: Machine, shape: seq<nat>, strides: seq<nat>, flat: nat) returns (offset: nat)
    requires Positive(shape) && |strides| == |shape| && MaxOffset(shape, strides) <= m.usizeMax
    ensures offset == OffsetOf(shape, strides, flat) <= MaxOffset(shape, strides)
  {
    hide OffsetOf, MaxOffset;
    var remainder := flat;
    offset := 0;
    OffsetBounded(shape, strides, flat);
    assert shape[..|shape|] == shape && strides[..|strides|] == strides;
    for axis := |shape| downto 0
      invariant offset + OffsetOf(shape[..axis], strides[..axis], remainder) == OffsetOf(shape, strides, flat)
    {
      OffsetStep(shape, strides, axis, remainder);
      var coord := remainder % shape[axis];
      remainder := remainder / shape[axis];
      offset := m.UncheckedAdd(offset, m.UncheckedMul(coord, strides[axis]));
    }
    OffsetOfNothing(shape, strides, remainder);
  }

  lemma OffsetStep(shape: seq<nat>, strides: seq<nat>, axis: nat, flat: nat)
    requires Positive(shape) && |strides| == |shape| && axis < |shape|
    ensures OffsetOf(shape[..axis + 1], strides[..axis + 1], flat)
         == OffsetOf(shape[..axis], strides[..axis], flat / shape[axis]) + flat % shape[axis] * strides[axis]
  {
    assert shape[..axis + 1][..axis] == shape[..axis] && strides[..axis + 1][..axis] == strides[..axis];
  }

  lemma OffsetOfNothing(shape: seq<nat>, strides: seq<nat>, flat: nat)
    requires |strides| == |shape|
    ensures OffsetOf(shape[..0], strides[..0], flat) == 0
  {}

  /** What `gather_strided_tensor` accepts. */
  ghost predicate Gatherable(m: Machine, v: TensorView) {
    && v.strides.Some?
    && |v.strides.value| == |v.shape|
    && Positive(v.shape)
    && StridesPositive(v.strides.value)
    && MaxOffset(v.shape, AsUsize(v.strides.value)) + v.elementSize <= v.dataLen
    && MaxOffset(v.shape, AsUsize(v.strides.value)) + v.elementSize <= m.IsizeMax()
  }

  /** The canonical bytes are more than one allocation may hold, whatever the memory. */
  ghost predicate Unallocatable(m: Machine, v: TensorView) {
    Product(v.shape) * v.elementSize > m.IsizeMax()
  }

  /** The checks in front of the choice between both layouts. */
  ghost predicate Admissible(m: Machine, v: TensorView) {
    && 0 < |v.shape| <= MAX_RANK && Positive(v.shape) && v.shape[0] == v.idsLen
    && Product(v.shape) <= m.usizeMax && Product(v.shape) * v.elementSize <= m.usizeMax
  }

  /** The views that stop the program: strides are given, all checks pass, and the room for
      the canonical bytes cannot be reserved. */
  ghost predicate Traps(m: Machine, v: TensorView) {
    Admissible(m, v) && v.strides.Some? && Gatherable(m, v) && Unallocatable(m, v)
  }

  /** The borrowed-view contract: what lies within the announced length and is addressed
      can be read. */
  ghost predicate Readable(v: TensorView) {
    && v.strides.Some? && |v.strides.value| == |v.shape| && Positive(v.shape) && StridesPositive(v.strides.value)
    ==> (MaxOffset(v.shape, AsUsize(v.strides.value)) + v.elementSize <= v.dataLen ==>
           MaxOffset(v.shape, AsUsize(v.strides.value)) + v.elementSize <= |v.data|)
  }

  method PositiveStrides(strides: seq<int>) returns (r: Result<seq<nat>>)
    ensures r.Ok? <==> StridesPositive(strides)
    ensures r.Ok? ==> r.value == AsUsize(strides)
  {
    var converted: seq<nat> := [];
    for i := 0 to |strides|
      invariant |converted| == i && forall k :: 0 <= k < i ==> strides[k] > 0 && converted[k] == strides[k]
    {
      if strides[i] <= 0 {
        return ValidationError;
      }
      converted := converted + [strides[i]];
    }
    return Ok(converted);
  }

  /** `gather_strided_tensor`. Overlapping strides can address few bytes and yet many elements,
      so reserving the canonical bytes can fail where the checked span fits. */
  method GatherStridedTensor(m: Machine, v: TensorView, totalElements: nat, canonicalBytes: nat)
    returns (outcome: Outcome<seq<Byte>>)
    requires Positive(v.shape) && v.strides.Some? && |v.strides.value| == |v.shape|
    requires v.dataLen <= m.usizeMax && Readable(v) && totalElements == Product(v.shape)
    requires canonicalBytes == totalElements * v.elementSize <= m.usizeMax
    ensures outcome.Trapped? <==> Gatherable(m, v) && Unallocatable(m, v)
    ensures outcome.Returned? ==> (outcome.result.Ok? <==> Gatherable(m, v))
    ensures outcome.Returned? && outcome.result.Ok? ==>
      && MaxOffset(v.shape, AsUsize(v.strides.value)) + v.elementSize <= |v.data|
      && outcome.result.value
         == Gathered(v.data, v.shape, AsUsize(v.strides.value), v.elementSize, Product(v.shape))
      && |outcome.result.value| == Product(v.shape) * v.elementSize <= m.IsizeMax()
  {
    var converted := PositiveStrides(v.strides.value);
    if converted.ValidationError? {
      return Returned(ValidationError);
    }
    var strides := converted.value;
    var span := CheckedMaxOffset(m, v.shape, strides);
    if span.ValidationError? || span.value + v.elementSize > m.usizeMax {
      return Returned(ValidationError);
    }
    var maxByte := span.value + v.elementSize;
    if v.dataLen < maxByte || maxByte > m.IsizeMax() {
      return Returned(ValidationError);
    }
    var data := v.data[..maxByte];
    if canonicalBytes > m.IsizeMax() {
      return Trapped;
    }
    var canonical: seq<Byte> := [];
    for flat := 0 to totalElements
      invariant canonical == Gathered(v.data, v.shape, strides, v.elementSize, flat)
    {
      var offset := Unravel(m, v.shape, strides, flat);
      var after := m.UncheckedAdd(offset, v.elementSize);
      assert data[offset..after] == v.data[offset..after];
      canonical := canonical + data[offset..after];
    }
    GatheredLength(v.data, v.shape, strides, v.elementSize, totalElements);
    return Returned(Ok(canonical));
  }

  // ----- canonical strides -----

  /** The strides of a contiguous row-major view: each axis steps over all later ones. */
  function CanonicalStrides(shape: seq<nat>, elementSize: nat): (strides: seq<nat>)
    ensures |strides| == |shape|
  {
    if shape == [] then []
    else
      var n := |shape| - 1;
      CanonicalStrides(shape[..n], elementSize * shape[n]) + [elementSize]
  }

  lemma {:induction false} CanonicalOffset(shape: seq<nat>, elementSize: nat, flat: nat)
    requires Positive(shape) && flat < Product(shape)
    ensures OffsetOf(shape, CanonicalStrides(shape, elementSize), flat) == flat * elementSize
  {
    if shape != [] {
      var n := |shape| - 1;
      var d := shape[n];
      QuotientBelow(flat, Product(shape[..n]), d);
      CanonicalStep(shape, elementSize, flat);
      hide OffsetOf, CanonicalStrides, Product;
      CanonicalOffset(shape[..n], elementSize * d, flat / d);
      SplitProduct(flat, d, elementSize);
    }
  }

  lemma CanonicalStep(shape: seq<nat>, elementSize: nat, flat: nat)
    requires Positive(shape) && shape != []
    ensures
      var n := |shape| - 1;
      OffsetOf(shape, CanonicalStrides(shape, elementSize), flat)
      == OffsetOf(shape[..n], CanonicalStrides(shape[..n], elementSize * shape[n]), flat / shape[n])
         + flat % shape[n] * elementSize
  {
    var n := |shape| - 1;
    assert CanonicalStrides(shape, elementSize)[..n] == CanonicalStrides(shape[..n], elementSize * shape[n]);
  }

  lemma QuotientBelow(x: nat, p: nat, d: nat)
    requires d > 0 && x < p * d
    ensures x / d < p
  {
    var k := x / d;
    assert x == d * k + x % d;
    if k >= p { MulMonotone(p, k, d); }
  }

  lemma SplitProduct(x: nat, d: nat, s: nat)
    requires d > 0
    ensures x / d * (s * d) + x % d * s == x * s
  {
    var k, r := x / d, x % d;
    assert x == k * d + r;
    assert k * (s * d) == k * d * s;
    assert (k * d + r) * s == k * d * s + r * s;
  }

  lemma {:induction false} CanonicalSpan(shape: seq<nat>, elementSize: nat)
    requires Positive(shape)
    ensures MaxOffset(shape, CanonicalStrides(shape, elementSize)) + elementSize == Product(shape) * elementSize
  {
    if shape != [] {
      var n := |shape| - 1;
      var d, p := shape[n], Product(shape[..n]);
      CanonicalSpan(shape[..n], elementSize * d);
      var inner := CanonicalStrides(shape[..n], elementSize * d);
      assert CanonicalStrides(shape, elementSize)[..n] == inner;
      SpanArithmetic(MaxOffset(shape[..n], inner), p, d, elementSize);
    }
  }

  lemma SpanArithmetic(span: nat, p: nat, d: nat, e: nat)
    requires d > 0 && span + e * d == p * (e * d)
    ensures span + (d - 1) * e + e == p * d * e
  {
    assert (d - 1) * e + e == d * e == e * d;
    assert p * (e * d) == p * (d * e) == p * d * e;
  }

  /** With canonical strides gathering is a plain copy. */
  lemma {:induction false} GatherContiguous(data: seq<Byte>, shape: seq<nat>, elementSize: nat, count: nat)
    requires Positive(shape) && count <= Product(shape)
    requires MaxOffset(shape, CanonicalStrides(shape, elementSize)) + elementSize <= |data|
    ensures count * elementSize <= |data|
    ensures Gathered(data, shape, CanonicalStrides(shape, elementSize), elementSize, count)
         == data[..count * elementSize]
  {
    CanonicalSpan(shape, elementSize);
    MulMonotone(count, Product(shape), elementSize);
    if count > 0 {
      GatherContiguous(data, shape, elementSize, count - 1);
      CanonicalOffset(shape, elementSize, count - 1);
      assert count * elementSize == (count - 1) * elementSize + elementSize;
    }
  }

  /** The element count, canonical size and both layout branches of
      `borrowed_tensor_view_to_input`. */
  method CanonicalBytes(m: Machine, v: TensorView) returns (outcome: Outcome<seq<Byte>>)
    requires v.dataLen <= m.usizeMax && m.usizeMax >= 1 && Readable(v)
    requires v.strides.Some? ==> |v.strides.value| == |v.shape|
    requires v.strides.None? ==> v.dataLen <= |v.data|
    ensures outcome.Trapped? <==> Traps(m, v)
    ensures outcome.Returned? ==> (outcome.result.Ok? <==>
      && Admissible(m, v)
      && (v.strides.None? ==> v.dataLen == Product(v.shape) * v.elementSize <= m.IsizeMax())
      && (v.strides.Some? ==> Gatherable(m, v)))
    ensures outcome.Returned? && outcome.result.Ok? && v.strides.None? ==> outcome.result.value == v.data[..v.dataLen]
    ensures outcome.Returned? && outcome.result.Ok? && v.strides.Some? ==>
      && MaxOffset(v.shape, AsUsize(v.strides.value)) + v.elementSize <= |v.data|
      && outcome.result.value
         == Gathered(v.data, v.shape, AsUsize(v.strides.value), v.elementSize, Product(v.shape))
  {
    if |v.shape| == 0 || |v.shape| > MAX_RANK || 0 in v.shape || v.shape[0] != v.idsLen {
      return Returned(ValidationError);
    }
    var total := CheckedProduct(m, v.shape);
    if total.ValidationError? || total.value * v.elementSize > m.usizeMax {
      return Returned(ValidationError);
    }
    var canonicalBytes := total.value * v.elementSize;
    if v.strides.None? {
      if v.dataLen != canonicalBytes || canonicalBytes > m.IsizeMax() {
        return Returned(ValidationError);
      }
      return Returned(Ok(v.data[..canonicalBytes]));
    }
    outcome := GatherStridedTensor(m, v, total.value, canonicalBytes);
  }

  /** A contiguous view and the same view with its canonical strides spelled out are
      accepted alike and give the same bytes; neither stops the program. */
  lemma LayoutBranchesAgree(m: Machine, v: TensorView, spelled: seq<int>)
    requires v.strides.None? && v.elementSize > 0 && Positive(v.shape)
    requires |spelled| == |v.shape| && StridesPositive(spelled)
    requires AsUsize(spelled) == CanonicalStrides(v.shape, v.elementSize)
    requires v.dataLen == Product(v.shape) * v.elementSize <= |v.data|
    ensures Gatherable(m, v.(strides := Some(spelled))) <==> Product(v.shape) * v.elementSize <= m.IsizeMax()
    ensures !Traps(m, v.(strides := Some(spelled))) && !Traps(m, v)
    ensures MaxOffset(v.shape, AsUsize(spelled)) + v.elementSize <= |v.data|
    ensures Gathered(v.data, v.shape, AsUsize(spelled), v.elementSize, Product(v.shape)) == v.data[..v.dataLen]
  {
    CanonicalSpan(v.shape, v.elementSize);
    GatherContiguous(v.data, v.shape, v.elementSize, Product(v.shape));
  }

  // ----- positions and checks, in the fields of a view -----

  /** The first element stands at the start of the memory and of the output. */
  lemma {:induction false} FirstElement(shape: seq<nat>, strides: seq<nat>, coords: seq<nat>)
    requires |shape| == |strides| == |coords| && forall i :: 0 <= i < |coords| ==> coords[i] == 0
    ensures ByteOffset(strides, coords) == 0 && RowMajor(shape, coords) == 0
  {
    if shape != [] {
      var n := |shape| - 1;
      FirstElement(shape[..n], strides[..n], coords[..n]);
    }
  }

  /** A step along an axis moves by its stride in the memory. */
  lemma {:induction false} StepInMemory(strides: seq<nat>, coords: seq<nat>, axis: nat)
    requires |coords| == |strides| && axis < |coords|
    ensures ByteOffset(strides, coords[axis := coords[axis] + 1]) == ByteOffset(strides, coords) + strides[axis]
  {
    var n := |strides| - 1;
    var next := coords[axis := coords[axis] + 1];
    if axis < n {
      assert next[..n] == coords[..n][axis := coords[axis] + 1];
      StepInMemory(strides[..n], coords[..n], axis);
    } else {
      assert next[..n] == coords[..n];
    }
  }

  /** A step along the last axis moves by one element in the output, a step along any other by as
      many as the whole of the next axis takes. */
  lemma {:induction false} StepInOutput(shape: seq<nat>, coords: seq<nat>, axis: nat)
    requires |coords| == |shape| && axis < |coords|
    ensures
      var here := RowMajor(shape, coords);
      var step := RowMajor(shape, coords[axis := coords[axis] + 1]) - here;
      step ==
        if axis == |shape| - 1 then 1
        else shape[axis + 1] * (RowMajor(shape, coords[axis + 1 := coords[axis + 1] + 1]) - here)
  {
    hide RowMajor;
    var n := |shape| - 1;
    var next := coords[axis := coords[axis] + 1];
    RowMajorLast(shape, coords);
    RowMajorLast(shape, next);
    if axis == n {
      assert next[..n] == coords[..n];
    } else {
      assert next[..n] == coords[..n][axis := coords[axis] + 1];
      StepInOutput(shape[..n], coords[..n], axis);
      var after := coords[axis + 1 := coords[axis + 1] + 1];
      RowMajorLast(shape, after);
      if axis + 1 == n {
        assert after[..n] == coords[..n];
        OneMoreRow(RowMajor(shape[..n], coords[..n]), shape[n]);
      } else {
        assert after[..n] == coords[..n][axis + 1 := coords[axis + 1] + 1];
        StepWidened(shape[n], shape[axis + 1], RowMajor(shape[..n], coords[..n]),
                    RowMajor(shape[..n], next[..n]), RowMajor(shape[..n], after[..n]));
      }
    }
  }

  lemma RowMajorLast(shape: seq<nat>, coords: seq<nat>)
    requires |coords| == |shape| > 0
    ensures
      var n := |shape| - 1;
      RowMajor(shape, coords) == RowMajor(shape[..n], coords[..n]) * shape[n] + coords[n]
  {}

  lemma OneMoreRow(row: int, d: nat)
    ensures (row + 1) * d == row * d + d
  {}

  lemma StepWidened(d: nat, w: nat, here: int, next: int, after: int)
    requires next - here == w * (after - here)
    ensures next * d - here * d == w * (after * d - here * d)
  {
    assert (next - here) * d == w * (after - here) * d;
    assert w * (after - here) * d == w * ((after - here) * d);
  }

  /** The checked span is where the last element starts. */
  lemma {:induction false} SpanIsLastElement(shape: seq<nat>, strides: seq<nat>, coords: seq<nat>)
    requires |shape| == |strides| == |coords|
    requires forall i :: 0 <= i < |shape| ==> shape[i] > 0 && coords[i] == shape[i] - 1
    ensures MaxOffset(shape, strides) == ByteOffset(strides, coords)
    ensures RowMajor(shape, coords) == Product(shape) - 1
  {
    if shape != [] {
      var n := |shape| - 1;
      SpanIsLastElement(shape[..n], strides[..n], coords[..n]);
      LastOfAll(Product(shape[..n]), shape[n]);
    }
  }

  lemma LastOfAll(p: int, d: nat)
    ensures (p - 1) * d + (d - 1) == p * d - 1
  {}

  /** What is checked before the layout is looked at. */
  lemma AdmissibleInFields(m: Machine, v: TensorView)
    ensures Admissible(m, v) <==>
      && 1 <= |v.shape| <= 16 && (forall i :: 0 <= i < |v.shape| ==> v.shape[i] > 0) && v.shape[0] == v.idsLen
      && Product(v.shape) <= m.usizeMax && Product(v.shape) * v.elementSize <= m.usizeMax
  {}

  /** What is checked before strides are followed, and when following them stops the program. */
  lemma GatherableInFields(m: Machine, v: TensorView, strides: seq<nat>)
    requires Admissible(m, v) && v.strides.Some? && |v.strides.value| == |v.shape| == |strides|
    requires forall i :: 0 <= i < |strides| ==> strides[i] == if v.strides.value[i] > 0 then v.strides.value[i] else 0
    ensures Gatherable(m, v) <==>
      && (forall i :: 0 <= i < |v.shape| ==> v.strides.value[i] > 0)
      && MaxOffset(v.shape, strides) + v.elementSize <= v.dataLen
      && MaxOffset(v.shape, strides) + v.elementSize <= m.usizeMax / 2
    ensures Traps(m, v) <==> Gatherable(m, v) && Product(v.shape) * v.elementSize > m.usizeMax / 2
  {
    if StridesPositive(v.strides.value) {
      assert strides == AsUsize(v.strides.value);
    }
  }
}
