/** A small borrowed view with more elements than one allocation can hold
    (crates/dag-ml-data-capi/src/lib.rs). */
module StridedLimit {
  import opened RowMajorLimit
  import opened StridedGather
  import opened Words
  import opened Wrappers

  /** One sample, and `k` further axes of length sixteen. */
  function Cube(k: nat): (shape: seq<nat>)
    ensures |shape| == k + 1 && shape[0] == 1
    ensures forall i :: 0 <= i < |shape| ==> shape[i] > 0
  {
    if k == 0 then [1] else Cube(k - 1) + [16]
  }

  /** Strides of a single byte, so that nearly all elements overlap. */
  function Ones(n: nat): seq<int> {
    seq(n, _ => 1)
  }

  /** 233 bytes seen as 16^15 elements of eight bytes. */
  function Overlapping(): TensorView {
    TensorView(seq(233, _ => 0), 233, Cube(15), Some(Ones(16)), 8, 1)
  }

  lemma OneMoreAxis(shape: seq<nat>, strides: seq<nat>, dim: nat, stride: nat)
    requires |shape| == |strides| && Positive(shape) && dim > 0
    ensures Product(shape + [dim]) == Product(shape) * dim
    ensures MaxOffset(shape + [dim], strides + [stride]) == MaxOffset(shape, strides) + (dim - 1) * stride
  {
    assert (shape + [dim])[..|shape|] == shape && (strides + [stride])[..|shape|] == strides;
  }

  lemma OneElement()
    ensures Product([1]) == 1 && MaxOffset([1], [1]) == 0
  {
    assert [1][..0] == [];
  }

  lemma OnesPush(n: nat)
    ensures |AsUsize(Ones(n))| == n && AsUsize(Ones(n + 1)) == AsUsize(Ones(n)) + [1]
  {}

  lemma {:induction false} CubeTotals(k: nat)
    ensures Product(Cube(k)) == Pow16(k)
    ensures MaxOffset(Cube(k), AsUsize(Ones(k + 1))) == 15 * k
  {
    hide Product, MaxOffset, AsUsize;
    OnesPush(k);
    if k == 0 {
      OneElement();
      OnlyOne();
    } else {
      CubeTotals(k - 1);
      OneMoreAxis(Cube(k - 1), AsUsize(Ones(k)), 16, 1);
    }
  }

  lemma OnlyOne()
    ensures AsUsize(Ones(1)) == [1]
  {}

  lemma Sixteens()
    ensures Pow16(15) * 8 == 0x8000_0000_0000_0000
  {
    assert Pow16(5) == 0x10_0000;
    assert Pow16(10) == 0x100_0000_0000;
    assert Pow16(15) == 0x1000_0000_0000_0000;
  }

  /** With 64-bit words this view passes every check and stops the program. */
  lemma OverlappingTraps(m: Machine)
    requires m.usizeMax == U64_MAX
    ensures Readable(Overlapping()) && |Overlapping().strides.value| == |Overlapping().shape|
    ensures Traps(m, Overlapping())
  {
    CubeTotals(15);
    Sixteens();
  }
}
