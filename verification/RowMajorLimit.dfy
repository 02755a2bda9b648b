/** What the unchecked product of the row-major length check does where a machine word has
    32 bits (crates/dag-ml-data-core/src/buffer.rs). */
module RowMajorLimit {
  import opened FeatureBuffer
  import opened Sequences
  import opened Words
  import opened Wrappers

  const COUNT: nat := 65_536

  /** `n` in base 16, lowest digit first, with the letters a to p. */
  function Letters(width: nat, n: nat): (text: Text)
    ensures |text| == width && forall i :: 0 <= i < width ==> 97 <= text[i] <= 112
  {
    if width == 0 then [] else [97 + n % 16] + Letters(width - 1, n / 16)
  }

  function Pow16(width: nat): nat {
    if width == 0 then 1 else 16 * Pow16(width - 1)
  }

  lemma {:induction false} LettersInjective(width: nat, a: nat, b: nat)
    requires a < Pow16(width) && b < Pow16(width) && Letters(width, a) == Letters(width, b)
    ensures a == b
  {
    if width > 0 {
      assert Letters(width, a)[0] == Letters(width, b)[0];
      assert Letters(width, a)[1..] == Letters(width, b)[1..];
      LettersInjective(width - 1, a / 16, b / 16);
    }
  }

  function WideNames(): (names: seq<Text>)
    ensures |names| == COUNT
  {
    seq(COUNT, i requires 0 <= i < COUNT => Letters(4, i))
  }

  lemma NamesDistinct()
    ensures Distinct(WideNames())
  {
    assert Pow16(4) == COUNT;
    forall i, j | 0 <= i < j < COUNT
      ensures WideNames()[i] != WideNames()[j]
    {
      if Letters(4, i) == Letters(4, j) {
        LettersInjective(4, i, j);
      }
    }
  }

  /** Words of letters are not blank. */
  ghost predicate LettersShow(host: Host) {
    forall text: Text :: text != [] && (forall i :: 0 <= i < |text| ==> 97 <= text[i] <= 122) ==> !host.blank(text)
  }

  /** As many features as observations, and not a single value. */
  function Wide(): RowMatrix {
    RowMatrix(Letters(1, 0), Letters(1, 0), WideNames(), WideNames(), [], None)
  }

  /** With 32-bit words the product of the counts wraps to zero, so the length check passes
      an empty matrix that should be rejected, and the constructor stops at an index. */
  lemma WideTraps(host: Host)
    requires host.usizeMax == U32_MAX && LettersShow(host)
    ensures Addressable(host, Wide()) && Wraps(host, Wide())
    ensures FromRows(host, Wide()) == ValidationError
  {
    NamesDistinct();
  }
}
