/** Streamed SHA-256 hashing with framed fields
    (crates/dag-ml-data-core/src/content_hash.rs). */
module ContentHash {
  import opened FeatureBuffer
  import opened Words
  import opened Wrappers

  const SCRATCH_CAPACITY := 8192

  // ----- the frame of each kind of field -----

  function FrameStr(text: Text): seq<Byte> { EncText(8, text) }

  function FrameStrs(texts: seq<Text>): seq<Byte> {
    LE(8, |texts|) + EncAll(FrameStr, texts)
  }

  function FrameCell(cell: Option<F64>): (bytes: seq<Byte>)
    ensures |bytes| == 9
  {
    match cell
    case Some(value) => [1] + LE(8, value)
    case None => [0] + LE(8, 0)
  }

  datatype Field =
    | Word(value: U64)
    | Str(text: Text)
    | Strs(texts: seq<Text>)
    | Cell(cell: Option<F64>)
    | Raw(bytes: seq<Byte>)

  function Frame(field: Field): seq<Byte> {
    match field
    case Word(value) => LE(8, value)
    case Str(text) => FrameStr(text)
    case Strs(texts) => FrameStrs(texts)
    case Cell(cell) => FrameCell(cell)
    case Raw(bytes) => bytes
  }

  predicate LengthsFit(field: Field) {
    match field
    case Str(text) => |text| <= U64_MAX
    case Strs(texts) => |texts| <= U64_MAX && forall i :: 0 <= i < |texts| ==> |texts[i]| <= U64_MAX
    case _ => true
  }

  // ----- hexadecimal -----

  function HexDigit(n: nat): char
    requires n < 16
  {
    if n < 10 then '0' + n as char else 'a' + (n - 10) as char
  }

  predicate LowerHexChar(c: char) { '0' <= c <= '9' || 'a' <= c <= 'f' }

  function Hex(bytes: seq<Byte>): (s: string)
    ensures |s| == 2 * |bytes|
    ensures forall i :: 0 <= i < |s| ==> LowerHexChar(s[i])
  {
    if bytes == [] then "" else [HexDigit(bytes[0] / 16), HexDigit(bytes[0] % 16)] + Hex(bytes[1..])
  }

  lemma {:induction false} HexInjective(a: seq<Byte>, b: seq<Byte>)
    requires Hex(a) == Hex(b)
    ensures a == b
  {
    if a != [] {
      assert |Hex(a)| == |Hex(b)|;
      assert Hex(a)[2..] == Hex(a[1..]) && Hex(b)[2..] == Hex(b[1..]);
      assert Hex(a)[0] == Hex(b)[0] && Hex(a)[1] == Hex(b)[1];
      HexInjective(a[1..], b[1..]);
      assert a[0] / 16 == b[0] / 16 && a[0] % 16 == b[0] % 16;
      assert a == [a[0]] + a[1..] && b == [b[0]] + b[1..];
    }
  }

  /** Two characters for each byte, the high digit first. */
  lemma {:induction false} HexDigits(bytes: seq<Byte>, i: nat)
    requires i < |bytes|
    ensures
      var value := (c: char) => if c <= '9' then c as int - '0' as int else c as int - 'a' as int + 10;
      16 * value(Hex(bytes)[2 * i]) + value(Hex(bytes)[2 * i + 1]) == bytes[i]
  {
    if i > 0 {
      HexDigits(bytes[1..], i - 1);
      assert Hex(bytes)[2 * i] == Hex(bytes[1..])[2 * (i - 1)];
      assert Hex(bytes)[2 * i + 1] == Hex(bytes[1..])[2 * (i - 1) + 1];
    }
  }

  // ----- the hasher -----

  class StreamingHasher {
    const host: Host
    /** All bytes given to SHA-256 so far, in order. */
    var fed: seq<Byte>
    var scratch: seq<Byte>

    ghost predicate Valid()
      reads this
    {
      |scratch| <= SCRATCH_CAPACITY
    }

    /** The logical byte stream: what was fed and what still waits. */
    ghost function Stream(): seq<Byte>
      reads this
    {
      fed + scratch
    }

    constructor (host: Host, domain: seq<Byte>)
      ensures Valid() && Stream() == domain && this.host == host
    {
      this.host := host;
      fed, scratch := domain, [];
    }

    method Flush()
      requires Valid()
      modifies this
      ensures Valid() && Stream() == old(Stream()) && scratch == []
    {
      if scratch != [] {
        fed := fed + scratch;
        scratch := [];
      }
    }

    method PushBytes(bytes: seq<Byte>)
      requires Valid()
      modifies this
      ensures Valid() && Stream() == old(Stream()) + bytes
    {
      if |bytes| >= SCRATCH_CAPACITY {
        Flush();
        fed := fed + bytes;
        return;
      }
      if |scratch| + |bytes| > SCRATCH_CAPACITY {
        Flush();
      }
      scratch := scratch + bytes;
    }

    method AbsorbU64(value: U64)
      requires Valid()
      modifies this
      ensures Valid() && Stream() == old(Stream()) + LE(8, value)
    {
      PushBytes(LE(8, value));
    }

    method AbsorbLen(len: nat)
      requires Valid() && len <= U64_MAX
      modifies this
      ensures Valid() && Stream() == old(Stream()) + LE(8, len)
    {
      AbsorbU64(len);
    }

    method AbsorbStr(value: Text)
      requires Valid() && |value| <= U64_MAX
      modifies this
      ensures Valid() && Stream() == old(Stream()) + FrameStr(value)
    {
      AbsorbLen(|value|);
      PushBytes(value);
    }

    method AbsorbStrCollection(items: seq<Text>)
      requires Valid() && |items| <= U64_MAX && forall i :: 0 <= i < |items| ==> |items[i]| <= U64_MAX
      modifies this
      ensures Valid() && Stream() == old(Stream()) + FrameStrs(items)
    {
      hide EncAll, LE, FrameStr;
      AbsorbLen(|items|);
      ghost var base := Stream();
      assert EncAll(FrameStr, items[..0]) == [] by { EncAllNone(FrameStr, [], 0, 0); assert items[..0] == []; }
      for i := 0 to |items|
        invariant Valid() && Stream() == base + EncAll(FrameStr, items[..i])
      {
        AbsorbStr(items[i]);
        EncAllPush(FrameStr, items[..i], items[i]);
        assert items[..i + 1] == items[..i] + [items[i]];
      }
      assert items[..|items|] == items;
    }

    method AbsorbCell(cell: Option<F64>)
      requires Valid()
      modifies this
      ensures Valid() && Stream() == old(Stream()) + FrameCell(cell)
    {
      var framed: seq<Byte> := [0] + LE(8, 0);
      if cell.Some? {
        framed := [1] + LE(8, cell.value);
      }
      PushBytes(framed);
    }

    method AbsorbRaw(bytes: seq<Byte>)
      requires Valid()
      modifies this
      ensures Valid() && Stream() == old(Stream()) + bytes
    {
      PushBytes(bytes);
    }

    method Absorb(field: Field)
      requires Valid() && LengthsFit(field)
      modifies this
      ensures Valid() && Stream() == old(Stream()) + Frame(field)
    {
      match field {
        case Word(value) => AbsorbU64(value);
        case Str(text) => AbsorbStr(text);
        case Strs(texts) => AbsorbStrCollection(texts);
        case Cell(cell) => AbsorbCell(cell);
        case Raw(bytes) => AbsorbRaw(bytes);
      }
    }

    method FinalizeHex() returns (hex: string)
      requires Valid()
      modifies this
      ensures hex == Hex(host.sha256(old(Stream()))) && |hex| == 64
    {
      Flush();
      assert fed == old(Stream());
      hex := Hex(host.sha256(fed));
    }
  }

  /** Streaming is one-shot hashing: whatever fields are absorbed in whatever order, and
      however the scratch buffer splits them, the digest is that of the domain tag followed
      by the frames, hashed at once. */
  method HashFields(host: Host, domain: seq<Byte>, fields: seq<Field>) returns (hex: string)
    requires forall i :: 0 <= i < |fields| ==> LengthsFit(fields[i])
    ensures hex == Hex(host.sha256(domain + EncAll(Frame, fields)))
  {
    var hasher := new StreamingHasher(host, domain);
    for i := 0 to |fields|
      invariant fresh(hasher) && hasher.Valid() && hasher.host == host
      invariant hasher.Stream() == domain + EncAll(Frame, fields[..i])
    {
      hasher.Absorb(fields[i]);
      EncAllPush(Frame, fields[..i], fields[i]);
      assert fields[..i + 1] == fields[..i] + [fields[i]];
    }
    assert fields[..|fields|] == fields;
    hex := hasher.FinalizeHex();
  }

  // ----- frames are read back uniquely -----

  predicate ShortStr(text: Text) { |text| <= U64_MAX }

  predicate AnyCell(cell: Option<F64>) { true }

  lemma StrCode()
    ensures PrefixCode(FrameStr, ShortStr)
  {
    Pow256Values();
    forall a, b, x, y | ShortStr(a) && ShortStr(b) && FrameStr(a) + x == FrameStr(b) + y
      ensures a == b && x == y
    {
      TextUnique(8, a, x, b, y);
    }
  }

  lemma StrsUnique(a: seq<Text>, x: seq<Byte>, b: seq<Text>, y: seq<Byte>)
    requires LengthsFit(Strs(a)) && LengthsFit(Strs(b))
    requires FrameStrs(a) + x == FrameStrs(b) + y
    ensures a == b && x == y
  {
    hide FrameStr, EncAll;
    Pow256Values();
    StrCode();
    assert FrameStrs(a) + x == LE(8, |a|) + (EncAll(FrameStr, a) + x);
    assert FrameStrs(b) + y == LE(8, |b|) + (EncAll(FrameStr, b) + y);
    WordUnique(8, |a|, EncAll(FrameStr, a) + x, |b|, EncAll(FrameStr, b) + y);
    EncAllUnique(FrameStr, ShortStr, a, x, b, y);
  }

  /** A present cell and a masked one never share a frame, and present cells differ when
      their bits do. */
  lemma CellCode()
    ensures PrefixCode(FrameCell, AnyCell)
  {
    Pow256Values();
    forall a: Option<F64>, b: Option<F64>, x, y | FrameCell(a) + x == FrameCell(b) + y
      ensures a == b && x == y
    {
      SplitEqual(FrameCell(a), x, FrameCell(b), y);
      assert FrameCell(a)[0] == FrameCell(b)[0];
      if a.Some? && b.Some? {
        SplitEqual([1], LE(8, a.value), [1], LE(8, b.value));
        ReadBack(8, a.value);
        ReadBack(8, b.value);
      }
    }
  }
}
