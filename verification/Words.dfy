/** Machine words, their little-endian bytes, and encodings that can be read back. */
module Words {
  const U32_MAX := 0xFFFF_FFFF
  const U64_MAX := 0xFFFF_FFFF_FFFF_FFFF

  type Byte = n: int | 0 <= n < 256

  /** The largest `isize` where the largest `usize` is `usizeMax`; no allocation is larger. */
  function SignedMax(usizeMax: nat): nat { usizeMax / 2 }

  /** A string by its UTF-8 bytes. */
  type Text = seq<Byte>
  type U32 = n: int | 0 <= n <= U32_MAX
  type U64 = n: int | 0 <= n <= U64_MAX

  // ----- little-endian integers -----

  function Pow256(width: nat): (p: nat)
    ensures p >= 1
  {
    if width == 0 then 1 else 256 * Pow256(width - 1)
  }

  lemma Pow256Values()
    ensures Pow256(4) == U32_MAX + 1 && Pow256(8) == U64_MAX + 1
  {
    assert Pow256(4) == 256 * 256 * 256 * 256 * Pow256(0);
    assert Pow256(8) == 256 * 256 * 256 * 256 * Pow256(4);
  }

  /** `to_le_bytes` of a `width`-byte integer. */
  function LE(width: nat, n: nat): (bytes: seq<Byte>)
    ensures |bytes| == width
  {
    if width == 0 then [] else [n % 256] + LE(width - 1, n / 256)
  }

  /** `from_le_bytes`. */
  function FromLE(bytes: seq<Byte>): nat {
    if bytes == [] then 0 else bytes[0] + 256 * FromLE(bytes[1..])
  }

  /** Byte `i` is the digit of weight 256^i: the least significant byte comes first. */
  lemma {:induction false} DigitAt(width: nat, n: nat, i: nat)
    requires i < width
    ensures LE(width, n)[i] == n / Pow256(i) % 256
  {
    if i > 0 {
      DigitAt(width - 1, n / 256, i - 1);
      DivideTwice(n, 256, Pow256(i - 1));
    }
  }

  lemma DivideTwice(n: nat, a: nat, b: nat)
    requires a > 0 && b > 0
    ensures a * b > 0 && n / a / b == n / (a * b)
  {
    var m, low := n / a, n % a;
    var q, r := m / b, m % b;
    Distributed(a, b, q, r);
    DigitsBelow(a, b, r, low);
    QuotientIs(n, a * b, q, a * r + low);
  }

  lemma Distributed(a: nat, b: nat, q: nat, r: nat)
    ensures a * (b * q + r) == a * b * q + a * r
  {}

  lemma DigitsBelow(a: nat, b: nat, r: nat, low: nat)
    requires r < b && low < a
    ensures a * r + low < a * b && a * b > 0
  {
    assert a * (r + 1) <= a * b;
  }

  lemma QuotientIs(n: nat, d: nat, q: nat, r: nat)
    requires d > 0 && r < d && n == d * q + r
    ensures n / d == q
  {
    var k := n / d;
    assert n == d * k + n % d;
    assert k + 1 <= q ==> d * (k + 1) <= d * q;
    assert q + 1 <= k ==> d * (q + 1) <= d * k;
  }

  /** A 32-bit word: its four bytes, by their weights. */
  lemma FourBytes(n: U32)
    ensures
      var b: seq<int> := LE(4, n);
      b[0] + 256 * b[1] + 65_536 * b[2] + 16_777_216 * b[3] == n
  {
    Pow256Values();
    ReadBack(4, n);
    ReadAsDigits(LE(4, n));
  }

  /** A 64-bit word: its eight bytes, by their weights. */
  lemma EightBytes(n: U64)
    ensures
      var b: seq<int> := LE(8, n);
      b[0] + 0x100 * b[1] + 0x1_0000 * b[2] + 0x100_0000 * b[3] + 0x1_0000_0000 * b[4]
      + 0x100_0000_0000 * b[5] + 0x1_0000_0000_0000 * b[6] + 0x100_0000_0000_0000 * b[7] == n
  {
    Pow256Values();
    ReadBack(8, n);
    ReadAsDigits(LE(8, n)[4..]);
    FirstFour(LE(8, n));
  }

  lemma ReadAsDigits(bytes: seq<Byte>)
    requires |bytes| == 4
    ensures var b: seq<int> := bytes; FromLE(bytes) == b[0] + 256 * b[1] + 65_536 * b[2] + 16_777_216 * b[3]
  {
    FirstFour(bytes);
    assert bytes[4..] == [];
  }

  lemma FirstFour(bytes: seq<Byte>)
    requires |bytes| >= 4
    ensures
      var b: seq<int> := bytes;
      FromLE(bytes) == b[0] + 256 * b[1] + 65_536 * b[2] + 16_777_216 * b[3] + 0x1_0000_0000 * FromLE(bytes[4..])
  {
    assert bytes[1..][1..] == bytes[2..] && bytes[2..][1..] == bytes[3..] && bytes[3..][1..] == bytes[4..];
    assert FromLE(bytes[3..]) == bytes[3] + 256 * FromLE(bytes[4..]);
    assert FromLE(bytes[2..]) == bytes[2] + 256 * FromLE(bytes[3..]);
    assert FromLE(bytes[1..]) == bytes[1] + 256 * FromLE(bytes[2..]);
  }

  lemma {:induction false} ReadBack(width: nat, n: nat)
    requires n < Pow256(width)
    ensures FromLE(LE(width, n)) == n
  {
    if width > 0 {
      ReadBack(width - 1, n / 256);
      assert LE(width, n)[1..] == LE(width - 1, n / 256);
    }
  }

  lemma {:induction false} WriteBack(bytes: seq<Byte>)
    ensures FromLE(bytes) < Pow256(|bytes|) && LE(|bytes|, FromLE(bytes)) == bytes
  {
    if bytes != [] {
      WriteBack(bytes[1..]);
      assert FromLE(bytes) / 256 == FromLE(bytes[1..]) && FromLE(bytes) % 256 == bytes[0];
    }
  }

  // ----- one encoding at a place in a byte string -----

  /** The bytes of `e` stand at `cursor`, before `end`. */
  predicate At(bytes: seq<Byte>, cursor: nat, end: nat, e: seq<Byte>) {
    cursor + |e| <= end <= |bytes| && bytes[cursor..cursor + |e|] == e
  }

  lemma AtConcat(bytes: seq<Byte>, cursor: nat, end: nat, a: seq<Byte>, b: seq<Byte>)
    ensures At(bytes, cursor, end, a + b) <==> At(bytes, cursor, end, a) && At(bytes, cursor + |a|, end, b)
  {
    if cursor + |a| + |b| <= end <= |bytes| {
      var all := bytes[cursor..cursor + |a + b|];
      assert all == bytes[cursor..cursor + |a|] + bytes[cursor + |a|..cursor + |a| + |b|];
      assert all[..|a|] == bytes[cursor..cursor + |a|];
      assert all[|a|..] == bytes[cursor + |a|..cursor + |a| + |b|];
      assert (a + b)[..|a|] == a && (a + b)[|a|..] == b;
    }
  }

  lemma AtAnyEnd(bytes: seq<Byte>, cursor: nat, end1: nat, end2: nat, e: seq<Byte>)
    requires cursor + |e| <= end1 <= |bytes| && cursor + |e| <= end2 <= |bytes|
    ensures At(bytes, cursor, end1, e) <==> At(bytes, cursor, end2, e)
  {}

  lemma AtBounds(bytes: seq<Byte>, cursor: nat, end: nat, e: seq<Byte>)
    requires At(bytes, cursor, end, e)
    ensures cursor + |e| <= end <= |bytes|
  {}

  /** The bytes at a place are the only ones of their length that stand there. */
  lemma AtSlice(bytes: seq<Byte>, cursor: nat, end: nat, n: nat)
    requires cursor + n <= end <= |bytes|
    ensures At(bytes, cursor, end, bytes[cursor..cursor + n])
    ensures forall e :: |e| == n && At(bytes, cursor, end, e) ==> e == bytes[cursor..cursor + n]
  {}

  lemma AtFive(bytes: seq<Byte>, cursor: nat, end: nat,
               a: seq<Byte>, b: seq<Byte>, c: seq<Byte>, d: seq<Byte>, e: seq<Byte>)
    ensures At(bytes, cursor, end, a + b + c + d + e) <==>
      && At(bytes, cursor, end, a)
      && At(bytes, cursor + |a|, end, b)
      && At(bytes, cursor + |a| + |b|, end, c)
      && At(bytes, cursor + |a| + |b| + |c|, end, d)
      && At(bytes, cursor + |a| + |b| + |c| + |d|, end, e)
  {
    AtConcat(bytes, cursor, end, a + b + c + d, e);
    AtConcat(bytes, cursor, end, a + b + c, d);
    AtConcat(bytes, cursor, end, a + b, c);
    AtConcat(bytes, cursor, end, a, b);
  }

  // ----- encoding a sequence item by item -----

  function EncAll<T>(enc: T -> seq<Byte>, xs: seq<T>): seq<Byte> {
    if xs == [] then [] else EncAll(enc, xs[..|xs| - 1]) + enc(xs[|xs| - 1])
  }

  lemma EncAllStep<T>(enc: T -> seq<Byte>, xs: seq<T>, i: nat)
    requires i < |xs|
    ensures EncAll(enc, xs[..i + 1]) == EncAll(enc, xs[..i]) + enc(xs[i])
  {
    assert xs[..i + 1][..i] == xs[..i];
  }

  lemma {:induction false} EncAllConcat<T>(enc: T -> seq<Byte>, xs: seq<T>, ys: seq<T>)
    ensures EncAll(enc, xs + ys) == EncAll(enc, xs) + EncAll(enc, ys)
    decreases |ys|
  {
    if ys == [] {
      assert xs + ys == xs;
    } else {
      EncAllConcat(enc, xs, ys[..|ys| - 1]);
      assert (xs + ys)[..|xs + ys| - 1] == xs + ys[..|ys| - 1];
    }
  }

  lemma EncAllPush<T>(enc: T -> seq<Byte>, xs: seq<T>, x: T)
    ensures EncAll(enc, xs + [x]) == EncAll(enc, xs) + enc(x)
  {
    assert (xs + [x])[..|xs + [x]| - 1] == xs;
  }

  lemma {:induction false} EncAllMinLength<T>(enc: T -> seq<Byte>, xs: seq<T>, min: nat)
    requires forall i :: 0 <= i < |xs| ==> |enc(xs[i])| >= min
    ensures |EncAll(enc, xs)| >= |xs| * min
  {
    if xs != [] {
      EncAllMinLength(enc, xs[..|xs| - 1], min);
      assert |xs| * min == (|xs| - 1) * min + min;
    }
  }

  lemma {:induction false} EncAllLength<T>(enc: T -> seq<Byte>, xs: seq<T>, width: nat)
    requires forall i :: 0 <= i < |xs| ==> |enc(xs[i])| == width
    ensures |EncAll(enc, xs)| == |xs| * width
  {
    if xs != [] {
      EncAllLength(enc, xs[..|xs| - 1], width);
      assert |xs| * width == (|xs| - 1) * width + width;
    }
  }

  /** Item `i` of an encoded sequence stands right after the items before it. */
  lemma EncAllAt<T>(enc: T -> seq<Byte>, xs: seq<T>, i: nat, bytes: seq<Byte>, cursor: nat, end: nat)
    requires i < |xs| && At(bytes, cursor, end, EncAll(enc, xs))
    ensures At(bytes, cursor, end, EncAll(enc, xs[..i]))
    ensures At(bytes, cursor + |EncAll(enc, xs[..i])|, end, enc(xs[i]))
  {
    assert xs == xs[..i + 1] + xs[i + 1..] && xs[..i + 1] == xs[..i] + [xs[i]];
    EncAllConcat(enc, xs[..i + 1], xs[i + 1..]);
    EncAllPush(enc, xs[..i], xs[i]);
    AtConcat(bytes, cursor, end, EncAll(enc, xs[..i + 1]), EncAll(enc, xs[i + 1..]));
    AtConcat(bytes, cursor, end, EncAll(enc, xs[..i]), enc(xs[i]));
  }

  /** One more item read: the prefix read so far grows by it. */
  lemma EncAllExtend<T>(enc: T -> seq<Byte>, xs: seq<T>, x: T, bytes: seq<Byte>, cursor: nat, end: nat)
    requires At(bytes, cursor, end, EncAll(enc, xs))
    requires At(bytes, cursor + |EncAll(enc, xs)|, end, enc(x))
    ensures At(bytes, cursor, end, EncAll(enc, xs + [x]))
    ensures |EncAll(enc, xs + [x])| == |EncAll(enc, xs)| + |enc(x)|
  {
    hide At, EncAll;
    EncAllPush(enc, xs, x);
    AtConcat(bytes, cursor, end, EncAll(enc, xs), enc(x));
  }

  lemma EncAllNone<T>(enc: T -> seq<Byte>, bytes: seq<Byte>, cursor: nat, end: nat)
    requires cursor <= end <= |bytes|
    ensures EncAll(enc, []) == [] && At(bytes, cursor, end, EncAll(enc, []))
  {}

  // ----- where the values of a sequence stand -----

  lemma {:induction false} OffsetsSum<T>(enc: T -> seq<Byte>, xs: seq<T>, at: seq<nat>, i: nat)
    requires i <= |xs| && |at| == |xs| + 1 && forall k :: 0 <= k < |xs| ==> at[k + 1] == at[k] + |enc(xs[k])|
    ensures at[i] == at[0] + |EncAll(enc, xs[..i])|
  {
    if i == 0 {
      assert xs[..0] == [];
    } else {
      OffsetsSum(enc, xs, at, i - 1);
      EncAllStep(enc, xs, i - 1);
    }
  }

  /** Equally long items of equally long lines stand in row-major order. */
  lemma GridCell<T>(item: T -> seq<Byte>, line: seq<T> -> seq<Byte>, width: nat, bytes: seq<Byte>, start: nat,
                    grid: seq<seq<T>>, lines: nat, items: nat, f: nat, r: nat)
    requires |grid| == lines && (forall k :: 0 <= k < lines ==> |grid[k]| == items) && f < lines && r < items
    requires forall x :: |item(x)| == width
    requires forall xs :: line(xs) == EncAll(item, xs)
    requires At(bytes, start, |bytes|, EncAll(line, grid))
    ensures At(bytes, start + width * (f * items + r), |bytes|, item(grid[f][r]))
    ensures |EncAll(line, grid)| == width * (lines * items)
  {
    hide EncAll, At;
    forall k | 0 <= k < lines
      ensures |line(grid[k])| == width * items
    {
      EncAllLength(item, grid[k], width);
    }
    EncAllAt(line, grid, f, bytes, start, |bytes|);
    EncAllLength(line, grid[..f], width * items);
    EncAllLength(line, grid, width * items);
    var from := start + f * (width * items);
    EncAllAt(item, grid[f], r, bytes, from, |bytes|);
    EncAllLength(item, grid[f][..r], width);
    Regroup(width, f, items, r);
    Regroup(width, lines, items, 0);
  }

  lemma Regroup(width: nat, f: nat, items: nat, r: nat)
    ensures f * (width * items) + r * width == width * (f * items + r)
  {}

  lemma LongStands(bytes: seq<Byte>, at: nat, n: U64)
    requires At(bytes, at, |bytes|, LE(8, n))
    ensures at + 8 <= |bytes|
    ensures
      var b: seq<int> := bytes;
      b[at] + 0x100 * b[at + 1] + 0x1_0000 * b[at + 2] + 0x100_0000 * b[at + 3] + 0x1_0000_0000 * b[at + 4]
      + 0x100_0000_0000 * b[at + 5] + 0x1_0000_0000_0000 * b[at + 6] + 0x100_0000_0000_0000 * b[at + 7] == n
  {
    EightBytes(n);
    hide LE;
    var e := bytes[at..at + 8];
    assert e[0] == bytes[at] && e[1] == bytes[at + 1] && e[2] == bytes[at + 2] && e[3] == bytes[at + 3];
    assert e[4] == bytes[at + 4] && e[5] == bytes[at + 5] && e[6] == bytes[at + 6] && e[7] == bytes[at + 7];
  }

  // ----- encodings that determine what was encoded -----

  /** On values satisfying `ok`, the encoding is a prefix code: whatever follows, the
      bytes tell which value was written and where it ends. */
  ghost predicate PrefixCode<T(!new)>(enc: T -> seq<Byte>, ok: T -> bool) {
    forall a, b, x, y :: ok(a) && ok(b) && enc(a) + x == enc(b) + y ==> a == b && x == y
  }

  lemma SplitEqual(a: seq<Byte>, x: seq<Byte>, b: seq<Byte>, y: seq<Byte>)
    requires a + x == b + y && |a| == |b|
    ensures a == b && x == y
  {
    assert a == (a + x)[..|a|] && b == (b + y)[..|b|];
    assert x == (a + x)[|a|..] && y == (b + y)[|b|..];
  }

  lemma {:induction false} EncAllUnique<T(!new)>(enc: T -> seq<Byte>, ok: T -> bool,
                                                  a: seq<T>, x: seq<Byte>, b: seq<T>, y: seq<Byte>)
    requires PrefixCode(enc, ok) && |a| == |b|
    requires (forall i :: 0 <= i < |a| ==> ok(a[i])) && (forall i :: 0 <= i < |b| ==> ok(b[i]))
    requires EncAll(enc, a) + x == EncAll(enc, b) + y
    ensures a == b && x == y
    decreases |a|
  {
    if a == [] {
      assert EncAll(enc, a) + x == x && EncAll(enc, b) + y == y;
    } else {
      var a0, b0 := a[..|a| - 1], b[..|b| - 1];
      var a1, b1 := a[|a| - 1], b[|b| - 1];
      assert EncAll(enc, a0) + (enc(a1) + x) == EncAll(enc, a) + x;
      assert EncAll(enc, b0) + (enc(b1) + y) == EncAll(enc, b) + y;
      EncAllUnique(enc, ok, a0, enc(a1) + x, b0, enc(b1) + y);
      assert ok(a1) && ok(b1) && enc(a1) + x == enc(b1) + y;
      assert a == a0 + [a1] && b == b0 + [b1];
    }
  }

  lemma Assoc5(a: seq<Byte>, b: seq<Byte>, c: seq<Byte>, d: seq<Byte>, e: seq<Byte>, x: seq<Byte>)
    ensures a + b + c + d + e + x == a + (b + (c + (d + (e + x))))
  {}

  /** A string with its byte length in front, as `width` little-endian bytes. */
  function EncText(width: nat, text: seq<Byte>): seq<Byte> {
    LE(width, |text|) + text
  }

  lemma TextUnique(width: nat, a: seq<Byte>, x: seq<Byte>, b: seq<Byte>, y: seq<Byte>)
    requires |a| < Pow256(width) && |b| < Pow256(width)
    requires EncText(width, a) + x == EncText(width, b) + y
    ensures a == b && x == y
  {
    assert EncText(width, a) + x == LE(width, |a|) + (a + x);
    assert EncText(width, b) + y == LE(width, |b|) + (b + y);
    SplitEqual(LE(width, |a|), a + x, LE(width, |b|), b + y);
    ReadBack(width, |a|);
    ReadBack(width, |b|);
    SplitEqual(a, x, b, y);
  }

  lemma WordUnique(width: nat, a: nat, x: seq<Byte>, b: nat, y: seq<Byte>)
    requires a < Pow256(width) && b < Pow256(width)
    requires LE(width, a) + x == LE(width, b) + y
    ensures a == b && x == y
  {
    SplitEqual(LE(width, a), x, LE(width, b), y);
    ReadBack(width, a);
    ReadBack(width, b);
  }
}
