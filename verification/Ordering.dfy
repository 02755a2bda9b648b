/** Total orders, the dictionary order they induce on sequences, and the
    sort-then-deduplicate step the search and the ordered maps rely on. */
module Ordering {
  ghost predicate StrictTotal<T(!new)>(less: (T, T) -> bool) {
    && (forall a :: !less(a, a))
    && (forall a, b, c :: less(a, b) && less(b, c) ==> less(a, c))
    && (forall a, b :: less(a, b) || a == b || less(b, a))
  }

  /** Dictionary order on sequences, the order of Rust's `Vec` and `str`. */
  predicate SeqLess<T(==)>(less: (T, T) -> bool, a: seq<T>, b: seq<T>) {
    if b == [] then false
    else if a == [] then true
    else if a[0] == b[0] then SeqLess(less, a[1..], b[1..])
    else less(a[0], b[0])
  }

  lemma {:induction false} SeqLessIrreflexive<T(!new)>(less: (T, T) -> bool, a: seq<T>)
    ensures !SeqLess(less, a, a)
  {
    if a != [] { SeqLessIrreflexive(less, a[1..]); }
  }

  lemma {:induction false} SeqLessTransitive<T(!new)>(less: (T, T) -> bool, a: seq<T>, b: seq<T>, c: seq<T>)
    requires StrictTotal(less) && SeqLess(less, a, b) && SeqLess(less, b, c)
    ensures SeqLess(less, a, c)
  {
    if a != [] && a[0] == b[0] && b[0] == c[0] {
      SeqLessTransitive(less, a[1..], b[1..], c[1..]);
    }
  }

  lemma {:induction false} SeqLessTotal<T(!new)>(less: (T, T) -> bool, a: seq<T>, b: seq<T>)
    requires StrictTotal(less)
    ensures SeqLess(less, a, b) || a == b || SeqLess(less, b, a)
  {
    if a != [] && b != [] && a[0] == b[0] {
      SeqLessTotal(less, a[1..], b[1..]);
      assert a == [a[0]] + a[1..] && b == [b[0]] + b[1..];
    }
  }

  /** The first difference decides, and a proper prefix comes first. */
  lemma FirstDifference<T(!new)>(less: (T, T) -> bool, a: seq<T>, b: seq<T>)
    ensures SeqLess(less, a, b) <==>
      || (|a| < |b| && a == b[..|a|])
      || exists i :: 0 <= i < |a| && i < |b| && a[..i] == b[..i] && a[i] != b[i] && less(a[i], b[i])
  {
    if SeqLess(less, a, b) { var i := DifferenceFound(less, a, b); }
    if |a| < |b| && a == b[..|a|] { DifferenceDecides(less, a, b, |a|); }
    if i :| 0 <= i < |a| && i < |b| && a[..i] == b[..i] && a[i] != b[i] && less(a[i], b[i]) {
      DifferenceDecides(less, a, b, i);
    }
  }

  lemma {:induction false} DifferenceFound<T(!new)>(less: (T, T) -> bool, a: seq<T>, b: seq<T>) returns (i: nat)
    requires SeqLess(less, a, b)
    ensures i <= |a| && i < |b| && a[..i] == b[..i]
    ensures i < |a| ==> a[i] != b[i] && less(a[i], b[i])
  {
    i := 0;
    if a != [] && a[0] == b[0] {
      var k := DifferenceFound(less, a[1..], b[1..]);
      i := k + 1;
      assert a[..i] == [a[0]] + a[1..][..k] && b[..i] == [b[0]] + b[1..][..k];
    }
  }

  lemma {:induction false} DifferenceDecides<T(!new)>(less: (T, T) -> bool, a: seq<T>, b: seq<T>, i: nat)
    requires i <= |a| && i < |b| && a[..i] == b[..i]
    requires i < |a| ==> a[i] != b[i] && less(a[i], b[i])
    ensures SeqLess(less, a, b)
  {
    if i > 0 {
      assert a[0] == a[..i][0] == b[..i][0] == b[0];
      assert a[1..][..i - 1] == a[..i][1..] && b[1..][..i - 1] == b[..i][1..];
      DifferenceDecides(less, a[1..], b[1..], i - 1);
    }
  }

  predicate CharLess(a: char, b: char) { a < b }

  predicate StringLess(a: string, b: string) { SeqLess(CharLess, a, b) }

  predicate PathLess(a: seq<string>, b: seq<string>) { SeqLess(StringLess, a, b) }

  /** Strings compare by the code of the first different character. */
  lemma StringLessMeans(a: string, b: string)
    ensures StringLess(a, b) <==>
      || (|a| < |b| && a == b[..|a|])
      || exists i :: 0 <= i < |a| && i < |b| && a[..i] == b[..i] && a[i] as int < b[i] as int
  {
    FirstDifference(CharLess, a, b);
  }

  /** Paths compare by the first different adapter. */
  lemma PathLessMeans(a: seq<string>, b: seq<string>)
    ensures PathLess(a, b) <==>
      || (|a| < |b| && a == b[..|a|])
      || exists i :: 0 <= i < |a| && i < |b| && a[..i] == b[..i] && a[i] != b[i] && StringLess(a[i], b[i])
  {
    FirstDifference(StringLess, a, b);
  }

  lemma DictionaryOrder<T(!new)>(less: (T, T) -> bool, dictionary: (seq<T>, seq<T>) -> bool)
    requires StrictTotal(less)
    requires forall a, b :: dictionary(a, b) == SeqLess(less, a, b)
    ensures StrictTotal(dictionary)
  {
    forall a, b
      ensures !dictionary(a, a) && (dictionary(a, b) || a == b || dictionary(b, a))
    {
      SeqLessIrreflexive(less, a);
      SeqLessTotal(less, a, b);
    }
    forall a, b, c | dictionary(a, b) && dictionary(b, c)
      ensures dictionary(a, c)
    {
      SeqLessTransitive(less, a, b, c);
    }
  }

  lemma StringOrder()
    ensures StrictTotal(StringLess)
  {
    DictionaryOrder(CharLess, StringLess);
  }

  lemma PathOrder()
    ensures StrictTotal(PathLess)
  {
    StringOrder();
    DictionaryOrder(StringLess, PathLess);
  }

  ghost predicate Ascending<T(!new)>(less: (T, T) -> bool, s: seq<T>) {
    forall i, j :: 0 <= i < j < |s| ==> less(s[i], s[j]) || s[i] == s[j]
  }

  ghost predicate StrictlyAscending<T(!new)>(less: (T, T) -> bool, s: seq<T>) {
    forall i, j :: 0 <= i < j < |s| ==> less(s[i], s[j])
  }

  function Insert<T(==,!new)>(less: (T, T) -> bool, x: T, s: seq<T>): (r: seq<T>)
    requires StrictTotal(less) && Ascending(less, s)
    ensures Ascending(less, r)
    ensures |r| == |s| + 1 && forall y :: y in r <==> y == x || y in s
  {
    if s == [] then [x]
    else if less(x, s[0]) then [x] + s
    else
      var rest := Insert(less, x, s[1..]);
      assert s == [s[0]] + s[1..];
      assert forall k :: 0 <= k < |rest| ==> rest[k] in rest;
      [s[0]] + rest
  }

  /** `sort`: the ascending rearrangement. */
  function Sort<T(==,!new)>(less: (T, T) -> bool, s: seq<T>): (r: seq<T>)
    requires StrictTotal(less)
    ensures Ascending(less, r)
    ensures |r| == |s| && forall y :: y in r <==> y in s
  {
    if s == [] then [] else Insert(less, s[0], Sort(less, s[1..]))
  }

  /** `dedup`: drops an element equal to the one kept just before it. */
  function Dedup<T(==,!new)>(s: seq<T>): (r: seq<T>)
    ensures s != [] ==> r != [] && r[0] == s[0]
    ensures |r| <= |s| && forall x :: x in r <==> x in s
  {
    if |s| <= 1 then s
    else if s[0] == s[1] then
      assert s == [s[0]] + s[1..];
      Dedup(s[1..])
    else
      assert s == [s[0]] + s[1..];
      [s[0]] + Dedup(s[1..])
  }

  lemma {:induction false} DedupAscending<T(!new)>(less: (T, T) -> bool, s: seq<T>)
    requires StrictTotal(less) && Ascending(less, s)
    ensures StrictlyAscending(less, Dedup(s))
  {
    if |s| > 1 {
      DedupAscending(less, s[1..]);
      if s[0] != s[1] {
        var rest := Dedup(s[1..]);
        forall k | 0 <= k < |rest|
          ensures less(s[0], rest[k])
        {
          assert rest[k] in s[1..];
          var m :| 0 <= m < |s[1..]| && s[1..][m] == rest[k];
          assert less(s[0], s[1]) && (m > 0 ==> less(s[1], s[m + 1]) || s[1] == s[m + 1]);
        }
      }
    }
  }

  function SortDedup<T(==,!new)>(less: (T, T) -> bool, s: seq<T>): (r: seq<T>)
    requires StrictTotal(less)
    ensures StrictlyAscending(less, r)
    ensures forall x :: x in r <==> x in s
  {
    DedupAscending(less, Sort(less, s));
    Dedup(Sort(less, s))
  }

  ghost predicate Asymmetric<T(!new)>(less: (T, T) -> bool) {
    forall a, b :: less(a, b) ==> !less(b, a)
  }

  /** A strictly ascending sequence is determined by the set of its elements. */
  lemma {:induction false} AscendingUnique<T(!new)>(less: (T, T) -> bool, a: seq<T>, b: seq<T>)
    requires Asymmetric(less) && StrictlyAscending(less, a) && StrictlyAscending(less, b)
    requires forall x :: x in a <==> x in b
    ensures a == b
  {
    assert b != [] ==> b[0] in b;
    if a != [] {
      assert a[0] in a;
      assert a[0] == b[0];
      forall x
        ensures x in a[1..] <==> x in b[1..]
      {
        assert a == [a[0]] + a[1..] && b == [b[0]] + b[1..];
        assert x in a <==> x == a[0] || x in a[1..];
        assert x in b <==> x == b[0] || x in b[1..];
        assert x in a[1..] ==> less(a[0], x);
        assert x in b[1..] ==> less(b[0], x);
      }
      AscendingUnique(less, a[1..], b[1..]);
      assert a == [a[0]] + a[1..] && b == [b[0]] + b[1..];
    }
  }

  // ----- the keys of an ordered map -----

  /** The order in which a `BTreeMap` iterates its keys. */
  ghost function KeyOrder<T(!new)>(less: (T, T) -> bool, keys: set<T>): (r: seq<T>)
    requires StrictTotal(less)
    ensures StrictlyAscending(less, r)
    ensures forall x :: x in r <==> x in keys
  {
    if keys == {} then []
    else
      var k :| k in keys;
      SortDedup(less, [k] + KeyOrder(less, keys - {k}))
  }

  method KeysInOrder<T(==,!new)>(less: (T, T) -> bool, keys: set<T>) returns (r: seq<T>)
    requires StrictTotal(less)
    ensures r == KeyOrder(less, keys)
  {
    var remaining := keys;
    var found: seq<T> := [];
    while remaining != {}
      invariant remaining <= keys && forall x :: x in found <==> x in keys && x !in remaining
      decreases remaining
    {
      var k :| k in remaining;
      remaining, found := remaining - {k}, found + [k];
    }
    r := SortDedup(less, found);
    AscendingUnique(less, r, KeyOrder(less, keys));
  }
}
