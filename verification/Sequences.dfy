/** Sequences without repeated elements. */
module Sequences {
  ghost predicate Distinct<T>(s: seq<T>) {
    forall i, j :: 0 <= i < j < |s| ==> s[i] != s[j]
  }

  lemma {:induction false} DistinctFitsIn<T>(s: seq<T>, universe: set<T>)
    requires Distinct(s) && forall x :: x in s ==> x in universe
    ensures |s| <= |universe|
  {
    if s != [] {
      var last := s[|s| - 1];
      var front := s[..|s| - 1];
      assert s == front + [last];
      assert last in s;
      DistinctFitsIn(front, universe - {last});
    }
  }

  /** A sequence without repeats that is as long as the set it draws from contains all of it. */
  lemma DistinctCovers<T>(s: seq<T>, universe: set<T>)
    requires Distinct(s) && |s| == |universe| && forall x :: x in s ==> x in universe
    ensures forall x :: x in universe ==> x in s
  {
    forall x | x in universe
      ensures x in s
    {
      if x !in s { DistinctFitsIn(s, universe - {x}); }
    }
  }

  lemma {:induction false} SetFitsIn<T>(universe: set<T>, s: seq<T>)
    requires forall x :: x in universe ==> x in s
    ensures |universe| <= |s|
  {
    if s != [] {
      var last := s[|s| - 1];
      assert s == s[..|s| - 1] + [last];
      SetFitsIn(universe - {last}, s[..|s| - 1]);
    } else {
      assert universe == {};
    }
  }

  /** The `BTreeSet::insert` loop that looks for a repeated element. */
  method AllDistinct<T(==)>(s: seq<T>) returns (distinct: bool)
    ensures distinct <==> Distinct(s)
  {
    var seen: set<T> := {};
    for i := 0 to |s|
      invariant forall x :: x in seen <==> x in s[..i]
      invariant Distinct(s[..i])
    {
      if s[i] in seen {
        var k :| 0 <= k < i && s[k] == s[i];
        return false;
      }
      assert s[..i + 1] == s[..i] + [s[i]];
      seen := seen + {s[i]};
    }
    assert s[..|s|] == s;
    return true;
  }

  /** Each element's position; for distinct elements, the row index of a table. */
  function IndexOf<T(==)>(s: seq<T>): map<T, nat> {
    if s == [] then map[] else IndexOf(s[..|s| - 1])[s[|s| - 1] := |s| - 1]
  }

  lemma {:induction false} IndexOfKeys<T>(s: seq<T>)
    ensures forall x :: x in IndexOf(s) <==> x in s
    ensures forall x :: x in IndexOf(s) ==> IndexOf(s)[x] < |s| && s[IndexOf(s)[x]] == x
  {
    if s != [] {
      IndexOfKeys(s[..|s| - 1]);
      assert s == s[..|s| - 1] + [s[|s| - 1]];
    }
  }

  /** A map that sends each element of a distinct sequence to its position, and has no
      other keys by count, is the index of the sequence. */
  lemma IndexOfUnique<T>(s: seq<T>, m: map<T, nat>)
    requires |m| == |s| && forall i :: 0 <= i < |s| ==> s[i] in m && m[s[i]] == i
    ensures Distinct(s) && m == IndexOf(s)
  {
    forall i, j | 0 <= i < j < |s|
      ensures s[i] != s[j]
    {
      assert m[s[i]] == i && m[s[j]] == j;
    }
    assert |m.Keys| == |m|;
    DistinctCovers(s, m.Keys);
    IndexOfKeys(s);
    forall x | x in s
      ensures m[x] == IndexOf(s)[x]
    {
      assert s[IndexOf(s)[x]] == x;
    }
  }

  lemma {:induction false} IndexOfDistinct<T>(s: seq<T>)
    requires Distinct(s)
    ensures |IndexOf(s)| == |s| && forall i :: 0 <= i < |s| ==> s[i] in IndexOf(s) && IndexOf(s)[s[i]] == i
  {
    if s != [] {
      var front := s[..|s| - 1];
      IndexOfDistinct(front);
      IndexOfKeys(front);
      assert s[|s| - 1] !in front;
      assert forall i :: 0 <= i < |front| ==> s[i] == front[i];
    }
  }

  /** Rows laid end to end. */
  function Flatten<T>(rows: seq<seq<T>>): seq<T> {
    if rows == [] then [] else Flatten(rows[..|rows| - 1]) + rows[|rows| - 1]
  }

  lemma FlattenPush<T>(rows: seq<seq<T>>, row: seq<T>)
    ensures Flatten(rows + [row]) == Flatten(rows) + row
  {
    assert (rows + [row])[..|rows + [row]| - 1] == rows;
  }

  lemma {:induction false} FlattenLength<T>(rows: seq<seq<T>>, width: nat)
    requires forall r :: 0 <= r < |rows| ==> |rows[r]| == width
    ensures |Flatten(rows)| == |rows| * width
  {
    if rows != [] {
      FlattenLength(rows[..|rows| - 1], width);
      assert |rows| * width == (|rows| - 1) * width + width;
    }
  }

  /** Row-major layout: row `r` of equally long rows starts at `r * width`. */
  lemma {:induction false} FlattenRow<T>(rows: seq<seq<T>>, width: nat, r: nat)
    requires r < |rows| && forall k :: 0 <= k < |rows| ==> |rows[k]| == width
    ensures
      var at := r * width;
      at + width <= |Flatten(rows)| && Flatten(rows)[at..at + width] == rows[r]
  {
    var n := |rows| - 1;
    var at := r * width;
    FlattenLength(rows[..n], width);
    if r < n {
      FlattenRow(rows[..n], width, r);
      assert Flatten(rows)[at..at + width] == Flatten(rows[..n])[at..at + width];
    }
  }

  /** The position of column `c` of row `r` in row-major order. */
  function RowMajorAt(width: nat, r: nat, c: nat): nat { r * width + c }

  lemma FlattenCell<T>(rows: seq<seq<T>>, width: nat, r: nat, c: nat)
    requires r < |rows| && c < width && forall k :: 0 <= k < |rows| ==> |rows[k]| == width
    ensures |Flatten(rows)| == |rows| * width
    ensures RowMajorAt(width, r, c) < |Flatten(rows)| && Flatten(rows)[RowMajorAt(width, r, c)] == rows[r][c]
  {
    hide Flatten;
    FlattenLength(rows, width);
    FlattenRow(rows, width, r);
    var at := r * width;
    assert Flatten(rows)[at + c] == Flatten(rows)[at..at + width][c];
  }
}
