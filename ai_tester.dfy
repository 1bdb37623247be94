/**
 * The integer and string part of the result summary of the battleships AI
 * tester (HomeTask/battleships/AiTester.cs): the sentinel that stands in for
 * an empty list of turn counts, the in-place sort, the median index, and the
 * fixed-width cells and rows of the results table.
 */
module AiTester {

  /** C#'s `int`. */
  newtype int32 = x: int | -0x8000_0000 <= x < 0x8000_0000

  /** The turn count that stands in for "never finished" when no game finished. */
  const Sentinel: int32 := 1000 * 1000

  predicate Sorted(s: seq<int32>)
  {
    forall i, j :: 0 <= i <= j < |s| ==> s[i] <= s[j]
  }

  // ---------------------------------------------------------------------
  // List<int>: Add and Sort on the caller's list
  // ---------------------------------------------------------------------

  /** A lower bound of `u` and of `x` is a lower bound of any arrangement of u plus x. */
  lemma LowerBound(lo: int32, t: seq<int32>, u: seq<int32>, x: int32)
    requires multiset(t) == multiset(u) + multiset{x}
    requires lo <= x && forall i :: 0 <= i < |u| ==> lo <= u[i]
    ensures forall i :: 0 <= i < |t| ==> lo <= t[i]
  {
    forall i | 0 <= i < |t| ensures lo <= t[i] {
      assert t[i] in multiset(t);
      if t[i] != x {
        assert t[i] in multiset(u);
      }
    }
  }

  /** Inserts `x` into a sorted list. */
  function Insert(x: int32, s: seq<int32>): (r: seq<int32>)
    requires Sorted(s)
    ensures Sorted(r)
    ensures multiset(r) == multiset(s) + multiset{x}
  {
    if s == [] || x <= s[0] then
      [x] + s
    else
      var rest := Insert(x, s[1..]);
      LowerBound(s[0], rest, s[1..], x);
      assert s == [s[0]] + s[1..];
      [s[0]] + rest
  }

  /** The list in non-decreasing order, with the same elements. */
  function SortSeq(s: seq<int32>): (r: seq<int32>)
    ensures Sorted(r)
    ensures multiset(r) == multiset(s)
  {
    if s == [] then []
    else
      assert s == [s[0]] + s[1..];
      Insert(s[0], SortSeq(s[1..]))
  }

  /** The first element of a sorted list is its least element. */
  lemma SortedHeadIsLeast(s: seq<int32>, x: int32)
    requires Sorted(s) && x in multiset(s)
    ensures s[0] <= x
  {
    var k :| 0 <= k < |s| && s[k] == x;
  }

  /** Removing the same element from two equal multisets leaves equal multisets. */
  lemma TailsHaveSameElements(a: seq<int32>, b: seq<int32>)
    requires a != [] && b != [] && a[0] == b[0]
    requires multiset(a) == multiset(b)
    ensures multiset(a[1..]) == multiset(b[1..])
  {
    assert a == [a[0]] + a[1..];
    assert b == [b[0]] + b[1..];
    var ta, tb := multiset(a[1..]), multiset(b[1..]);
    assert multiset(a) == multiset{a[0]} + ta;
    assert multiset(b) == multiset{a[0]} + tb;
    assert forall y :: ta[y] == tb[y] by {
      forall y ensures ta[y] == tb[y] {
        assert (multiset{a[0]} + ta)[y] == (multiset{a[0]} + tb)[y];
      }
    }
  }

  /** A sorted permutation is unique: every correct sort of a list of ints yields the same list. */
  lemma {:induction false} SortedPermutationUnique(a: seq<int32>, b: seq<int32>)
    requires Sorted(a) && Sorted(b)
    requires multiset(a) == multiset(b)
    ensures a == b
  {
    if a == [] {
      assert |b| == |multiset(b)| == 0;
    } else {
      assert b != [] by { assert |b| == |multiset(b)| == |multiset(a)| == |a|; }
      assert a[0] in multiset(a) && b[0] in multiset(b);
      SortedHeadIsLeast(a, b[0]);
      SortedHeadIsLeast(b, a[0]);
      TailsHaveSameElements(a, b);
      SortedPermutationUnique(a[1..], b[1..]);
      assert a == [a[0]] + a[1..];
      assert b == [b[0]] + b[1..];
    }
  }

  /** The caller's `List<int>`, changed in place. */
  class IntList {
    var items: seq<int32>

    constructor (xs: seq<int32>)
      ensures items == xs
    {
      items := xs;
    }

    /** List.Add */
    method Add(x: int32)
      modifies this
      ensures items == old(items) + [x]
    {
      items := items + [x];
    }

    /** List.Sort, default comparer */
    method Sort()
      modifies this
      ensures Sorted(items)
      ensures multiset(items) == multiset(old(items))
    {
      items := SortSeq(items);
    }
  }

  // ---------------------------------------------------------------------
  // Median
  // ---------------------------------------------------------------------

  /** C#'s unchecked `a + b` on `int`: the sum wrapped into 32 bits. */
  function AddWrap(a: int32, b: int32): (r: int32)
    ensures (r as int - (a as int + b as int)) % 0x1_0000_0000 == 0
    ensures -0x8000_0000 <= a as int + b as int < 0x8000_0000 ==> r as int == a as int + b as int
  {
    ((a as int + b as int + 0x8000_0000) % 0x1_0000_0000 - 0x8000_0000) as int32
  }

  /** C#'s `a / 2` on `int`, which rounds toward zero. */
  function HalfTowardZero(a: int32): (r: int32)
    ensures a >= 0 ==> 0 <= a as int - 2 * r as int <= 1
    ensures a < 0 ==> -1 <= a as int - 2 * r as int <= 0
  {
    if a >= 0 then a / 2 else (-((-(a as int)) / 2)) as int32
  }

  /**
   * The median as AiTester.WriteTotal computes it from the sorted list: the
   * middle element for an odd count, otherwise the halved sum of the elements
   * at Count / 2 and (Count + 1) / 2 -- the same index for an even count, so
   * the result is always the element at Count / 2 unless doubling it overflows.
   */
  function Median(s: seq<int32>): (m: int32)
    requires |s| > 0
    ensures |s| % 2 == 1 ==> m == s[|s| / 2]
    ensures -0x4000_0000 <= s[|s| / 2] < 0x4000_0000 ==> m == s[|s| / 2]
  {
    if |s| % 2 == 1 then s[|s| / 2]
    else HalfTowardZero(AddWrap(s[|s| / 2], s[(|s| + 1) / 2]))
  }

  /**
   * For an odd count, or unless doubling the element at Count / 2 overflows,
   * the median of a sorted list lies between its least and greatest element,
   * and is one of them.
   */
  lemma MedianWithinRange(s: seq<int32>)
    requires |s| > 0 && Sorted(s)
    requires |s| % 2 == 1 || -0x4000_0000 <= s[|s| / 2] < 0x4000_0000
    ensures s[0] <= Median(s) <= s[|s| - 1]
    ensures Median(s) in s
  {
  }

  /** For an even count the median is the upper of the two central elements, not their average. */
  lemma MedianOfEvenCountIsUpperMiddle()
    ensures Median([1, 3]) == 3
    ensures Median([10, 20, 30, 40]) == 30
  {
  }

  /** Doubling a central element beyond 2^30 wraps: the median then falls below the list's minimum. */
  lemma MedianWrapsOnHugeTurnCounts()
    ensures Median([0x4000_0000, 0x4000_0000]) == -0x4000_0000
  {
  }

  // ---------------------------------------------------------------------
  // WriteTotal, lines 33-35
  // ---------------------------------------------------------------------

  /**
   * The integer part of AiTester.WriteTotal: substitutes the sentinel for an
   * empty list, sorts the caller's list in place, and takes the median.
   */
  method WriteTotal(shots: IntList) returns (median: int32)
    modifies shots
    ensures old(shots.items) == [] ==> shots.items == [Sentinel]
    ensures old(shots.items) != [] ==> multiset(shots.items) == multiset(old(shots.items))
    ensures |shots.items| > 0 && Sorted(shots.items)
    ensures median == Median(shots.items)
    ensures |shots.items| % 2 == 1 || -0x4000_0000 <= shots.items[|shots.items| / 2] < 0x4000_0000 ==>
              shots.items[0] <= median <= shots.items[|shots.items| - 1]
  {
    if |shots.items| == 0 {
      shots.Add(Sentinel);
    }
    assert old(shots.items) == [] ==> multiset(shots.items) == multiset{Sentinel};
    shots.Sort();
    if old(shots.items) == [] {
      assert |shots.items| == |multiset(shots.items)| == 1;
      assert shots.items[0] in multiset(shots.items);
      assert shots.items == [Sentinel];
    } else {
      assert |shots.items| == |multiset(shots.items)| > 0;
    }
    median := Median(shots.items);
    if |shots.items| % 2 == 1 || -0x4000_0000 <= shots.items[|shots.items| / 2] < 0x4000_0000 {
      MedianWithinRange(shots.items);
    }
  }

  // ---------------------------------------------------------------------
  // Table cells and rows
  // ---------------------------------------------------------------------

  function Untab(c: char): char { if c == '\t' then ' ' else c }

  /** string.Replace("\t", " ") */
  function ReplaceTabs(s: string): (r: string)
    ensures |r| == |s|
    ensures forall i :: 0 <= i < |s| ==> r[i] == Untab(s[i])
  {
    if s == [] then [] else [Untab(s[0])] + ReplaceTabs(s[1..])
  }

  function Spaces(n: nat): string
  {
    seq(n, _ => ' ')
  }

  /** string.PadRight(width) */
  function PadRight(s: string, width: nat): (r: string)
    ensures |r| == if |s| < width then width else |s|
    ensures r[..|s|] == s
    ensures forall i :: |s| <= i < |r| ==> r[i] == ' '
  {
    if |s| < width then s + Spaces(width - |s|) else s
  }

  /**
   * AiTester.FormatValue on the text of a value: tabs become spaces, the text
   * is padded with spaces to `width` and cut to `width`.
   */
  function FormatValue(s: string, width: nat): (r: string)
    ensures |r| == width
    ensures '\t' !in r
  {
    PadRight(ReplaceTabs(s), width)[..width]
  }

  /** Character i of a cell is character i of the text with tabs made spaces, or a space past its end. */
  lemma FormatValueChars(s: string, width: nat)
    ensures forall i :: 0 <= i < width ==>
              FormatValue(s, width)[i] == if i < |s| then Untab(s[i]) else ' '
  {
  }

  /** Text shorter than the cell is padded with spaces. */
  lemma FormatValuePads(s: string, width: nat)
    requires |s| < width
    ensures FormatValue(s, width) == ReplaceTabs(s) + Spaces(width - |s|)
  {
    var padded := ReplaceTabs(s) + Spaces(width - |s|);
    assert PadRight(ReplaceTabs(s), width) == padded;
    WholePrefix(padded, width);
  }

  lemma WholePrefix(x: string, n: nat)
    requires |x| == n
    ensures x[..n] == x
  {
  }

  /** Text at least as long as the cell is cut to its first `width` characters. */
  lemma FormatValueCuts(s: string, width: nat)
    requires |s| >= width
    ensures FormatValue(s, width) == ReplaceTabs(s)[..width]
  {
    assert PadRight(ReplaceTabs(s), width) == ReplaceTabs(s);
  }

  /** Formatting a formatted cell again changes nothing. */
  lemma FormatValueIdempotent(s: string, width: nat)
    ensures FormatValue(FormatValue(s, width), width) == FormatValue(s, width)
  {
    FormatValueChars(s, width);
    FormatValueChars(FormatValue(s, width), width);
  }

  /**
   * string.Join(sep, parts): the parts in order with one separator between
   * each two of them, so the first part opens the result.
   */
  function Join(sep: string, parts: seq<string>): (r: string)
    ensures parts != [] ==> |parts[0]| <= |r| && r[..|parts[0]|] == parts[0]
  {
    if |parts| == 0 then ""
    else if |parts| == 1 then parts[0]
    else
      parts[0] + sep + Join(sep, parts[1..])
  }

  /**
   * Joining 7-wide cells with single spaces puts cell j at offset 8 * j,
   * followed by a space for every cell but the last.
   */
  lemma {:induction false} JoinCells(parts: seq<string>)
    requires forall i :: 0 <= i < |parts| ==> |parts[i]| == 7
    ensures |Join(" ", parts)| == if parts == [] then 0 else 8 * |parts| - 1
    ensures forall j :: 0 <= j < |parts| ==> Join(" ", parts)[8 * j .. 8 * j + 7] == parts[j]
    ensures forall j :: 0 <= j < |parts| - 1 ==> Join(" ", parts)[8 * j .. 8 * j + 8] == parts[j] + " "
  {
    if |parts| > 1 {
      JoinCells(parts[1..]);
      var rest := Join(" ", parts[1..]);
      var r := Join(" ", parts);
      assert r == parts[0] + " " + rest;
      assert r[8..] == rest;
      forall j | 0 < j < |parts|
        ensures r[8 * j .. 8 * j + 7] == parts[j]
      {
        assert r[8 * j .. 8 * j + 7] == r[8..][8 * (j - 1) .. 8 * (j - 1) + 7];
        assert parts[1..][j - 1] == parts[j];
      }
      forall j | 0 < j < |parts| - 1
        ensures r[8 * j .. 8 * j + 8] == parts[j] + " "
      {
        assert r[8 * j .. 8 * j + 8] == r[8..][8 * (j - 1) .. 8 * (j - 1) + 8];
        assert parts[1..][j - 1] == parts[j];
      }
    }
  }

  /** A character that is neither in the separator nor in any part is not in the joined string. */
  lemma {:induction false} JoinLeavesOut(c: char, sep: string, parts: seq<string>)
    requires c !in sep
    requires forall i :: 0 <= i < |parts| ==> c !in parts[i]
    ensures c !in Join(sep, parts)
  {
    if |parts| > 1 {
      JoinLeavesOut(c, sep, parts[1..]);
    }
  }

  /** The `width`-wide cells of `values`. */
  function Cells(values: seq<string>, width: nat): seq<string>
  {
    seq(|values|, i requires 0 <= i < |values| => FormatValue(values[i], width))
  }

  /**
   * AiTester.FormatTableRow: a 15-wide first cell immediately followed by
   * the other values as 7-wide cells separated by single spaces.
   */
  function FormatTableRow(values: seq<string>): (row: string)
    requires |values| >= 1
    ensures |row| == if |values| == 1 then 15 else 8 * |values| + 6
    ensures row[..15] == FormatValue(values[0], 15)
    ensures forall j :: 1 <= j < |values| ==> row[8 * j + 7 .. 8 * j + 14] == FormatValue(values[j], 7)
    ensures '\t' !in row
  {
    var first := FormatValue(values[0], 15);
    var joined := Join(" ", Cells(values[1..], 7));
    JoinedCells(values[1..]);
    JoinedCellsNoTab(values[1..]);
    ShiftCells(first, joined, values);
    first + joined
  }

  /** The 7-wide cells of `values`, joined by spaces: value j sits at offset 8 * j. */
  lemma JoinedCells(values: seq<string>)
    ensures var joined := Join(" ", Cells(values, 7));
      && |joined| == (if values == [] then 0 else 8 * |values| - 1)
      && forall j :: 0 <= j < |values| ==> joined[8 * j .. 8 * j + 7] == FormatValue(values[j], 7)
  {
    var cells := Cells(values, 7);
    assert forall i :: 0 <= i < |cells| ==> cells[i] == FormatValue(values[i], 7) && |cells[i]| == 7;
    JoinCells(cells);
  }

  /** Cells joined by spaces contain no tab. */
  lemma JoinedCellsNoTab(values: seq<string>)
    ensures '\t' !in Join(" ", Cells(values, 7))
  {
    var cells := Cells(values, 7);
    assert forall i :: 0 <= i < |cells| ==> '\t' !in cells[i];
    JoinLeavesOut('\t', " ", cells);
  }

  /** Joining one more part appends the separator and that part. */
  lemma {:induction false} JoinAppend(sep: string, parts: seq<string>, p: string)
    requires parts != []
    ensures Join(sep, parts + [p]) == Join(sep, parts) + sep + p
  {
    if |parts| > 1 {
      assert (parts + [p])[1..] == parts[1..] + [p];
      JoinAppend(sep, parts[1..], p);
    }
  }

  /**
   * A row with one more value is the shorter row followed by the new 7-wide
   * cell: directly after the first cell, and after a single space otherwise.
   */
  lemma TableRowGrows(values: seq<string>, v: string)
    requires |values| >= 1
    ensures FormatTableRow(values + [v])
            == FormatTableRow(values) + (if |values| == 1 then "" else " ") + FormatValue(v, 7)
  {
    var first, tail := FormatValue(values[0], 15), values[1..];
    assert (values + [v])[1..] == tail + [v];
    calc {
      FormatTableRow(values + [v]);
      first + Join(" ", Cells(tail + [v], 7));
      { JoinedCellsGrow(tail, v); }
      first + (Join(" ", Cells(tail, 7)) + (if |values| == 1 then "" else " ") + FormatValue(v, 7));
      FormatTableRow(values) + (if |values| == 1 then "" else " ") + FormatValue(v, 7);
    }
  }

  /** One more value adds its 7-wide cell to the joined cells, after a space unless it is the only one. */
  lemma JoinedCellsGrow(values: seq<string>, v: string)
    ensures Join(" ", Cells(values + [v], 7))
            == Join(" ", Cells(values, 7)) + (if values == [] then "" else " ") + FormatValue(v, 7)
  {
    var cells := Cells(values, 7);
    assert Cells(values + [v], 7) == cells + [FormatValue(v, 7)];
    if cells != [] {
      JoinAppend(" ", cells, FormatValue(v, 7));
    }
  }

  /** Cell j of the other values, at offset 8 * j of `joined`, is value j + 1 at offset 8 * j + 15 of the row. */
  lemma ShiftCells(first: string, joined: string, values: seq<string>)
    requires |first| == 15 && |values| >= 1
    requires 8 * |values| - 9 <= |joined|
    requires forall j :: 0 <= j < |values| - 1 ==> 8 * j + 7 <= |joined| && joined[8 * j .. 8 * j + 7] == FormatValue(values[1..][j], 7)
    ensures forall j :: 1 <= j < |values| ==> (first + joined)[8 * j + 7 .. 8 * j + 14] == FormatValue(values[j], 7)
  {
    var row := first + joined;
    assert row[15..] == joined;
    forall j | 1 <= j < |values|
      ensures row[8 * j + 7 .. 8 * j + 14] == FormatValue(values[j], 7)
    {
      var k := j - 1;
      assert values[1..][k] == values[j];
      assert row[8 * j + 7 .. 8 * j + 14] == row[15..][8 * k .. 8 * k + 7];
    }
  }
}
