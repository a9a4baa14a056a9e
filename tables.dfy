/**
 * Turning one connected component into a table (autoexcel/analysis.py:69-76): the bounding-box
 * slice, `dropna(axis=0, how='all')` then `dropna(axis=1, how='all')`, and the header and
 * footer clean-ups `clean_header` / `clean_footer` (autoexcel/analysis.py:81-95).
 * A table is a sequence of rows; its rows are compared whole, as `drop_duplicates` does.
 */
module Tables {
  import opened Wrappers
  import opened Seqs
  import opened Grid

  function MinOf(s: seq<int>): (m: int)
    requires |s| > 0
    ensures m in s && forall i :: 0 <= i < |s| ==> m <= s[i]
  {
    if |s| == 1 then s[0]
    else
      var rest := MinOf(s[1..]);
      if s[0] <= rest then s[0] else rest
  }

  function MaxOf(s: seq<int>): (m: int)
    requires |s| > 0
    ensures m in s && forall i :: 0 <= i < |s| ==> s[i] <= m
  {
    if |s| == 1 then s[0]
    else
      var rest := MaxOf(s[1..]);
      if s[0] >= rest then s[0] else rest
  }

  /** Inclusive row and column bounds. */
  datatype Box = Box(top: int, left: int, bottom: int, right: int)

  /**
   * `min(rows)`, `max(rows)`, `min(cols)`, `max(cols)` over the component's cells: the
   * smallest rectangle holding every cell, each of its edges touched by some cell.
   */
  function BoundingBox(cells: seq<Cell>): (b: Box)
    requires |cells| > 0
    ensures forall c :: c in cells ==> b.top <= c.row <= b.bottom && b.left <= c.col <= b.right
    ensures exists i :: 0 <= i < |cells| && cells[i].row == b.top
    ensures exists i :: 0 <= i < |cells| && cells[i].row == b.bottom
    ensures exists i :: 0 <= i < |cells| && cells[i].col == b.left
    ensures exists i :: 0 <= i < |cells| && cells[i].col == b.right
  {
    var rows := Map(cells, (c: Cell) => c.row);
    var cols := Map(cells, (c: Cell) => c.col);
    Box(MinOf(rows), MinOf(cols), MaxOf(rows), MaxOf(cols))
  }

  /**
   * `df.iloc[top:bottom+1, left:right+1]`: every cell of the rectangle, whichever component
   * it belongs to and whether or not it is empty.
   */
  function Slice<V>(g: Grid<V>, b: Box): (t: Grid<V>)
    requires IsRectangular(g) && 0 <= b.top <= b.bottom < |g| && 0 <= b.left <= b.right < Width(g)
    ensures |t| == b.bottom - b.top + 1 && IsRectangular(t) && Width(t) == b.right - b.left + 1
    ensures forall i, j :: 0 <= i < |t| && 0 <= j < Width(t) ==> t[i][j] == g[b.top + i][b.left + j]
  {
    seq(b.bottom - b.top + 1, i requires 0 <= i < b.bottom - b.top + 1 => g[b.top + i][b.left..b.right + 1])
  }

  predicate RowHasValue<V>(row: seq<Option<V>>) {
    exists j :: 0 <= j < |row| && row[j].Some?
  }

  predicate ColumnHasValue<V>(t: Grid<V>, j: int) {
    exists i :: 0 <= i < |t| && 0 <= j < |t[i]| && t[i][j].Some?
  }

  /** `dropna(axis=0, how='all')`: the rows holding at least one value, in order, each with all its copies. */
  function DropEmptyRows<V(!new)>(t: Grid<V>): (r: Grid<V>)
    requires IsRectangular(t)
    ensures IsSubseq(r, t) && IsRectangular(r) && (|r| > 0 ==> Width(r) == Width(t))
    ensures forall i :: 0 <= i < |r| ==> RowHasValue(r[i])
    ensures forall i :: 0 <= i < |t| && RowHasValue(t[i]) ==> t[i] in r
    ensures forall row :: multiset(r)[row] == if RowHasValue(row) then multiset(t)[row] else 0
  {
    var r := Filter(t, (row: seq<Option<V>>) => RowHasValue(row));
    forall i | 0 <= i < |r|
      ensures |r[i]| == Width(t) && RowHasValue(r[i])
    {
      assert r[i] in r;
    }
    forall i | 0 <= i < |t| && RowHasValue(t[i])
      ensures t[i] in r
    {
      assert t[i] in t;
    }
    r
  }

  /** The columns 0 .. w-1 that hold at least one value, in increasing order. */
  function KeptColumns<V>(t: Grid<V>, w: nat): (ks: seq<int>)
    ensures |ks| <= w
    ensures forall k :: 0 <= k < |ks| ==> 0 <= ks[k] < w && ColumnHasValue(t, ks[k])
    ensures forall j :: 0 <= j < w && ColumnHasValue(t, j) ==> j in ks
    ensures forall k1, k2 :: 0 <= k1 < k2 < |ks| ==> ks[k1] < ks[k2]
  {
    if w == 0 then []
    else KeptColumns(t, w - 1) + (if ColumnHasValue(t, w - 1) then [w - 1] else [])
  }

  /** `dropna(axis=1, how='all')`: every row restricted to the columns that hold a value. */
  function DropEmptyColumns<V>(t: Grid<V>): (r: Grid<V>)
    requires IsRectangular(t)
    ensures |r| == |t| && IsRectangular(r)
    ensures |r| > 0 ==> Width(r) == |KeptColumns(t, Width(t))|
    ensures forall i, k :: 0 <= i < |r| && 0 <= k < |KeptColumns(t, Width(t))| ==>
      r[i][k] == t[i][KeptColumns(t, Width(t))[k]]
  {
    var ks := KeptColumns(t, Width(t));
    seq(|t|, i requires 0 <= i < |t| => seq(|ks|, k requires 0 <= k < |ks| => t[i][ks[k]]))
  }

  /**
   * Line 73: empty rows first, then empty columns. The table shrinks in both directions, and it
   * ends up with no rows exactly when no row held a value.
   */
  function DropEmpty<V(!new)>(t: Grid<V>): (r: Grid<V>)
    requires IsRectangular(t)
    ensures IsRectangular(r) && |r| <= |t|
    ensures |r| > 0 ==> Width(r) <= Width(t)
    ensures |r| == 0 <==> forall i :: 0 <= i < |t| ==> !RowHasValue(t[i])
  {
    var rows := DropEmptyRows(t);
    SubseqMembers(rows, t);
    DropEmptyColumns(rows)
  }

  /** After line 73 no row and no column of the table is entirely empty. */
  lemma DropEmptyLeavesNoEmptyLine<V(!new)>(t: Grid<V>)
    requires IsRectangular(t)
    ensures forall i :: 0 <= i < |DropEmpty(t)| ==> RowHasValue(DropEmpty(t)[i])
    ensures forall j :: 0 <= j < Width(DropEmpty(t)) ==> ColumnHasValue(DropEmpty(t), j)
  {
    var rows := DropEmptyRows(t);
    assert DropEmpty(t) == DropEmptyColumns(rows);
    KeptColumnsKeepRowValues(rows);
    KeptColumnsHoldValues(rows);
  }

  /** Dropping empty columns leaves every row that held a value still holding one. */
  lemma KeptColumnsKeepRowValues<V>(rows: Grid<V>)
    requires IsRectangular(rows) && forall i :: 0 <= i < |rows| ==> RowHasValue(rows[i])
    ensures forall i :: 0 <= i < |DropEmptyColumns(rows)| ==> RowHasValue(DropEmptyColumns(rows)[i])
  {
    var ks := KeptColumns(rows, Width(rows));
    var r := DropEmptyColumns(rows);
    forall i | 0 <= i < |r|
      ensures RowHasValue(r[i])
    {
      assert RowHasValue(rows[i]);
      var j :| 0 <= j < |rows[i]| && rows[i][j].Some?;
      assert ColumnHasValue(rows, j);
      var k :| 0 <= k < |ks| && ks[k] == j;
      assert r[i][k] == rows[i][j];
    }
  }

  /** Every column left after dropping the empty ones holds a value. */
  lemma KeptColumnsHoldValues<V>(rows: Grid<V>)
    requires IsRectangular(rows)
    ensures forall k :: 0 <= k < Width(DropEmptyColumns(rows)) ==> ColumnHasValue(DropEmptyColumns(rows), k)
  {
    var ks := KeptColumns(rows, Width(rows));
    var r := DropEmptyColumns(rows);
    forall k | 0 <= k < Width(r)
      ensures ColumnHasValue(r, k)
    {
      assert ColumnHasValue(rows, ks[k]);
      var i :| 0 <= i < |rows| && 0 <= ks[k] < |rows[i]| && rows[i][ks[k]].Some?;
      assert r[i][k] == rows[i][ks[k]];
    }
  }

  /** A table with a value somewhere keeps at least one row and one column after line 73. */
  lemma DropEmptyKeepsValue<V(!new)>(t: Grid<V>, i: int, j: int)
    requires IsRectangular(t) && 0 <= i < |t| && 0 <= j < Width(t) && t[i][j].Some?
    ensures |DropEmpty(t)| > 0 && Width(DropEmpty(t)) > 0
  {
    var rows := DropEmptyRows(t);
    assert RowHasValue(t[i]);
    assert t[i] in rows;
    var i' :| 0 <= i' < |rows| && rows[i'] == t[i];
    assert ColumnHasValue(rows, j);
    assert j in KeptColumns(rows, Width(rows));
  }

  function Min(a: int, b: int): int { if a <= b then a else b }
  function Max(a: int, b: int): int { if a >= b then a else b }

  /**
   * `clean_header`: `head(4).drop_duplicates()` followed by `iloc[5:]`. Rows 0..3 are
   * de-duplicated, rows 5.. are kept, and row 4 appears in neither part.
   */
  function CleanHeader<T(==)>(t: seq<T>): (r: seq<T>)
    ensures |r| <= |t| && (|t| > 0 ==> |r| > 0)
    ensures forall i :: 0 <= i < |r| ==> r[i] in t
  {
    var head := t[..Min(|t|, 4)];
    assert |t| > 0 ==> head[0] in Dedup(head);
    SubseqMembers(Dedup(head), head);
    Dedup(head) + t[Min(|t|, 5)..]
  }

  /**
   * `clean_footer`: `iloc[:-5]` followed by `tail(4).drop_duplicates()`. Rows 0..n-6 are kept,
   * the last four are de-duplicated, and row n-5 appears in neither part.
   */
  function CleanFooter<T(==)>(t: seq<T>): (r: seq<T>)
    ensures |r| <= |t| && (|t| > 0 ==> |r| > 0)
    ensures forall i :: 0 <= i < |r| ==> r[i] in t
  {
    var tail := t[|t| - Min(|t|, 4)..];
    assert |t| > 0 ==> tail[0] in Dedup(tail);
    SubseqMembers(Dedup(tail), tail);
    t[..Max(|t| - 5, 0)] + Dedup(tail)
  }

  /**
   * For five rows or more the header step keeps rows 5.. unchanged at the end, puts rows 0-3
   * in front with their repeats removed (first occurrences kept), and is at least one row
   * shorter: row 4 is lost.
   */
  lemma CleanHeaderLong<T>(t: seq<T>)
    requires |t| >= 5
    ensures var r := CleanHeader(t);
      && |r| <= |t| - 1
      && r[|r| - (|t| - 5)..] == t[5..]
      && r[..|r| - (|t| - 5)] == Dedup(t[..4])
      && NoDup(r[..|r| - (|t| - 5)])
      && IsSubseq(r[..|r| - (|t| - 5)], t[..4])
      && (forall i :: 0 <= i < 4 ==> t[i] in r[..|r| - (|t| - 5)])
  {
    var d := Dedup(t[..4]);
    SubseqMembers(d, t[..4]);
    assert forall i :: 0 <= i < 4 ==> t[..4][i] == t[i];
    assert CleanHeader(t) == d + t[5..];
    assert (d + t[5..])[..|d|] == d;
    assert (d + t[5..])[|d|..] == t[5..];
  }

  /** With four rows or fewer the header step is plain de-duplication. */
  lemma CleanHeaderShort<T>(t: seq<T>)
    requires |t| <= 4
    ensures CleanHeader(t) == Dedup(t)
  {
    assert t[..|t|] == t;
  }

  /** Row 4 is lost even when nothing is duplicated: five distinct rows come back as rows 0-3 and 5... */
  lemma CleanHeaderDropsRowFour<T>(t: seq<T>)
    requires |t| >= 5 && NoDup(t[..5])
    ensures CleanHeader(t) == t[..4] + t[5..]
    ensures t[4] !in CleanHeader(t)[..4]
  {
    assert t[..4] == t[..5][..4];
    assert NoDup(t[..4]);
    DedupOfDistinct(t[..4]);
    assert t[4] == t[..5][4];
  }

  /** A duplicate of row 0 at row 2 disappears; rows 0, 1 and 3 move up and rows 5.. are untouched. */
  lemma CleanHeaderDropsRepeatedBanner<T>(a: T, b: T, c: T, row4: T, rest: seq<T>)
    requires a != b && a != c && b != c
    ensures CleanHeader([a, b, a, c, row4] + rest) == [a, b, c] + rest
  {
    var t := [a, b, a, c, row4] + rest;
    assert t[..4] == [a, b, a, c];
    assert t[5..] == rest;
    assert NoDup([a, b]);
    DedupOfDistinct([a, b]);
    assert [a, b, a][..2] == [a, b];
    assert Dedup([a, b, a]) == [a, b];
    assert [a, b, a, c][..3] == [a, b, a];
    assert Dedup([a, b, a, c]) == [a, b] + [c];
  }

  /**
   * For five rows or more the footer step keeps rows 0..n-6 unchanged in front, puts the last
   * four rows after them with their repeats removed (first occurrences kept), and is at least
   * one row shorter: row n-5 is lost.
   */
  lemma CleanFooterLong<T>(t: seq<T>)
    requires |t| >= 5
    ensures var r := CleanFooter(t);
      && |r| <= |t| - 1
      && r[..|t| - 5] == t[..|t| - 5]
      && r[|t| - 5..] == Dedup(t[|t| - 4..])
      && NoDup(r[|t| - 5..])
      && IsSubseq(r[|t| - 5..], t[|t| - 4..])
      && (forall i :: |t| - 4 <= i < |t| ==> t[i] in r[|t| - 5..])
  {
    var d := Dedup(t[|t| - 4..]);
    SubseqMembers(d, t[|t| - 4..]);
    assert CleanFooter(t) == t[..|t| - 5] + d;
    assert (t[..|t| - 5] + d)[|t| - 5..] == d;
    forall i | |t| - 4 <= i < |t|
      ensures t[i] in d
    {
      assert t[i] == t[|t| - 4..][i - (|t| - 4)];
    }
  }

  /** With four rows or fewer the footer step is plain de-duplication of the whole table. */
  lemma CleanFooterShort<T>(t: seq<T>)
    requires |t| <= 4
    ensures CleanFooter(t) == Dedup(t)
  {
    assert t[|t| - |t|..] == t;
  }

  /** Row n-5 is lost even when nothing is duplicated. */
  lemma CleanFooterDropsRowNMinusFive<T>(t: seq<T>)
    requires |t| >= 5 && NoDup(t[|t| - 5..])
    ensures CleanFooter(t) == t[..|t| - 5] + t[|t| - 4..]
    ensures |CleanFooter(t)| == |t| - 1
  {
    var n := |t|;
    assert t[n - 4..] == t[n - 5..][1..];
    assert NoDup(t[n - 4..]);
    DedupOfDistinct(t[n - 4..]);
  }

  /** The bounding box of cells that lie in the grid lies in the grid. */
  lemma BoxInGrid<V>(g: Grid<V>, cells: seq<Cell>)
    requires |cells| > 0 && forall c :: c in cells ==> InGrid(g, c)
    ensures var b := BoundingBox(cells);
      0 <= b.top <= b.bottom < |g| && 0 <= b.left <= b.right < Width(g)
  {
    var b := BoundingBox(cells);
    var i0 :| 0 <= i0 < |cells| && cells[i0].row == b.top;
    var i1 :| 0 <= i1 < |cells| && cells[i1].row == b.bottom;
    var i2 :| 0 <= i2 < |cells| && cells[i2].col == b.left;
    var i3 :| 0 <= i3 < |cells| && cells[i3].col == b.right;
    assert cells[i0] in cells && cells[i1] in cells && cells[i2] in cells && cells[i3] in cells;
  }

  /** Rows drawn from a rectangular table form a rectangular table of the same width. */
  lemma RowsOfRectangular<V>(t: Grid<V>, u: Grid<V>)
    requires IsRectangular(u) && forall i :: 0 <= i < |t| ==> t[i] in u
    ensures IsRectangular(t) && (|t| > 0 ==> Width(t) == Width(u))
  {
    forall i | 0 <= i < |t|
      ensures |t[i]| == Width(u)
    {
      var j :| 0 <= j < |u| && u[j] == t[i];
    }
  }

  /**
   * Lines 69-76 for one component: bounding-box slice of the merged grid, empty rows and
   * then empty columns dropped, then `clean_header` and `clean_footer`.
   */
  function MaterializeTable<V(==,!new)>(g: Grid<V>, cells: seq<Cell>): (t: Grid<V>)
    requires IsRectangular(g) && |cells| > 0 && forall c :: c in cells ==> InGrid(g, c)
    ensures IsRectangular(t)
  {
    BoxInGrid(g, cells);
    var cleaned := DropEmpty(Slice(g, BoundingBox(cells)));
    HeaderFooterRectangular(cleaned);
    CleanFooter(CleanHeader(cleaned))
  }

  /** The bounding box depends only on which cells are listed, not on their order or repetitions. */
  lemma BoundingBoxOfSameCells(a: seq<Cell>, b: seq<Cell>)
    requires |a| > 0 && |b| > 0 && forall c :: c in a <==> c in b
    ensures BoundingBox(a) == BoundingBox(b)
  {
    BoundingBoxWithin(a, b);
    BoundingBoxWithin(b, a);
  }

  /** The box of more cells reaches at least as far on every edge. */
  lemma BoundingBoxWithin(a: seq<Cell>, b: seq<Cell>)
    requires |a| > 0 && |b| > 0 && forall c :: c in a ==> c in b
    ensures var x, y := BoundingBox(a), BoundingBox(b);
      y.top <= x.top && x.bottom <= y.bottom && y.left <= x.left && x.right <= y.right
  {
    var x := BoundingBox(a);
    var i1 :| 0 <= i1 < |a| && a[i1].row == x.top;
    var i2 :| 0 <= i2 < |a| && a[i2].row == x.bottom;
    var i3 :| 0 <= i3 < |a| && a[i3].col == x.left;
    var i4 :| 0 <= i4 < |a| && a[i4].col == x.right;
    assert a[i1] in a && a[i2] in a && a[i3] in a && a[i4] in a;
  }

  /** Lines 69-76 see a component only through its set of cells. */
  lemma MaterializeTableOfSameCells<V(!new)>(g: Grid<V>, a: seq<Cell>, b: seq<Cell>)
    requires IsRectangular(g) && |a| > 0 && |b| > 0
    requires forall c :: c in a ==> InGrid(g, c)
    requires forall c :: c in a <==> c in b
    ensures MaterializeTable(g, a) == MaterializeTable(g, b)
  {
    BoundingBoxOfSameCells(a, b);
  }

  /** The header and footer steps only keep rows of the table. */
  lemma HeaderFooterRectangular<V>(cleaned: Grid<V>)
    requires IsRectangular(cleaned)
    ensures IsRectangular(CleanFooter(CleanHeader(cleaned)))
  {
    var r := CleanFooter(CleanHeader(cleaned));
    assert forall i :: 0 <= i < |r| ==> r[i] in cleaned;
    RowsOfRectangular(r, cleaned);
  }

  /**
   * A component with an occupied cell gives a table with at least one row, all of one
   * positive width, none of them entirely empty.
   */
  lemma MaterializedTableShape<V(!new)>(g: Grid<V>, cells: seq<Cell>, k: int)
    requires IsRectangular(g) && |cells| > 0 && forall c :: c in cells ==> InGrid(g, c)
    requires 0 <= k < |cells| && InGrid(g, cells[k]) && g[cells[k].row][cells[k].col].Some?
    ensures var t := MaterializeTable(g, cells);
      && |t| > 0 && Width(t) > 0
      && forall i :: 0 <= i < |t| ==> RowHasValue(t[i])
  {
    BoxInGrid(g, cells);
    var s := Slice(g, BoundingBox(cells));
    assert cells[k] in cells;
    SliceKeepsValue(g, BoundingBox(cells), cells[k].row, cells[k].col);
    DropEmptyLeavesNoEmptyLine(s);
    HeaderFooterKeepRows(DropEmpty(s));
  }

  /** Cell (row, col) of the grid sits at (row - top, col - left) in the slice. */
  lemma SliceCell<V>(g: Grid<V>, b: Box, row: int, col: int)
    requires IsRectangular(g) && 0 <= b.top <= b.bottom < |g| && 0 <= b.left <= b.right < Width(g)
    requires b.top <= row <= b.bottom && b.left <= col <= b.right
    ensures Slice(g, b)[row - b.top][col - b.left] == g[row][col]
  {
    var i, j := row - b.top, col - b.left;
    assert Slice(g, b)[i][j] == g[b.top + i][b.left + j];
  }

  /** A slice holding an occupied cell keeps a row and a column after line 73. */
  lemma SliceKeepsValue<V(!new)>(g: Grid<V>, b: Box, row: int, col: int)
    requires IsRectangular(g) && 0 <= b.top <= b.bottom < |g| && 0 <= b.left <= b.right < Width(g)
    requires b.top <= row <= b.bottom && b.left <= col <= b.right && g[row][col].Some?
    ensures |DropEmpty(Slice(g, b))| > 0 && Width(DropEmpty(Slice(g, b))) > 0
  {
    SliceCell(g, b, row, col);
    DropEmptyKeepsValue(Slice(g, b), row - b.top, col - b.left);
  }

  /** The header and footer steps keep a non-empty table non-empty and only keep its rows. */
  lemma HeaderFooterKeepRows<V>(cleaned: Grid<V>)
    requires IsRectangular(cleaned) && |cleaned| > 0 && Width(cleaned) > 0
    requires forall i :: 0 <= i < |cleaned| ==> RowHasValue(cleaned[i])
    ensures var t := CleanFooter(CleanHeader(cleaned));
      && |t| > 0 && Width(t) > 0
      && forall i :: 0 <= i < |t| ==> RowHasValue(t[i])
  {
    var t := CleanFooter(CleanHeader(cleaned));
    assert forall i :: 0 <= i < |t| ==> t[i] in cleaned;
    RowsOfRectangular(t, cleaned);
    forall i | 0 <= i < |t|
      ensures RowHasValue(t[i])
    {
      var j :| 0 <= j < |cleaned| && cleaned[j] == t[i];
    }
  }

  /** A lone occupied cell comes back as a one-by-one table holding exactly its value. */
  lemma SingleCellTable<V(!new)>(g: Grid<V>, c: Cell)
    requires IsRectangular(g) && InGrid(g, c) && g[c.row][c.col].Some?
    ensures MaterializeTable(g, [c]) == [[g[c.row][c.col]]]
  {
    var v := g[c.row][c.col];
    SingleCellSlice(g, c);
    SingleValueKept(v);
    SingleRowClean([[v]]);
  }

  lemma SingleCellSlice<V>(g: Grid<V>, c: Cell)
    requires IsRectangular(g) && InGrid(g, c)
    ensures var b := BoundingBox([c]);
      && 0 <= b.top <= b.bottom < |g| && 0 <= b.left <= b.right < Width(g)
      && Slice(g, b) == [[g[c.row][c.col]]]
  {
    var box := BoundingBox([c]);
    assert c in [c];
    assert box == Box(c.row, c.col, c.row, c.col);
    var v := g[c.row][c.col];
    var s := Slice(g, box);
    assert |s| == 1 && |s[0]| == 1 && s[0][0] == v;
    assert s[0] == [v];
  }

  lemma SingleValueKept<V(!new)>(v: Option<V>)
    requires v.Some?
    ensures DropEmpty([[v]]) == [[v]]
  {
    var s := [[v]];
    var rows := DropEmptyRows(s);
    assert s[0][0] == v;
    assert RowHasValue(s[0]);
    assert s[0] in rows;
    assert rows == [[v]];
    assert ColumnHasValue(rows, 0);
    assert KeptColumns(rows, 0) == [];
    assert KeptColumns(rows, 1) == [0];
    var cleaned := DropEmptyColumns(rows);
    assert DropEmpty(s) == cleaned;
    assert |cleaned| == 1 && |cleaned[0]| == 1 && cleaned[0][0] == v;
    assert cleaned[0] == [v];
  }

  lemma SingleRowClean<T>(t: seq<T>)
    requires |t| == 1
    ensures CleanFooter(CleanHeader(t)) == t
  {
    CleanHeaderShort(t);
    DedupOfDistinct(t);
    CleanFooterShort(t);
  }
}
