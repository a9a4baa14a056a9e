/**
 * The worksheet as the disjoint-table extractor sees it: a rectangular grid of optional cell
 * values (0-based row and column), the 4-neighbourhood used by its flood fill, paths and
 * connectivity over a set of open cells, and the merged ranges that are expanded before the
 * occupancy of each cell is decided (autoexcel/analysis.py).
 */
module Grid {
  import opened Wrappers

  datatype Cell = Cell(row: int, col: int)

  /** Two cells share an edge; diagonal cells are not neighbours. */
  predicate Adjacent(a: Cell, b: Cell) {
    (a.row == b.row && (a.col - b.col == 1 || b.col - a.col == 1)) ||
    (a.col == b.col && (a.row - b.row == 1 || b.row - a.row == 1))
  }

  /** The four cells the flood fill pushes after visiting `c`, in its order: down, up, right, left. */
  function Neighbours(c: Cell): (ns: seq<Cell>)
    ensures |ns| == 4
    ensures forall d :: d in ns <==> Adjacent(c, d)
  {
    [Cell(c.row + 1, c.col), Cell(c.row - 1, c.col), Cell(c.row, c.col + 1), Cell(c.row, c.col - 1)]
  }

  /** Row-major order: the order in which the scan meets cells. */
  predicate RowMajorBefore(a: Cell, b: Cell) {
    a.row < b.row || (a.row == b.row && a.col < b.col)
  }

  /** The i-th move of `p` crosses one edge. */
  ghost predicate Step(p: seq<Cell>, i: int)
    requires 0 <= i < |p| - 1
  {
    Adjacent(p[i], p[i + 1])
  }

  /** `p` walks through cells of `open` only, one edge at a time. */
  ghost predicate IsPath(open: set<Cell>, p: seq<Cell>) {
    && |p| > 0
    && (forall i :: 0 <= i < |p| ==> p[i] in open)
    && (forall i :: 0 <= i < |p| - 1 ==> Step(p, i))
  }

  /** `c` is 4-connected to `s` through cells of `open`. */
  ghost predicate Reachable(open: set<Cell>, s: Cell, c: Cell) {
    exists p :: IsPath(open, p) && p[0] == s && p[|p| - 1] == c
  }

  /** No edge leaves `part` into another cell of `open`. */
  ghost predicate Closed(open: set<Cell>, part: set<Cell>) {
    forall a, b :: a in part && b in open && Adjacent(a, b) ==> b in part
  }

  lemma PathExtend(open: set<Cell>, p: seq<Cell>, c: Cell)
    requires IsPath(open, p) && c in open && Adjacent(p[|p| - 1], c)
    ensures IsPath(open, p + [c]) && (p + [c])[0] == p[0] && (p + [c])[|p|] == c
  {
    var p' := p + [c];
    forall i | 0 <= i < |p'| - 1
      ensures Step(p', i)
    {
      if i < |p| - 1 {
        assert Step(p, i);
      }
    }
  }

  lemma ReachableSelf(open: set<Cell>, s: Cell)
    requires s in open
    ensures Reachable(open, s, s)
  {
    assert IsPath(open, [s]);
  }

  lemma ReachableEnds(open: set<Cell>, s: Cell, c: Cell)
    requires Reachable(open, s, c)
    ensures s in open && c in open
  {
  }

  /** One more step through an open neighbour keeps a cell reachable. */
  lemma ReachableStep(open: set<Cell>, s: Cell, a: Cell, b: Cell)
    requires Reachable(open, s, a) && b in open && Adjacent(a, b)
    ensures Reachable(open, s, b)
  {
    var p :| IsPath(open, p) && p[0] == s && p[|p| - 1] == a;
    PathExtend(open, p, b);
  }

  /** Connection is symmetric: a path walked backwards is a path. */
  lemma ReachableSymmetric(open: set<Cell>, a: Cell, b: Cell)
    requires Reachable(open, a, b)
    ensures Reachable(open, b, a)
  {
    var p :| IsPath(open, p) && p[0] == a && p[|p| - 1] == b;
    var q := seq(|p|, i requires 0 <= i < |p| => p[|p| - 1 - i]);
    forall i | 0 <= i < |q| - 1
      ensures Step(q, i)
    {
      assert Step(p, |p| - 2 - i);
    }
    assert IsPath(open, q) && q[0] == b && q[|q| - 1] == a;
  }

  /** A path that is open in a smaller set is open in a larger one. */
  lemma ReachableMonotone(small: set<Cell>, large: set<Cell>, s: Cell, c: Cell)
    requires small <= large && Reachable(small, s, c)
    ensures Reachable(large, s, c)
  {
    var p :| IsPath(small, p) && p[0] == s && p[|p| - 1] == c;
    assert IsPath(large, p);
  }

  lemma {:induction false} PathStaysInClosed(open: set<Cell>, part: set<Cell>, p: seq<Cell>, k: int)
    requires IsPath(open, p) && p[0] in part && Closed(open, part) && 0 <= k < |p|
    ensures p[k] in part
    decreases k
  {
    if k > 0 {
      PathStaysInClosed(open, part, p, k - 1);
      assert Step(p, k - 1);
    }
  }

  /** A closed part holding `s` holds everything reachable from `s`. */
  lemma ClosedContainsReachable(open: set<Cell>, part: set<Cell>, s: Cell, c: Cell)
    requires s in part && Closed(open, part) && Reachable(open, s, c)
    ensures c in part
  {
    var p :| IsPath(open, p) && p[0] == s && p[|p| - 1] == c;
    PathStaysInClosed(open, part, p, |p| - 1);
  }

  /**
   * Removing a closed part of `open` does not cut any path from a cell outside it: the
   * component of `s` in `open` and in `open - part` are the same.
   */
  lemma ReachableAvoidsClosed(open: set<Cell>, part: set<Cell>, s: Cell, c: Cell)
    requires Closed(open, part) && s !in part
    ensures Reachable(open - part, s, c) <==> Reachable(open, s, c)
  {
    if Reachable(open - part, s, c) {
      ReachableMonotone(open - part, open, s, c);
    }
    if Reachable(open, s, c) {
      var p :| IsPath(open, p) && p[0] == s && p[|p| - 1] == c;
      forall k | 0 <= k < |p|
        ensures p[k] !in part
      {
        PathAvoidsClosed(open, part, p, k);
      }
      assert forall i :: 0 <= i < |p| - 1 ==> Step(p, i);
      assert IsPath(open - part, p);
    }
  }

  lemma {:induction false} PathAvoidsClosed(open: set<Cell>, part: set<Cell>, p: seq<Cell>, k: int)
    requires IsPath(open, p) && p[0] !in part && Closed(open, part) && 0 <= k < |p|
    ensures p[k] !in part
    decreases k
  {
    if k > 0 {
      PathAvoidsClosed(open, part, p, k - 1);
      assert Step(p, k - 1);
      assert Adjacent(p[k], p[k - 1]);
    }
  }

  /**
   * Diagonal cells are not linked: with only a cell and one of its diagonal neighbours open,
   * neither reaches the other.
   */
  lemma DiagonalCellsNotConnected(a: Cell, d: Cell)
    requires (d.row == a.row + 1 || d.row == a.row - 1) && (d.col == a.col + 1 || d.col == a.col - 1)
    ensures !Reachable({a, d}, a, d)
  {
    var open := {a, d};
    if Reachable(open, a, d) {
      var p :| IsPath(open, p) && p[0] == a && p[|p| - 1] == d;
      assert Closed(open, {a});
      PathStaysInClosed(open, {a}, p, |p| - 1);
    }
  }

  /** Two open cells sharing an edge are connected. */
  lemma EdgeNeighboursConnected(a: Cell, b: Cell)
    requires Adjacent(a, b)
    ensures Reachable({a, b}, a, b)
  {
    assert Step([a, b], 0);
    assert IsPath({a, b}, [a, b]);
  }

  // ----- grids of optional values -----

  type Grid<V> = seq<seq<Option<V>>>

  function Width<V>(g: Grid<V>): nat {
    if |g| == 0 then 0 else |g[0]|
  }

  predicate IsRectangular<V>(g: Grid<V>) {
    forall i :: 0 <= i < |g| ==> |g[i]| == Width(g)
  }

  predicate InGrid<V>(g: Grid<V>, c: Cell) {
    0 <= c.row < |g| && 0 <= c.col < Width(g)
  }

  /** The occupancy mask as a set: the cells whose value is present (`df.notna()`). */
  ghost function Occupied<V>(g: Grid<V>): (occ: set<Cell>)
    requires IsRectangular(g)
    ensures forall c :: c in occ <==> InGrid(g, c) && g[c.row][c.col].Some?
  {
    set i, j | 0 <= i < |g| && 0 <= j < Width(g) && g[i][j].Some? :: Cell(i, j)
  }

  // ----- merged ranges -----

  /** Worksheet coordinates are 1-based. */
  type Coord = x: int | x >= 1 witness 1

  /** `sheet.merged_cells.ranges` entry: an inclusive, 1-based rectangle. */
  datatype MergedRange = MergedRange(minRow: Coord, minCol: Coord, maxRow: Coord, maxCol: Coord)

  /**
   * The cells written by `df.iloc[min_row-1:max_row, min_col-1:max_col] = value`: 0-based rows
   * min_row-1 .. max_row-1 and columns min_col-1 .. max_col-1 (clipped to the grid by iloc).
   */
  predicate Covers(m: MergedRange, c: Cell) {
    m.minRow - 1 <= c.row < m.maxRow && m.minCol - 1 <= c.col < m.maxCol
  }

  /**
   * `sheet.cell(min_row, min_col).value`, read from the worksheet itself (never from the frame
   * being rewritten); a coordinate beyond the used area is an empty cell.
   */
  function TopLeft<V>(sheet: Grid<V>, m: MergedRange): (v: Option<V>)
    requires IsRectangular(sheet)
    ensures InGrid(sheet, Cell(m.minRow - 1, m.minCol - 1)) ==> v == sheet[m.minRow - 1][m.minCol - 1]
    ensures !InGrid(sheet, Cell(m.minRow - 1, m.minCol - 1)) ==> v.None?
  {
    if m.minRow - 1 < |sheet| && m.minCol - 1 < Width(sheet) then sheet[m.minRow - 1][m.minCol - 1]
    else None
  }

  /**
   * The value a cell holds once the ranges have been written in order: the top-left value of
   * the last range that covers it, or its own value when no range does.
   */
  function ExpandedAt<V>(sheet: Grid<V>, merges: seq<MergedRange>, c: Cell): Option<V>
    requires IsRectangular(sheet) && InGrid(sheet, c)
    decreases |merges|
  {
    if |merges| == 0 then sheet[c.row][c.col]
    else if Covers(merges[|merges| - 1], c) then TopLeft(sheet, merges[|merges| - 1])
    else ExpandedAt(sheet, merges[..|merges| - 1], c)
  }

  /** The last range that covers a cell decides its value: later ranges overwrite earlier ones. */
  lemma {:induction false} ExpandedAtLastCover<V>(sheet: Grid<V>, merges: seq<MergedRange>, k: int, c: Cell)
    requires IsRectangular(sheet) && InGrid(sheet, c)
    requires 0 <= k < |merges| && Covers(merges[k], c) && LastCover(merges, k, c)
    ensures ExpandedAt(sheet, merges, c) == TopLeft(sheet, merges[k])
    decreases |merges|
  {
    var n := |merges| - 1;
    if k < n {
      assert !Covers(merges[n], c);
      var front := merges[..n];
      assert front[k] == merges[k];
      assert LastCover(front, k, c) by {
        forall l | 0 <= l < |front| && k < l
          ensures !Covers(front[l], c)
        {
          assert front[l] == merges[l];
        }
      }
      ExpandedAtLastCover(sheet, front, k, c);
    }
  }

  /** A cell outside every merged range keeps the value it had in the worksheet. */
  lemma {:induction false} UnmergedCellUnchanged<V>(sheet: Grid<V>, merges: seq<MergedRange>, c: Cell)
    requires IsRectangular(sheet) && InGrid(sheet, c)
    requires forall k :: 0 <= k < |merges| ==> !Covers(merges[k], c)
    ensures ExpandedAt(sheet, merges, c) == sheet[c.row][c.col]
    decreases |merges|
  {
    if |merges| > 0 {
      var front := merges[..|merges| - 1];
      assert forall k :: 0 <= k < |front| ==> front[k] == merges[k];
      UnmergedCellUnchanged(sheet, front, c);
    }
  }

  /** No range after the k-th covers `c`. */
  predicate LastCover(merges: seq<MergedRange>, k: int, c: Cell) {
    forall l :: 0 <= l < |merges| && k < l ==> !Covers(merges[l], c)
  }

  /** The whole grid after merge expansion. */
  function Expand<V>(sheet: Grid<V>, merges: seq<MergedRange>): (e: Grid<V>)
    requires IsRectangular(sheet)
    ensures |e| == |sheet| && Width(e) == Width(sheet) && IsRectangular(e)
    ensures forall i, j :: 0 <= i < |e| && 0 <= j < Width(e) ==> e[i][j] == ExpandedAt(sheet, merges, Cell(i, j))
  {
    seq(|sheet|, i requires 0 <= i < |sheet| =>
      seq(Width(sheet), j requires 0 <= j < Width(sheet) => ExpandedAt(sheet, merges, Cell(i, j))))
  }

  /** Merged ranges of one worksheet never share a cell. */
  predicate Disjoint(a: MergedRange, b: MergedRange) {
    a.maxRow < b.minRow || b.maxRow < a.minRow || a.maxCol < b.minCol || b.maxCol < a.minCol
  }

  predicate PairwiseDisjoint(merges: seq<MergedRange>) {
    forall i, j :: 0 <= i < j < |merges| ==> Disjoint(merges[i], merges[j])
  }

  /** After expansion every cell of a merged range holds the range's top-left value, even when that is empty. */
  lemma MergedCellTakesTopLeft<V>(sheet: Grid<V>, merges: seq<MergedRange>, k: int, c: Cell)
    requires IsRectangular(sheet) && InGrid(sheet, c) && PairwiseDisjoint(merges)
    requires 0 <= k < |merges| && Covers(merges[k], c)
    ensures ExpandedAt(sheet, merges, c) == TopLeft(sheet, merges[k])
  {
    forall l | k < l < |merges|
      ensures !Covers(merges[l], c)
    {
      assert Disjoint(merges[k], merges[l]);
    }
    ExpandedAtLastCover(sheet, merges, k, c);
  }
}
