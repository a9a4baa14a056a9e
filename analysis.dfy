/**
 * `extract_disjoint_tables` (autoexcel/analysis.py:17-78) on a grid that has already been read
 * from the worksheet: the frame `df` is copied from the rows, the merged ranges are written
 * into it, the occupancy mask and the `visited` frame are built, and a row-major scan starts
 * the breadth-first `find_table` at every occupied cell not yet visited. Each component is
 * turned into a table by `MaterializeTable`.
 */
module Analysis {
  import opened Wrappers
  import opened Seqs
  import opened Grid
  import opened Tables

  /** The frame's values as a grid of rows. */
  function Contents<V>(a: array2<Option<V>>): (g: Grid<V>)
    reads a
    ensures |g| == a.Length0 && IsRectangular(g)
    ensures |g| > 0 ==> Width(g) == a.Length1
    ensures forall i, j :: 0 <= i < a.Length0 && 0 <= j < a.Length1 ==> g[i][j] == a[i, j]
  {
    seq(a.Length0, i requires 0 <= i < a.Length0 reads a =>
      seq(a.Length1, j requires 0 <= j < a.Length1 reads a => a[i, j]))
  }

  /** Two rectangular grids of one shape that agree cell by cell are the same grid. */
  lemma SameGrid<V>(g: Grid<V>, h: Grid<V>)
    requires IsRectangular(g) && IsRectangular(h) && |g| == |h| && Width(g) == Width(h)
    requires forall i, j :: 0 <= i < |g| && 0 <= j < Width(g) ==> g[i][j] == h[i][j]
    ensures g == h
  {
    forall i | 0 <= i < |g|
      ensures g[i] == h[i]
    {
      assert |g[i]| == |h[i]|;
    }
  }

  /**
   * Lines 26-28: each range in turn overwrites its rectangle, clipped to the frame, with the
   * value of its top-left cell in the worksheet; a later range overwrites an earlier one.
   */
  method ExpandMergedCells<V>(df: array2<Option<V>>, sheet: Grid<V>, merges: seq<MergedRange>)
    requires IsRectangular(sheet) && df.Length0 == |sheet| && df.Length1 == Width(sheet)
    requires forall i, j :: 0 <= i < df.Length0 && 0 <= j < df.Length1 ==> df[i, j] == sheet[i][j]
    modifies df
    ensures forall i, j :: 0 <= i < df.Length0 && 0 <= j < df.Length1 ==>
      df[i, j] == ExpandedAt(sheet, merges, Cell(i, j))
  {
    for k := 0 to |merges|
      invariant forall i, j :: 0 <= i < df.Length0 && 0 <= j < df.Length1 ==>
        df[i, j] == ExpandedAt(sheet, merges[..k], Cell(i, j))
    {
      var m := merges[k];
      var value := TopLeft(sheet, m);
      var i := m.minRow - 1;
      while i < m.maxRow && i < df.Length0
        invariant m.minRow - 1 <= i
        invariant forall r, c :: 0 <= r < df.Length0 && 0 <= c < df.Length1 ==>
          df[r, c] == if Covers(m, Cell(r, c)) && r < i then value else ExpandedAt(sheet, merges[..k], Cell(r, c))
        decreases df.Length0 - i
      {
        var j := m.minCol - 1;
        while j < m.maxCol && j < df.Length1
          invariant m.minCol - 1 <= j
          invariant forall r, c :: 0 <= r < df.Length0 && 0 <= c < df.Length1 ==>
            df[r, c] == if Covers(m, Cell(r, c)) && (r < i || (r == i && c < j)) then value
                        else ExpandedAt(sheet, merges[..k], Cell(r, c))
          decreases df.Length1 - j
        {
          df[i, j] := value;
          j := j + 1;
        }
        i := i + 1;
      }
      assert merges[..k + 1][..k] == merges[..k];
    }
    assert merges[..|merges|] == merges;
  }

  /** The cells `find_table` may still enter: in the frame, occupied and not yet visited. */
  ghost function OpenCells(mask: array2<bool>, visited: array2<bool>): (open: set<Cell>)
    reads mask, visited
    requires mask.Length0 == visited.Length0 && mask.Length1 == visited.Length1
    ensures forall c :: c in open <==>
      0 <= c.row < mask.Length0 && 0 <= c.col < mask.Length1 && mask[c.row, c.col] && !visited[c.row, c.col]
  {
    set i, j | 0 <= i < mask.Length0 && 0 <= j < mask.Length1 && mask[i, j] && !visited[i, j] :: Cell(i, j)
  }

  /** Every cell next to a found cell that is still open has been found or is waiting in the queue. */
  ghost predicate Frontier(open: set<Cell>, seen: set<Cell>, q: seq<Cell>) {
    forall a, b :: a in seen && b in open && Adjacent(a, b) ==> b in seen || b in q
  }

  /** Every queued cell is the start cell or a neighbour of a found cell. */
  ghost predicate Sourced(seen: set<Cell>, start: Cell, q: seq<Cell>) {
    forall k :: 0 <= k < |q| ==> q[k] == start || exists a :: a in seen && Adjacent(a, q[k])
  }

  /** Popping a cell that is closed or already found loses no frontier cell. */
  lemma FrontierPop(open: set<Cell>, seen: set<Cell>, q: seq<Cell>)
    requires Frontier(open, seen, q) && |q| > 0 && (q[0] !in open || q[0] in seen)
    ensures Frontier(open, seen, q[1..])
  {
    forall a, b | a in seen && b in open && Adjacent(a, b) && b !in seen
      ensures b in q[1..]
    {
      assert b in q && b != q[0];
      var k :| 0 <= k < |q| && q[k] == b;
      assert q[1..][k - 1] == b;
    }
  }

  /** Finding the popped cell and queueing its neighbours keeps the frontier. */
  lemma FrontierVisit(open: set<Cell>, seen: set<Cell>, q: seq<Cell>)
    requires Frontier(open, seen, q) && |q| > 0
    ensures Frontier(open, seen + {q[0]}, q[1..] + Neighbours(q[0]))
  {
    var q' := q[1..] + Neighbours(q[0]);
    forall a, b | a in seen + {q[0]} && b in open && Adjacent(a, b) && b !in seen + {q[0]}
      ensures b in q'
    {
      if a == q[0] {
        assert b in Neighbours(q[0]);
        var k :| 0 <= k < 4 && Neighbours(q[0])[k] == b;
        assert q'[|q| - 1 + k] == b;
      } else {
        var k :| 0 <= k < |q| && q[k] == b;
        assert q'[k - 1] == b;
      }
    }
  }

  lemma SourcedPop(seen: set<Cell>, start: Cell, q: seq<Cell>)
    requires Sourced(seen, start, q) && |q| > 0
    ensures Sourced(seen, start, q[1..])
  {
    forall k | 0 <= k < |q| - 1
      ensures q[1..][k] == start || exists a :: a in seen && Adjacent(a, q[1..][k])
    {
      assert q[1..][k] == q[k + 1];
    }
  }

  lemma SourcedVisit(seen: set<Cell>, start: Cell, q: seq<Cell>)
    requires Sourced(seen, start, q) && |q| > 0
    ensures Sourced(seen + {q[0]}, start, q[1..] + Neighbours(q[0]))
  {
    var q' := q[1..] + Neighbours(q[0]);
    forall k | 0 <= k < |q'|
      ensures q'[k] == start || exists a :: a in seen + {q[0]} && Adjacent(a, q'[k])
    {
      if k < |q| - 1 {
        assert q'[k] == q[k + 1];
        if q'[k] != start {
          var a :| a in seen && Adjacent(a, q[k + 1]);
          assert a in seen + {q[0]};
        }
      } else {
        assert q'[k] == Neighbours(q[0])[k - (|q| - 1)];
        assert Adjacent(q[0], q'[k]);
      }
    }
  }

  /** What the fill knows between two pops of its queue. */
  ghost predicate BfsState(open: set<Cell>, start: Cell, seen: set<Cell>, tableCells: seq<Cell>, q: seq<Cell>) {
    && (forall c :: c in seen <==> c in tableCells)
    && seen <= open
    && NoDup(tableCells)
    && (forall c :: c in tableCells ==> Reachable(open, start, c))
    && Sourced(seen, start, q)
    && Frontier(open, seen, q)
    && (start in open ==> start in seen || start in q)
    && (|tableCells| > 0 ==> tableCells[0] == start)
    && (|tableCells| == 0 ==> q == [start] || q == [])
  }

  /** Taking an open cell not found yet off the queue: it is found and its neighbours are queued. */
  lemma BfsVisit(open: set<Cell>, start: Cell, seen: set<Cell>, tableCells: seq<Cell>, q: seq<Cell>)
    requires BfsState(open, start, seen, tableCells, q)
    requires |q| > 0 && q[0] in open && q[0] !in seen
    ensures BfsState(open, start, seen + {q[0]}, tableCells + [q[0]], q[1..] + Neighbours(q[0]))
  {
    var cell := q[0];
    if cell == start {
      ReachableSelf(open, start);
    } else {
      var a :| a in seen && Adjacent(a, cell);
      ReachableStep(open, start, a, cell);
    }
    FrontierVisit(open, seen, q);
    SourcedVisit(seen, start, q);
    NoDupSnoc(tableCells, cell);
  }

  /** Taking a closed or already found cell off the queue changes nothing else. */
  lemma BfsPop(open: set<Cell>, start: Cell, seen: set<Cell>, tableCells: seq<Cell>, q: seq<Cell>)
    requires BfsState(open, start, seen, tableCells, q)
    requires |q| > 0 && (q[0] !in open || q[0] in seen)
    ensures BfsState(open, start, seen, tableCells, q[1..])
  {
    FrontierPop(open, seen, q);
    SourcedPop(seen, start, q);
  }

  /**
   * `find_table` (lines 38-60): a queue seeded with the start cell; a popped cell that is in the
   * frame, occupied and unvisited is marked visited, recorded, and its four neighbours are
   * pushed whatever they hold. The result is the start cell's 4-connected component among the
   * cells open at the call, without repetitions, beginning with the start cell; exactly those
   * cells become visited.
   */
  method FindTable(mask: array2<bool>, visited: array2<bool>, start: Cell) returns (tableCells: seq<Cell>)
    requires mask != visited && mask.Length0 == visited.Length0 && mask.Length1 == visited.Length1
    modifies visited
    ensures NoDup(tableCells)
    ensures forall c :: c in tableCells ==> c in old(OpenCells(mask, visited))
    ensures forall c :: c in tableCells <==> Reachable(old(OpenCells(mask, visited)), start, c)
    ensures start in old(OpenCells(mask, visited)) ==> |tableCells| > 0 && tableCells[0] == start
    ensures start !in old(OpenCells(mask, visited)) ==> tableCells == []
    ensures forall i, j :: 0 <= i < visited.Length0 && 0 <= j < visited.Length1 ==>
      visited[i, j] == (old(visited[i, j]) || Cell(i, j) in tableCells)
  {
    ghost var open := OpenCells(mask, visited);
    ghost var seen: set<Cell> := {};
    var q := [start];
    tableCells := [];
    while |q| > 0
      invariant BfsState(open, start, seen, tableCells, q)
      invariant forall i, j :: 0 <= i < visited.Length0 && 0 <= j < visited.Length1 ==>
        visited[i, j] == (old(visited[i, j]) || Cell(i, j) in seen)
      decreases open - seen, |q|
    {
      var cell := q[0];
      ghost var q0 := q;
      q := q[1..];
      if 0 <= cell.row < mask.Length0 && 0 <= cell.col < mask.Length1
         && mask[cell.row, cell.col] && !visited[cell.row, cell.col]
      {
        assert cell in open && cell !in seen;
        BfsVisit(open, start, seen, tableCells, q0);
        visited[cell.row, cell.col] := true;
        tableCells := tableCells + [cell];
        seen := seen + {cell};
        q := q + Neighbours(cell);
      } else {
        assert cell !in open || cell in seen;
        BfsPop(open, start, seen, tableCells, q0);
      }
    }
    assert Closed(open, seen);
    forall c | Reachable(open, start, c)
      ensures c in tableCells
    {
      ReachableEnds(open, start, c);
      ClosedContainsReachable(open, seen, start, c);
    }
  }

  /** A component of `occ`: its first cell's 4-connected component, listed without repetitions. */
  ghost predicate IsComponent(occ: set<Cell>, comp: seq<Cell>) {
    && |comp| > 0
    && NoDup(comp)
    && (forall c :: c in comp ==> c in occ)
    && (forall c :: c in comp <==> Reachable(occ, comp[0], c))
    && (forall c :: c in comp ==> c == comp[0] || RowMajorBefore(comp[0], c))
  }

  /** The cells of all components found so far: the cells marked visited. */
  ghost function CellsOf(comps: seq<seq<Cell>>): (cs: set<Cell>)
    ensures forall c :: c in cs <==> exists k :: 0 <= k < |comps| && c in comps[k]
  {
    if |comps| == 0 then {}
    else
      var front, last := comps[..|comps| - 1], comps[|comps| - 1];
      assert forall k :: 0 <= k < |front| ==> front[k] == comps[k];
      CellsOf(front) + (set c | c in last)
  }

  lemma CellsOfSnoc(comps: seq<seq<Cell>>, cells: seq<Cell>)
    ensures CellsOf(comps + [cells]) == CellsOf(comps) + (set c | c in cells)
  {
    assert (comps + [cells])[..|comps|] == comps;
  }

  ghost predicate AllComponents(occ: set<Cell>, comps: seq<seq<Cell>>) {
    forall k :: 0 <= k < |comps| ==> IsComponent(occ, comps[k])
  }

  ghost predicate FirstsInOrder(comps: seq<seq<Cell>>)
    requires forall k :: 0 <= k < |comps| ==> |comps[k]| > 0
  {
    forall k1, k2 :: 0 <= k1 < k2 < |comps| ==> RowMajorBefore(comps[k1][0], comps[k2][0])
  }

  ghost predicate PairwiseApart(comps: seq<seq<Cell>>) {
    forall k1, k2, c :: 0 <= k1 < k2 < |comps| && c in comps[k1] ==> c !in comps[k2]
  }

  /**
   * The cell sets the scan finds for the occupied cells `occ`: components, each starting at its
   * row-major least cell, pairwise disjoint, in the row-major order of their first cells, and
   * together exactly the occupied cells.
   */
  ghost predicate IsComponentDecomposition(occ: set<Cell>, comps: seq<seq<Cell>>) {
    && AllComponents(occ, comps)
    && FirstsInOrder(comps)
    && PairwiseApart(comps)
    && CellsOf(comps) == occ
  }

  /** A decomposition is empty exactly when there is no occupied cell. */
  lemma NoComponentsIffEmpty(occ: set<Cell>, comps: seq<seq<Cell>>)
    requires IsComponentDecomposition(occ, comps)
    ensures |comps| == 0 <==> occ == {}
  {
    if |comps| > 0 {
      assert comps[0][0] in CellsOf(comps);
    }
  }

  /** `x` is occupied and comes first, in row-major order, among the cells connected to it. */
  ghost predicate Leader(occ: set<Cell>, x: Cell) {
    x in occ && forall y :: Reachable(occ, x, y) ==> y == x || RowMajorBefore(x, y)
  }

  /** The first cell of every component of a decomposition is a leader. */
  lemma FirstIsLeader(occ: set<Cell>, comps: seq<seq<Cell>>, k: int)
    requires IsComponentDecomposition(occ, comps) && 0 <= k < |comps|
    ensures Leader(occ, comps[k][0])
  {
    assert IsComponent(occ, comps[k]);
    assert comps[k][0] in comps[k];
  }

  /** Every leader is the first cell of a component of a decomposition. */
  lemma LeaderIsFirst(occ: set<Cell>, comps: seq<seq<Cell>>, x: Cell)
    requires IsComponentDecomposition(occ, comps) && Leader(occ, x)
    ensures exists k :: 0 <= k < |comps| && comps[k][0] == x
  {
    assert x in CellsOf(comps);
    var k :| 0 <= k < |comps| && x in comps[k];
    assert IsComponent(occ, comps[k]);
    ReachableSymmetric(occ, comps[k][0], x);
  }

  ghost predicate RowMajorSorted(f: seq<Cell>) {
    forall i, j :: 0 <= i < j < |f| ==> RowMajorBefore(f[i], f[j])
  }

  /** `a` and `b` list the same cells. */
  ghost predicate SameCells(a: seq<Cell>, b: seq<Cell>) {
    forall x :: x in a <==> x in b
  }

  /** Two lists of cells, each strictly increasing in row-major order, listing the same cells are equal. */
  lemma {:induction false} RowMajorSortedUnique(f1: seq<Cell>, f2: seq<Cell>)
    requires RowMajorSorted(f1) && RowMajorSorted(f2)
    requires SameCells(f1, f2)
    ensures f1 == f2
  {
    HeadIn(f1);
    HeadIn(f2);
    if |f1| > 0 && |f2| > 0 {
      SortedSameLast(f1, f2);
      SortedSameFront(f1, f2);
      var g1, g2 := f1[..|f1| - 1], f2[..|f2| - 1];
      RowMajorSortedUnique(g1, g2);
      assert f1 == g1 + [f1[|f1| - 1]] && f2 == g2 + [f2[|f2| - 1]];
    }
  }

  /** The last cell of a sorted list is the row-major greatest, so two such lists of the same cells end alike. */
  lemma SortedSameLast(f1: seq<Cell>, f2: seq<Cell>)
    requires RowMajorSorted(f1) && RowMajorSorted(f2) && |f1| > 0 && |f2| > 0
    requires SameCells(f1, f2)
    ensures f1[|f1| - 1] == f2[|f2| - 1]
  {
    var a, b := f1[|f1| - 1], f2[|f2| - 1];
    assert a in f1 && b in f2;
    var i :| 0 <= i < |f2| && f2[i] == a;
    var j :| 0 <= j < |f1| && f1[j] == b;
  }

  /** With the same last cell, the rest of two sorted lists of the same cells list the same cells. */
  lemma SortedSameFront(f1: seq<Cell>, f2: seq<Cell>)
    requires RowMajorSorted(f1) && RowMajorSorted(f2) && |f1| > 0 && |f2| > 0
    requires SameCells(f1, f2)
    requires f1[|f1| - 1] == f2[|f2| - 1]
    ensures RowMajorSorted(f1[..|f1| - 1]) && RowMajorSorted(f2[..|f2| - 1])
    ensures SameCells(f1[..|f1| - 1], f2[..|f2| - 1])
  {
    var g1, g2 := f1[..|f1| - 1], f2[..|f2| - 1];
    forall x | x in g1
      ensures x in g2
    {
      FrontMember(f1, f2, x);
    }
    forall x | x in g2
      ensures x in g1
    {
      FrontMember(f2, f1, x);
    }
  }

  lemma FrontMember(f1: seq<Cell>, f2: seq<Cell>, x: Cell)
    requires RowMajorSorted(f1) && |f1| > 0 && |f2| > 0
    requires forall y :: y in f1 ==> y in f2
    requires f1[|f1| - 1] == f2[|f2| - 1] && x in f1[..|f1| - 1]
    ensures x in f2[..|f2| - 1]
  {
    var m :| 0 <= m < |f1| - 1 && f1[m] == x;
    assert RowMajorBefore(x, f1[|f1| - 1]);
    assert x in f1;
    var n :| 0 <= n < |f2| && f2[n] == x;
    assert f2[..|f2| - 1][n] == x;
  }

  /** The first cells of a decomposition's components, in order. */
  ghost function Firsts(occ: set<Cell>, comps: seq<seq<Cell>>): (fs: seq<Cell>)
    requires AllComponents(occ, comps)
    ensures |fs| == |comps| && forall k :: 0 <= k < |comps| ==> fs[k] == comps[k][0]
  {
    seq(|comps|, k requires 0 <= k < |comps| => assert IsComponent(occ, comps[k]); comps[k][0])
  }

  /**
   * The scan's result is unique whatever way it is found: two decompositions of the same
   * occupied cells have the same number of components, and the k-th components of both start
   * at the same cell and hold the same cells.
   */
  lemma DecompositionUnique(occ: set<Cell>, c1: seq<seq<Cell>>, c2: seq<seq<Cell>>)
    requires IsComponentDecomposition(occ, c1) && IsComponentDecomposition(occ, c2)
    ensures |c1| == |c2|
    ensures forall k :: 0 <= k < |c1| ==> c1[k][0] == c2[k][0] && forall c :: c in c1[k] <==> c in c2[k]
  {
    var f1, f2 := Firsts(occ, c1), Firsts(occ, c2);
    assert RowMajorSorted(f1) && RowMajorSorted(f2);
    forall x
      ensures x in f1 <==> x in f2
    {
      if x in f1 {
        var k :| 0 <= k < |f1| && f1[k] == x;
        FirstIsLeader(occ, c1, k);
        LeaderIsFirst(occ, c2, x);
        var l :| 0 <= l < |c2| && c2[l][0] == x;
        assert f2[l] == x;
      }
      if x in f2 {
        var k :| 0 <= k < |f2| && f2[k] == x;
        FirstIsLeader(occ, c2, k);
        LeaderIsFirst(occ, c1, x);
        var l :| 0 <= l < |c1| && c1[l][0] == x;
        assert f1[l] == x;
      }
    }
    RowMajorSortedUnique(f1, f2);
    forall k | 0 <= k < |c1|
      ensures c1[k][0] == c2[k][0] && forall c :: c in c1[k] <==> c in c2[k]
    {
      assert f1[k] == f2[k];
      assert IsComponent(occ, c1[k]) && IsComponent(occ, c2[k]);
    }
  }

  /**
   * Hence the tables are unique too: any two results the extraction contract admits for the
   * same merged grid are the same list of tables.
   */
  lemma TablesUnique<V(!new)>(g: Grid<V>, c1: seq<seq<Cell>>, c2: seq<seq<Cell>>, t1: seq<Grid<V>>, t2: seq<Grid<V>>)
    requires IsRectangular(g)
    requires IsComponentDecomposition(Occupied(g), c1) && IsComponentDecomposition(Occupied(g), c2)
    requires TablesOf(g, c1, t1) && TablesOf(g, c2, t2)
    ensures t1 == t2
  {
    DecompositionUnique(Occupied(g), c1, c2);
    forall k | 0 <= k < |t1|
      ensures t1[k] == t2[k]
    {
      MaterializeTableOfSameCells(g, c1[k], c2[k]);
    }
  }

  /**
   * What holds when the scan reaches cell `p`: the components found so far, their cells
   * closed under occupied neighbours, their first cells before `p`, and every occupied cell
   * before `p` among their cells.
   */
  ghost predicate Scanned(occ: set<Cell>, comps: seq<seq<Cell>>, p: Cell) {
    && AllComponents(occ, comps)
    && FirstsInOrder(comps)
    && PairwiseApart(comps)
    && FirstsBefore(comps, p)
    && CellsOf(comps) <= occ
    && Closed(occ, CellsOf(comps))
    && CoveredUpTo(occ, comps, p)
  }

  /** Every component found so far starts before `p`. */
  ghost predicate FirstsBefore(comps: seq<seq<Cell>>, p: Cell) {
    forall k :: 0 <= k < |comps| ==> |comps[k]| > 0 && RowMajorBefore(comps[k][0], p)
  }

  /** Every occupied cell before `p` belongs to a component found so far. */
  ghost predicate CoveredUpTo(occ: set<Cell>, comps: seq<seq<Cell>>, p: Cell) {
    forall c :: c in occ && RowMajorBefore(c, p) ==> c in CellsOf(comps)
  }

  /** A cell that is unoccupied or already visited is passed over. */
  lemma ScanSkip(occ: set<Cell>, comps: seq<seq<Cell>>, row: int, col: int)
    requires Scanned(occ, comps, Cell(row, col)) && (Cell(row, col) !in occ || Cell(row, col) in CellsOf(comps))
    ensures Scanned(occ, comps, Cell(row, col + 1))
  {
    var p, next := Cell(row, col), Cell(row, col + 1);
    forall k | 0 <= k < |comps|
      ensures RowMajorBefore(comps[k][0], next)
    {
      assert RowMajorBefore(comps[k][0], p);
    }
    forall c | c in occ && RowMajorBefore(c, next)
      ensures c in CellsOf(comps)
    {
      if c != p {
        assert RowMajorBefore(c, p);
      }
    }
  }

  /** The fill from the scan position finds a component whose first cell is its row-major least. */
  lemma NewComponent(occ: set<Cell>, seen: set<Cell>, p: Cell, cells: seq<Cell>)
    requires forall c :: c in occ && RowMajorBefore(c, p) ==> c in seen
    requires |cells| > 0 && cells[0] == p && NoDup(cells)
    requires forall c :: c in cells ==> c in occ && c !in seen
    requires forall c :: c in cells <==> Reachable(occ, p, c)
    ensures IsComponent(occ, cells)
  {
    forall c | c in cells
      ensures c == p || RowMajorBefore(p, c)
    {
      assert c in occ && c !in seen;
    }
  }

  /** Adding a whole component to a closed part keeps it closed. */
  lemma ClosedGrow(occ: set<Cell>, part: set<Cell>, p: Cell, cells: seq<Cell>)
    requires Closed(occ, part)
    requires forall c :: c in cells <==> Reachable(occ, p, c)
    ensures Closed(occ, part + (set c | c in cells))
  {
    var part' := part + (set c | c in cells);
    forall a, b | a in part' && b in occ && Adjacent(a, b)
      ensures b in part'
    {
      if a in cells {
        ReachableStep(occ, p, a, b);
      }
    }
  }

  lemma AllComponentsSnoc(occ: set<Cell>, comps: seq<seq<Cell>>, cells: seq<Cell>)
    requires AllComponents(occ, comps) && IsComponent(occ, cells)
    ensures AllComponents(occ, comps + [cells])
  {
    var comps' := comps + [cells];
    forall k | 0 <= k < |comps'|
      ensures IsComponent(occ, comps'[k])
    {
      if k < |comps| { assert comps'[k] == comps[k]; }
    }
  }

  /** A component whose first cell comes after every earlier first cell keeps the firsts in order. */
  lemma FirstsInOrderSnoc(comps: seq<seq<Cell>>, cells: seq<Cell>, p: Cell)
    requires forall k :: 0 <= k < |comps| ==> |comps[k]| > 0
    requires FirstsInOrder(comps) && (forall k :: 0 <= k < |comps| ==> RowMajorBefore(comps[k][0], p))
    requires |cells| > 0 && cells[0] == p
    ensures forall k :: 0 <= k < |comps + [cells]| ==> |(comps + [cells])[k]| > 0
    ensures FirstsInOrder(comps + [cells])
    ensures forall k :: 0 <= k < |comps + [cells]| ==> RowMajorBefore((comps + [cells])[k][0], Cell(p.row, p.col + 1))
  {
    var comps' := comps + [cells];
    forall k | 0 <= k < |comps'|
      ensures |comps'[k]| > 0 && RowMajorBefore(comps'[k][0], Cell(p.row, p.col + 1))
    {
      if k < |comps| { assert comps'[k] == comps[k]; }
    }
    forall k1, k2 | 0 <= k1 < k2 < |comps'|
      ensures RowMajorBefore(comps'[k1][0], comps'[k2][0])
    {
      assert comps'[k1] == comps[k1];
      if k2 < |comps| { assert comps'[k2] == comps[k2]; }
    }
  }

  /** A component with no visited cell is apart from every earlier one. */
  lemma PairwiseApartSnoc(comps: seq<seq<Cell>>, cells: seq<Cell>)
    requires PairwiseApart(comps) && forall c :: c in cells ==> c !in CellsOf(comps)
    ensures PairwiseApart(comps + [cells])
  {
    var comps' := comps + [cells];
    forall k1, k2, c | 0 <= k1 < k2 < |comps'| && c in comps'[k1]
      ensures c !in comps'[k2]
    {
      assert comps'[k1] == comps[k1];
      if k2 == |comps| {
        assert c in CellsOf(comps);
      } else {
        assert comps'[k2] == comps[k2];
      }
    }
  }

  /** A component found in what is left of the occupied cells is a component of them all. */
  lemma FoundComponentInFull(occ: set<Cell>, comps: seq<seq<Cell>>, p: Cell, cells: seq<Cell>)
    requires Scanned(occ, comps, p) && p in occ && p !in CellsOf(comps)
    requires forall c :: c in cells <==> Reachable(occ - CellsOf(comps), p, c)
    ensures forall c :: c in cells <==> Reachable(occ, p, c)
  {
    forall c
      ensures c in cells <==> Reachable(occ, p, c)
    {
      ReachableAvoidsClosed(occ, CellsOf(comps), p, c);
    }
  }

  /** Once the cell itself is covered, every occupied cell up to it is covered. */
  lemma ScannedPast(occ: set<Cell>, comps: seq<seq<Cell>>, p: Cell)
    requires forall c :: c in occ && RowMajorBefore(c, p) ==> c in CellsOf(comps)
    requires p in CellsOf(comps)
    ensures forall c :: c in occ && RowMajorBefore(c, Cell(p.row, p.col + 1)) ==> c in CellsOf(comps)
  {
    forall c | c in occ && RowMajorBefore(c, Cell(p.row, p.col + 1))
      ensures c in CellsOf(comps)
    {
      if c != p {
        assert RowMajorBefore(c, p);
      }
    }
  }

  lemma ScannedFrom(occ: set<Cell>, comps: seq<seq<Cell>>, p: Cell)
    requires AllComponents(occ, comps) && PairwiseApart(comps)
    requires FirstsBefore(comps, p) && FirstsInOrder(comps)
    requires CellsOf(comps) <= occ && Closed(occ, CellsOf(comps))
    requires CoveredUpTo(occ, comps, p)
    ensures Scanned(occ, comps, p)
  {
  }

  /** The component found from an occupied, unvisited cell joins the list. */
  lemma ScanFound(occ: set<Cell>, comps: seq<seq<Cell>>, row: int, col: int, cells: seq<Cell>)
    requires Scanned(occ, comps, Cell(row, col)) && Cell(row, col) in occ && Cell(row, col) !in CellsOf(comps)
    requires |cells| > 0 && cells[0] == Cell(row, col) && NoDup(cells)
    requires forall c :: c in cells ==> c in occ && c !in CellsOf(comps)
    requires forall c :: c in cells <==> Reachable(occ - CellsOf(comps), Cell(row, col), c)
    ensures Scanned(occ, comps + [cells], Cell(row, col + 1))
    ensures CellsOf(comps + [cells]) == CellsOf(comps) + (set c | c in cells)
  {
    var p := Cell(row, col);
    var comps' := comps + [cells];
    CellsOfSnoc(comps, cells);
    FoundComponents(occ, comps, p, cells);
    FoundClosed(occ, comps, p, cells);
    FoundInOrder(occ, comps, p, cells);
    FoundCovers(occ, comps, p, cells);
    ScannedFrom(occ, comps', Cell(row, col + 1));
  }

  lemma FoundComponents(occ: set<Cell>, comps: seq<seq<Cell>>, p: Cell, cells: seq<Cell>)
    requires Scanned(occ, comps, p) && p in occ && p !in CellsOf(comps)
    requires |cells| > 0 && cells[0] == p && NoDup(cells)
    requires forall c :: c in cells ==> c in occ && c !in CellsOf(comps)
    requires forall c :: c in cells <==> Reachable(occ - CellsOf(comps), p, c)
    ensures AllComponents(occ, comps + [cells])
  {
    FoundComponentInFull(occ, comps, p, cells);
    NewComponent(occ, CellsOf(comps), p, cells);
    AllComponentsSnoc(occ, comps, cells);
  }

  lemma FoundClosed(occ: set<Cell>, comps: seq<seq<Cell>>, p: Cell, cells: seq<Cell>)
    requires Scanned(occ, comps, p) && p in occ && p !in CellsOf(comps)
    requires forall c :: c in cells ==> c in occ
    requires forall c :: c in cells <==> Reachable(occ - CellsOf(comps), p, c)
    ensures CellsOf(comps + [cells]) <= occ && Closed(occ, CellsOf(comps + [cells]))
  {
    FoundComponentInFull(occ, comps, p, cells);
    ClosedGrow(occ, CellsOf(comps), p, cells);
    CellsOfSnoc(comps, cells);
  }

  lemma FoundInOrder(occ: set<Cell>, comps: seq<seq<Cell>>, p: Cell, cells: seq<Cell>)
    requires Scanned(occ, comps, p) && |cells| > 0 && cells[0] == p
    requires forall c :: c in cells ==> c in occ && c !in CellsOf(comps)
    ensures PairwiseApart(comps + [cells])
    ensures FirstsBefore(comps + [cells], Cell(p.row, p.col + 1)) && FirstsInOrder(comps + [cells])
  {
    PairwiseApartSnoc(comps, cells);
    FirstsInOrderSnoc(comps, cells, p);
  }

  lemma FoundCovers(occ: set<Cell>, comps: seq<seq<Cell>>, p: Cell, cells: seq<Cell>)
    requires Scanned(occ, comps, p) && |cells| > 0 && cells[0] == p
    ensures CoveredUpTo(occ, comps + [cells], Cell(p.row, p.col + 1))
  {
    CellsOfSnoc(comps, cells);
    assert p in CellsOf(comps + [cells]) by {
      assert cells[0] in cells;
    }
    ScannedPast(occ, comps + [cells], p);
  }

  /** Past the last column of a row the scan moves to the start of the next row. */
  lemma ScanNextRow(occ: set<Cell>, comps: seq<seq<Cell>>, row: int, width: int)
    requires Scanned(occ, comps, Cell(row, width))
    requires forall c :: c in occ ==> 0 <= c.col < width
    ensures Scanned(occ, comps, Cell(row + 1, 0))
  {
    forall c | c in occ && RowMajorBefore(c, Cell(row + 1, 0))
      ensures c in CellsOf(comps)
    {
      assert 0 <= c.col < width;
      assert RowMajorBefore(c, Cell(row, width));
    }
  }

  /** Past the last row every occupied cell is covered and the list is a decomposition. */
  lemma ScanDone(occ: set<Cell>, comps: seq<seq<Cell>>, height: int)
    requires Scanned(occ, comps, Cell(height, 0))
    requires forall c :: c in occ ==> c.row < height
    ensures IsComponentDecomposition(occ, comps)
  {
    forall c | c in occ
      ensures c in CellsOf(comps)
    {
      assert RowMajorBefore(c, Cell(height, 0));
    }
  }

  /** The cells set in the boolean frame `a` are exactly the cells of `s`. */
  ghost predicate Marks(a: array2<bool>, s: set<Cell>)
    reads a
  {
    forall i, j :: 0 <= i < a.Length0 && 0 <= j < a.Length1 ==> a[i, j] == (Cell(i, j) in s)
  }

  /** The open cells of the fill are the occupied cells not yet visited. */
  lemma OpenIsUnvisited(mask: array2<bool>, visited: array2<bool>, occ: set<Cell>, seen: set<Cell>)
    requires mask.Length0 == visited.Length0 && mask.Length1 == visited.Length1
    requires forall c :: c in occ ==> 0 <= c.row < mask.Length0 && 0 <= c.col < mask.Length1
    requires Marks(mask, occ)
    requires Marks(visited, seen)
    ensures OpenCells(mask, visited) == occ - seen
  {
  }

  /** Every component is a non-empty list of cells of the grid `g`. */
  ghost predicate CellsInGrid<V>(g: Grid<V>, comps: seq<seq<Cell>>) {
    forall k :: 0 <= k < |comps| ==> |comps[k]| > 0 && forall c :: c in comps[k] ==> InGrid(g, c)
  }

  /**
   * `ts` are the tables made from the components `comps` of the merged grid `g` (lines 67-77):
   * one per component, in the same order.
   */
  ghost predicate TablesOf<V(!new)>(g: Grid<V>, comps: seq<seq<Cell>>, ts: seq<Grid<V>>) {
    && IsRectangular(g)
    && CellsInGrid(g, comps)
    && |ts| == |comps|
    && forall k :: 0 <= k < |ts| ==> ts[k] == MaterializeTable(g, comps[k])
  }

  lemma CellsInGridSnoc<V>(g: Grid<V>, comps: seq<seq<Cell>>, cells: seq<Cell>)
    requires CellsInGrid(g, comps) && |cells| > 0 && forall c :: c in cells ==> InGrid(g, c)
    ensures CellsInGrid(g, comps + [cells])
  {
    var comps' := comps + [cells];
    forall k | 0 <= k < |comps'|
      ensures |comps'[k]| > 0 && forall c :: c in comps'[k] ==> InGrid(g, c)
    {
      if k < |comps| { assert comps'[k] == comps[k]; }
    }
  }

  lemma TablesOfSnoc<V(!new)>(g: Grid<V>, comps: seq<seq<Cell>>, ts: seq<Grid<V>>, cells: seq<Cell>)
    requires TablesOf(g, comps, ts)
    requires |cells| > 0 && forall c :: c in cells ==> InGrid(g, c)
    ensures TablesOf(g, comps + [cells], ts + [MaterializeTable(g, cells)])
  {
    CellsInGridSnoc(g, comps, cells);
    var comps', ts' := comps + [cells], ts + [MaterializeTable(g, cells)];
    forall k | 0 <= k < |ts'|
      ensures ts'[k] == MaterializeTable(g, comps'[k])
    {
      SnocTableAt(g, comps, ts, cells, k);
    }
  }

  lemma SnocTableAt<V(!new)>(g: Grid<V>, comps: seq<seq<Cell>>, ts: seq<Grid<V>>, cells: seq<Cell>, k: int)
    requires TablesOf(g, comps, ts) && CellsInGrid(g, comps + [cells]) && 0 <= k <= |ts|
    requires |cells| > 0 && forall c :: c in cells ==> InGrid(g, c)
    ensures (ts + [MaterializeTable(g, cells)])[k] == MaterializeTable(g, (comps + [cells])[k])
  {
    if k < |ts| {
      assert (comps + [cells])[k] == comps[k];
    } else {
      assert (comps + [cells])[k] == cells;
    }
  }

  /**
   * Lines 66-77, run when the scan meets an occupied cell not yet visited: the fill from that
   * cell, whose cells become visited and form the next component, and the table made from them.
   */
  method NewTable<V(==,!new)>(merged: Grid<V>, mask: array2<bool>, visited: array2<bool>, row: int, col: int,
                         ghost occ: set<Cell>, ghost comps: seq<seq<Cell>>)
    returns (table: Grid<V>, tableCells: seq<Cell>)
    requires mask != visited && mask.Length0 == visited.Length0 && mask.Length1 == visited.Length1
    requires IsRectangular(merged) && 0 <= row < mask.Length0 && 0 <= col < mask.Length1
    requires forall c :: c in occ ==> InGrid(merged, c) && c.row < mask.Length0 && c.col < mask.Length1
    requires Marks(mask, occ)
    requires Marks(visited, CellsOf(comps))
    requires Scanned(occ, comps, Cell(row, col)) && mask[row, col] && !visited[row, col]
    modifies visited
    ensures Scanned(occ, comps + [tableCells], Cell(row, col + 1))
    ensures |tableCells| > 0 && forall c :: c in tableCells ==> InGrid(merged, c)
    ensures table == MaterializeTable(merged, tableCells)
    ensures Marks(visited, CellsOf(comps + [tableCells]))
  {
    OpenIsUnvisited(mask, visited, occ, CellsOf(comps));
    tableCells := FindTable(mask, visited, Cell(row, col));
    ScanFound(occ, comps, row, col, tableCells);
    table := MaterializeTable(merged, tableCells);
  }

  /**
   * One step of the scan (lines 64-77) at cell (row, col): an occupied cell not yet visited
   * gives a new component and its table; any other cell is passed over.
   */
  method VisitCell<V(==,!new)>(merged: Grid<V>, mask: array2<bool>, visited: array2<bool>, row: int, col: int,
                          tables: seq<Grid<V>>, ghost occ: set<Cell>, ghost comps: seq<seq<Cell>>)
    returns (tables': seq<Grid<V>>, ghost comps': seq<seq<Cell>>)
    requires mask != visited && mask.Length0 == visited.Length0 && mask.Length1 == visited.Length1
    requires 0 <= row < mask.Length0 && 0 <= col < mask.Length1
    requires forall c :: c in occ ==> InGrid(merged, c) && c.row < mask.Length0 && c.col < mask.Length1
    requires Marks(mask, occ)
    requires Marks(visited, CellsOf(comps))
    requires Scanned(occ, comps, Cell(row, col)) && TablesOf(merged, comps, tables)
    modifies visited
    ensures Scanned(occ, comps', Cell(row, col + 1)) && TablesOf(merged, comps', tables')
    ensures Marks(visited, CellsOf(comps'))
  {
    if mask[row, col] && !visited[row, col] {
      var table, tableCells := NewTable(merged, mask, visited, row, col, occ, comps);
      TablesOfSnoc(merged, comps, tables, tableCells);
      tables', comps' := tables + [table], comps + [tableCells];
    } else {
      ScanSkip(occ, comps, row, col);
      tables', comps' := tables, comps;
    }
  }

  /**
   * Lines 20-28: the frame built from the worksheet rows, with every merged range written
   * into it.
   */
  method MergedFrame<V>(sheet: Grid<V>, merges: seq<MergedRange>) returns (df: array2<Option<V>>)
    requires IsRectangular(sheet)
    ensures fresh(df) && df.Length0 == |sheet| && df.Length1 == Width(sheet)
    ensures Contents(df) == Expand(sheet, merges)
  {
    var height, width := |sheet|, Width(sheet);
    df := new Option<V>[height, width]((i, j) requires 0 <= i < height && 0 <= j < width => sheet[i][j]);
    ExpandMergedCells(df, sheet, merges);
    SameGrid(Contents(df), Expand(sheet, merges));
  }

  /** Line 30, `df.notna()`: a cell of the mask is set exactly when the frame holds a value there. */
  method OccupancyMask<V>(df: array2<Option<V>>) returns (mask: array2<bool>)
    ensures fresh(mask) && mask.Length0 == df.Length0 && mask.Length1 == df.Length1
    ensures forall i, j :: 0 <= i < df.Length0 && 0 <= j < df.Length1 ==> mask[i, j] == df[i, j].Some?
  {
    mask := new bool[df.Length0, df.Length1]((i, j) requires 0 <= i < df.Length0 && 0 <= j < df.Length1 reads df => df[i, j].Some?);
  }

  /** Lines 63-77 for one row: the scan visits its cells from left to right. */
  method ScanRow<V(==,!new)>(merged: Grid<V>, mask: array2<bool>, visited: array2<bool>, row: int,
                        tables: seq<Grid<V>>, ghost occ: set<Cell>, ghost comps: seq<seq<Cell>>)
    returns (tables': seq<Grid<V>>, ghost comps': seq<seq<Cell>>)
    requires mask != visited && mask.Length0 == visited.Length0 && mask.Length1 == visited.Length1
    requires 0 <= row < mask.Length0
    requires forall c :: c in occ ==> InGrid(merged, c) && c.row < mask.Length0 && c.col < mask.Length1
    requires Marks(mask, occ) && Marks(visited, CellsOf(comps))
    requires Scanned(occ, comps, Cell(row, 0)) && TablesOf(merged, comps, tables)
    modifies visited
    ensures Scanned(occ, comps', Cell(row + 1, 0)) && TablesOf(merged, comps', tables')
    ensures Marks(visited, CellsOf(comps'))
  {
    tables', comps' := tables, comps;
    for col := 0 to mask.Length1
      invariant Marks(mask, occ) && Marks(visited, CellsOf(comps'))
      invariant Scanned(occ, comps', Cell(row, col)) && TablesOf(merged, comps', tables')
    {
      tables', comps' := VisitCell(merged, mask, visited, row, col, tables', occ, comps');
    }
    ScanNextRow(occ, comps', row, mask.Length1);
  }

  /**
   * Lines 62-78: the row-major scan over the mask, which starts a fill at every occupied cell
   * not yet visited and appends the table made from what the fill found.
   */
  method ScanForTables<V(==,!new)>(merged: Grid<V>, mask: array2<bool>, visited: array2<bool>)
    returns (tables: seq<Grid<V>>, ghost components: seq<seq<Cell>>)
    requires IsRectangular(merged) && mask != visited
    requires mask.Length0 == visited.Length0 == |merged| && mask.Length1 == visited.Length1
    requires |merged| > 0 ==> mask.Length1 == Width(merged)
    requires forall i, j :: 0 <= i < mask.Length0 && 0 <= j < mask.Length1 ==> mask[i, j] == merged[i][j].Some?
    requires forall i, j :: 0 <= i < mask.Length0 && 0 <= j < mask.Length1 ==> !visited[i, j]
    modifies visited
    ensures IsComponentDecomposition(Occupied(merged), components)
    ensures TablesOf(merged, components, tables)
  {
    ghost var occ := Occupied(merged);
    assert forall c :: c in occ ==> InGrid(merged, c) && c.row < mask.Length0 && c.col < mask.Length1;
    assert Marks(mask, occ);
    tables, components := [], [];
    assert Scanned(occ, [], Cell(0, 0));
    for row := 0 to mask.Length0
      invariant Marks(mask, occ) && Marks(visited, CellsOf(components))
      invariant Scanned(occ, components, Cell(row, 0)) && TablesOf(merged, components, tables)
    {
      tables, components := ScanRow(merged, mask, visited, row, tables, occ, components);
    }
    ScanDone(occ, components, mask.Length0);
  }

  /**
   * Lines 17-78 on a rectangular grid of worksheet rows. The tables are those of the
   * components of the merged grid's occupied cells, one per component, in the row-major order
   * of each component's first cell; an empty grid, or one without values, gives no table.
   */
  method ExtractDisjointTables<V(==,!new)>(sheet: Grid<V>, merges: seq<MergedRange>)
    returns (tables: seq<Grid<V>>, ghost components: seq<seq<Cell>>)
    requires IsRectangular(sheet)
    ensures IsComponentDecomposition(Occupied(Expand(sheet, merges)), components)
    ensures TablesOf(Expand(sheet, merges), components, tables)
    ensures |tables| == 0 <==> Occupied(Expand(sheet, merges)) == {}
  {
    var df := MergedFrame(sheet, merges);
    var merged := Contents(df);
    var mask := OccupancyMask(df);
    var visited := new bool[df.Length0, df.Length1]((i, j) => false);
    tables, components := ScanForTables(merged, mask, visited);
    NoComponentsIffEmpty(Occupied(merged), components);
  }
}
