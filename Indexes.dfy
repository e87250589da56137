/**
 * The index mapper of SudokuSolver.  The board is a flat list of 81
 * cells; cell i lies in row i / 9, column i % 9 and in the 3x3 grid
 * whose top-left corner is row (i / 9) / 3 * 3, column (i % 9) / 3 * 3.
 * FIELD_SIZE (9) and GRID_SIZE (3) are written as literals.
 */
module Indexes {
  import opened ArrayOps

  /** A flat cell index of the 9x9 board. */
  predicate IsCell(i: int) {
    0 <= i < 81
  }

  predicate SameRow(i: int, j: int) {
    i / 9 == j / 9
  }

  predicate SameCol(i: int, j: int) {
    i % 9 == j % 9
  }

  predicate SameGrid(i: int, j: int) {
    (i / 9) / 3 == (j / 9) / 3 && (i % 9) / 3 == (j % 9) / 3
  }

  /** i and j share a row, a column or a 3x3 grid (every cell is its own peer). */
  predicate Peers(i: int, j: int) {
    SameRow(i, j) || SameCol(i, j) || SameGrid(i, j)
  }

  /** `row_indexes`: the indices of the row holding idx, from left to right. */
  function RowIndexes(idx: int): (r: seq<int>)
    requires IsCell(idx)
    ensures |r| == 9 && StrictlyIncreasing(r)
    ensures forall j :: j in r <==> IsCell(j) && SameRow(idx, j)
  {
    var y := idx / 9;
    var min := y * 9;
    var max := min + (9 - 1);
    Range(min, max)
  }

  /** `col_indexes`: the indices of the column holding idx, from top to bottom. */
  function ColIndexes(idx: int): (r: seq<int>)
    requires IsCell(idx)
    ensures |r| == 9 && StrictlyIncreasing(r)
    ensures forall j :: j in r <==> IsCell(j) && SameCol(idx, j)
  {
    var x := idx % 9;
    var max := 9 * 9 - 1;
    ColumnStep(x);
    Step(x, max, 9)
  }

  /** The cells `x.step(80, 9)` yields are exactly the nine cells of column x, top to bottom. */
  lemma ColumnStep(x: int)
    requires 0 <= x < 9
    ensures var r := Step(x, 80, 9);
      && |r| == 9 && StrictlyIncreasing(r)
      && forall j :: j in r <==> IsCell(j) && j % 9 == x
  {
    var r := Step(x, 80, 9);
    assert |r| == 9;
    forall j | IsCell(j) && j % 9 == x ensures j in r {
      ColumnCell(x, j);
      assert r[j / 9] == j;
    }
    forall j | j in r ensures IsCell(j) && j % 9 == x {
      var k :| 0 <= k < |r| && r[k] == j;
      ColumnEntry(x, k);
    }
  }

  lemma ColumnCell(x: int, j: int)
    requires 0 <= x < 9 && IsCell(j) && j % 9 == x
    ensures 0 <= j / 9 < 9 && j == x + (j / 9) * 9
  {
  }

  lemma ColumnEntry(x: int, k: int)
    requires 0 <= x < 9 && 0 <= k < 9
    ensures IsCell(x + k * 9) && (x + k * 9) % 9 == x
  {
  }

  /** `grid_indexes`: the indices of the 3x3 grid holding idx, sorted ascending. */
  function GridIndexes(idx: int): (r: seq<int>)
    requires IsCell(idx)
    ensures |r| == 9 && StrictlyIncreasing(r)
    ensures forall j :: j in r <==> IsCell(j) && SameGrid(idx, j)
  {
    var x := idx % 9;
    var y := idx / 9;
    var gridX := x / 3;
    var gridY := y / 3;
    var start := (gridY * 3 * 9) + (gridX * 3);
    var ns := Step(start, start + 2, 1);
    var list := seq(|ns|, k requires 0 <= k < |ns| => [ns[k], ns[k] + 9, ns[k] + 9 * 2]);
    GridTriples(start, ns, list);
    var flat := Flatten(list);
    var r := Sort(flat);
    GridCells(idx, start, list, flat);
    SortKeepsMembers(flat);
    r
  }

  /** The three `[n, n + 9, n + 18]` triples grid_indexes maps over `start.step(start + 2, 1)`. */
  lemma GridTriples(start: int, ns: seq<int>, list: seq<seq<int>>)
    requires ns == Step(start, start + 2, 1)
    requires list == seq(|ns|, k requires 0 <= k < |ns| => [ns[k], ns[k] + 9, ns[k] + 9 * 2])
    ensures list == seq(3, k requires 0 <= k < 3 => [start + k, start + k + 9, start + k + 18])
  {
    assert |ns| == 3;
  }

  /** The unsorted list grid_indexes builds: nine distinct cells, exactly those of idx's grid. */
  lemma GridCells(idx: int, start: int, list: seq<seq<int>>, flat: seq<int>)
    requires IsCell(idx)
    requires start == ((idx / 9) / 3 * 3 * 9) + ((idx % 9) / 3 * 3)
    requires list == seq(3, k requires 0 <= k < 3 => [start + k, start + k + 9, start + k + 18])
    requires flat == Flatten(list)
    ensures |flat| == 9 && Distinct(flat)
    ensures forall j :: j in flat <==> IsCell(j) && SameGrid(idx, j)
  {
    FlattenTriples(start, list, flat);
    GridListInGrid(idx, start, flat);
    GridListCovers(idx, start, flat);
  }

  lemma GridListInGrid(idx: int, start: int, flat: seq<int>)
    requires IsCell(idx)
    requires start == ((idx / 9) / 3 * 3 * 9) + ((idx % 9) / 3 * 3)
    requires flat == [start, start + 9, start + 18, start + 1, start + 10, start + 19, start + 2, start + 11, start + 20]
    ensures forall j :: j in flat ==> IsCell(j) && SameGrid(idx, j)
  {
    var gy, gx := (idx / 9) / 3, (idx % 9) / 3;
    assert 0 <= gy < 3 && 0 <= gx < 3;
    assert start == 27 * gy + 3 * gx;
    forall j | j in flat ensures IsCell(j) && SameGrid(idx, j) {
      var k :| 0 <= k < 9 && flat[k] == j;
      GridCellCoordinates(gy, gx, k % 3, k / 3);
    }
  }

  lemma GridListCovers(idx: int, start: int, flat: seq<int>)
    requires IsCell(idx)
    requires start == ((idx / 9) / 3 * 3 * 9) + ((idx % 9) / 3 * 3)
    requires flat == [start, start + 9, start + 18, start + 1, start + 10, start + 19, start + 2, start + 11, start + 20]
    ensures forall j :: IsCell(j) && SameGrid(idx, j) ==> j in flat
  {
    forall j | IsCell(j) && SameGrid(idx, j) ensures j in flat {
      var a, c := (j / 9) % 3, (j % 9) % 3;
      CellDecomposition(j);
      assert j == start + 9 * a + c;
      assert flat[3 * c + a] == j;
    }
  }

  /** Flattening the three column triples of grid_indexes. */
  lemma FlattenTriples(start: int, list: seq<seq<int>>, flat: seq<int>)
    requires list == seq(3, k requires 0 <= k < 3 => [start + k, start + k + 9, start + k + 18])
    requires flat == Flatten(list)
    ensures flat == [start, start + 9, start + 18, start + 1, start + 10, start + 19, start + 2, start + 11, start + 20]
    ensures |flat| == 9 && Distinct(flat)
  {
    assert Flatten(list[1..][1..][1..]) == [];
    assert Flatten(list[1..][1..]) == list[2];
    assert Flatten(list[1..]) == list[1] + list[2];
  }

  /** Row and column of the cell at offset (a, c) inside grid (gy, gx). */
  lemma GridCellCoordinates(gy: int, gx: int, a: int, c: int)
    requires 0 <= gy < 3 && 0 <= gx < 3 && 0 <= a < 3 && 0 <= c < 3
    ensures var j := 27 * gy + 3 * gx + 9 * a + c;
      IsCell(j) && j / 9 == 3 * gy + a && j % 9 == 3 * gx + c &&
      (j / 9) / 3 == gy && (j % 9) / 3 == gx
  {
  }

  /** Every cell is the sum of its grid's corner and its offset inside the grid. */
  lemma CellDecomposition(j: int)
    requires IsCell(j)
    ensures j == 27 * ((j / 9) / 3) + 3 * ((j % 9) / 3) + 9 * ((j / 9) % 3) + (j % 9) % 3
  {
  }
}
