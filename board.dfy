/** The engine constants (`Woodoku::BOARD_SIZE` and the rest) and the 81-cell board with its three
    geometric partitions: 9 rows, 9 columns and 9 grids of 3x3. */
module Board {

  const BoardSize: nat := 81
  const BoardSideSize: nat := 9
  const GridSideSize: nat := 3
  const ShapeSize: nat := 25
  const ShapeSideSize: nat := 5
  const ShapesBatchSize: nat := 3
  const MinMoveDigits: nat := 2

  // Index arithmetic below writes the side lengths as the literals 9, 3 and 27 (= 3 * 9) rather
  // than through the constants: the solver reasons about `r * 9` linearly, and about
  // `r * BoardSideSize` as a product of two unknowns.

  /** Board indices of row `r`, left to right. */
  function RowIndices(r: nat): (row: seq<nat>) {
    seq(9, k => r * 9 + k)
  }

  /** Board indices of column `c`, top to bottom. */
  function ColumnIndices(c: nat): (column: seq<nat>) {
    seq(9, k => k * 9 + c)
  }

  /** Board indices of grid (g0, g1): grid row g0, grid column g1, cells in row-major local order. */
  function GridIndices(g0: nat, g1: nat): (grid: seq<nat>) {
    seq(9, k => g0 * 27 + g1 * 3 + (k / 3) * 9 + k % 3)
  }

  /** The two line partitions of the board. */
  datatype Kind = Row | Column

  /** Line number `n` of a partition: row n or column n. */
  function Region(kind: Kind, n: nat): (line: seq<nat>) {
    match kind
    case Row => RowIndices(n)
    case Column => ColumnIndices(n)
  }

  /** Every index of `indices` is a cell of `board` that is filled, checked front to back. */
  predicate AllSet(board: seq<bool>, indices: seq<nat>) {
    indices == [] || (indices[0] < |board| && board[indices[0]] && AllSet(board, indices[1..]))
  }

  lemma {:induction false} AllSetMeaning(board: seq<bool>, indices: seq<nat>)
    ensures AllSet(board, indices) <==> forall k :: 0 <= k < |indices| ==> indices[k] < |board| && board[indices[k]]
  {
    if indices != [] {
      AllSetMeaning(board, indices[1..]);
      assert forall k :: 1 <= k < |indices| ==> indices[k] == indices[1..][k - 1];
    }
  }

  /** The concatenation, in scan order, of those regions 0 .. n - 1 of `kind` that are full in `board`. */
  function FullRegions(board: seq<bool>, kind: Kind, n: nat): (cells: seq<nat>) {
    if n == 0 then []
    else FullRegions(board, kind, n - 1)
         + (if AllSet(board, Region(kind, n - 1)) then Region(kind, n - 1) else [])
  }

  /** The concatenation, in scan order, of the full grids among (g0, 0) .. (g0, g1 - 1). */
  function FullGridsInRow(board: seq<bool>, g0: nat, g1: nat): (cells: seq<nat>) {
    if g1 == 0 then []
    else FullGridsInRow(board, g0, g1 - 1)
         + (if AllSet(board, GridIndices(g0, g1 - 1)) then GridIndices(g0, g1 - 1) else [])
  }

  /** The concatenation, in scan order, of the full grids in grid rows 0 .. g0 - 1. */
  function FullGrids(board: seq<bool>, g0: nat): (cells: seq<nat>) {
    if g0 == 0 then []
    else FullGrids(board, g0 - 1) + FullGridsInRow(board, g0 - 1, GridSideSize)
  }

  /** The grid containing board index `i`, as (grid row, grid column). */
  function GridOf(i: nat): (grid: (nat, nat)) {
    (i / 27, (i % 9) / 3)
  }

  lemma AppendAssoc(a: seq<nat>, b: seq<nat>, c: seq<nat>)
    ensures a + b + c == a + (b + c)
  {
  }

  /** A cell is collected by the row scan of rows 0 .. n - 1 exactly when its row lies there
      and is full. */
  lemma {:induction false} FullRowsScanMembership(board: seq<bool>, n: nat, x: nat)
    requires n <= BoardSideSize
    ensures x in FullRegions(board, Row, n) <==> x < BoardSize && x / 9 < n && AllSet(board, RowIndices(x / 9))
  {
    if n > 0 {
      FullRowsScanMembership(board, n - 1, x);
      RowMembership(n - 1, x);
      if AllSet(board, RowIndices(n - 1)) {
        assert FullRegions(board, Row, n) == FullRegions(board, Row, n - 1) + RowIndices(n - 1);
      } else {
        assert FullRegions(board, Row, n) == FullRegions(board, Row, n - 1);
      }
    }
  }

  /** A cell is collected by the column scan of columns 0 .. n - 1 exactly when its column lies
      there and is full. */
  lemma {:induction false} FullColumnsScanMembership(board: seq<bool>, n: nat, x: nat)
    requires n <= BoardSideSize
    ensures x in FullRegions(board, Column, n) <==> x < BoardSize && x % 9 < n && AllSet(board, ColumnIndices(x % 9))
  {
    if n > 0 {
      FullColumnsScanMembership(board, n - 1, x);
      ColumnMembership(n - 1, x);
      if AllSet(board, ColumnIndices(n - 1)) {
        assert FullRegions(board, Column, n) == FullRegions(board, Column, n - 1) + ColumnIndices(n - 1);
      } else {
        assert FullRegions(board, Column, n) == FullRegions(board, Column, n - 1);
      }
    }
  }

  /** A cell is collected by the scan of grid row g0 up to grid column g1 exactly when its grid
      lies there and is full. */
  lemma {:induction false} FullGridsInRowMembership(board: seq<bool>, g0: nat, g1: nat, x: nat)
    requires g0 < GridSideSize && g1 <= GridSideSize
    ensures x in FullGridsInRow(board, g0, g1) <==>
            x < BoardSize && GridOf(x).0 == g0 && GridOf(x).1 < g1 && AllSet(board, GridIndices(g0, GridOf(x).1))
  {
    if g1 > 0 {
      FullGridsInRowMembership(board, g0, g1 - 1, x);
      GridMembership(g0, g1 - 1, x);
      var last := GridIndices(g0, g1 - 1);
      if AllSet(board, last) {
        assert FullGridsInRow(board, g0, g1) == FullGridsInRow(board, g0, g1 - 1) + last;
      } else {
        assert FullGridsInRow(board, g0, g1) == FullGridsInRow(board, g0, g1 - 1);
      }
      if x < BoardSize && GridOf(x) == (g0, g1 - 1) {
        assert x in last && GridIndices(g0, GridOf(x).1) == last;
      } else {
        assert x !in last;
      }
    }
  }

  /** A cell is collected by the scan of grid rows 0 .. g0 - 1 exactly when its grid lies there
      and is full. */
  lemma {:induction false} FullGridsMembership(board: seq<bool>, g0: nat, x: nat)
    requires g0 <= GridSideSize
    ensures x in FullGrids(board, g0) <==>
            x < BoardSize && GridOf(x).0 < g0 && AllSet(board, GridIndices(GridOf(x).0, GridOf(x).1))
  {
    if g0 > 0 {
      FullGridsMembership(board, g0 - 1, x);
      FullGridsInRowMembership(board, g0 - 1, GridSideSize, x);
      assert FullGrids(board, g0) == FullGrids(board, g0 - 1) + FullGridsInRow(board, g0 - 1, GridSideSize);
      if x < BoardSize {
        CellGrid(x);
      }
    }
  }

  lemma RowMembership(r: nat, i: nat)
    requires r < BoardSideSize
    ensures i in RowIndices(r) <==> i < BoardSize && i / 9 == r
  {
    if i < BoardSize && i / 9 == r {
      assert RowIndices(r)[i % 9] == i;
    }
  }

  lemma ColumnMembership(c: nat, i: nat)
    requires c < BoardSideSize
    ensures i in ColumnIndices(c) <==> i < BoardSize && i % 9 == c
  {
    if i < BoardSize && i % 9 == c {
      assert ColumnIndices(c)[i / 9] == i;
    }
  }

  /** Local cell (gr, gc) of grid (g0, g1) sits in that grid, at that local row and column. */
  lemma GridCell(g0: nat, g1: nat, gr: nat, gc: nat)
    requires g0 < GridSideSize && g1 < GridSideSize && gr < GridSideSize && gc < GridSideSize
    ensures var v := g0 * 27 + g1 * 3 + gr * 9 + gc;
            v < BoardSize && GridOf(v) == (g0, g1) && (v / 9) % 3 == gr && v % 3 == gc
  {
    var v := g0 * 27 + g1 * 3 + gr * 9 + gc;
    assert v == (g0 * 3 + gr) * 9 + (g1 * 3 + gc);
    assert v / 9 == g0 * 3 + gr;
    assert v % 9 == g1 * 3 + gc;
    assert v == g0 * 27 + (g1 * 3 + gr * 9 + gc);
  }

  lemma GridIndexAt(g0: nat, g1: nat, gr: nat, gc: nat)
    requires gr < GridSideSize && gc < GridSideSize
    ensures GridIndices(g0, g1)[gr * 3 + gc] == g0 * 27 + g1 * 3 + gr * 9 + gc
  {
    var k := gr * 3 + gc;
    assert k / 3 == gr && k % 3 == gc;
  }

  /** The first 3 * gr + gc + 1 cells of a grid extend its first 3 * gr + gc by local cell (gr, gc). */
  lemma GridPrefixStep(g0: nat, g1: nat, gr: nat, gc: nat)
    requires gr < GridSideSize && gc < GridSideSize
    ensures GridIndices(g0, g1)[..3 * gr + gc + 1]
            == GridIndices(g0, g1)[..3 * gr + gc] + [g0 * 27 + g1 * 3 + gr * 9 + gc]
  {
    GridIndexAt(g0, g1, gr, gc);
  }

  lemma GridIndicesInBoard(g0: nat, g1: nat)
    requires g0 < GridSideSize && g1 < GridSideSize
    ensures |GridIndices(g0, g1)| == 9
    ensures forall k :: 0 <= k < 9 ==> GridIndices(g0, g1)[k] < BoardSize
  {
    forall k | 0 <= k < 9
      ensures GridIndices(g0, g1)[k] < BoardSize
    {
      GridIndexAt(g0, g1, k / 3, k % 3);
      GridCell(g0, g1, k / 3, k % 3);
    }
  }

  /** Every board index is local cell ((i / 9) % 3, i % 3) of grid GridOf(i). */
  lemma CellGrid(i: nat)
    requires i < BoardSize
    ensures var (g0, g1) := GridOf(i);
            g0 < GridSideSize && g1 < GridSideSize
            && i == g0 * 27 + g1 * 3 + ((i / 9) % 3) * 9 + i % 3
  {
    var row, col := i / 9, i % 9;
    assert i == row * 9 + col;
    var g0, gr := row / 3, row % 3;
    var g1, gc := col / 3, col % 3;
    assert row == g0 * 3 + gr && col == g1 * 3 + gc;
    assert i == g0 * 27 + (gr * 9 + g1 * 3 + gc);
    assert i / 27 == g0;
    assert i % 3 == gc;
  }

  lemma GridMembership(g0: nat, g1: nat, i: nat)
    requires g0 < GridSideSize && g1 < GridSideSize
    ensures i in GridIndices(g0, g1) <==> i < BoardSize && GridOf(i) == (g0, g1)
  {
    if i in GridIndices(g0, g1) {
      var k :| 0 <= k < 9 && GridIndices(g0, g1)[k] == i;
      GridCell(g0, g1, k / 3, k % 3);
    }
    if i < BoardSize && GridOf(i) == (g0, g1) {
      CellGrid(i);
      var k := ((i / 9) % 3) * 3 + i % 3;
      assert k / 3 == (i / 9) % 3 && k % 3 == i % 3;
      assert GridIndices(g0, g1)[k] == i;
    }
  }

  /** Grid (g0, g1) is three runs of three cells, one board row apart, from its top-left cell. */
  lemma GridIndicesExplicit(g0: nat, g1: nat)
    ensures var b := g0 * 27 + g1 * 3;
            GridIndices(g0, g1) == [b, b + 1, b + 2, b + 9, b + 10, b + 11, b + 18, b + 19, b + 20]
  {
  }

  /** The grid partition the scan uses is exactly the nine 3x3 blocks, in row-major order. */
  lemma GridsFixture()
    ensures GridIndices(0, 0) == [0, 1, 2, 9, 10, 11, 18, 19, 20]
    ensures GridIndices(0, 1) == [3, 4, 5, 12, 13, 14, 21, 22, 23]
    ensures GridIndices(0, 2) == [6, 7, 8, 15, 16, 17, 24, 25, 26]
    ensures GridIndices(1, 0) == [27, 28, 29, 36, 37, 38, 45, 46, 47]
    ensures GridIndices(1, 1) == [30, 31, 32, 39, 40, 41, 48, 49, 50]
    ensures GridIndices(1, 2) == [33, 34, 35, 42, 43, 44, 51, 52, 53]
    ensures GridIndices(2, 0) == [54, 55, 56, 63, 64, 65, 72, 73, 74]
    ensures GridIndices(2, 1) == [57, 58, 59, 66, 67, 68, 75, 76, 77]
    ensures GridIndices(2, 2) == [60, 61, 62, 69, 70, 71, 78, 79, 80]
  {
    GridIndicesExplicit(0, 0); GridIndicesExplicit(0, 1); GridIndicesExplicit(0, 2);
    GridIndicesExplicit(1, 0); GridIndicesExplicit(1, 1); GridIndicesExplicit(1, 2);
    GridIndicesExplicit(2, 0); GridIndicesExplicit(2, 1); GridIndicesExplicit(2, 2);
  }
}
