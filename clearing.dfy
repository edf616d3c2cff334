/** Emptying every full row, column and grid (`clear_indices` and its three scans). */
module Clearing {
  import opened Board

  predicate RowFull(board: seq<bool>, r: nat) { AllSet(board, RowIndices(r)) }
  predicate ColumnFull(board: seq<bool>, c: nat) { AllSet(board, ColumnIndices(c)) }
  predicate GridFull(board: seq<bool>, g0: nat, g1: nat) { AllSet(board, GridIndices(g0, g1)) }

  /** Board index `i` lies in a row, a column or a grid that is full in `board`. */
  predicate InFullSet(board: seq<bool>, i: nat) {
    RowFull(board, i / BoardSideSize) || ColumnFull(board, i % BoardSideSize)
    || GridFull(board, GridOf(i).0, GridOf(i).1)
  }

  /** Everything the three scans collect, duplicates included: full rows, then full columns,
      then full grids, each in scan order. */
  function IndicesToClear(board: seq<bool>): (indices: seq<nat>) {
    FullRegions(board, Row, BoardSideSize) + FullRegions(board, Column, BoardSideSize)
    + FullGrids(board, GridSideSize)
  }

  /** The board after `clear_indices`: every collected index emptied. */
  function Cleared(board: seq<bool>): (cleared: seq<bool>) {
    seq(|board|, i requires 0 <= i < |board| => board[i] && i !in IndicesToClear(board))
  }

  /** `get_rows_indices_to_clear`: appends, row by row, the indices of every full row. */
  method GetRowsIndicesToClear(board: seq<bool>, indicesToClear: seq<nat>) returns (extended: seq<nat>)
    requires |board| == BoardSize
    ensures extended == indicesToClear + FullRegions(board, Row, BoardSideSize)
  {
    extended := indicesToClear;
    for rowIx := 0 to BoardSideSize
      invariant extended == indicesToClear + FullRegions(board, Row, rowIx)
    {
      var boardIx := rowIx * BoardSideSize;
      assert boardIx == rowIx * 9;
      LineScanStep(board, indicesToClear, Row, rowIx);
      RowRange(board, rowIx);
      if forall i :: boardIx <= i < boardIx + BoardSideSize ==> board[i] {
        extended := extended + seq(BoardSideSize, k => boardIx + k);
      }
    }
  }

  /** `get_columns_indices_to_clear`: appends, column by column, the indices of every full column. */
  method GetColumnsIndicesToClear(board: seq<bool>, indicesToClear: seq<nat>) returns (extended: seq<nat>)
    requires |board| == BoardSize
    ensures extended == indicesToClear + FullRegions(board, Column, BoardSideSize)
  {
    extended := indicesToClear;
    for colIx := 0 to BoardSideSize
      invariant extended == indicesToClear + FullRegions(board, Column, colIx)
    {
      var boardIndices := ColumnIndices(colIx);
      AllSetMeaning(board, boardIndices);
      LineScanStep(board, indicesToClear, Column, colIx);
      if forall k :: 0 <= k < |boardIndices| ==> board[boardIndices[k]] {
        extended := extended + boardIndices;
      }
    }
  }

  /** The two inner loops of `get_grids_indices_to_clear`: the indices of grid (gridIx0, gridIx1),
      built row by row from the grid's top-left cell. */
  method GridCells(gridIx0: nat, gridIx1: nat) returns (boardIndices: seq<nat>)
    requires gridIx0 < GridSideSize && gridIx1 < GridSideSize
    ensures boardIndices == GridIndices(gridIx0, gridIx1)
  {
    var q1 := gridIx0 * BoardSideSize * GridSideSize;
    assert q1 == gridIx0 * 27;
    var q2 := gridIx1 * GridSideSize;
    assert q2 == gridIx1 * 3;
    ghost var grid := GridIndices(gridIx0, gridIx1);
    boardIndices := [];
    for gridRow := 0 to GridSideSize
      invariant boardIndices == grid[..3 * gridRow]
    {
      var q3 := gridRow * BoardSideSize;
      assert q3 == gridRow * 9;
      for gridCol := 0 to GridSideSize
        invariant boardIndices == grid[..3 * gridRow + gridCol]
      {
        GridPrefixStep(gridIx0, gridIx1, gridRow, gridCol);
        boardIndices := boardIndices + [q1 + q2 + q3 + gridCol];
      }
    }
    assert boardIndices == grid;
  }

  /** The second loop of `get_grids_indices_to_clear`: appends, left to right, the indices of
      every full grid of grid row gridIx0. */
  method GridRowIndicesToClear(board: seq<bool>, indicesToClear: seq<nat>, gridIx0: nat)
    returns (extended: seq<nat>)
    requires |board| == BoardSize && gridIx0 < GridSideSize
    ensures extended == indicesToClear + FullGridsInRow(board, gridIx0, GridSideSize)
  {
    extended := indicesToClear;
    for gridIx1 := 0 to GridSideSize
      invariant extended == indicesToClear + FullGridsInRow(board, gridIx0, gridIx1)
    {
      var boardIndices := GridCells(gridIx0, gridIx1);
      GridIndicesInBoard(gridIx0, gridIx1);
      AllSetMeaning(board, boardIndices);
      GridScanStep(board, indicesToClear, gridIx0, gridIx1);
      if forall k :: 0 <= k < |boardIndices| ==> board[boardIndices[k]] {
        extended := extended + boardIndices;
      }
    }
  }

  /** `get_grids_indices_to_clear`: visits the grids in row-major order and appends the indices
      of every full one. */
  method GetGridsIndicesToClear(board: seq<bool>, indicesToClear: seq<nat>) returns (extended: seq<nat>)
    requires |board| == BoardSize
    ensures extended == indicesToClear + FullGrids(board, GridSideSize)
  {
    extended := indicesToClear;
    for gridIx0 := 0 to GridSideSize
      invariant extended == indicesToClear + FullGrids(board, gridIx0)
    {
      GridRowScanStep(board, indicesToClear, gridIx0);
      extended := GridRowIndicesToClear(board, extended, gridIx0);
    }
  }

  /** `get_indices_to_clear_with_duplicates`: the three scans over the same, unmodified board. */
  method GetIndicesToClearWithDuplicates(board: seq<bool>) returns (indicesToClear: seq<nat>)
    requires |board| == BoardSize
    ensures indicesToClear == IndicesToClear(board)
  {
    indicesToClear := [];
    indicesToClear := GetRowsIndicesToClear(board, indicesToClear);
    assert indicesToClear == FullRegions(board, Row, BoardSideSize);
    indicesToClear := GetColumnsIndicesToClear(board, indicesToClear);
    indicesToClear := GetGridsIndicesToClear(board, indicesToClear);
  }

  /** `clear_indices`: empties, in place, every index the scans collected. */
  method ClearIndices(board: array<bool>)
    requires board.Length == BoardSize
    modifies board
    ensures board[..] == Cleared(old(board[..]))
  {
    var indicesToClear := GetIndicesToClearWithDuplicates(board[..]);
    ghost var before := board[..];
    forall k | 0 <= k < |indicesToClear|
      ensures indicesToClear[k] < BoardSize
    {
      IndicesToClearMembership(before, indicesToClear[k]);
    }
    for k := 0 to |indicesToClear|
      invariant forall i :: 0 <= i < BoardSize ==>
                  board[i] == (before[i] && i !in indicesToClear[..k])
    {
      board[indicesToClear[k]] := false;
      assert indicesToClear[..k + 1] == indicesToClear[..k] + [indicesToClear[k]];
    }
    assert indicesToClear[..|indicesToClear|] == indicesToClear;
  }

  /** One more line of the scan appends that line when it is full. */
  lemma LineScanStep(board: seq<bool>, acc: seq<nat>, kind: Kind, n: nat)
    requires |board| == BoardSize && n < BoardSideSize
    ensures acc + FullRegions(board, kind, n + 1)
            == acc + FullRegions(board, kind, n) + (if AllSet(board, Region(kind, n)) then Region(kind, n) else [])
  {
    AppendAssoc(acc, FullRegions(board, kind, n), if AllSet(board, Region(kind, n)) then Region(kind, n) else []);
  }

  /** One more grid of a grid row's scan appends that grid when it is full. */
  lemma GridScanStep(board: seq<bool>, acc: seq<nat>, g0: nat, g1: nat)
    ensures acc + FullGridsInRow(board, g0, g1 + 1)
            == acc + FullGridsInRow(board, g0, g1)
               + (if AllSet(board, GridIndices(g0, g1)) then GridIndices(g0, g1) else [])
  {
    AppendAssoc(acc, FullGridsInRow(board, g0, g1),
                if AllSet(board, GridIndices(g0, g1)) then GridIndices(g0, g1) else []);
  }

  /** One more grid row of the scan appends that row's full grids. */
  lemma GridRowScanStep(board: seq<bool>, acc: seq<nat>, g0: nat)
    ensures acc + FullGrids(board, g0 + 1) == acc + FullGrids(board, g0) + FullGridsInRow(board, g0, GridSideSize)
  {
    AppendAssoc(acc, FullGrids(board, g0), FullGridsInRow(board, g0, GridSideSize));
  }

  /** Row r is full exactly when the nine cells from r * 9 on are filled, and it is that range. */
  lemma RowRange(board: seq<bool>, r: nat)
    requires |board| == BoardSize && r < BoardSideSize
    ensures (forall i :: r * 9 <= i < r * 9 + 9 ==> board[i]) <==> AllSet(board, Region(Row, r))
    ensures seq(9, k => r * 9 + k) == Region(Row, r)
  {
    AllSetMeaning(board, Region(Row, r));
    if forall i :: r * 9 <= i < r * 9 + 9 ==> board[i] {
      forall k | 0 <= k < 9 ensures board[RowIndices(r)[k]] {
        assert RowIndices(r)[k] == r * 9 + k;
      }
    }
    if AllSet(board, Region(Row, r)) {
      forall i | r * 9 <= i < r * 9 + 9 ensures board[i] {
        assert RowIndices(r)[i - r * 9] == i;
      }
    }
  }

  lemma FullRowsMembership(board: seq<bool>, i: nat)
    ensures i in FullRegions(board, Row, BoardSideSize) <==> i < BoardSize && RowFull(board, i / BoardSideSize)
  {
    FullRowsScanMembership(board, BoardSideSize, i);
  }

  lemma FullColumnsMembership(board: seq<bool>, i: nat)
    ensures i in FullRegions(board, Column, BoardSideSize) <==> i < BoardSize && ColumnFull(board, i % BoardSideSize)
  {
    FullColumnsScanMembership(board, BoardSideSize, i);
  }

  lemma FullGridsCellMembership(board: seq<bool>, i: nat)
    ensures i in FullGrids(board, GridSideSize) <==> i < BoardSize && GridFull(board, GridOf(i).0, GridOf(i).1)
  {
    FullGridsMembership(board, GridSideSize, i);
    if i < BoardSize {
      CellGrid(i);
    }
  }

  /** A cell is collected exactly when it lies in a row, column or grid that is full. */
  lemma IndicesToClearMembership(board: seq<bool>, i: nat)
    ensures i in IndicesToClear(board) <==> i < BoardSize && InFullSet(board, i)
  {
    FullRowsMembership(board, i);
    FullColumnsMembership(board, i);
    FullGridsCellMembership(board, i);
  }

  /** After clearing, a cell is filled exactly when it was filled and lay in no full row,
      column or grid of the board before. */
  lemma ClearedCell(board: seq<bool>, i: nat)
    requires |board| == BoardSize && i < BoardSize
    ensures Cleared(board)[i] <==> board[i] && !InFullSet(board, i)
  {
    IndicesToClearMembership(board, i);
  }

  /** A region that is full before clearing has all its cells emptied; one that is not full keeps
      an empty cell. Either way it is not full afterwards. */
  lemma NotFullAfterClear(board: seq<bool>, indices: seq<nat>)
    requires |board| == BoardSize && |indices| > 0
    requires forall k :: 0 <= k < |indices| ==> indices[k] < BoardSize
    requires AllSet(board, indices) ==> forall k :: 0 <= k < |indices| ==> InFullSet(board, indices[k])
    ensures AllSet(board, indices) ==> forall k :: 0 <= k < |indices| ==> !Cleared(board)[indices[k]]
    ensures !AllSet(board, indices) ==> exists k :: 0 <= k < |indices| && !board[indices[k]] && !Cleared(board)[indices[k]]
    ensures !AllSet(Cleared(board), indices)
  {
    AllSetMeaning(board, indices);
    AllSetMeaning(Cleared(board), indices);
    if AllSet(board, indices) {
      forall k | 0 <= k < |indices| ensures !Cleared(board)[indices[k]] {
        ClearedCell(board, indices[k]);
      }
    } else {
      var k :| 0 <= k < |indices| && !board[indices[k]];
      ClearedCell(board, indices[k]);
    }
  }

  /** After clearing, no row, no column and no grid is full: the three scans read the same board,
      so everything they found is emptied, and what they did not find already had an empty cell. */
  lemma NothingFullAfterClear(board: seq<bool>)
    requires |board| == BoardSize
    ensures forall r :: 0 <= r < BoardSideSize ==> !RowFull(Cleared(board), r)
    ensures forall c :: 0 <= c < BoardSideSize ==> !ColumnFull(Cleared(board), c)
    ensures forall g0, g1 :: 0 <= g0 < GridSideSize && 0 <= g1 < GridSideSize ==> !GridFull(Cleared(board), g0, g1)
  {
    forall r | 0 <= r < BoardSideSize
      ensures !RowFull(Cleared(board), r)
    {
      forall k | 0 <= k < 9 ensures RowIndices(r)[k] < BoardSize && RowIndices(r)[k] / 9 == r {
        RowMembership(r, RowIndices(r)[k]);
      }
      NotFullAfterClear(board, RowIndices(r));
    }
    forall c | 0 <= c < BoardSideSize
      ensures !ColumnFull(Cleared(board), c)
    {
      forall k | 0 <= k < 9 ensures ColumnIndices(c)[k] < BoardSize && ColumnIndices(c)[k] % 9 == c {
        ColumnMembership(c, ColumnIndices(c)[k]);
      }
      NotFullAfterClear(board, ColumnIndices(c));
    }
    forall g0, g1 | 0 <= g0 < GridSideSize && 0 <= g1 < GridSideSize
      ensures !GridFull(Cleared(board), g0, g1)
    {
      forall k | 0 <= k < 9
        ensures GridIndices(g0, g1)[k] < BoardSize && GridOf(GridIndices(g0, g1)[k]) == (g0, g1)
      {
        GridMembership(g0, g1, GridIndices(g0, g1)[k]);
      }
      NotFullAfterClear(board, GridIndices(g0, g1));
    }
  }

  /** Clearing twice is clearing once. */
  lemma ClearIdempotent(board: seq<bool>)
    requires |board| == BoardSize
    ensures Cleared(Cleared(board)) == Cleared(board)
  {
    NothingFullAfterClear(board);
    var once := Cleared(board);
    forall i | 0 <= i < BoardSize
      ensures Cleared(once)[i] == once[i]
    {
      ClearedCell(once, i);
      CellGrid(i);
    }
  }

  /** The board on which exactly the cells of grid (g0, g1) are filled. */
  function OneGridBoard(g0: nat, g1: nat): (oneGrid: seq<bool>) {
    seq(BoardSize, i => i in GridIndices(g0, g1))
  }

  /** On OneGridBoard(g0, g1), grid (r, c) is full exactly when it is grid (g0, g1). */
  lemma OneGridFull(g0: nat, g1: nat, r: nat, c: nat)
    requires g0 < GridSideSize && g1 < GridSideSize && r < GridSideSize && c < GridSideSize
    ensures AllSet(OneGridBoard(g0, g1), GridIndices(r, c)) <==> (r, c) == (g0, g1)
  {
    var board := OneGridBoard(g0, g1);
    GridIndicesInBoard(r, c);
    AllSetMeaning(board, GridIndices(r, c));
    if (r, c) != (g0, g1) {
      GridMembership(g0, g1, GridIndices(r, c)[0]);
      GridMembership(r, c, GridIndices(r, c)[0]);
    }
  }

  /** On a board where exactly grid (g0, g1) is filled, the grid scan finds that grid alone. */
  lemma SingleGridScan(g0: nat, g1: nat)
    requires g0 < GridSideSize && g1 < GridSideSize
    ensures FullGrids(OneGridBoard(g0, g1), GridSideSize) == GridIndices(g0, g1)
  {
    var board := OneGridBoard(g0, g1);
    forall r | 0 <= r < GridSideSize
      ensures FullGridsInRow(board, r, GridSideSize) == if r == g0 then GridIndices(g0, g1) else []
    {
      SingleGridScanInRow(g0, g1, r, GridSideSize);
    }
    SingleGridScanRows(board, g0, g1, GridSideSize);
  }

  lemma {:induction false} SingleGridScanInRow(g0: nat, g1: nat, r: nat, c: nat)
    requires g0 < GridSideSize && g1 < GridSideSize && r < GridSideSize && c <= GridSideSize
    ensures FullGridsInRow(OneGridBoard(g0, g1), r, c) == if r == g0 && g1 < c then GridIndices(g0, g1) else []
  {
    if c > 0 {
      SingleGridScanInRow(g0, g1, r, c - 1);
      OneGridFull(g0, g1, r, c - 1);
    }
  }

  lemma {:induction false} SingleGridScanRows(board: seq<bool>, g0: nat, g1: nat, r: nat)
    requires g0 < GridSideSize && g1 < GridSideSize && r <= GridSideSize
    requires forall r' :: 0 <= r' < GridSideSize ==>
               FullGridsInRow(board, r', GridSideSize) == if r' == g0 then GridIndices(g0, g1) else []
    ensures FullGrids(board, r) == if g0 < r then GridIndices(g0, g1) else []
  {
    if r > 0 {
      SingleGridScanRows(board, g0, g1, r - 1);
      assert FullGrids(board, r) == FullGrids(board, r - 1) + FullGridsInRow(board, r - 1, GridSideSize);
      AppendAtMostOne(FullGrids(board, r - 1), FullGridsInRow(board, r - 1, GridSideSize),
                      GridIndices(g0, g1), g0 < r - 1, g0 == r - 1);
    }
  }

  /** Two pieces that are each `s` or empty, and not both `s`, concatenate to `s` or empty. */
  lemma AppendAtMostOne(a: seq<nat>, b: seq<nat>, s: seq<nat>, p: bool, q: bool)
    requires a == (if p then s else []) && b == (if q then s else []) && !(p && q)
    ensures a + b == if p || q then s else []
  {
    if p {
      assert a + b == s + [];
    } else {
      assert a + b == [] + b;
    }
  }
}
