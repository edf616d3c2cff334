/** Placing a 5x5 shape mask on the board relative to an anchor cell (`apply_move`). */
module Placement {
  import opened Errors
  import opened Board

  /** Board index mask cell (row, col) lands on when the shape is anchored at `position`:
      the anchor's row start, plus `row` board rows, plus the anchor's column, plus `col`. */
  function TargetIndex(position: nat, row: nat, col: nat): (target: nat) {
    (position / 9) * 9 + row * 9 + position % 9 + col
  }

  /** Mask cell (row, col) would fall past the bottom of the board or wrap past its right edge. */
  predicate OffBoard(position: nat, row: nat, col: nat) {
    TargetIndex(position, row, col) >= 81 || position % 9 + col >= 9
  }

  /** Some filled mask cell is off the board at this anchor. */
  predicate OutOfRange(shape: seq<bool>, position: nat)
    requires |shape| == ShapeSize
  {
    exists row, col :: 0 <= row < ShapeSideSize && 0 <= col < ShapeSideSize
      && shape[row * ShapeSideSize + col] && OffBoard(position, row, col)
  }

  /** Target indices of the filled, on-board cells of mask row `row`, columns 0 .. col - 1. */
  function ImpactedInRow(shape: seq<bool>, position: nat, row: nat, col: nat): (cells: seq<nat>)
    requires |shape| == ShapeSize && row < ShapeSideSize && col <= ShapeSideSize
  {
    if col == 0 then []
    else ImpactedInRow(shape, position, row, col - 1)
         + (if shape[row * ShapeSideSize + col - 1] && !OffBoard(position, row, col - 1)
            then [TargetIndex(position, row, col - 1)] else [])
  }

  /** Target indices of the filled, on-board cells of mask rows 0 .. rows - 1, in row-major order. */
  function ImpactedRows(shape: seq<bool>, position: nat, rows: nat): (cells: seq<nat>)
    requires |shape| == ShapeSize && rows <= ShapeSideSize
  {
    if rows == 0 then []
    else ImpactedRows(shape, position, rows - 1) + ImpactedInRow(shape, position, rows - 1, ShapeSideSize)
  }

  /** The board cells a placement fills, in the order the engine visits them. */
  function Impacted(shape: seq<bool>, position: nat): (cells: seq<nat>)
    requires |shape| == ShapeSize
  {
    ImpactedRows(shape, position, ShapeSideSize)
  }

  /** Every filled cell of mask row `row`, columns 0 .. col - 1, lands on the board. */
  predicate FitsInRow(shape: seq<bool>, position: nat, row: nat, col: nat)
    requires |shape| == ShapeSize && row < ShapeSideSize && col <= ShapeSideSize
  {
    col == 0
    || (FitsInRow(shape, position, row, col - 1)
        && (shape[row * ShapeSideSize + col - 1] ==> !OffBoard(position, row, col - 1)))
  }

  /** Every filled cell of mask rows 0 .. rows - 1 lands on the board. */
  predicate FitsRows(shape: seq<bool>, position: nat, rows: nat)
    requires |shape| == ShapeSize && rows <= ShapeSideSize
  {
    rows == 0 || (FitsRows(shape, position, rows - 1) && FitsInRow(shape, position, rows - 1, ShapeSideSize))
  }

  /** Some cell the placement fills is already filled. */
  predicate Overlaps(board: seq<bool>, shape: seq<bool>, position: nat)
    requires |shape| == ShapeSize
  {
    var imp := Impacted(shape, position);
    exists k :: 0 <= k < |imp| && imp[k] < |board| && board[imp[k]]
  }

  /** `board` with every cell of `indices` filled. */
  function Fill(board: seq<bool>, indices: seq<nat>): (filled: seq<bool>) {
    seq(|board|, i requires 0 <= i < |board| => board[i] || i in indices)
  }

  /** What `apply_move` does to a board: out of range first, then overlap, then the filled board. */
  function ApplyMoveSpec(board: seq<bool>, shape: seq<bool>, position: nat): (outcome: Result<seq<bool>>)
    requires |shape| == ShapeSize
  {
    if OutOfRange(shape, position) then Err(ShapeOutOfRange)
    else if Overlaps(board, shape, position) then Err(ShapeOverlapping)
    else Ok(Fill(board, Impacted(shape, position)))
  }

  /** Position in `indices` of the first cell already filled, or |indices| if there is none. */
  function FirstFilled(board: seq<bool>, indices: seq<nat>): (k: nat)
    ensures k <= |indices|
    ensures forall m :: 0 <= m < k ==> !(indices[m] < |board| && board[indices[m]])
    ensures k < |indices| ==> indices[k] < |board| && board[indices[k]]
  {
    if indices == [] then 0
    else if indices[0] < |board| && board[indices[0]] then 0
    else 1 + FirstFilled(board, indices[1..])
  }

  /** The board `apply_move` leaves behind, whatever it returns: untouched when the shape is out
      of range, otherwise with the impacted cells filled up to, not including, the first one
      already filled. */
  function ScratchAfterMove(board: seq<bool>, shape: seq<bool>, position: nat): (scratch: seq<bool>)
    requires |shape| == ShapeSize
  {
    if OutOfRange(shape, position) then board
    else
      var imp := Impacted(shape, position);
      Fill(board, imp[..FirstFilled(board, imp)])
  }

  predicate Increasing(s: seq<nat>) {
    forall a, b :: 0 <= a < b < |s| ==> s[a] < s[b]
  }

  lemma IncreasingConcat(s: seq<nat>, t: seq<nat>)
    requires Increasing(s) && Increasing(t)
    requires forall a, b :: 0 <= a < |s| && 0 <= b < |t| ==> s[a] < t[b]
    ensures Increasing(s + t)
  {
    forall a, b | 0 <= a < b < |s + t|
      ensures (s + t)[a] < (s + t)[b]
    {
      if b < |s| {
      } else if a >= |s| {
        assert (s + t)[a] == t[a - |s|] && (s + t)[b] == t[b - |s|];
      } else {
        assert (s + t)[a] == s[a] && (s + t)[b] == t[b - |s|];
      }
    }
  }

  /** The cells of one mask row land, in increasing order, within that row's stretch of the board. */
  lemma {:induction false} ImpactedInRowIncreasing(shape: seq<bool>, position: nat, row: nat, col: nat)
    requires |shape| == ShapeSize && row < ShapeSideSize && col <= ShapeSideSize
    ensures var s := ImpactedInRow(shape, position, row, col);
            Increasing(s) &&
            forall k :: 0 <= k < |s| ==>
              TargetIndex(position, row, 0) <= s[k] < TargetIndex(position, row, col)
  {
    if col > 0 {
      ImpactedInRowIncreasing(shape, position, row, col - 1);
      var s := ImpactedInRow(shape, position, row, col - 1);
      var t := if shape[row * ShapeSideSize + col - 1] && !OffBoard(position, row, col - 1)
               then [TargetIndex(position, row, col - 1)] else [];
      IncreasingConcat(s, t);
    }
  }

  /** The placement visits cells in strictly increasing board order, so it fills no cell twice. */
  lemma {:induction false} ImpactedRowsIncreasing(shape: seq<bool>, position: nat, rows: nat)
    requires |shape| == ShapeSize && rows <= ShapeSideSize
    ensures var s := ImpactedRows(shape, position, rows);
            Increasing(s) && forall k :: 0 <= k < |s| ==> s[k] < TargetIndex(position, rows, 0)
  {
    if rows > 0 {
      ImpactedRowsIncreasing(shape, position, rows - 1);
      ImpactedInRowIncreasing(shape, position, rows - 1, ShapeSideSize);
      IncreasingConcat(ImpactedRows(shape, position, rows - 1),
                       ImpactedInRow(shape, position, rows - 1, ShapeSideSize));
    }
  }

  lemma {:induction false} ImpactedInRowMembership(shape: seq<bool>, position: nat, row: nat, col: nat, x: nat)
    requires |shape| == ShapeSize && row < ShapeSideSize && col <= ShapeSideSize
    ensures x in ImpactedInRow(shape, position, row, col) <==>
            exists c: nat :: c < col && shape[row * ShapeSideSize + c]
              && !OffBoard(position, row, c) && TargetIndex(position, row, c) == x
  {
    if col > 0 {
      ImpactedInRowMembership(shape, position, row, col - 1, x);
    }
  }

  lemma {:induction false} ImpactedRowsMembership(shape: seq<bool>, position: nat, rows: nat, x: nat)
    requires |shape| == ShapeSize && rows <= ShapeSideSize
    ensures x in ImpactedRows(shape, position, rows) <==>
            exists row: nat, col: nat :: row < rows && col < ShapeSideSize && shape[row * ShapeSideSize + col]
              && !OffBoard(position, row, col) && TargetIndex(position, row, col) == x
  {
    if rows > 0 {
      ImpactedRowsMembership(shape, position, rows - 1, x);
      ImpactedInRowMembership(shape, position, rows - 1, ShapeSideSize, x);
    }
  }

  /** An on-board mask cell keeps its offsets: it lands `row` board rows below the anchor and
      `col` columns to its right, in the same board row as the anchor shifted by `row` (no wrap). */
  lemma NoWrap(position: nat, row: nat, col: nat)
    requires !OffBoard(position, row, col)
    ensures TargetIndex(position, row, col) < BoardSize
    ensures TargetIndex(position, row, col) / BoardSideSize == position / BoardSideSize + row
    ensures TargetIndex(position, row, col) % BoardSideSize == position % BoardSideSize + col
  {
    var t := TargetIndex(position, row, col);
    assert t == (position / BoardSideSize + row) * BoardSideSize + (position % BoardSideSize + col);
  }

  /** The cells a placement fills: exactly the targets of the filled mask cells, all on the board. */
  lemma ImpactedMembership(shape: seq<bool>, position: nat, x: nat)
    requires |shape| == ShapeSize
    ensures x in Impacted(shape, position) <==>
            exists row: nat, col: nat :: row < ShapeSideSize && col < ShapeSideSize && shape[row * ShapeSideSize + col]
              && !OffBoard(position, row, col) && TargetIndex(position, row, col) == x
    ensures x in Impacted(shape, position) ==> x < BoardSize
  {
    ImpactedRowsMembership(shape, position, ShapeSideSize, x);
  }

  lemma {:induction false} FitsInRowMeaning(shape: seq<bool>, position: nat, row: nat, col: nat)
    requires |shape| == ShapeSize && row < ShapeSideSize && col <= ShapeSideSize
    ensures FitsInRow(shape, position, row, col) <==>
            forall c: nat :: c < col && shape[row * ShapeSideSize + c] ==> !OffBoard(position, row, c)
  {
    if col > 0 {
      FitsInRowMeaning(shape, position, row, col - 1);
    }
  }

  lemma {:induction false} FitsRowsMeaning(shape: seq<bool>, position: nat, rows: nat)
    requires |shape| == ShapeSize && rows <= ShapeSideSize
    ensures FitsRows(shape, position, rows) <==>
            forall r: nat, c: nat :: r < rows && c < ShapeSideSize && shape[r * ShapeSideSize + c]
              ==> !OffBoard(position, r, c)
  {
    if rows > 0 {
      FitsRowsMeaning(shape, position, rows - 1);
      FitsInRowMeaning(shape, position, rows - 1, ShapeSideSize);
    }
  }

  /** The shape is in range exactly when every mask row fits. */
  lemma FitsIffInRange(shape: seq<bool>, position: nat)
    requires |shape| == ShapeSize
    ensures FitsRows(shape, position, ShapeSideSize) <==> !OutOfRange(shape, position)
  {
    FitsRowsMeaning(shape, position, ShapeSideSize);
  }

  /** A cell past an edge puts the rest of its mask row past that edge too, so a filled cell
      anywhere in that rest of the row makes the shape out of range. */
  lemma OutOfRangeFromRowTail(shape: seq<bool>, position: nat, row: nat, col: nat)
    requires |shape| == ShapeSize && row < ShapeSideSize && col < ShapeSideSize
    requires OffBoard(position, row, col)
    requires true in shape[row * ShapeSideSize + col .. row * ShapeSideSize + ShapeSideSize]
    ensures OutOfRange(shape, position)
  {
    var tail := shape[row * ShapeSideSize + col .. row * ShapeSideSize + ShapeSideSize];
    var m :| 0 <= m < |tail| && tail[m];
    assert shape[row * ShapeSideSize + (col + m)] && OffBoard(position, row, col + m);
  }

  /** The first loop of `apply_move`: the board cells the shape covers, in row-major mask order,
      or ShapeOutOfRange at the first mask cell past an edge whose rest of row holds a filled cell.
      It never reads or writes the board. */
  method CoveredCells(shape: seq<bool>, position: nat) returns (r: Result<seq<nat>>)
    requires |shape| == ShapeSize
    ensures r.Err? <==> OutOfRange(shape, position)
    ensures r.Err? ==> r.error == ShapeOutOfRange
    ensures r.Ok? ==> r.value == Impacted(shape, position)
  {
    var boardIndices: seq<nat> := [];
    for shapeRow := 0 to ShapeSideSize
      invariant boardIndices == ImpactedRows(shape, position, shapeRow)
      invariant FitsRows(shape, position, shapeRow)
    {
      for shapeCol := 0 to ShapeSideSize
        invariant boardIndices == ImpactedRows(shape, position, shapeRow)
                                  + ImpactedInRow(shape, position, shapeRow, shapeCol)
        invariant FitsInRow(shape, position, shapeRow, shapeCol)
      {
        var shapeIx := shapeRow * ShapeSideSize + shapeCol;
        var q1 := (position / BoardSideSize) * BoardSideSize;  // cells in the board rows above the anchor
        var q2 := shapeRow * BoardSideSize;                     // cells in the mask rows above this one
        var q3 := position % BoardSideSize;                     // anchor's column
        var q4 := shapeCol;                                     // column within the mask
        var boardIx := q1 + q2 + q3 + q4;
        assert boardIx == TargetIndex(position, shapeRow, shapeCol);
        if boardIx >= BoardSize || q3 + q4 >= BoardSideSize {
          if true in shape[shapeIx..shapeIx + ShapeSideSize - q4] {
            assert shapeIx + ShapeSideSize - q4 == shapeRow * ShapeSideSize + ShapeSideSize;
            OutOfRangeFromRowTail(shape, position, shapeRow, shapeCol);
            return Err(ShapeOutOfRange);
          }
          assert !shape[shapeIx..shapeIx + ShapeSideSize - q4][0];
          continue;
        }
        if shape[shapeIx] {
          AppendAssoc(ImpactedRows(shape, position, shapeRow), ImpactedInRow(shape, position, shapeRow, shapeCol), [boardIx]);
          boardIndices := boardIndices + [boardIx];
        }
      }
    }
    FitsIffInRange(shape, position);
    return Ok(boardIndices);
  }

  /** The second loop of `apply_move`: fills the cells one by one and stops with ShapeOverlapping
      at the first one already filled, leaving the cells before it filled. */
  method FillCells(board: array<bool>, boardIndices: seq<nat>) returns (r: Result<()>)
    requires Increasing(boardIndices)
    requires forall k :: 0 <= k < |boardIndices| ==> boardIndices[k] < board.Length
    modifies board
    ensures r.Ok? <==> FirstFilled(old(board[..]), boardIndices) == |boardIndices|
    ensures r.Err? ==> r.error == ShapeOverlapping
    ensures board[..] == Fill(old(board[..]), boardIndices[..FirstFilled(old(board[..]), boardIndices)])
  {
    ghost var first := FirstFilled(old(board[..]), boardIndices);
    for k := 0 to |boardIndices|
      invariant board[..] == Fill(old(board[..]), boardIndices[..k])
      invariant k <= first
    {
      var boardIx := boardIndices[k];
      if board[boardIx] {
        assert boardIx !in boardIndices[..k];
        return Err(ShapeOverlapping);
      }
      board[boardIx] := true;
      assert boardIndices[..k + 1] == boardIndices[..k] + [boardIx];
    }
    assert boardIndices[..|boardIndices|] == boardIndices;
    return Ok(());
  }

  /** `apply_move`: computes the cells the shape covers, failing with ShapeOutOfRange before
      touching the board; then fills them one by one, failing with ShapeOverlapping at the first
      cell already filled, which leaves the cells visited before it filled. */
  method ApplyMove(board: array<bool>, shape: seq<bool>, position: nat) returns (r: Result<()>)
    requires board.Length == BoardSize && |shape| == ShapeSize
    modifies board
    ensures r.Ok? == ApplyMoveSpec(old(board[..]), shape, position).Ok?
    ensures r.Err? ==> r.error == ApplyMoveSpec(old(board[..]), shape, position).error
    ensures board[..] == ScratchAfterMove(old(board[..]), shape, position)
    ensures r.Ok? ==> board[..] == ApplyMoveSpec(old(board[..]), shape, position).value
  {
    var boardIndices := CoveredCells(shape, position);
    if boardIndices.Err? {
      return Err(boardIndices.error);
    }
    ImpactedRowsIncreasing(shape, position, ShapeSideSize);
    forall k | 0 <= k < |boardIndices.value|
      ensures boardIndices.value[k] < BoardSize
    {
      ImpactedMembership(shape, position, boardIndices.value[k]);
    }
    r := FillCells(board, boardIndices.value);
    if r.Ok? {
      assert boardIndices.value[..|boardIndices.value|] == boardIndices.value;
    }
  }

  /** A successful placement fills exactly the impacted cells, all of which were empty, and
      leaves every other cell as it was. */
  lemma PlacementFillsImpacted(board: seq<bool>, shape: seq<bool>, position: nat)
    requires |board| == BoardSize && |shape| == ShapeSize
    requires ApplyMoveSpec(board, shape, position).Ok?
    ensures var after := ApplyMoveSpec(board, shape, position).value;
            |after| == BoardSize
            && (forall i :: 0 <= i < BoardSize && i in Impacted(shape, position) ==> !board[i] && after[i])
            && (forall i :: 0 <= i < BoardSize && i !in Impacted(shape, position) ==> after[i] == board[i])
  {
    var imp := Impacted(shape, position);
    forall i | 0 <= i < BoardSize && i in imp
      ensures !board[i]
    {
      var k :| 0 <= k < |imp| && imp[k] == i;
    }
  }

  /** An overlap is found while writing: the board written into is left as it was exactly when
      the first covered cell is the one already filled; otherwise the cells covered before the
      filled one stay filled. */
  lemma OverlapScratch(board: seq<bool>, shape: seq<bool>, position: nat)
    requires |board| == BoardSize && |shape| == ShapeSize
    requires ApplyMoveSpec(board, shape, position) == Err(ShapeOverlapping)
    ensures |Impacted(shape, position)| > 0 && Impacted(shape, position)[0] < BoardSize
    ensures ScratchAfterMove(board, shape, position) == board <==> board[Impacted(shape, position)[0]]
  {
    var imp := Impacted(shape, position);
    ImpactedMembership(shape, position, imp[0]);
    if !board[imp[0]] {
      var after := ScratchAfterMove(board, shape, position);
      assert imp[0] in imp[..FirstFilled(board, imp)];
      assert after[imp[0]];
    } else {
      assert imp[..FirstFilled(board, imp)] == [];
    }
  }

  /** Once the shape fits inside the board, the placement is refused as overlapping exactly when
      some filled mask cell lands on a filled board cell. */
  lemma OverlapIffFilledTarget(board: seq<bool>, shape: seq<bool>, position: nat)
    requires |board| == BoardSize && |shape| == ShapeSize && !OutOfRange(shape, position)
    ensures ApplyMoveSpec(board, shape, position) == Err(ShapeOverlapping) <==>
            exists row: nat, col: nat :: row < ShapeSideSize && col < ShapeSideSize
              && shape[row * ShapeSideSize + col] && !OffBoard(position, row, col)
              && board[TargetIndex(position, row, col)]
  {
    var imp := Impacted(shape, position);
    if Overlaps(board, shape, position) {
      var k :| 0 <= k < |imp| && imp[k] < |board| && board[imp[k]];
      ImpactedMembership(shape, position, imp[k]);
      var row: nat, col: nat :| row < ShapeSideSize && col < ShapeSideSize && shape[row * ShapeSideSize + col]
        && !OffBoard(position, row, col) && TargetIndex(position, row, col) == imp[k];
    }
    if exists row: nat, col: nat :: row < ShapeSideSize && col < ShapeSideSize
         && shape[row * ShapeSideSize + col] && !OffBoard(position, row, col)
              && board[TargetIndex(position, row, col)]
    {
      var row: nat, col: nat :| row < ShapeSideSize && col < ShapeSideSize
        && shape[row * ShapeSideSize + col] && !OffBoard(position, row, col)
              && board[TargetIndex(position, row, col)];
      var x := TargetIndex(position, row, col);
      ImpactedMembership(shape, position, x);
      var k :| 0 <= k < |imp| && imp[k] == x;
    }
  }

  /** An anchor past the last cell puts every filled mask cell off the board, so a non-empty
      shape is out of range there and an empty one fits at the first cell too. Scanning anchors
      0 .. 80 therefore finds a place for the shape whenever any anchor has one. */
  lemma ScanComplete(board: seq<bool>, shape: seq<bool>, position: nat)
    requires |board| == BoardSize && |shape| == ShapeSize
    requires ApplyMoveSpec(board, shape, position).Ok?
    ensures exists p :: 0 <= p < BoardSize && ApplyMoveSpec(board, shape, p).Ok?
  {
    if position >= BoardSize {
      forall m | 0 <= m < ShapeSize
        ensures !shape[m]
      {
        var row, col := m / ShapeSideSize, m % ShapeSideSize;
        assert m == row * ShapeSideSize + col;
        assert (position / BoardSideSize) * BoardSideSize >= BoardSize;
        assert OffBoard(position, row, col);
      }
      assert !OutOfRange(shape, 0);
      var imp := Impacted(shape, 0);
      if |imp| > 0 {
        ImpactedMembership(shape, 0, imp[0]);
        assert false;
      }
      assert ApplyMoveSpec(board, shape, 0).Ok?;
    }
  }
}
