/** Whole-move behaviour on the boards the engine's own tests build. */
module Scenarios {
  import opened Errors
  import opened Board
  import opened Placement
  import opened Clearing
  import opened ShapesBatch
  import opened MoveParsing
  import opened Engine

  /** A mask whose only filled cell is its top-left one. */
  function SingleSquare(): (square: Shape) {
    [true] + seq(ShapeSize - 1, i => false)
  }

  /** The board after the single square has been played at 0, 1, ..., n - 1: the cells of n's
      row before n are filled, everything else is empty. */
  function SweepBoard(n: nat): (swept: seq<bool>) {
    seq(BoardSize, i => (n / 9) * 9 <= i < n)
  }

  lemma SingleSquarePlacement(n: nat)
    requires n < BoardSize
    ensures ApplyMoveSpec(SweepBoard(n), SingleSquare(), n) == Ok(SweepPlaced(n))
  {
    var sq := SingleSquare();
    forall row: nat, col: nat | row < ShapeSideSize && col < ShapeSideSize && (row, col) != (0, 0)
      ensures !sq[row * ShapeSideSize + col]
    {
      assert row * ShapeSideSize + col > 0;
    }
    assert !OffBoard(n, 0, 0);
    assert !OutOfRange(sq, n);
    var imp := Impacted(sq, n);
    forall x
      ensures x in imp <==> x == n
    {
      ImpactedMembership(sq, n, x);
      if x == n {
        assert sq[0 * ShapeSideSize + 0] && !OffBoard(n, 0, 0) && TargetIndex(n, 0, 0) == x;
      }
    }
    forall k | 0 <= k < |imp|
      ensures imp[k] == n
    {
      assert imp[k] in imp;
    }
    assert !Overlaps(SweepBoard(n), sq, n);
    var filled := Fill(SweepBoard(n), imp);
    forall i | 0 <= i < BoardSize
      ensures filled[i] == ((n / 9) * 9 <= i <= n)
    {
      assert filled[i] == (SweepBoard(n)[i] || i in imp);
    }
    assert filled == SweepPlaced(n);
    assert ApplyMoveSpec(SweepBoard(n), sq, n) == Ok(filled);
  }

  /** SweepBoard(n) with the single square played at n: cells (n / 9) * 9 .. n filled. */
  function SweepPlaced(n: nat): (placed: seq<bool>) {
    seq(BoardSize, i => (n / 9) * 9 <= i <= n)
  }

  /** A cell outside n's row is empty in SweepPlaced(n). */
  lemma OffRowEmpty(n: nat, row: nat, col: nat)
    requires n < BoardSize && row < 9 && col < 9 && row != n / 9
    ensures !SweepPlaced(n)[row * 9 + col]
  {
    var r := n / 9;
    if row < r {
      assert row * 9 + 9 <= r * 9;
    } else {
      assert r * 9 + 9 <= row * 9;
    }
  }

  /** n's row is full in SweepPlaced(n) exactly when n is its last cell. */
  lemma SweepRowFull(n: nat)
    requires n < BoardSize
    ensures RowFull(SweepPlaced(n), n / 9) <==> n % 9 == 8
  {
    var b, r := SweepPlaced(n), n / 9;
    AllSetMeaning(b, RowIndices(r));
    if n % 9 == 8 {
      forall k | 0 <= k < 9 ensures b[RowIndices(r)[k]] {
        assert RowIndices(r)[k] == r * 9 + k;
      }
    } else {
      assert !b[n + 1] && RowIndices(r)[n % 9 + 1] == n + 1;
    }
  }

  /** No column is full in SweepPlaced(n): each has an empty cell in another row. */
  lemma SweepColumnNotFull(n: nat, c: nat)
    requires n < BoardSize && c < 9
    ensures !ColumnFull(SweepPlaced(n), c)
  {
    var other := (n / 9 + 1) % 9;
    AllSetMeaning(SweepPlaced(n), ColumnIndices(c));
    assert ColumnIndices(c)[other] == other * 9 + c;
    OffRowEmpty(n, other, c);
  }

  /** No grid is full in SweepPlaced(n): each has an empty cell in a row other than n's. */
  lemma SweepGridNotFull(n: nat, g0: nat, g1: nat)
    requires n < BoardSize && g0 < 3 && g1 < 3
    ensures !GridFull(SweepPlaced(n), g0, g1)
  {
    var gr := if g0 * 3 == n / 9 then 1 else 0;
    GridIndexAt(g0, g1, gr, 0);
    assert g0 * 27 + g1 * 3 + gr * 9 == (g0 * 3 + gr) * 9 + g1 * 3;
    OffRowEmpty(n, g0 * 3 + gr, g1 * 3);
    AllSetMeaning(SweepPlaced(n), GridIndices(g0, g1));
  }

  /** A filled cell of SweepPlaced(n) lies in a full region exactly when n's row is complete. */
  lemma SweepFullSets(n: nat, i: nat)
    requires n < BoardSize && (n / 9) * 9 <= i <= n
    ensures InFullSet(SweepPlaced(n), i) <==> n % 9 == 8
  {
    assert i / 9 == n / 9;
    SweepRowFull(n);
    SweepColumnNotFull(n, i % 9);
    CellGrid(i);
    SweepGridNotFull(n, GridOf(i).0, GridOf(i).1);
  }

  /** Playing the single square at n on SweepBoard(n) gives SweepBoard(n + 1): the row grows by
      one cell, and is emptied once its last cell is played. */
  lemma SingleSquareSweepStep(n: nat)
    requires n < BoardSize
    ensures Cleared(SweepPlaced(n)) == SweepBoard(n + 1)
  {
    var placed := SweepPlaced(n);
    if n % 9 == 8 {
      assert (n + 1) / 9 * 9 == n + 1;
    } else {
      assert (n + 1) / 9 == n / 9;
    }
    forall i | 0 <= i < BoardSize
      ensures Cleared(placed)[i] == SweepBoard(n + 1)[i]
    {
      ClearedCell(placed, i);
      if placed[i] {
        SweepFullSets(n, i);
      }
    }
  }

  /** The sweep played through the engine: with only the single square in the batch, the move
      written "0" followed by n (which DecodeEncode decodes to slot 0, position n) succeeds on
      SweepBoard(n) and leaves SweepBoard(n + 1); after the 81st move the board is empty again. */
  lemma SingleSquareSweep(catalog: seq<Shape>, n: nat, r: Result<(Woodoku, seq<bool>)>)
    requires n < BoardSize
    requires IsPlayOutcome(catalog, Woodoku(SweepBoard(n), [Some(SingleSquare()), None, None]), 0, n, r)
    ensures r.Ok? && r.value.0.board == SweepBoard(n + 1)
    ensures n == BoardSize - 1 ==> forall i :: 0 <= i < BoardSize ==> !r.value.0.board[i]
  {
    SingleSquarePlacement(n);
    SingleSquareSweepStep(n);
  }

  /** One step of the sweep as the engine's test writes it: the move string is "0" followed by
      the decimal position, played through `play_move_from_str`. */
  method PlaySweepMove(catalog: seq<Shape>, n: nat) returns (r: Result<(Woodoku, seq<bool>)>)
    requires ValidCatalog(catalog) && n < BoardSize
    ensures r.Ok? && r.value.0.board == SweepBoard(n + 1)
    ensures n == BoardSize - 1 ==> forall i :: 0 <= i < BoardSize ==> !r.value.0.board[i]
  {
    var w := Woodoku(SweepBoard(n), [Some(SingleSquare()), None, None]);
    DecodeEncode(0, n);
    r := PlayMoveFromStr(w, EncodeMove(0, n), catalog);
    SingleSquareSweep(catalog, n, r);
  }
}
