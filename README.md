# Woodoku engine in Dafny

This project models the Woodoku rule engine, the `Woodoku` struct of `woodoku-lib/src/lib.rs`.

- **Board.** The board is 81 cells. Nine rows, nine columns and nine 3x3 grids partition it.
- **Batch.** The player is offered three slots, each holding a 5x5 shape mask or nothing.
- **A move** names a slot and an anchor cell.
  - `apply_move` maps the mask onto the board relative to the anchor. It refuses masks that would run off the bottom or wrap past the right edge. It also refuses masks that cover a filled cell.
  - `clear_indices` then empties every full row, column and grid.
  - `update_shapes_batch` marks the slot used. Once all three slots are used it draws a fresh batch.
  - `get_valid_shapes` reports which slots can still be played somewhere.
- **Move strings.** `parse_move` decodes strings such as `"042"`: slot 0, anchor 42.

## Modules

- `Board` (board.dfy) holds the engine constants, the three partitions and the scan-order functions `FullRegions`/`FullGrids`. It also proves the grid fixture.
- `Placement` (placement.dfy) holds `apply_move` as an in-place method on an `array<bool>`. It is proved against the value-level function `ApplyMoveSpec`. `ScratchAfterMove` describes what the method leaves in the array on every path, including errors.
- `Clearing` (clearing.dfy) holds the three scans, `get_indices_to_clear_with_duplicates` and the in-place `clear_indices`. They are proved against `IndicesToClear` and `Cleared`.
- `ShapesBatch` (batch.dfy) holds the batch refill and update.
  - The shape catalog is a parameter.
  - The random draw is a nondeterministic choice of distinct catalog positions.
- `MoveParsing` (parsing.dfy) holds `parse_move`, its decoding function and an encoder for the round trip.
- `Engine` (woodoku.dfy) holds the `Woodoku` value with `new`, `move_preview`, `play_move`, `play_move_from_str` and `get_valid_shapes`, plus game over.
- `Scenarios` (scenarios.dfy) models the engine's single-square sweep test.

How the Rust source maps to Dafny:

- **Values and clones.** `Woodoku` derives `Clone`, and its public operations take `&self` and return new values. So it is a datatype here. `play_move`, `move_preview` and `get_valid_shapes` copy the board into a fresh array, as the source's `clone`/`to_owned` do. The game passed in is a value, so an error cannot change it.
- **Helper methods.** `apply_move` is written as two methods, one per loop:
  - `CoveredCells` is the first loop. It takes no board, so the out-of-range test is done before any write by construction.
  - `FillCells` is the write loop.
  
  In the same way, the two inner and the second loop of `get_grids_indices_to_clear` are the methods `GridCells` and `GridRowIndicesToClear`.
- **Errors.** The `anyhow` error messages become the variants of `Errors.MoveError`.

## Model

| member | source | states |
|---|---|---|
| Engine.New | woodoku-lib/src/lib.rs:26-31 | the board is 81 empty cells; the batch is a fresh draw; from a valid catalog all three slots hold catalog masks (the `fn_new_should_succeed` test, lines 255-273) |
| Engine.PlayMoveFromStr | woodoku-lib/src/lib.rs:33-36 | a string that does not decode fails with the decoding error; otherwise the result is exactly that of playing the decoded move |
| Engine.PlayMove | woodoku-lib/src/lib.rs:38-65 | the preview's error, or a game whose board is the preview board after clearing, whose batch is the slot update and whose valid-shape list is `ValidShapes` of the new game; the new game keeps 81 cells and three 5x5 slots |
| Engine.MovePreview | woodoku-lib/src/lib.rs:67-78 | a used slot fails with ShapeAlreadyUsed; otherwise the result is `ApplyMoveSpec` on the game's board |
| Engine.PlayAgreesWithPreview | woodoku-lib/src/lib.rs:38-78 | a move fails exactly when its preview fails, with the same error; on success its board is the preview board cleared, has no cell the preview lacks, and has no full row, column or grid |
| Engine.GetValidShapes | woodoku-lib/src/lib.rs:232-248 | the flag-and-break scan over anchors 0..80 on fresh copies returns exactly `ValidShapes` |
| Engine.ValidShapesMeaning | woodoku-lib/src/lib.rs:232-248 | slot k is reported playable iff it holds a shape that some anchor, on the board or past it, accepts, so scanning 0..80 loses nothing |
| Engine.GameOverMeaning | woodoku-ui/src/main.rs:67 | the caller's game over (every flag false) holds iff no remaining shape is accepted at any anchor |
| MoveParsing.ParseMove | woodoku-lib/src/lib.rs:80-110 | the loop that accumulates digit times power of ten from the last digit computes `DecodeMove`: too short, then slot index 3 or more, then position 81 or more, in that order, else (first digit, decimal value of the rest) |
| MoveParsing.DecodeEncode | woodoku-lib/src/lib.rs:80-110 | every slot below 3 and position below 81, written as slot digit plus decimal position, is a well-formed move that decodes back to that slot and position |
| MoveParsing.DecimalValueSnoc | woodoku-lib/src/lib.rs:98-103 | appending a digit multiplies the value by ten and adds the digit |
| MoveParsing.DecimalStringDigits | woodoku-lib/src/lib.rs:322-325 | the decimal writing of n used to build the sweep's moves is all digits and denotes n |
| Placement.CoveredCells | woodoku-lib/src/lib.rs:114-142 | fails, with ShapeOutOfRange, iff some filled mask cell falls past the bottom or wraps past the right edge; otherwise returns exactly the target cells of the filled mask cells in row-major order; it cannot touch the board |
| Placement.FillCells | woodoku-lib/src/lib.rs:144-151 | succeeds iff no listed cell was filled; fails with ShapeOverlapping otherwise; the array afterwards has exactly the listed cells before the first already-filled one added |
| Placement.ApplyMove | woodoku-lib/src/lib.rs:112-154 | result and error agree with `ApplyMoveSpec`; on success the array is the filled board; on every path the array is `ScratchAfterMove`: untouched on out-of-range, partly filled on overlap |
| Placement.FirstFilled | woodoku-lib/src/lib.rs:145-150 | the position of the first already-filled cell in the list (or the list's length): nothing before it is filled, and it is filled |
| Placement.OverlapScratch | woodoku-lib/src/lib.rs:145-150 | on overlap the array written into is left unchanged iff the first covered cell is the filled one; otherwise it keeps the covered cells visited before |
| Placement.PlacementFillsImpacted | woodoku-lib/src/lib.rs:129-151 | a successful placement sets exactly the covered cells, all of which were empty, and leaves every other cell as it was |
| Placement.OverlapIffFilledTarget | woodoku-lib/src/lib.rs:129-150 | within range, ShapeOverlapping is returned iff some filled mask cell lands on a filled board cell |
| Placement.ImpactedMembership | woodoku-lib/src/lib.rs:118-139 | a cell is covered iff it is `(position/9)*9 + row*9 + position%9 + col` for a filled, on-board mask cell (row, col); covered cells are on the board |
| Placement.ImpactedRowsIncreasing | woodoku-lib/src/lib.rs:115-140 | the covered cells come out in strictly increasing order, so no cell is listed twice |
| Placement.FitsIffInRange | woodoku-lib/src/lib.rs:130-135 | the first loop's row-by-row edge test accepts the mask iff no filled mask cell is off the board |
| Placement.OutOfRangeFromRowTail | woodoku-lib/src/lib.rs:130-133 | once a mask cell is past an edge, a filled cell anywhere in the rest of its mask row makes the mask out of range |
| Placement.NoWrap | woodoku-lib/src/lib.rs:118-130 | an on-board mask cell lands `row` board rows below and `col` columns right of the anchor, inside the board |
| Placement.ScanComplete | woodoku-lib/src/lib.rs:237-243 | a shape accepted at some anchor is accepted at some anchor in 0..80 |
| Clearing.GetRowsIndicesToClear | woodoku-lib/src/lib.rs:171-181 | appends, in row order, the nine indices of every full row and nothing else |
| Clearing.GetColumnsIndicesToClear | woodoku-lib/src/lib.rs:183-192 | appends, in column order, the nine indices of every full column and nothing else |
| Clearing.GridCells | woodoku-lib/src/lib.rs:198-205 | the two inner loops build exactly `GridIndices(g0, g1)` |
| Clearing.GridRowIndicesToClear | woodoku-lib/src/lib.rs:197-209 | appends, left to right, the indices of every full grid of one grid row |
| Clearing.GetGridsIndicesToClear | woodoku-lib/src/lib.rs:194-211 | appends, in row-major grid order, the indices of every full grid and nothing else |
| Clearing.GetIndicesToClearWithDuplicates | woodoku-lib/src/lib.rs:163-169 | full rows, then full columns, then full grids, all read from the same board, duplicates kept |
| Clearing.ClearIndices | woodoku-lib/src/lib.rs:156-161 | the array afterwards is `Cleared` of the array before |
| Clearing.IndicesToClearMembership | woodoku-lib/src/lib.rs:163-211 | a cell is collected iff it lies in a full row, column or grid |
| Clearing.FullRowsMembership | woodoku-lib/src/lib.rs:171-181 | the row scan collects exactly the cells of full rows |
| Clearing.FullColumnsMembership | woodoku-lib/src/lib.rs:183-192 | the column scan collects exactly the cells of full columns |
| Clearing.FullGridsCellMembership | woodoku-lib/src/lib.rs:194-211 | the grid scan collects exactly the cells of full grids |
| Clearing.ClearedCell | woodoku-lib/src/lib.rs:156-161 | after clearing a cell is filled iff it was filled and lay in no full row, column or grid |
| Clearing.NotFullAfterClear | woodoku-lib/src/lib.rs:156-211 | a set of cells that is full before clearing has every cell emptied; one that was not full keeps an empty cell; either way it is not full afterwards |
| Clearing.NothingFullAfterClear | woodoku-lib/src/lib.rs:156-211 | after clearing no row, no column and no grid is full |
| Clearing.ClearIdempotent | woodoku-lib/src/lib.rs:156-211 | clearing a cleared board changes nothing |
| Clearing.SingleGridScan | woodoku-lib/src/lib.rs:276-309 | on a board where exactly one grid is filled the grid scan returns that grid's indices and nothing else, for each of the nine grids |
| Clearing.RowRange | woodoku-lib/src/lib.rs:173-177 | the slice test `board[r*9 .. r*9+9]` all true is the row-full test, and `r*9 .. r*9+9` is row r |
| Board.GridsFixture | woodoku-lib/src/lib.rs:276-309 | the nine grid index lists pinned by `fn_get_grids_indices_to_clear_should_succeed` |
| Board.GridMembership | woodoku-lib/src/lib.rs:194-211 | a cell is in grid (g0, g1) iff it is on the board and `GridOf` gives (g0, g1), so the grids partition the board |
| Board.RowMembership | woodoku-lib/src/lib.rs:171-181 | a cell is in row r iff it is on the board and `i / 9 == r` |
| Board.ColumnMembership | woodoku-lib/src/lib.rs:183-192 | a cell is in column c iff it is on the board and `i % 9 == c` |
| Board.FullRowsScanMembership | woodoku-lib/src/lib.rs:171-181 | the first n rows of the scan collect exactly the cells of the full rows among them |
| Board.FullColumnsScanMembership | woodoku-lib/src/lib.rs:183-192 | the first n columns of the scan collect exactly the cells of the full columns among them |
| Board.FullGridsMembership | woodoku-lib/src/lib.rs:194-211 | the first g0 grid rows of the scan collect exactly the cells of the full grids among them |
| Board.AllSetMeaning | woodoku-lib/src/lib.rs:188 | the front-to-back full test holds iff every listed cell is on the board and filled |
| ShapesBatch.GetNewShapesBatch | woodoku-lib/src/lib.rs:220-225 | a batch of min(3, catalog size) slots, from distinct catalog positions, each Some |
| ShapesBatch.UpdateShapesBatch | woodoku-lib/src/lib.rs:213-218 | the played slot becomes None, and the batch is redrawn exactly when no slot is left |
| ShapesBatch.BatchUpdateFacts | woodoku-lib/src/lib.rs:213-218 | the batch keeps three slots of 5x5 masks; the played slot is Some afterwards iff it was the last slot left, in which case all three are catalog masks; otherwise it is None and every other slot is unchanged |
| ShapesBatch.FreshBatchFull | woodoku-lib/src/lib.rs:220-225 | a fresh draw from a catalog of at least three masks fills all three slots with catalog masks |
| Scenarios.SingleSquarePlacement | woodoku-lib/src/lib.rs:312-350 | in the sweep, placing the single square at n fills exactly cell n |
| Scenarios.SweepFullSets | woodoku-lib/src/lib.rs:312-350 | during the sweep a filled cell is in a full row, column or grid iff n ends its row |
| Scenarios.SingleSquareSweepStep | woodoku-lib/src/lib.rs:312-350 | clearing after the n-th placement gives the board of the next step |
| Scenarios.SingleSquareSweep | woodoku-lib/src/lib.rs:312-350 | with only the single square in the batch, the move to n succeeds and leaves the cells from n's row start through n filled and all else empty, or the whole board empty when n ends a row; after move 80 the board is empty |
| Scenarios.PlaySweepMove | woodoku-lib/src/lib.rs:318-329 | the move string "0" followed by n, played through `play_move_from_str` on the sweep board, succeeds and leaves the sweep board of step n + 1, an empty board after the last move |

## Left out

- **Randomness.** `get_new_shapes_batch` draws with `rand::thread_rng().choose_multiple`. Here the draw is a nondeterministic choice over distinct catalog positions, so the model says which batches are possible, not how likely each is.
- **The catalog.** `get_all_possible_shapes` reads `data/shapes.json` with `include_str!` and `serde_json`. Here it is a parameter. `ValidCatalog` assumes at least three masks of 25 cells, since the JSON file is not part of this model.
- **Panics in `parse_move`.** These are preconditions of `ParseMove` and `PlayMoveFromStr`, not behaviour:
  - The `expect` panics on a non-digit. The move must be ASCII (so that `len()` counts characters) and all digits once its length is at least 2.
  - `10_usize.pow` and `+=` can overflow on long inputs. The move is at most 20 characters; the 19 position digits then fit a 64-bit `usize` at every step.
  - On a 32-bit target the limit would be 10 characters. It is not modelled.
- **Panics on a bad slot index.** `play_move` and `move_preview` panic when `shape_ix` is not a slot index. This is the precondition `shapeIx < |batch|`.
- **Position overflow.** In `apply_move` the position is an unbounded `nat` here. A `usize` position near `usize::MAX` would overflow `q1 + q2 + q3 + q4`. No caller passes one. The parser bounds positions below 81. `get_valid_shapes` uses 0..80. The UI's direct `play_move` and `move_preview` calls (woodoku-ui/src/main.rs:85 and :109) pass `slot.saturating_sub(offset)`, where `slot` is a board cell index (woodoku-ui/src/components/board.rs:61-69), so at most 80.
- **The two-shape grid test** (`fn_apply_move_internal_should_succeed_fill_grid_with_two_shapes`, lines 352-382) is not restated as a concrete lemma. Its property is covered for all boards by `Clearing.ClearedCell` and `Clearing.NothingFullAfterClear`.
- **Callers written against another library revision.** Scoring, streaks, a `game_over` field, a `Shape` struct and `get_grid_indices` appear only in the UI and Python sources, which are written against a different version of the library. Game over is modelled as the caller derives it from `get_valid_shapes`.
- **Other crates.**
  - The Yew UI (rendering, callbacks, the preview diff).
  - The PyO3 binding (boolean to 0/1 conversion).
  - The Python DQN agent and environment.
- **Overlap changes the slice it was given.** `apply_move` writes cells one by one and stops at the first filled one, so on ShapeOverlapping the slice can be left partly filled. This is modelled as it is (`Placement.ScratchAfterMove`, `Placement.OverlapScratch`) rather than as an untouched board. Callers never see it, because `play_move`, `move_preview` and `get_valid_shapes` pass a copy.
