/** The game value (`Woodoku`): a board of 81 cells and a batch of three shape slots, with the
    operations that return a new game or a preview instead of changing the old one. */
module Engine {
  import opened Errors
  import opened Board
  import opened Placement
  import opened Clearing
  import opened ShapesBatch
  import opened MoveParsing

  datatype Woodoku = Woodoku(board: seq<bool>, shapesBatch: Batch)

  /** The shape every game keeps: a full-size board and three slots of 5x5 masks. */
  predicate Valid(w: Woodoku) {
    |w.board| == BoardSize && |w.shapesBatch| == ShapesBatchSize && MasksValid(w.shapesBatch)
  }

  /** `new`: an empty board and a freshly drawn batch. */
  method New(catalog: seq<Shape>) returns (w: Woodoku)
    ensures |w.board| == BoardSize && forall i :: 0 <= i < |w.board| ==> !w.board[i]
    ensures IsFreshBatch(catalog, w.shapesBatch)
    ensures ValidCatalog(catalog) ==>
              Valid(w) && forall k :: 0 <= k < |w.shapesBatch| ==>
                            w.shapesBatch[k].Some? && w.shapesBatch[k].value in catalog
  {
    var shapesBatch := GetNewShapesBatch(catalog);
    w := Woodoku(seq(BoardSize, i => false), shapesBatch);
    if ValidCatalog(catalog) {
      FreshBatchFull(catalog, shapesBatch);
    }
  }

  /** The board a move would leave before clearing: the slot must still hold a shape, and the
      shape must fit. */
  function PreviewSpec(w: Woodoku, shapeIx: nat, position: nat): (preview: Result<seq<bool>>)
    requires Valid(w) && shapeIx < |w.shapesBatch|
  {
    match w.shapesBatch[shapeIx]
    case None => Err(ShapeAlreadyUsed)
    case Some(shape) => ApplyMoveSpec(w.board, shape, position)
  }

  /** A copy of the board in a fresh array, as `clone` / `to_owned` make it. */
  method CopyBoard(board: seq<bool>) returns (copy: array<bool>)
    ensures fresh(copy) && copy[..] == board
  {
    copy := new bool[|board|](i requires 0 <= i < |board| => board[i]);
  }

  /** `move_preview`: places the shape on a copy of the board and returns the copy. */
  method MovePreview(w: Woodoku, shapeIx: nat, position: nat) returns (r: Result<seq<bool>>)
    requires Valid(w) && shapeIx < |w.shapesBatch|
    ensures r == PreviewSpec(w, shapeIx, position)
  {
    if w.shapesBatch[shapeIx].None? {
      return Err(ShapeAlreadyUsed);
    }
    var shape := w.shapesBatch[shapeIx].value;
    var board := CopyBoard(w.board);
    var placed := ApplyMove(board, shape, position);
    if placed.Err? {
      return Err(placed.error);
    }
    return Ok(board[..]);
  }

  /** Some anchor on the board takes the shape. */
  predicate Placeable(board: seq<bool>, shape: Shape)
    requires |shape| == ShapeSize
  {
    exists p :: 0 <= p < BoardSize && ApplyMoveSpec(board, shape, p).Ok?
  }

  /** Per slot: it holds a shape and that shape fits somewhere. */
  function ValidShapes(board: seq<bool>, batch: Batch): (valid: seq<bool>)
    requires MasksValid(batch)
    ensures |valid| == |batch|
  {
    seq(|batch|, k requires 0 <= k < |batch| => batch[k].Some? && Placeable(board, batch[k].value))
  }

  /** `get_valid_shapes`: tries every anchor on a fresh copy of the board, stopping at the first
      that succeeds. */
  method GetValidShapes(board: seq<bool>, shapesBatch: Batch) returns (validShapes: seq<bool>)
    requires |board| == BoardSize && MasksValid(shapesBatch)
    ensures validShapes == ValidShapes(board, shapesBatch)
  {
    validShapes := [];
    for k := 0 to |shapesBatch|
      invariant validShapes == ValidShapes(board, shapesBatch)[..k]
    {
      var shapeCanBePlaced := false;
      if shapesBatch[k].Some? {
        var shape := shapesBatch[k].value;
        for boardIx := 0 to BoardSize
          invariant !shapeCanBePlaced
          invariant forall p :: 0 <= p < boardIx ==> !ApplyMoveSpec(board, shape, p).Ok?
        {
          var scratch := CopyBoard(board);
          var placed := ApplyMove(scratch, shape, boardIx);
          if placed.Ok? {
            shapeCanBePlaced := true;
            break;
          }
        }
      }
      validShapes := validShapes + [shapeCanBePlaced];
    }
  }

  /** What `play_move` returns: the preview's error, or the new game, whose board is the preview
      board after clearing and whose batch has the played slot updated, together with which of
      its slots can still be played. */
  ghost predicate IsPlayOutcome(catalog: seq<Shape>, w: Woodoku, shapeIx: nat, position: nat,
                                r: Result<(Woodoku, seq<bool>)>)
    requires Valid(w) && shapeIx < |w.shapesBatch|
  {
    match PreviewSpec(w, shapeIx, position)
    case Err(e) => r == Err(e)
    case Ok(placed) =>
      r.Ok? && r.value.0.board == Cleared(placed)
      && IsBatchUpdate(catalog, w.shapesBatch, shapeIx, r.value.0.shapesBatch)
      && MasksValid(r.value.0.shapesBatch)
      && r.value.1 == ValidShapes(r.value.0.board, r.value.0.shapesBatch)
  }

  /** `play_move`: place the shape on a copy of the board, clear it, update a copy of the batch
      and report the playable slots. The game passed in is a value and stays as it was. */
  method PlayMove(w: Woodoku, shapeIx: nat, position: nat, catalog: seq<Shape>)
    returns (r: Result<(Woodoku, seq<bool>)>)
    requires Valid(w) && shapeIx < |w.shapesBatch| && ValidCatalog(catalog)
    ensures IsPlayOutcome(catalog, w, shapeIx, position, r)
    ensures r.Ok? ==> Valid(r.value.0)
  {
    if w.shapesBatch[shapeIx].None? {
      return Err(ShapeAlreadyUsed);
    }
    var shape := w.shapesBatch[shapeIx].value;
    var board := CopyBoard(w.board);
    var placed := ApplyMove(board, shape, position);
    if placed.Err? {
      return Err(placed.error);
    }
    ClearIndices(board);
    var shapesBatch := UpdateShapesBatch(w.shapesBatch, shapeIx, catalog);
    BatchUpdateFacts(catalog, w.shapesBatch, shapeIx, shapesBatch);
    var validShapes := GetValidShapes(board[..], shapesBatch);
    return Ok((Woodoku(board[..], shapesBatch), validShapes));
  }

  /** `play_move_from_str`: decode the move, then play it. */
  method PlayMoveFromStr(w: Woodoku, mv: string, catalog: seq<Shape>)
    returns (r: Result<(Woodoku, seq<bool>)>)
    requires Valid(w) && ValidCatalog(catalog) && WellFormedMove(mv) && |mv| <= MaxMoveLength
    ensures DecodeMove(mv).Err? ==> r == Err(DecodeMove(mv).error)
    ensures DecodeMove(mv).Ok? ==>
              IsPlayOutcome(catalog, w, DecodeMove(mv).value.0, DecodeMove(mv).value.1, r)
    ensures r.Ok? ==> Valid(r.value.0)
  {
    var parsed := ParseMove(mv);
    if parsed.Err? {
      return Err(parsed.error);
    }
    var (shapeIx, position) := parsed.value;
    r := PlayMove(w, shapeIx, position, catalog);
  }

  /** A played move agrees with its preview: it fails exactly when the preview fails, with the
      same error; otherwise its board is the preview board cleared, which has no full row, column
      or grid and no filled cell the preview board lacks. */
  lemma PlayAgreesWithPreview(catalog: seq<Shape>, w: Woodoku, shapeIx: nat, position: nat,
                              r: Result<(Woodoku, seq<bool>)>)
    requires Valid(w) && shapeIx < |w.shapesBatch| && IsPlayOutcome(catalog, w, shapeIx, position, r)
    ensures r.Err? <==> PreviewSpec(w, shapeIx, position).Err?
    ensures r.Err? ==> r.error == PreviewSpec(w, shapeIx, position).error
    ensures r.Ok? ==>
              var placed := PreviewSpec(w, shapeIx, position).value;
              var board := r.value.0.board;
              board == Cleared(placed) && |board| == BoardSize
              && (forall i :: 0 <= i < BoardSize && board[i] ==> placed[i])
              && (forall row :: 0 <= row < BoardSideSize ==> !RowFull(board, row))
              && (forall col :: 0 <= col < BoardSideSize ==> !ColumnFull(board, col))
              && (forall g0, g1 :: 0 <= g0 < GridSideSize && 0 <= g1 < GridSideSize ==> !GridFull(board, g0, g1))
  {
    if r.Ok? {
      NothingFullAfterClear(PreviewSpec(w, shapeIx, position).value);
    }
  }

  /** A slot is reported playable exactly when it holds a shape that some anchor, on the board or
      past it, accepts. */
  lemma ValidShapesMeaning(board: seq<bool>, batch: Batch, k: nat)
    requires |board| == BoardSize && MasksValid(batch) && k < |batch|
    ensures ValidShapes(board, batch)[k] <==>
            batch[k].Some? && exists p: nat :: ApplyMoveSpec(board, batch[k].value, p).Ok?
  {
    if batch[k].Some? && exists p: nat :: ApplyMoveSpec(board, batch[k].value, p).Ok? {
      var p: nat :| ApplyMoveSpec(board, batch[k].value, p).Ok?;
      ScanComplete(board, batch[k].value, p);
    }
  }

  /** The game is over once no slot is reported playable. */
  predicate GameOver(validShapes: seq<bool>) {
    forall k :: 0 <= k < |validShapes| ==> !validShapes[k]
  }

  /** Game over means that no shape left in the batch fits at any anchor. */
  lemma GameOverMeaning(board: seq<bool>, batch: Batch)
    requires |board| == BoardSize && MasksValid(batch)
    ensures GameOver(ValidShapes(board, batch)) <==>
            forall k: nat, p: nat :: k < |batch| && batch[k].Some? ==> ApplyMoveSpec(board, batch[k].value, p).Err?
  {
    forall k | 0 <= k < |batch| {
      ValidShapesMeaning(board, batch, k);
    }
  }
}
