/** Error kinds and the result type shared by the engine. */
module Errors {

  /** One variant per distinct error message the engine returns. */
  datatype MoveError =
    | ShapeAlreadyUsed       // "Invalid move: shape already used"
    | ShapeOutOfRange        // "Invalid move: shape out of range"
    | ShapeOverlapping       // "Invalid move: shape overlapping"
    | TooFewDigits           // "a valid move consists of minimum 2 digits"
    | ShapeIndexOutOfRange   // "Invalid move: shape index out of range"
    | PositionOutOfRange     // "Invalid move: position out of range"

  datatype Result<T> = Ok(value: T) | Err(error: MoveError)

  datatype Option<T> = None | Some(value: T)
}
