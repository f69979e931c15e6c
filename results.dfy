/** The errors the board and its cells raise, and the wrappers that carry them. */
module Results {

  /** Every failure the core raises; each is a RuntimeError in the original. */
  datatype Error =
    | InvalidCoordinates(x: int, y: int)
    | MineAlreadyPlaced(x: int, y: int)
    | UncoveredCannotBeFlagged
    | InvalidMineCount(requested: int, fieldCount: int)

  datatype Result<+T> = Ok(value: T) | Err(error: Error)

  datatype Option<+T> = None | Some(value: T)
}
