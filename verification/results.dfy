/** Failures of the engine. The source raises these as JavaScript exceptions;
    the model returns them as values so that every error path is visible. */
module Results {

  datatype Fault =
    | EmptyHistory      // restoreHistory on a piece with no saved snapshot
    | MissingRow        // a write into a row index the grid does not have (TypeError)
    | NotAConstructor   // `new PieceMap[k]()` for a key the map does not hold (TypeError)

  datatype Result<+T> = Ok(value: T) | Fail(fault: Fault)
}
