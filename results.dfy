/**
  The outcomes of operations that may raise. A Python exception becomes a
  `Failure` (or `Raised`) carrying which error was raised; the operation's
  other effects are stated by its contract.
 */
module Results {

  datatype Option<T> = None | Some(value: T)

  datatype Error =
    | ValueError       // a value outside -1, 0, 1, or text that is not a number
    | IndexError       // an index outside the grid or a list
    | RuntimeError     // saving a grid with an unknown cell
    | NotLoaded        // 'Nonogram not loaded'
    | NoSolution       // 'Nonogram has no solution'
    | FormatError      // a puzzle file without exactly nine lines, or a line without ':'
    | GpuWarning       // 'GPU is not recommended for small puzzles'
    | AttributeError   // the grid of a puzzle not loaded is None
    | TypeError        // the height of a puzzle not loaded is None, which `range` refuses

  /** The result of an operation that returns a value. */
  datatype Result<T> = Success(value: T) | Failure(error: Error) {
    predicate IsFailure() {
      Failure?
    }

    function PropagateFailure<U>(): Result<U>
      requires Failure?
    {
      Failure(error)
    }

    function Extract(): T
      requires Success?
    {
      value
    }
  }

  /** The result of an operation that only has effects. */
  datatype Outcome = Done | Raised(error: Error)
}
