/** Results and exceptions of the program. Each error names the Python exception
    the corresponding operation raises. */
module Outcomes {

  /** The exceptions the core can raise. */
  datatype Error =
    | ZeroDivisionError    // a float division by zero
    | MathDomainError      // math.sqrt of a negative number (a ValueError)
    | NoProcessingDoneYet  // save or show before any pass has run

  /** A value, or the exception raised instead of returning it. */
  datatype Result<T> = Success(value: T) | Failure(error: Error)

  /** Normal completion of a command, or the exception it raised. */
  datatype Outcome = Pass | Fail(error: Error)

  datatype Option<T> = None | Some(value: T)
}
