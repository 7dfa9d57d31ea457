/** Failure-carrying datatypes shared by every module of the model.
    Java exceptions thrown by the original code are modelled as `Failure`
    values naming the exception class; Java `null` arguments as `None`. */
module Wrappers {

  /** A value that may be absent (Java `null`). */
  datatype Option<+T> = None | Some(value: T)

  /** The Java exception classes the modelled code throws. */
  datatype Error =
    | IllegalArgument      // java.lang.IllegalArgumentException
    | NoSuchElement        // java.util.NoSuchElementException
    | IndexOutOfBounds     // java.lang.IndexOutOfBoundsException
    | Unsupported          // java.lang.UnsupportedOperationException

  /** Either a normal return value or the exception that was thrown. */
  datatype Result<+R> = Success(value: R) | Failure(error: Error)

  /** The outcome of a Java `void` method: it returns or throws. */
  datatype Outcome = Pass | Fail(error: Error)
}
