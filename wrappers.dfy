/** Small failure-carrying datatypes shared by every module. */
module Wrappers {

  /** A value that may be absent: C#'s nullable references (`string?`). */
  datatype Option<+T> = None | Some(value: T)

  /** An operation that either produced a value or raised an exception. */
  datatype Result<+T, +E> = Success(value: T) | Failure(error: E)

  /** A scan that either ran to the end or observed a cancellation request
      (an `OperationCanceledException` that its caller catches). */
  datatype Scan<+T> = Completed(value: T) | Cancelled
}
