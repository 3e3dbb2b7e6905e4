/** Option and Result values used for the nullable returns and exceptions of the source. */
module Wrappers {

  datatype Option<+T> = None | Some(value: T)

  /** A computation that either yields a value or fails with an error message (a thrown exception). */
  datatype Result<+T> = Success(value: T) | Failure(error: string)
}
