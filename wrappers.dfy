/** Option and Result datatypes shared by the rotator and the dispatcher. */
module Wrappers {

  /** An optional value: TypeScript's `T | null`. */
  datatype Option<+T> = None | Some(value: T)

  /** A value or the message of the error that was thrown instead. */
  datatype Result<+T, +E> = Success(value: T) | Failure(error: E)
}
