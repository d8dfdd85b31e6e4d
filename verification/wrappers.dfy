/** Failure-carrying result types shared by the whole model. */
module Wrappers {

  /** A value that may be absent: the source's `X | None`. */
  datatype Option<+T> = None | Some(value: T)

  /** The outcome of an operation that returns nothing or raises. */
  datatype Outcome<+E> = Pass | Fail(error: E)

  /** The outcome of an operation that returns a value or raises. */
  datatype Result<+R, +E> = Success(value: R) | Failure(error: E)
}
