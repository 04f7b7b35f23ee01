/** Failure-carrying values shared by the other modules. */
module Wrappers {

  /** A value that may be absent: a missing request field, an unauthenticated session. */
  datatype Option<+T> = None | Some(value: T)

  /** The outcome of a statement that can fail, such as an INSERT that violates a constraint. */
  datatype Result<+T, +E> = Success(value: T) | Failure(error: E)
}
