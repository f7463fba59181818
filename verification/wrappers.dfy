/** Failure-carrying datatypes shared by the whole model. */
module Wrappers {

  /** A value that may be absent: JavaScript's `undefined`/`null` made explicit. */
  datatype Option<+T> = None | Some(value: T)

  /** The outcome of a run that may throw before doing its work. */
  datatype Result<+T, +E> = Success(value: T) | Failure(error: E)
}
