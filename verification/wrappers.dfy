/** Failure-carrying datatypes shared by the component model. */
module Wrappers {

  /** A value that may be absent; stands for JavaScript's `undefined`/`null`. */
  datatype Option<+T> = None | Some(value: T)

  /** Either a value or the error that stopped the computation. */
  datatype Result<+R, +E> = Success(value: R) | Failure(error: E)
}
