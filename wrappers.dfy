/** Option and Outcome: the two failure-carrying shapes the model needs. */
module Wrappers {

  datatype Option<+T> = None | Some(value: T)

  /** The result of an operation that either returns normally or raises `error`. */
  datatype Outcome<+E> = Pass | Fail(error: E)

  /** The result of an operation that either returns `value` or raises `error`. */
  datatype Result<+T, +E> = Success(value: T) | Failure(error: E)
}
