/** Option and Result, the two failure-carrying datatypes the memory model uses. */
module Wrappers {

  /** An optional value: Python's `Optional[T]`, with `None` for an absent argument. */
  datatype Option<+T> = None | Some(value: T)

  /** The outcome of an operation that may raise instead of returning. */
  datatype Result<+R, +E> = Success(value: R) | Failure(error: E)
}
