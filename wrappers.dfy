/** Optional values and results with an error, shared by the solver's modules. */
module Wrappers {

  /** A value that may be absent, as Python's `None` is for a cell's value. */
  datatype Option<+T> = None | Some(value: T)

  /** The outcome of an operation that either returns a value or raises an error. */
  datatype Result<+R, +E> = Success(value: R) | Failure(error: E)
}
