/** Optional values and error results shared by the model: Python's `None` and raised exceptions. */
module Wrappers {

  /** A value that may be absent, as Python's `Optional[T]`. */
  datatype Option<+T> = None | Some(value: T)

  /** Either a value or the error an operation raises instead of returning. */
  datatype Result<+R, +E> = Success(value: R) | Failure(error: E)
}
