/** Optional values and success-or-error results, for Python's `None` and for raised exceptions. */
module Wrappers {

  /** Python's `Optional[T]`: `None` or a value. */
  datatype Option<+T> = None | Some(value: T)

  /** A computation that returns a value or raises an error. */
  datatype Result<+R, +E> = Success(value: R) | Failure(error: E)

  /** A computation that returns nothing (`None`) or raises an error. */
  datatype Outcome<+E> = Pass | Fail(error: E)
}
