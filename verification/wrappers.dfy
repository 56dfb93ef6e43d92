/** Failure-carrying result types used where `euler_filter.py` returns `None` or an error string. */
module Wrappers {

  datatype Option<+T> = None | Some(value: T)

  /** A value, or the error message `euler_filter.py` would hand back instead. */
  datatype Result<+R> = Success(value: R) | Failure(error: string)
}
