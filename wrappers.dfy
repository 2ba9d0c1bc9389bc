/** Option and Result values used in place of Python's `None` and raised exceptions. */
module Wrappers {

  datatype Option<+T> = None | Some(value: T)

  /** `Failure(message)` stands for an exception whose `str(e)` is `message`. */
  datatype Result<+R, +E> = Success(value: R) | Failure(error: E)
}
