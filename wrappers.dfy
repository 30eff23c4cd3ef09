/** Failure-carrying values used in place of Python's `None` and raised exceptions. */
module Wrappers {

  datatype Option<+T> = None | Some(value: T)

  /** `Err` stands for a `ValueError` raised by the source. */
  datatype Result<+T, +E> = Ok(value: T) | Err(error: E)
}
