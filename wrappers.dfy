/** Option and Result, the two shapes the bid core's outcomes take. */
module Wrappers {

  datatype Option<+T> = None | Some(value: T)

  /** The outcome of an operation that either succeeds with a value or fails with an error. */
  datatype Result<+R, +E> = Ok(value: R) | Err(error: E)
}
