/** Option and Result, the two failure-carrying shapes used across the model. */
module Wrappers {

  /** `None` stands for JavaScript's `undefined` (a missing array element,
      a missing header) or for NaN where a number is expected. */
  datatype Option<+T> = None | Some(value: T)

  /** An operation that either yields a value or throws. */
  datatype Result<+T, +E> = Ok(value: T) | Err(error: E)
}
