/** Option and Result, the two failure-carrying types the model uses. */
module Wrappers {

  /** `None` stands for a missing (NaN / null) value. */
  datatype Option<+T> = None | Some(value: T)

  /** The outcome of an operation that can raise. */
  datatype Result<+T, +E> = Ok(value: T) | Err(error: E)

  /** The outcome of an operation that only changes state and can raise. */
  datatype Outcome<+E> = Pass | Fail(error: E)
}
