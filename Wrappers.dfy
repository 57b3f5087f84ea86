/** Failure-carrying wrappers used across the model. */
module Wrappers {

  /** A value that may be absent; `None` stands for pandas' NaN / missing marker. */
  datatype Option<+T> = None | Some(value: T)

  /** The outcome of a step of the dashboard script that can raise. */
  datatype Result<+T, +E> = Ok(value: T) | Err(error: E)
}
