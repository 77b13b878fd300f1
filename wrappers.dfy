/** Option and Result, the two failure-carrying wrappers the model uses. */
module Wrappers {

  /** A value that may be absent: pandas' NaN / Python's None become `None`. */
  datatype Option<+T> = None | Some(value: T)

  /** Either a value or the exception the Python code raises instead of returning. */
  datatype Result<+T, +E> = Ok(value: T) | Err(error: E)
}
