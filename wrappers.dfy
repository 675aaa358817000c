/** Option and Result, the two shapes the engine's operations return. */
module Wrappers {

  /** A value that may be absent (Python's `None`). */
  datatype Option<+T> = None | Some(value: T)

  /** A value or the exception the Python code would raise instead. */
  datatype Result<+T, +E> = Ok(value: T) | Err(error: E)

  /** The exceptions the Python code raises on the paths the model covers. */
  datatype Fault<+S> = KeyError(key: S) | IndexError | AttributeError
}
