/** Two wrapper datatypes: a value that may be missing, and a result that may be an error. */
module Wrappers {

  /** A value that may be absent; pandas' NaN in a numeric column is `None` here. */
  datatype Option<+T> = None | Some(value: T)

  /** The outcome of an operation that can fail. */
  datatype Result<+T, +E> = Ok(value: T) | Err(error: E)
}
