/** The exceptions the Python code can raise on its own inputs, made explicit. */
module Outcomes {

  datatype PyError = IndexError | KeyError | ValueError

  /** A value, or the exception that the source would have raised instead. */
  datatype Result<T> = Ok(value: T) | Err(error: PyError)
}
