/** Option and Result, the error-carrying values the rest of the model returns
    where the Python code raises or returns None. */
module Wrappers {

  datatype Option<+T> = None | Some(value: T)

  datatype Result<+T, +E> = Ok(value: T) | Err(error: E)
}
