/** Failure-carrying values: `Option` for a lookup or parse that may find
    nothing, `Result` for an operation that raises an exception in Python. */
module Wrappers {

  datatype Option<+T> = None | Some(value: T)

  datatype Result<+T, +E> = Ok(value: T) | Err(error: E)
}
