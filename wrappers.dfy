/** The result of an operation that can raise: the value, or the error raised. */
module Wrappers {

  datatype Result<+T, +E> = Ok(value: T) | Err(error: E)
}
