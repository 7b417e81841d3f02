/** The result of a native call: a value, or the error code it reported. */
module Wrappers {

  datatype Result<+T, +E> = Ok(value: T) | Err(error: E)
}
