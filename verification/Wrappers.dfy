/** The result datatypes and the byte type the rest of the project shares. */
module Wrappers {
  type byte = b: nat | b < 256

  datatype Option<+T> = None | Some(value: T)

  datatype Result<+T, +E> = Ok(value: T) | Err(error: E)
}
