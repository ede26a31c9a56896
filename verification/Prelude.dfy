/** Result and option types, and the byte type, shared by every component. */
module Prelude {

  datatype Option<+T> = None | Some(value: T)

  datatype Result<+T, +E> = Ok(value: T) | Err(error: E)

  /** One element of a Python `bytes` value. */
  type Byte = b: int | 0 <= b < 256
}
