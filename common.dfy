/** Value types shared by the modules of this model. */
module Common {

  /** One octet, as held by a Python `bytes` object. */
  type byte = b: int | 0 <= b < 256

  datatype Option<+T> = None | Some(value: T)

  /** The outcome of a step that may raise, as a value. */
  datatype Result<+T, +E> = Ok(value: T) | Err(error: E)
}
