/** Optional values and success-or-error values, used wherever the modelled
    Python code returns "nothing" or raises. */
module Common {

  datatype Option<+T> = None | Some(value: T)

  datatype Result<+T, +E> = Ok(value: T) | Err(error: E)

  /** A Python `bytes` element. */
  type byte = x: int | 0 <= x < 256
}
