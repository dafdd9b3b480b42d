/** Small shared vocabulary: optional values, fallible results and bytes. */
module Common {

  /** Rust's `Option<T>`. */
  datatype Option<+T> = None | Some(value: T)

  /** Rust's `Result<T, E>`. */
  datatype Result<+T, +E> = Ok(value: T) | Err(error: E)

  /** An unsigned 8-bit value (`u8`). */
  type byte = b: int | 0 <= b < 256

  function Min(a: int, b: int): int
  {
    if a <= b then a else b
  }
}
