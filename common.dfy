/** Small shared vocabulary: octets and the Option/Result wrappers used by the codec. */
module Common {

  /** An unsigned 8-bit value (Rust's `u8`). */
  type Byte = b: int | 0 <= b < 256

  datatype Option<+T> = None | Some(value: T)

  /** Success or failure of a fallible operation; `E` describes the failure. */
  datatype Result<+T, +E> = Ok(value: T) | Err(error: E)
}
