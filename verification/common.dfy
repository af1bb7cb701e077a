/** Shared vocabulary: bytes and the two failure-compatible wrappers the
    rest of the model uses for the source's `Option`, `Result` and thrown
    errors. */
module Common {

  /** An unsigned 8-bit value: Rust's `u8`, one element of a JS `Uint8Array`. */
  newtype byte = x: int | 0 <= x < 256

  type Bytes = seq<byte>

  datatype Option<+T> = None | Some(value: T)

  datatype Result<+T, +E> = Ok(value: T) | Err(error: E)
}
