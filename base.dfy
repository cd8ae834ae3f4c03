/** Scalar types and the optional value returned by an iterator. */
module Base {

  /** Rust `u8`: one byte of a string's UTF-8 encoding. */
  newtype u8 = x: int | 0 <= x < 0x100

  /** Rust `u64`: the primitive element type of the columnar buffers. */
  newtype u64 = x: int | 0 <= x < 0x1_0000_0000_0000_0000

  /** Rust `Option<T>`, as returned by `Iterator::next` and `size_hint`. */
  datatype Option<T> = None | Some(value: T)
}
