/** Small value types shared by the block cache, the bitmap allocator and the pipe. */
module Types {
  /** One byte of storage, the source's `u8`. */
  type byte = b: int | 0 <= b < 256

  /** The source's `Option<T>`. */
  datatype Option<T> = None | Some(value: T)
}
