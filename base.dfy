/** Small value types shared by every module of the model. */
module Base {

  /** Largest value of Rust's `u32`, the type of every todo and user id. */
  const MaxU32: int := 0xFFFF_FFFF

  type U32 = x: int | 0 <= x <= 0xFFFF_FFFF

  datatype Option<+T> = None | Some(value: T)

  datatype Result<+T, +E> = Ok(value: T) | Err(error: E)
}
