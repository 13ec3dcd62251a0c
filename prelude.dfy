/** Types shared by the whole model: Rust's fixed-width integers and its
    Option and Result wrappers. */
module Prelude {

  /** Rust `u8`: an 8-bit value whose shifts drop the bits pushed out. */
  type byte = bv8

  const U32_MAX: int := 0xFFFF_FFFF
  const U64_MAX: int := 0xFFFF_FFFF_FFFF_FFFF

  /** Rust `u32` and `u64`: arithmetic that leaves the range is a panic in a
      debug build, so here it is a proof obligation at every use. */
  newtype u32 = x: int | 0 <= x <= U32_MAX
  newtype u64 = x: int | 0 <= x <= U64_MAX

  datatype Option<T> = None | Some(value: T)

  datatype Result<T, E> = Ok(value: T) | Err(error: E)
}
