/** Rust's fixed-width integer types, as Dafny newtypes over `int`. */
module FixedWidth {

  /** 2^32: the number of values of a `u32`, and of a `usize` on the 32-bit
      WebAssembly target the module is built for. */
  const U32_MODULUS: int := 0x1_0000_0000

  const I32_MIN: int := -0x8000_0000
  const I32_MAX: int := 0x7FFF_FFFF

  /** Rust `u8`, also one byte of a UTF-8 encoded string. */
  newtype byte = x: int | 0 <= x < 0x100

  /** Rust `u32`. */
  newtype u32 = x: int | 0 <= x < 0x1_0000_0000

  /** Rust `i32`. */
  newtype i32 = x: int | -0x8000_0000 <= x < 0x8000_0000
}
