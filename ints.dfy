/** Fixed-width integers of the source, as bounded subsets of `int`. */
module Ints {
  type i32 = x: int | -0x8000_0000 <= x < 0x8000_0000
  type i64 = x: int | -0x8000_0000_0000_0000 <= x < 0x8000_0000_0000_0000
  type u32 = x: int | 0 <= x < 0x1_0000_0000
  type u64 = x: int | 0 <= x < 0x1_0000_0000_0000_0000

  /** A byte, and a 128-bit value (the source's `u128`, also reinterpreted as `i128`). */
  type byte = x: int | 0 <= x < 0x100
  type u128 = x: int | 0 <= x < 0x1_0000_0000_0000_0000_0000_0000_0000_0000
}
