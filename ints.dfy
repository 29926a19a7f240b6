/** Fixed-width integer ranges of the Rust primitives the library narrows to and from.
    Dafny integers are unbounded; each width is a subset type of `int`. */
module Ints {
  const U64_MAX: int := 0xFFFF_FFFF_FFFF_FFFF
  const I64_MAX: int := 0x7FFF_FFFF_FFFF_FFFF

  type u64 = x: int | 0 <= x <= 0xFFFF_FFFF_FFFF_FFFF
  type i64 = x: int | -0x8000_0000_0000_0000 <= x <= 0x7FFF_FFFF_FFFF_FFFF
  type u128 = x: int | 0 <= x <= 0xFFFF_FFFF_FFFF_FFFF_FFFF_FFFF_FFFF_FFFF
}
