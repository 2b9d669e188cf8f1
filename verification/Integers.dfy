/** The ranges of the fixed-width integer types, and saturating subtraction. */
module Integers {
  const I32_MIN: int := -0x8000_0000
  const I32_MAX: int := 0x7FFF_FFFF
  const U32_MAX: int := 0xFFFF_FFFF
  const I64_MIN: int := -0x8000_0000_0000_0000
  const I64_MAX: int := 0x7FFF_FFFF_FFFF_FFFF
  const U64_MAX: int := 0xFFFF_FFFF_FFFF_FFFF

  function SaturatingSub(a: nat, b: nat): nat {
    if a >= b then a - b else 0
  }
}
