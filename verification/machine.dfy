/** Machine integers: their ranges, and the checked, saturating and wrapping operations on them. */
module MachineIntegers {
  import opened Wrappers

  const U32_MAX: nat := 0xFFFF_FFFF
  const U64_MAX: nat := 0xFFFF_FFFF_FFFF_FFFF
  const U128_MAX: nat := 0xFFFF_FFFF_FFFF_FFFF_FFFF_FFFF_FFFF_FFFF
  const I64_MAX: int := 0x7FFF_FFFF_FFFF_FFFF
  const I64_MIN: int := -0x8000_0000_0000_0000

  type U16 = x: int | 0 <= x <= 0xFFFF
  type U32 = x: int | 0 <= x <= U32_MAX
  type U64 = x: int | 0 <= x <= U64_MAX
  type I64 = x: int | I64_MIN <= x <= I64_MAX

  predicate FitsI64(x: int) {
    I64_MIN <= x <= I64_MAX
  }

  function CheckedAddI64(a: I64, b: I64): Option<I64> {
    if FitsI64(a + b) then Some(a + b) else None
  }

  function CheckedAddU64(a: U64, b: U64): Option<U64> {
    if a + b <= U64_MAX then Some(a + b) else None
  }

  function CheckedMulU128(a: nat, b: nat): Option<nat> {
    if a * b <= U128_MAX then Some(a * b) else None
  }

  function SaturatingMulU64(a: U64, b: U64): U64 {
    if a * b <= U64_MAX then a * b else U64_MAX
  }

  function WrapU64(x: int): (r: U64)
    ensures 0 <= x <= U64_MAX ==> r == x
  {
    x % (U64_MAX + 1)
  }

  /** Two's complement: the value a 64-bit signed register holds after computing `x`. */
  function WrapI64(x: int): (r: I64)
    ensures FitsI64(x) ==> r == x
  {
    (x - I64_MIN) % (U64_MAX + 1) + I64_MIN
  }
}
