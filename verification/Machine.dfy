/** The machine integers of the modelled code. `int` stays unbounded; every place where the
    code can overflow goes through one of these checks. */
module Machine {

  const I64_MIN: int := -0x8000_0000_0000_0000
  const I64_MAX: int := 0x7fff_ffff_ffff_ffff
  const U64_MAX: int := 0xffff_ffff_ffff_ffff
  const I128_MIN: int := -0x8000_0000_0000_0000_0000_0000_0000_0000
  const I128_MAX: int := 0x7fff_ffff_ffff_ffff_ffff_ffff_ffff_ffff
  const U32_MAX: int := 0xffff_ffff

  type u32 = x: int | 0 <= x <= U32_MAX
  type i64 = x: int | I64_MIN <= x <= I64_MAX
  type u64 = x: int | 0 <= x <= U64_MAX

  predicate FitsI64(x: int) {
    I64_MIN <= x <= I64_MAX
  }

  predicate FitsI128(x: int) {
    I128_MIN <= x <= I128_MAX
  }

  /** Rust's `/` on a positive divisor: truncation toward zero. */
  function TruncDiv(x: int, d: int): int
    requires d > 0
  {
    if x >= 0 then x / d else -((-x) / d)
  }

  function SaturatingAddU64(x: u64, y: u64): u64 {
    if x + y <= U64_MAX then x + y else U64_MAX
  }
}
