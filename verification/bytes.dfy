/** Shared vocabulary: bytes, optional values, results, and the fixed-width
    integer conventions (Rust's i64 and u64) that the viewer computes in. */
module Bytes {

  /** One byte of the viewed file (Rust's u8). */
  newtype u8 = x: int | 0 <= x < 0x100

  datatype Option<+T> = None | Some(value: T)

  datatype Result<+T, +E> = Ok(value: T) | Err(error: E)

  const I64_MIN: int := -0x8000_0000_0000_0000
  const I64_MAX: int := 0x7FFF_FFFF_FFFF_FFFF
  const U64_MODULUS: int := 0x1_0000_0000_0000_0000

  predicate IsI64(x: int) {
    I64_MIN <= x <= I64_MAX
  }

  /** Rust's `x as u64` for an i64 value: the same bit pattern read as
      unsigned, so a negative value becomes x + 2^64. */
  function AsU64(x: int): (r: nat)
    requires IsI64(x)
    ensures r < U64_MODULUS
    ensures x >= 0 ==> r == x
    ensures x < 0 ==> r == x + U64_MODULUS
  {
    if x < 0 then x + U64_MODULUS else x
  }

  /** Two's-complement wrap-around of an i64 addition whose exact result may
      leave the i64 range by at most one step. */
  function WrapI64(x: int): (r: int)
    requires I64_MIN - U64_MODULUS <= x <= I64_MAX + U64_MODULUS
    ensures IsI64(r)
    ensures IsI64(x) ==> r == x
    ensures (r - x) % U64_MODULUS == 0
  {
    if x > I64_MAX then x - U64_MODULUS
    else if x < I64_MIN then x + U64_MODULUS
    else x
  }

  function Min(a: int, b: int): (m: int)
    ensures m <= a && m <= b
    ensures m == a || m == b
  {
    if a <= b then a else b
  }
}
