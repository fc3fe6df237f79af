/** Outcome datatypes and the machine widths shared by the other modules. */
module Wrappers {
  datatype Option<+T> = None | Some(value: T)

  datatype Result<+T, +E> = Ok(value: T) | Err(error: E)

  const U32_MAX: nat := 0xFFFF_FFFF
  const I32_MAX: nat := 0x7FFF_FFFF

  type U32 = n: nat | n <= U32_MAX
  type I32 = n: int | -0x8000_0000 <= n <= I32_MAX
  type U16 = n: nat | n <= 0xFFFF

  // The pointer width of the build target is left open: what is proved holds on both.
  type UsizeMax = n: nat | n == 0xFFFF_FFFF || n == 0xFFFF_FFFF_FFFF_FFFF witness 0xFFFF_FFFF

  const USIZE_MAX: UsizeMax

  /** `checked_mul` on `usize`. */
  function CheckedMul(a: nat, b: nat): Option<nat> {
    if a * b <= USIZE_MAX then Some(a * b) else None
  }
}
