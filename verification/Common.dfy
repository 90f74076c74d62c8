/** Types shared by every module: the failure-carrying datatypes and the machine integers. */
module Common {

  datatype Option<+T> = None | Some(value: T)

  datatype Result<+T, +E> = Ok(value: T) | Err(error: E)

  const U64_MAX: int := 0xFFFF_FFFF_FFFF_FFFF

  const U32_MAX: nat := 0xFFFF_FFFF

  /** Rust's u64. Assigning to it makes Dafny prove that the value fits. */
  type u64 = x: int | 0 <= x <= U64_MAX

  newtype byte = x: int | 0 <= x < 0x100

  function Min(a: int, b: int): int {
    if a < b then a else b
  }

  function Max(a: int, b: int): int {
    if a < b then b else a
  }

  function SaturatingAdd(a: u64, b: u64): u64 {
    Min(a + b, U64_MAX)
  }

  function CheckedAdd(a: u64, b: u64): Option<u64> {
    if a + b <= U64_MAX then Some(a + b) else None
  }

  function CheckedSub(a: u64, b: u64): Option<u64> {
    if b <= a then Some(a - b) else None
  }

  function CheckedMul(a: u64, b: u64): Option<u64> {
    if a * b <= U64_MAX then Some(a * b) else None
  }
}
