/** Fixed-width integers, optional values and the fatal outcomes of the VM bookkeeping core. */
module Primitives {

  const U16_MODULUS: nat := 0x1_0000
  const U32_MODULUS: nat := 0x1_0000_0000

  type u16 = x: int | 0 <= x < 0x1_0000
  type u32 = x: int | 0 <= x < 0x1_0000_0000

  /** The VM's logical clock, a 32-bit value assigned per execution step. */
  type Timestamp = u32

  /** Identifier of one page of the VM's word-oriented memory. */
  type MemoryPage = u32

  datatype Option<+T> = None | Some(value: T)

  /** A panic of the source (a failed `assert!` or `expect`), reported as a value instead of an abort. */
  datatype Fault =
    | OffsetTooLarge     // `assert!(offset < 1 << 24)` failed
    | LengthTooLarge     // `assert!(length < 1 << 24)` failed
    | UnexistingHash     // `expect("Trying to decode unexisting hash")` failed

  datatype Result<+T> = Ok(value: T) | Err(fault: Fault)

  /** `a + b` on `u32` with wrap-around. */
  function WrappingAdd(a: u32, b: u32): (r: u32)
    ensures a + b < U32_MODULUS ==> r == a + b
    ensures a + b >= U32_MODULUS ==> r == a + b - U32_MODULUS
  {
    (a + b) % U32_MODULUS
  }

  /** `a - b` on `u32` with wrap-around. */
  function WrappingSub(a: u32, b: u32): (r: u32)
    ensures b <= a ==> r == a - b
    ensures a < b ==> r == a - b + U32_MODULUS
  {
    (a - b) % U32_MODULUS
  }
}
