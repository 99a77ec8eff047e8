/** Rust's fixed-width unsigned integers as ranges of unbounded integers,
    and the shapes of values that the crate's functions return. */
module RustPrims {

  type u8 = x: int | 0 <= x < 0x100
  type u32 = x: int | 0 <= x < 0x1_0000_0000
  type u64 = x: int | 0 <= x < 0x1_0000_0000_0000_0000
  type u128 = x: int | 0 <= x < 0x1_0000_0000_0000_0000_0000_0000_0000_0000

  const U128_LIMIT: nat := 0x1_0000_0000_0000_0000_0000_0000_0000_0000

  /** A `[u8; 16]` array. */
  type Bytes16 = s: seq<u8> | |s| == 16
    witness [0, 0, 0, 0, 0, 0, 0, 0, 0, 0, 0, 0, 0, 0, 0, 0]

  datatype Option<+T> = None | Some(value: T)

  datatype Result<+T, +E> = Ok(value: T) | Err(error: E)

  /** How a Rust call ends: it returns a value, or it panics with a message. */
  datatype Outcome<+T> = Return(value: T) | Panic(message: string)

  /** `u128::checked_mul`: the product, or None when it overflows. */
  function CheckedMul(a: u128, b: u128): (r: Option<u128>)
    ensures r.Some? <==> a * b < U128_LIMIT
    ensures r.Some? ==> r.value == a * b
  {
    if a * b < U128_LIMIT then Some(a * b) else None
  }

  /** `u128::checked_add`: the sum, or None when it overflows. */
  function CheckedAdd(a: u128, b: u128): (r: Option<u128>)
    ensures r.Some? <==> a + b < U128_LIMIT
    ensures r.Some? ==> r.value == a + b
  {
    if a + b < U128_LIMIT then Some(a + b) else None
  }
}
