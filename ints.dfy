/** Fixed-width integers of the contract, as subset types of the unbounded `int`.
    Arithmetic is done on `int`; every place where the contract narrows a value
    (a cast, an increment) states the bound or the truncation explicitly. */
module Ints {
  const U16_LIMIT: int := 0x1_0000
  const U64_LIMIT: int := 0x1_0000_0000_0000_0000

  type u8 = x: int | 0 <= x < 0x100
  type u16 = x: int | 0 <= x < U16_LIMIT
  type u64 = x: int | 0 <= x < U64_LIMIT
  type i32 = x: int | -0x8000_0000 <= x < 0x8000_0000
}
