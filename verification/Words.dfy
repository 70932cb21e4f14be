// Machine words: 64- and 128-bit unsigned integers and saturating arithmetic.
module Words {
  const TWO_64: int := 0x1_0000_0000_0000_0000
  const TWO_128: int := 0x1_0000_0000_0000_0000_0000_0000_0000_0000
  const U64_MAX: int := 0xFFFF_FFFF_FFFF_FFFF

  type U64 = x: int | 0 <= x < 0x1_0000_0000_0000_0000
  type U128 = x: int | 0 <= x < 0x1_0000_0000_0000_0000_0000_0000_0000_0000

  /** u64::saturating_add. */
  function SatAdd(a: U64, b: U64): U64 { if a + b > U64_MAX then U64_MAX else a + b }

  /** u64::saturating_sub. */
  function SatSub(a: U64, b: U64): U64 { if a >= b then a - b else 0 }
}
