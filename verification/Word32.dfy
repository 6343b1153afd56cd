/** 32-bit unsigned arithmetic. */
module Word32 {
  const WORD := 0x1_0000_0000

  function U32(x: nat): nat { x % WORD }

  /** Rounded up to a multiple of 4: `(x + 3) & ~3`. */
  function RoundUp(x: nat): nat { U32(x + 3) / 4 * 4 }
}
