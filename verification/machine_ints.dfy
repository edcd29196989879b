/** C's fixed-width unsigned integers, as bounded mathematical integers. */
module MachineInts {

  const TWO32: int := 0x1_0000_0000
  const TWO64: int := 0x1_0000_0000_0000_0000

  /** `uint32_t`; arithmetic on it wraps modulo TWO32 where the code relies on it. */
  type u32 = x: int | 0 <= x < 0x1_0000_0000

  /** `uint64_t` (and `size_t` on the platforms the code targets). */
  type u64 = x: int | 0 <= x < 0x1_0000_0000_0000_0000
}
