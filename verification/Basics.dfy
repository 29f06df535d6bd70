/** Bytes, words, pages and user addresses of the machine. */
module Basics {
  type Byte = b: nat | b < 256

  const U32: nat := 0x1_0000_0000
  const U64: nat := 0x1_0000_0000_0000_0000

  /** Physical addresses have 56 bits (section 4.4 of the RISC-V Privileged Architecture manual). */
  const PHYS: nat := 0x100_0000_0000_0000

  /** kPageSize. */
  const PAGE: nat := 4096

  /** kUserVaLimit. */
  const USER_VA_LIMIT: nat := 0xFFFF_FFC0_0000_0000

  function Min(a: nat, b: nat): nat { if a < b then a else b }
  function Max(a: nat, b: nat): nat { if a > b then a else b }
}
