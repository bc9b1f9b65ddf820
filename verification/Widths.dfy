/** The widths of the machine's integers. */
module Widths {
  type u8 = byte: int | 0 <= byte < 0x100

  type u32 = word: int | 0 <= word < 0x1_0000_0000

  const U64_LIMIT: int := 0x1_0000_0000_0000_0000
}
