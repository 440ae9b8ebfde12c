/** The machine's bytes and word sizes; arithmetic on words wraps around at these. */
module Widths {
  type Byte = x: int | 0 <= x < 256

  const U16: nat := 0x1_0000
  const U32: nat := 0x1_0000_0000
  const U64: nat := 0x1_0000_0000_0000_0000
}
