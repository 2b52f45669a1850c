/** The two bitwise masks the login code applies to single bytes. */
module Bits {

  /** `b & 0xF` for a byte: its low nibble. */
  function LowNibble(b: int): (r: int)
    requires 0 <= b < 256
    ensures r == b % 16
  {
    ((b as bv8) & 0xF) as int
  }

  /** `b & 0x7F` for a byte: the byte without its top bit. */
  function ClearTopBit(b: int): (r: int)
    requires 0 <= b < 256
    ensures r == b % 128
  {
    ((b as bv8) & 0x7F) as int
  }
}
