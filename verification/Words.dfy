/** Machine integers of the 68000: bytes, 32-bit words and the C operators the sources apply to them. */
module Words {
  type byte = bv8

  const TWO32: int := 0x1_0000_0000

  type word32 = x: int | 0 <= x < 0x1_0000_0000

  /** Truncation to `uint32_t`. */
  function Word(x: int): word32 {
    x % TWO32
  }

  /** C's `(former & mask) | value` on `uint8_t`. */
  function Merge(former: byte, value: byte, mask: byte): byte {
    (former & mask) | value
  }

  /** The low byte of an unsigned 32-bit value, as the bit pattern of a `char`. */
  function LowByte(w: word32): byte {
    AsByte(w % 256)
  }

  function AsByte(v: int): byte
    requires 0 <= v < 256
  {
    v as bv8
  }
}
