/** Fixed-width machine integers, the port-write trace and the few bit
    operations the drivers need.

    The kernel runs on a 32-bit x86 CPU. Dafny integers are unbounded, so
    every C integer type is a subset type of `int`, and wrap-around is
    written out where the C code relies on it. Masks and shifts by constants
    are written as arithmetic: `x & 0xFF` is `x % 0x100` and `x >> 4` is
    `x / 16` for the non-negative values involved, and an OR that sets one
    bit is an addition when that bit is clear. */
module Hw {

  type uint8 = x: int | 0 <= x < 0x100
  type uint16 = x: int | 0 <= x < 0x1_0000
  type uint32 = x: int | 0 <= x < 0x1_0000_0000
  type int32 = x: int | -0x8000_0000 <= x < 0x8000_0000

  const UINT32_MODULUS: int := 0x1_0000_0000

  /** One `outb(port, value)`. The model of an operation that talks to the
      hardware returns the list of these it performs, in order. */
  datatype PortWrite = Out(port: uint16, value: uint8)

  /** Reduction of a C `u32` expression modulo 2^32. */
  function Wrap32(x: int): (r: uint32)
    ensures (r - x) % UINT32_MODULUS == 0
  {
    x % UINT32_MODULUS
  }

  /** `x | 0x80` when `on` and `x | 0` otherwise, written arithmetically. */
  function OrTopBit(x: uint8, on: bool): (r: uint8)
    ensures r >= 0x80 <==> (on || x >= 0x80)
    ensures r % 0x80 == x % 0x80
  {
    if on && x < 0x80 then x + 0x80 else x
  }

  /** `x | 0x10`, written arithmetically: bit 4 is set, the other bits kept. */
  function OrBit4(x: uint8): (r: uint8)
    ensures (r / 0x10) % 2 == 1
    ensures r / 0x20 == x / 0x20 && r % 0x10 == x % 0x10
  {
    if (x / 0x10) % 2 == 1 then x else x + 0x10
  }
}
