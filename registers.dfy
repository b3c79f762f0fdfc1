/** Bit-level helpers shared by the I2C drivers, and the bus accesses they
    make, recorded in order. */
module Registers {

  /** A register value. */
  type byte = bv8

  /** One access on the I2C bus: an address-only presence probe, a
      one-register read, a burst read of `count` consecutive registers, or
      a one-register write. */
  datatype Access = Probe | Read(reg: byte) | ReadBlock(reg: byte, count: nat) | Write(reg: byte, value: byte)

  /** `1 << p`. */
  function Mask(p: byte): byte
    requires p < 8
  {
    1 << p
  }

  /** Bit `p` of `b` is set (`b & (1 << p)`). */
  predicate Bit(b: byte, p: byte)
    requires p < 8
  {
    b & Mask(p) != 0
  }

  /** `b` with bit `p` set or cleared (`b |= 1 << p`, `b &= ~(1 << p)`):
      bit `p` becomes `on` and every other bit is kept. */
  function SetBit(b: byte, p: byte, on: bool): (r: byte)
    requires p < 8
    ensures Bit(r, p) == on
    ensures r & !Mask(p) == b & !Mask(p)
  {
    if on then b | Mask(p) else b & !Mask(p)
  }
}
