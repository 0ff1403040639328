/**
 * A Java `byte` is eight bits, held here as their unsigned value 0..255. The
 * record parser reads one in two ways:
 * unsigned (`b & 0xFF`) and sign-extended (a `byte` used directly in `int`
 * arithmetic).
 */
module JavaBytes {

  /** A byte's eight bits, held as their unsigned value. */
  newtype byte = x: int | 0 <= x < 0x100

  /** `b & 0xFF`: the byte read as an unsigned value. */
  function Unsigned(b: byte): (u: int)
    ensures 0 <= u < 0x100
  {
    b as int
  }

  /** The value a Java `byte` has when it is widened to `int`: its two's-complement reading. */
  function Signed(b: byte): (s: int)
    ensures -0x80 <= s < 0x80
    ensures (s - Unsigned(b)) % 0x100 == 0
    ensures s == Unsigned(b) <==> b < 0x80
  {
    if b < 0x80 then b as int else b as int - 0x100
  }

  /** `(byte) u` for `0 <= u < 256`. */
  function ByteOf(u: int): (b: byte)
    requires 0 <= u < 0x100
    ensures Unsigned(b) == u
  {
    u as byte
  }

  /** The eight bits of a byte, for Java's bitwise operators. */
  function Bits(b: byte): bv8 {
    (b as int) as bv8
  }

  /** `(byte) x` for an `int` whose low eight bits are `x`: the cast keeps exactly those bits. */
  function FromBits(x: bv8): (b: byte)
    ensures Bits(b) == x
  {
    (x as int) as byte
  }
}
