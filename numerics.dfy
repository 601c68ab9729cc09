/** Machine integer types used by the benchmark: C#'s byte, uint and int. */
module Numerics {

  /** A C# `byte`. */
  type Byte = b: int | 0 <= b < 0x100

  /** A C# `UInt32` (`uint`). */
  type U32 = x: int | 0 <= x < 0x1_0000_0000

  /** A C# `int` (`Int32`). */
  type Int32 = x: int | -0x8000_0000 <= x < 0x8000_0000

  const Int32Max: int := 0x7fff_ffff

  /** The value C#'s unchecked `int` arithmetic produces for the mathematical result `x`:
      two's-complement wrap-around modulo 2^32. */
  function WrapInt32(x: int): (r: Int32)
    ensures (x - r) % 0x1_0000_0000 == 0
    ensures -0x8000_0000 <= x <= Int32Max ==> r == x
  {
    var m := x % 0x1_0000_0000;
    assert x == (x / 0x1_0000_0000) * 0x1_0000_0000 + m;
    if m < 0x8000_0000 then m else m - 0x1_0000_0000
  }
}
