/** Machine words and the results shared by the modules of this project. */
module Words {

  const TWO_32: int := 0x1_0000_0000
  const TWO_64: int := 0x1_0000_0000_0000_0000

  type Byte = x: int | 0 <= x < 0x100

  type U32 = x: int | 0 <= x < 0x1_0000_0000

  type U64 = x: int | 0 <= x < 0x1_0000_0000_0000_0000

  /** The contents of a value-initialised buffer of bytes or of words. */
  function Zeros(n: nat): (z: seq<Byte>)
    ensures |z| == n
  {
    seq(n, _ => 0)
  }

  /** Addition as std::uint32_t performs it: modulo 2^32. */
  function Add32(a: U32, b: U32): (r: U32)
    ensures r == a + b || r == a + b - TWO_32
  {
    (a + b) % TWO_32
  }

  /** The source's 32-bit millisecond counter, or one that never wraps. */
  datatype Clock = Wrapping | Unbounded

  /** `elapsed += dt` on either clock. */
  function Advance(clock: Clock, elapsed: nat, dt: U32): (r: nat)
    ensures elapsed + dt < TWO_32 ==> r == elapsed + dt
  {
    if clock == Wrapping then (elapsed + dt) % TWO_32 else elapsed + dt
  }
}
