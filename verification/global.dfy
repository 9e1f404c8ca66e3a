/** Fixed-width integer types and engine-wide constants of `include/Global.hpp`.
    Dafny integers are unbounded, so every width the engine relies on is a
    subset type here and every narrowing conversion is written out. */
module Global {

  type int8 = x: int | -0x80 <= x < 0x80
  type uint8 = x: nat | x < 0x100
  type int32 = x: int | -0x8000_0000 <= x < 0x8000_0000
  type uint32 = x: nat | x < 0x1_0000_0000
  type int64 = x: int | -0x8000_0000_0000_0000 <= x < 0x8000_0000_0000_0000
  type uint64 = x: nat | x < 0x1_0000_0000_0000_0000

  /** `1 << n` on an unbounded integer. */
  function Pow2(n: nat): (r: nat)
    ensures r >= 1
  {
    if n == 0 then 1 else 2 * Pow2(n - 1)
  }

  /** `MAX_OCT_TREE_DEPTH` is `sizeof(uint64)`, the byte width of a 64-bit word. */
  const MAX_OCT_TREE_DEPTH: nat := 8

  /** `CHUNK_LENGTH` is `1 << MAX_OCT_TREE_DEPTH`, the side length of one octree. */
  const CHUNK_LENGTH: nat := Pow2(MAX_OCT_TREE_DEPTH)

  /** Integral conversion to an unsigned 8-bit integer (reduction modulo 2^8). */
  function ToUint8(x: int): (r: uint8)
    ensures 0 <= x < 0x100 ==> r == x
    ensures (r - x) % 0x100 == 0
  {
    x % 0x100
  }

  /** Integral conversion to an unsigned 32-bit integer (reduction modulo 2^32). */
  function ToUint32(x: int): (r: uint32)
    ensures 0 <= x < 0x1_0000_0000 ==> r == x
    ensures (r - x) % 0x1_0000_0000 == 0
  {
    x % 0x1_0000_0000
  }

  /** Integral conversion to an unsigned 64-bit integer (reduction modulo 2^64). */
  function ToUint64(x: int): (r: uint64)
    ensures 0 <= x < 0x1_0000_0000_0000_0000 ==> r == x
    ensures (r - x) % 0x1_0000_0000_0000_0000 == 0
  {
    x % 0x1_0000_0000_0000_0000
  }

  /** Two's-complement wrap-around into a signed 32-bit integer. */
  function WrapInt32(x: int): (r: int32)
    ensures -0x8000_0000 <= x < 0x8000_0000 ==> r == x
    ensures (r - x) % 0x1_0000_0000 == 0
  {
    var m := x % 0x1_0000_0000;
    if m < 0x8000_0000 then m else m - 0x1_0000_0000
  }

  /** Wrapping is insensitive to adding whole multiples of 2^32. */
  lemma WrapInt32Congruent(x: int, y: int)
    requires (x - y) % 0x1_0000_0000 == 0
    ensures WrapInt32(x) == WrapInt32(y)
  {
    var k := (x - y) / 0x1_0000_0000;
    assert x == y + k * 0x1_0000_0000;
    assert x % 0x1_0000_0000 == y % 0x1_0000_0000;
  }

  /** The root side length is 256. */
  lemma ChunkLengthValue()
    ensures CHUNK_LENGTH == 256
  {
    assert Pow2(8) == 256 by {
      assert Pow2(4) == 16;
    }
  }
}
