/**
  Machine words as integers: their sizes, and the signed reading of the low 32 bits.
 */
module Words {

  const W32: int := 0x1_0000_0000
  const W64: int := 0x1_0000_0000_0000_0000
  const HALF32: int := 0x8000_0000

  /** A 32-bit word, as its bits. */
  predicate IsWord(x: int) {
    0 <= x < W32
  }

  /** A signed 32-bit number. */
  predicate IsInt(x: int) {
    -HALF32 <= x < HALF32
  }

  /** The low 32 bits of a number. */
  function Low32(x: int): int {
    x % W32
  }

  /** The low 32 bits of a number, read as a signed number. */
  function Signed(x: int): int {
    if x % W32 < HALF32 then x % W32 else x % W32 - W32
  }

  /** The same number, as far as 32 bits can tell. */
  predicate SameWord(x: int, y: int) {
    (x - y) % W32 == 0
  }

  /** The range of an immediate operand. */
  predicate IsSimm13(x: int) {
    -4096 <= x < 4096
  }
}
