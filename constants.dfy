/**
 * The fixed geometry of the three-level sparse bit set: a level-1 array of
 * areas, an area of 32 blocks, a block of 32 words, a word of 64 bits.
 */
module Constants {

  /** The 32-bit signed integers the bit indices are drawn from. */
  type Int32 = x: int | -0x8000_0000 <= x <= 0x7FFF_FFFF

  const MAX_INT32: int := 0x7FFF_FFFF

  /** a + b in int32 arithmetic: the sum wraps around modulo 2^32. */
  function AddInt32(a: Int32, b: Int32): (r: Int32)
    ensures -0x8000_0000 <= a + b <= MAX_INT32 ==> r == a + b
    ensures a + b > MAX_INT32 ==> r == a + b - 0x1_0000_0000
    ensures a + b < -0x8000_0000 ==> r == a + b + 0x1_0000_0000
  {
    (a + b + 0x8000_0000) % 0x1_0000_0000 - 0x8000_0000
  }

  /** Two to the power n. */
  function Pow2(n: nat): (r: nat)
    ensures r >= 1
  {
    if n == 0 then 1 else 2 * Pow2(n - 1)
  }

  const LENGTH4: nat := 64             // bits in a word
  const INTEGER_SIZE: nat := 32
  const INDEX_SIZE: nat := INTEGER_SIZE - 1
  const LEVEL4: nat := 6               // index bits of a bit within a word
  const LEVEL3: nat := 5               // index bits of a word within a block
  const LEVEL2: nat := 5               // index bits of a block within an area
  const LEVEL1: nat := INDEX_SIZE - LEVEL2 - LEVEL3 - LEVEL4
  const MAX_LENGTH1: nat := 0x8000     // the largest level-1 array
  const LENGTH2: nat := 32             // blocks in an area
  const LENGTH3: nat := 32             // words in a block
  const SHIFT3: nat := LEVEL4
  const MASK3: nat := LENGTH3 - 1
  const SHIFT2: nat := LEVEL3
  const UNIT: nat := LENGTH2 * LENGTH3 * LENGTH4   // bits in an area
  const MASK2: nat := LENGTH2 - 1
  const SHIFT1: nat := LEVEL2 + LEVEL3
  const LENGTH2_SIZE: nat := LENGTH2 - 1
  const LENGTH3_SIZE: nat := LENGTH3 - 1
  const LENGTH4_SIZE: nat := LENGTH4 - 1

  /** Words in an area. */
  const AREA_WORDS: nat := LENGTH2 * LENGTH3

  /** The four short-cut properties a strategy may declare. */
  const F_OP_F_EQ_F: bv32 := 0x1   // false op false == false
  const F_OP_X_EQ_F: bv32 := 0x2   // false op x == false
  const X_OP_F_EQ_F: bv32 := 0x4   // x op false == false
  const X_OP_F_EQ_X: bv32 := 0x8   // x op false == x

  /** The number of clear bits a run must exceed before String compacts it. */
  const COMPACTION_COUNT_DEFAULT: nat := 2

  /** The level widths add up to the 31 bits of a non-negative int32 index. */
  lemma LevelsCoverIndex()
    ensures LEVEL1 + LEVEL2 + LEVEL3 + LEVEL4 == INDEX_SIZE
    ensures LEVEL1 == 15
  {
  }

  /** Each length is the power of two its level width promises. */
  lemma LengthsArePowers()
    ensures MAX_LENGTH1 == Pow2(LEVEL1)
    ensures LENGTH2 == Pow2(LEVEL2) && LENGTH3 == Pow2(LEVEL3) && LENGTH4 == Pow2(LEVEL4)
    ensures UNIT == Pow2(LEVEL2 + LEVEL3 + LEVEL4)
  {
  }

  /**
   * A full level-1 array spans 2^31 bit positions, one more than the largest
   * int32, so every index 0 <= i < MAX_INT32 has a place.
   */
  lemma FullArrayCoversInt32()
    ensures MAX_LENGTH1 * UNIT == MAX_INT32 + 1
  {
  }

  /** Whether flag f is among the properties p (a bitwise test). */
  predicate HasFlag(p: bv32, f: bv32) { p & f != 0 }

  /** The properties word that declares exactly the chosen flags. */
  function Flags(ffF: bool, fxF: bool, xfF: bool, xfX: bool): bv32 {
    (if ffF then F_OP_F_EQ_F else 0) + (if fxF then F_OP_X_EQ_F else 0)
      + (if xfF then X_OP_F_EQ_F else 0) + (if xfX then X_OP_F_EQ_X else 0)
  }

  /**
   * The flags are distinct single bits, so a sum of distinct flags is
   * decoded back into exactly the flags it was built from.
   */
  lemma FlagsDecode(ffF: bool, fxF: bool, xfF: bool, xfX: bool)
    ensures HasFlag(Flags(ffF, fxF, xfF, xfX), F_OP_F_EQ_F) == ffF
    ensures HasFlag(Flags(ffF, fxF, xfF, xfX), F_OP_X_EQ_F) == fxF
    ensures HasFlag(Flags(ffF, fxF, xfF, xfX), X_OP_F_EQ_F) == xfF
    ensures HasFlag(Flags(ffF, fxF, xfF, xfX), X_OP_F_EQ_X) == xfX
  {
  }
}
