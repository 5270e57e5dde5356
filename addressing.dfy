/**
 * Where a bit lives: the split of a bit index into the level-1 index of its
 * area, the index of its block within the area, the index of its word within
 * the block and its position within the word; the masks of the first and
 * last words of a range; and the growth rule of the level-1 array.
 */
module Addressing {
  import opened Constants
  import opened Words

  /** The coordinates of a bit index. */
  datatype Address = Address(u1: nat, u2: nat, u3: nat, bit: nat)

  /** The word index of a word's area, block and position in the block. */
  function Area(w: nat): nat { w / AREA_WORDS }
  function BlockIn(w: nat): nat { (w / LENGTH3) % LENGTH2 }
  function WordIn(w: nat): nat { w % LENGTH3 }

  /** The first word index of block u2 of area u1. */
  function BlockBase(u1: nat, u2: nat): nat { u1 * AREA_WORDS + u2 * LENGTH3 }

  /** The address of bit i: u1 = i >> 16, u2 = (i >> 11) & 31, u3 = (i >> 6) & 31, bit = i & 63. */
  function Decompose(i: nat): (a: Address)
    ensures a.u2 < LENGTH2 && a.u3 < LENGTH3 && a.bit < LENGTH4
    ensures i == Compose(a)
  {
    var w := i / LENGTH4;
    WordSplit(w);
    Address(Area(w), BlockIn(w), WordIn(w), i % LENGTH4)
  }

  /** The bit index at an address. */
  function Compose(a: Address): nat {
    (BlockBase(a.u1, a.u2) + a.u3) * LENGTH4 + a.bit
  }

  /** Composing in-range coordinates and decomposing gives them back. */
  lemma DecomposeCompose(a: Address)
    requires a.u2 < LENGTH2 && a.u3 < LENGTH3 && a.bit < LENGTH4
    ensures Decompose(Compose(a)) == a
  {
    var w := BlockBase(a.u1, a.u2) + a.u3;
    DivSplit64(w, a.bit);
    WordCoordinates(a.u1, a.u2, a.u3);
  }

  /** A word index splits into its area, block and word, and back. */
  lemma WordCoordinates(x1: nat, x2: nat, x3: nat)
    requires x2 < LENGTH2 && x3 < LENGTH3
    ensures Area(BlockBase(x1, x2) + x3) == x1
    ensures BlockIn(BlockBase(x1, x2) + x3) == x2
    ensures WordIn(BlockBase(x1, x2) + x3) == x3
  {
    var q := x1 * 32 + x2;
    assert BlockBase(x1, x2) + x3 == q * 32 + x3;
    DivSplit32(q, x3);
    DivSplit32(x1, x2);
    DivSplit1024(x1, x2 * 32 + x3);
  }

  /** Division by the word, block and area sizes of q * d + r with r < d. */
  lemma DivSplit64(q: nat, r: nat)
    requires r < 64
    ensures (q * 64 + r) / 64 == q && (q * 64 + r) % 64 == r
  {
  }

  lemma DivSplit32(q: nat, r: nat)
    requires r < 32
    ensures (q * 32 + r) / 32 == q && (q * 32 + r) % 32 == r
  {
  }

  lemma DivSplit1024(q: nat, r: nat)
    requires r < 1024
    ensures (q * 1024 + r) / 1024 == q
  {
  }

  lemma WordSplit(w: nat)
    ensures w == BlockBase(Area(w), BlockIn(w)) + WordIn(w)
    ensures BlockIn(w) < LENGTH2 && WordIn(w) < LENGTH3
  {
    var q := w / 32;
    assert w == q * 32 + w % 32;
    assert q == (q / 32) * 32 + q % 32;
    assert w / 1024 == q / 32;
  }

  /** Every word of block (x1, x2) lies in [BlockBase(x1, x2), BlockBase(x1, x2) + 32), and only those. */
  lemma InBlock(w: nat, x1: nat, x2: nat)
    requires x2 < LENGTH2
    ensures (Area(w) == x1 && BlockIn(w) == x2) <==> BlockBase(x1, x2) <= w < BlockBase(x1, x2) + LENGTH3
  {
    WordSplit(w);
  }

  /** Block bases grow with the block, 32 words apart. */
  lemma BlockBaseOrder(x1: nat, x2: nat, y1: nat, y2: nat)
    requires x2 < LENGTH2 && y2 < LENGTH2
    ensures (x1 < y1 || (x1 == y1 && x2 < y2)) ==> BlockBase(x1, x2) + LENGTH3 <= BlockBase(y1, y2)
  {
  }

  /** remainderOf64: the remainder of a, converted to an unsigned shift count. */
  function RemainderOf64(a: Int32): (r: nat)
    ensures a >= 0 ==> r == a % LENGTH4 && r < LENGTH4
    ensures a < 0 ==> r == 0 || r >= LENGTH4
  {
    // Go's % truncates toward zero; the unsigned conversion wraps a negative remainder
    var magnitude: int := -(a as int);
    if a >= 0 then a % 64
    else if magnitude % 64 == 0 then 0
    else 0x1_0000_0000_0000_0000 - magnitude % 64
  }

  /** The mask of the first word of a scan from i: bit i % 64 and above. */
  function StartMask(i: nat): (um: Word)
    ensures forall m :: 0 <= m < 64 ==> (um[m] <==> i % 64 <= m)
  {
    UpperMask(i % 64)
  }

  /**
   * The mask of the last word of a scan ending before j: the bits of that word
   * with index below j, which is the whole word when j is a multiple of 64.
   */
  function EndMask(j: nat): (vm: Word)
    requires j > 0
    ensures forall m :: 0 <= m < 64 ==> (vm[m] <==> ((j - 1) / 64) * 64 + m < j)
  {
    if j % 64 == 0 then ALL else LowerMask(j % 64)
  }

  /** highestOneBit: the largest power of two not above x, or 0 if x <= 0. */
  function HighestOneBit(x: int): (r: nat)
    ensures x <= 0 ==> r == 0
    ensures x > 0 ==> IsPowerOfTwo(r) && r <= x < 2 * r
  {
    if x <= 0 then 0 else if x == 1 then 1 else 2 * HighestOneBit(x / 2)
  }

  predicate IsPowerOfTwo(n: nat) {
    n == 1 || (n > 1 && n % 2 == 0 && IsPowerOfTwo(n / 2))
  }

  /**
   * The level-1 length resize chooses for an index: the smallest power of two
   * that exceeds the index's area, capped at MAX_LENGTH1.
   */
  function NewSize(index: Int32): (size: nat)
  {
    var w1 := index / UNIT;   // index >> 16, an arithmetic shift
    var h := HighestOneBit(w1);
    var s0 := if h == 0 then 1 else h;
    var s1 := if w1 >= s0 then 2 * s0 else s0;
    if s1 > MAX_LENGTH1 then MAX_LENGTH1 else s1
  }

  lemma PowerOfTwoPositive(n: nat)
    requires IsPowerOfTwo(n)
    ensures n >= 1
  {
  }

  /**
   * NewSize is a power of two no larger than MAX_LENGTH1, large enough for the
   * index's area unless capped, and the least such: half of it (when above 1)
   * would not hold the area.
   */
  lemma NewSizeMeaning(index: Int32)
    ensures IsPowerOfTwo(NewSize(index)) && 1 <= NewSize(index) <= MAX_LENGTH1
    ensures index >= 0 ==> (index / UNIT < NewSize(index) || NewSize(index) == MAX_LENGTH1)
    ensures NewSize(index) > 1 ==> NewSize(index) / 2 <= index / UNIT
  {
    var w1 := index / UNIT;
    var h := HighestOneBit(w1);
    if w1 > 0 {
      PowerOfTwoDouble(h);
      if 2 * h > MAX_LENGTH1 {
        assert IsPowerOfTwo(MAX_LENGTH1) by { LengthIsPower(); }
      }
    }
  }

  lemma PowerOfTwoDouble(n: nat)
    requires IsPowerOfTwo(n)
    ensures IsPowerOfTwo(2 * n)
  {
    assert (2 * n) / 2 == n;
  }

  lemma LengthIsPower()
    ensures IsPowerOfTwo(MAX_LENGTH1)
  {
  }

  /** bitsLength for a level-1 array of n areas: the bits it can hold, MaxInt32 at the cap. */
  function LengthFor(n: nat): int {
    if n == MAX_LENGTH1 then MAX_INT32 else n * UNIT
  }

  /** A bit below the capacity lies in an area the level-1 array has. */
  lemma RoomFor(k: nat, n: nat)
    requires 1 <= n <= MAX_LENGTH1 && k < MAX_INT32
    ensures k < LengthFor(n) <==> k / UNIT < n
  {
  }

  /** Resizing for a bit beyond the capacity makes room for its area and keeps every area. */
  lemma GrowTo(k: Int32, n: nat)
    requires 0 <= k < MAX_INT32 && 1 <= n <= MAX_LENGTH1 && k >= LengthFor(n)
    ensures n <= k / UNIT < NewSize(k)
  {
    RoomFor(k, n);
    NewSizeMeaning(k);
  }
}
