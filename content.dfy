/**
 * The bit set seen bit by bit: what it means for two level-1 arrays to hold
 * the same bits, for one to be another combined with a third by a strategy
 * over a range, and what a write into one word does to the bits.
 */
module Content {
  import opened Wrappers
  import opened Constants
  import opened Words
  import opened Addressing
  import opened Strategies
  import opened Tree
  import opened ScanSpec
  import opened AreaScan

  /** t and s hold the same bits. */
  ghost predicate SameContent(t: Level1, s: Level1) {
    forall k: nat :: Get(t, k) == Get(s, k)
  }

  /**
   * t' is t with the bits [lo, hi) replaced by the truth table of op applied
   * to the bits of t and s, and every other bit kept.
   */
  ghost predicate Combined(op: Op, t': Level1, t: Level1, s: Level1, lo: int, hi: int) {
    forall k: nat :: Get(t', k) == if lo <= k < hi then BitOp(op, Get(t, k), Get(s, k)) else Get(t, k)
  }

  /** t' holds, at every index, the truth table of op applied to the bits of t and s. */
  ghost predicate Merged(op: Op, t': Level1, t: Level1, s: Level1) {
    forall k: nat :: Get(t', k) == BitOp(op, Get(t, k), Get(s, k))
  }

  /** t' is t with bit i equal to v and every other bit kept. */
  ghost predicate WithBit(t': Level1, t: Level1, i: int, v: bool) {
    forall k: nat :: Get(t', k) == if k == i then v else Get(t, k)
  }

  /** The area and the block of word w are present. */
  predicate BlockPresent(t: Level1, w: nat) {
    var u1 := w / AREA_WORDS;
    u1 < |t| && t[u1].Some? && t[u1].value[(w / LENGTH3) % LENGTH2].Some?
  }

  /** t' is t with every bit in [lo, hi) equal to v. */
  ghost predicate Filled(t': Level1, t: Level1, lo: int, hi: int, v: bool) {
    forall k: nat :: Get(t', k) == if lo <= k < hi then v else Get(t, k)
  }

  /** The bits of t from lo to hi and no other. */
  ghost predicate RangeOf(t': Level1, t: Level1, lo: int, hi: int) {
    forall k: nat :: Get(t', k) == (lo <= k < hi && Get(t, k))
  }

  /** No bit is set. */
  ghost predicate NoBits(t: Level1) {
    forall k: nat :: !Get(t, k)
  }

  /** No bit at or above n is set. */
  ghost predicate NoBitsFrom(t: Level1, n: int) {
    forall k: nat :: n <= k ==> !Get(t, k)
  }

  lemma SameBitsContent(t: Level1, s: Level1)
    requires SameBits(t, s)
    ensures SameContent(t, s)
  {
    SameBitsGet(t, s);
  }

  /**
   * A level-1 array of n areas holds no bit at or above its capacity once
   * the bit MaxInt32 is clear: the areas beyond n are absent, and at the cap
   * the bit MaxInt32 is the only one the capacity leaves out.
   */
  lemma CapacityBound(t: Level1)
    requires 1 <= |t| <= MAX_LENGTH1 && !Get(t, MAX_INT32)
    ensures NoBitsFrom(t, LengthFor(|t|))
  {
    forall k: nat | LengthFor(|t|) <= k
      ensures !Get(t, k)
    {
      if k != MAX_INT32 {
        AreaOfBit(k);
        BlockOfWord(k / 64);
        assert k / 64 / 32 / 32 == k / UNIT;
        AbsentIsZero(t, k / 64 / 32);
      }
    }
  }

  /** Growing the level-1 array changes no bit. */
  lemma GrowContent(t: Level1, n: nat)
    requires |t| <= n
    ensures SameContent(Resized(t, n), t)
  {
    GrowKeeps(t, n);
    SameBitsGet(Resized(t, n), t);
  }

  /** WordWrite for one bit k. */
  lemma WordWriteBit(t: Level1, u1: nat, u2: nat, a3: Block, w3: nat, w: nat, x: Word, k: nat)
    requires u1 < |t| && t[u1].Some? && u2 < LENGTH2 && w3 < LENGTH3
    requires a3 == BlockAt(t, u1 * LENGTH2 + u2)
    requires w == BlockBase(u1, u2) + w3
    ensures Get(PutBlock(t, u1, u2, Some(a3[w3 := x])), k) == if k / 64 == w then x[k % 64] else Get(t, k)
  {
    var v := k / 64;
    var blk := v / 32;
    WordCoordinates(u1, u2, w3);
    WordSplit(v);
    BlockIndex(blk, u1, u2);
    if blk == u1 * LENGTH2 + u2 {
      assert Addressing.Area(v) == u1 && BlockIn(v) == u2;
    }
  }

  /**
   * Storing word x as word w3 of the present block (u1, u2) changes the bits
   * of that word, bit i % 64 becoming x[i % 64] for the bit i it addresses,
   * and no other bit.
   */
  lemma WordWrite(t: Level1, u1: nat, u2: nat, a3: Block, w3: nat, w: nat, x: Word)
    requires u1 < |t| && t[u1].Some? && u2 < LENGTH2 && w3 < LENGTH3
    requires a3 == BlockAt(t, u1 * LENGTH2 + u2)
    requires w == BlockBase(u1, u2) + w3
    ensures forall k: nat ::
      Get(PutBlock(t, u1, u2, Some(a3[w3 := x])), k) == if k / 64 == w then x[k % 64] else Get(t, k)
    ensures forall m :: 0 <= m < 64 ==> a3[w3][m] == Get(t, w * 64 + m)
  {
    forall k: nat ensures Get(PutBlock(t, u1, u2, Some(a3[w3 := x])), k) == if k / 64 == w then x[k % 64] else Get(t, k) {
      WordWriteBit(t, u1, u2, a3, w3, w, x, k);
    }
    forall m | 0 <= m < 64 ensures a3[w3][m] == Get(t, w * 64 + m) {
      DivSplit64(w, m);
      WordSplit(w);
    }
  }

  /**
   * A single-bit write: word() of a strategy other than copy under the mask
   * of bit i alone, stored back into the word of i, gives bit i the strategy's
   * value against a clear bit and changes no other bit.
   */
  lemma PointWrite(op: Op, t: Level1, u1: nat, u2: nat, a3: Block, w3: nat, i: nat, x: Word)
    requires !op.CopyOp?
    requires u1 < |t| && t[u1].Some? && u2 < LENGTH2 && w3 < LENGTH3
    requires a3 == BlockAt(t, u1 * LENGTH2 + u2)
    requires i / 64 == BlockBase(u1, u2) + w3
    requires x == MaskedWord(op, a3[w3], ZERO, Bit(i % 64))
    ensures forall k: nat ::
      Get(PutBlock(t, u1, u2, Some(a3[w3 := x])), k) == if k == i then BitOp(op, Get(t, k), false) else Get(t, k)
  {
    var w := i / 64;
    WordWrite(t, u1, u2, a3, w3, w, x);
    MaskedWordTable(op, a3[w3], ZERO, Bit(i % 64));
    forall k: nat | k / 64 == w
      ensures x[k % 64] == if k == i then BitOp(op, Get(t, k), false) else Get(t, k)
    {
      assert k == w * 64 + k % 64;
      assert k == i <==> k % 64 == i % 64;
    }
  }

  /**
   * The single-bit write of Set, Clear and FlipBit at the address of bit i,
   * in a level-1 array t holding the bits of t0: bit i gets the strategy's
   * value against a clear bit, every other bit keeps its value in t0.
   */
  lemma PointUpdate(op: Op, t: Level1, t0: Level1, i: nat, w1: nat, w2: nat, w3: nat, x: Word)
    requires !op.CopyOp? && SameBits(t, t0)
    requires w1 == i / LENGTH4 / AREA_WORDS && w2 == (i / LENGTH4 / LENGTH3) % LENGTH2 && w3 == (i / LENGTH4) % LENGTH3
    requires w1 < |t| && t[w1].Some? && t[w1].value[w2].Some?
    requires x == MaskedWord(op, t[w1].value[w2].value[w3], ZERO, Bit(i % 64))
    ensures WithBit(PutBlock(t, w1, w2, Some(t[w1].value[w2].value[w3 := x])), t0, i, BitOp(op, Get(t0, i), false))
  {
    var a3 := t[w1].value[w2].value;
    BlockLookup(t, w1, w2, w1 * LENGTH2 + w2);
    WordSplit(i / LENGTH4);
    PointWrite(op, t, w1, w2, a3, w3, i, x);
    SameBitsGet(t, t0);
  }

  /**
   * What a finished scan by a strategy other than copy made of the bits: op
   * applied over [i, j), every other bit kept.
   */
  lemma ScanCombined(op: Op, t: Level1, a0: Level1, b: Level1, i: nat, j: nat)
    requires i < j && !op.CopyOp? && ScannedTo(op, t, a0, b, i, j, LastBlock(j) + 1)
    ensures Combined(op, t, a0, b, i, j)
  {
    ScanBits(op, t, a0, b, i, j);
  }

  /** What a finished copy scan made of an empty set: exactly the other set's bits in [i, j). */
  lemma ScanCopied(t: Level1, a0: Level1, b: Level1, i: nat, j: nat)
    requires i < j && NoBits(a0) && ScannedTo(CopyOp, t, a0, b, i, j, LastBlock(j) + 1)
    ensures RangeOf(t, b, i, j)
  {
    ScanBits(CopyOp, t, a0, b, i, j);
  }

  // ---------------------------------------------------------------------
  // Laws of the combinations

  /** Xor with the same set twice restores the bits. */
  lemma XorTwice(t2: Level1, t1: Level1, t0: Level1, s: Level1, lo: int, hi: int)
    requires Combined(XorOp, t1, t0, s, lo, hi) && Combined(XorOp, t2, t1, s, lo, hi)
    ensures SameContent(t2, t0)
  {
    forall k: nat ensures Get(t2, k) == Get(t0, k) {
      assert Get(t1, k) == if lo <= k < hi then Get(t0, k) != Get(s, k) else Get(t0, k);
    }
  }

  /** Flipping the same range twice restores the bits. */
  lemma FlipTwice(t2: Level1, t1: Level1, t0: Level1, s: Level1, s': Level1, lo: int, hi: int)
    requires Combined(FlipOp, t1, t0, s, lo, hi) && Combined(FlipOp, t2, t1, s', lo, hi)
    ensures SameContent(t2, t0)
  {
    forall k: nat ensures Get(t2, k) == Get(t0, k) {
      assert Get(t1, k) == if lo <= k < hi then !Get(t0, k) else Get(t0, k);
    }
  }

  // ---------------------------------------------------------------------
  // Whole-set operations

  /** The smaller of two numbers. */
  function Min(a: int, b: int): (m: int)
    ensures m <= a && m <= b && (m == a || m == b)
  {
    if a < b then a else b
  }

  /** Dropping the areas from start on keeps exactly the bits below start * UNIT. */
  lemma NullifiedContent(t: Level1, start: nat)
    ensures forall k: nat :: Get(Nullified(t, start), k) == (k / UNIT < start && Get(t, k))
  {
    forall k: nat ensures Get(Nullified(t, start), k) == (k / UNIT < start && Get(t, k)) {
      AreaOfBit(k);
      BlockOfWord(k / 64);
      assert k / 64 / 32 / 32 == k / UNIT;
    }
  }

  /**
   * AndBitSet: after the areas beyond the shorter array are dropped, a
   * scan over the smaller capacity leaves the and of the two sets at every
   * index, since beyond that capacity one side has no bit and the other
   * none left.
   */
  lemma AndWhole(t': Level1, a0: Level1, s: Level1, bm: nat, L: int)
    requires 1 <= |a0| <= MAX_LENGTH1 && 1 <= |s| <= MAX_LENGTH1 && !Get(a0, MAX_INT32) && !Get(s, MAX_INT32)
    requires bm == Min(|a0|, |s|) && L == Min(LengthFor(|a0|), LengthFor(|s|))
    requires Combined(AndOp, t', Nullified(a0, bm), s, 0, L)
    ensures Merged(AndOp, t', a0, s)
  {
    CapacityBound(a0);
    CapacityBound(s);
    NullifiedContent(a0, bm);
    forall k: nat ensures Get(t', k) == (Get(a0, k) && Get(s, k)) {
      if k < L {
        RoomFor(k, |a0|);
        RoomFor(k, |s|);
      }
    }
  }

  /**
   * AndNotBitSet, OrBitSet and XorBitSet: a scan over [0, L) leaves the
   * operation at every index when beyond L the other set has no bit (x op 0
   * = x), or, for andNot, this set has none (0 andNot x = 0).
   */
  lemma WholeScan(op: Op, t': Level1, a0: Level1, s: Level1, L: int)
    requires op.AndNotOp? || op.OrOp? || op.XorOp?
    requires Combined(op, t', a0, s, 0, L)
    requires NoBitsFrom(s, L) || (op.AndNotOp? && NoBitsFrom(a0, L))
    ensures Merged(op, t', a0, s)
  {
  }
}
