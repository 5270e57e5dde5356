/**
 * The storage tree of the bit set: a level-1 array of optional areas, each
 * area 32 optional blocks, each block 32 words. An absent area or block
 * stands for zero words. Block blk (= u1 * 32 + u2) is block u2 of area u1,
 * and its words have the word indices blk * 32 + u3.
 */
module Tree {
  import opened Wrappers
  import opened Constants
  import opened Words

  function Zeros32(): seq<Word> { seq(32, _ => ZERO) }

  /** A block of zero words: iZeroBlock, and what an absent block reads as. */
  const ZERO_BLOCK: seq<Word> := Zeros32()

  /** A level-3 block: 32 words. */
  type Block = b: seq<Word> | |b| == LENGTH3 witness ZERO_BLOCK

  function Nones32(): seq<Option<Block>> { seq(32, _ => None) }

  /** A freshly made level-2 area: 32 absent blocks. */
  const EMPTY_AREA: seq<Option<Block>> := Nones32()

  /** A level-2 area: 32 optional blocks. */
  type Area = a: seq<Option<Block>> | |a| == LENGTH2 witness EMPTY_AREA

  /** The level-1 array of optional areas; a nil array is the empty sequence. */
  type Level1 = seq<Option<Area>>

  /** The block with block index blk, or the zero block when its area or the block is absent. */
  function BlockAt(t: Level1, blk: nat): Block {
    var u1 := blk / LENGTH2;
    var u2 := blk % LENGTH2;
    if u1 < |t| && t[u1].Some? && t[u1].value[u2].Some? then t[u1].value[u2].value else ZERO_BLOCK
  }

  /** The word with word index w. */
  function WordAt(t: Level1, w: nat): Word {
    BlockAt(t, w / LENGTH3)[w % LENGTH3]
  }

  /**
   * The bit with index k: bit k % 64 of word k / 64, clear when the area or
   * the block of that word is absent.
   */
  predicate Get(t: Level1, k: nat) {
    var w := k / LENGTH4;
    var blk := w / LENGTH3;
    var u1 := blk / LENGTH2;
    var u2 := blk % LENGTH2;
    u1 < |t| && t[u1].Some? && t[u1].value[u2].Some? && t[u1].value[u2].value[w % LENGTH3][k % LENGTH4]
  }

  /** Bit k is bit k % 64 of the word with word index k / 64. */
  lemma GetWord(t: Level1, k: nat)
    ensures Get(t, k) == WordAt(t, k / LENGTH4)[k % LENGTH4]
  {
  }

  /** Two trees hold the same bits exactly when they hold the same blocks. */
  ghost predicate SameBits(t: Level1, s: Level1) {
    forall blk: nat :: BlockAt(t, blk) == BlockAt(s, blk)
  }

  lemma SameBitsGet(t: Level1, s: Level1)
    requires SameBits(t, s)
    ensures forall k: nat :: Get(t, k) == Get(s, k)
  {
    forall k: nat ensures Get(t, k) == Get(s, k) {
      assert BlockAt(t, (k / 64) / 32) == BlockAt(s, (k / 64) / 32);
    }
  }

  /** A block index is its area and its place in the area. */
  lemma BlockIndex(blk: nat, u1: nat, u2: nat)
    requires u2 < LENGTH2
    ensures blk == u1 * LENGTH2 + u2 <==> (blk / LENGTH2 == u1 && blk % LENGTH2 == u2)
  {
  }

  // ---------------------------------------------------------------------
  // Writes into the tree

  /** a2[u2] = ob for the present area u1. */
  function PutBlock(t: Level1, u1: nat, u2: nat, ob: Option<Block>): (r: Level1)
    requires u1 < |t| && t[u1].Some? && u2 < LENGTH2
    ensures |r| == |t|
    ensures forall blk: nat ::
      BlockAt(r, blk) == if blk == u1 * LENGTH2 + u2 then (if ob.Some? then ob.value else ZERO_BLOCK) else BlockAt(t, blk)
  {
    var r := t[u1 := Some(t[u1].value[u2 := ob])];
    assert forall blk: nat :: blk == u1 * LENGTH2 + u2 <==> (blk / LENGTH2 == u1 && blk % LENGTH2 == u2);
    r
  }

  /** a1[u1] = nil: every block of area u1 reads as zero afterwards. */
  function DropArea(t: Level1, u1: nat): (r: Level1)
    requires u1 < |t|
    ensures |r| == |t|
    ensures forall blk: nat :: BlockAt(r, blk) == if blk / LENGTH2 == u1 then ZERO_BLOCK else BlockAt(t, blk)
  {
    t[u1 := None]
  }

  /** a1[u1] = make(b2DimType, 32): a new empty area, which changes no block. */
  function NewArea(t: Level1, u1: nat): (r: Level1)
    requires u1 < |t| && t[u1].None?
    ensures |r| == |t| && r[u1].Some?
    ensures SameBits(r, t)
  {
    t[u1 := Some(EMPTY_AREA)]
  }

  /**
   * A level-1 array of n entries holding the first entries of t (copy(temp,
   * bits)): the blocks of the areas kept are as they were, the others read as zero.
   */
  function Resized(t: Level1, n: nat): (r: Level1)
    ensures |r| == n
    ensures forall u1 :: 0 <= u1 < n && u1 < |t| ==> r[u1] == t[u1]
    ensures forall u1 :: |t| <= u1 < n ==> r[u1].None?
    ensures forall blk: nat :: BlockAt(r, blk) == if blk / LENGTH2 < n then BlockAt(t, blk) else ZERO_BLOCK
  {
    if n <= |t| then t[..n] else t + seq(n - |t|, _ => None)
  }

  /** The tree with its areas from start on removed (nullify). */
  function Nullified(t: Level1, start: nat): (r: Level1)
    ensures |r| == |t|
    ensures forall u1 :: 0 <= u1 < |t| ==> r[u1] == if u1 < start then t[u1] else None
    ensures forall blk: nat :: BlockAt(r, blk) == if blk / LENGTH2 < start then BlockAt(t, blk) else ZERO_BLOCK
  {
    seq(|t|, u1 requires 0 <= u1 < |t| => if u1 < start then t[u1] else None)
  }
}
