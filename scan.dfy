/**
 * What a scan of the bits [i, j) by a strategy computes, stated block by
 * block: the masks of the words of the range, the block each block of the
 * set becomes, and the running result after each block. The scanner of the
 * bit set is proved against these definitions.
 */
module ScanSpec {
  import opened Constants
  import opened Words
  import opened Addressing
  import opened Statistics
  import opened Strategies
  import opened Tree

  /** The block holding the first bit of the range, and the block holding its last bit. */
  function FirstBlock(i: nat): nat { i / LENGTH4 / LENGTH3 }

  function LastBlock(j: nat): nat
    requires j > 0
  {
    (j - 1) / LENGTH4 / LENGTH3
  }

  /** The bits of word w that lie in [i, j): um on the first word, vm on the last, all bits between. */
  function ScanMask(i: nat, j: nat, w: nat): (m: Word)
    requires i < j
    ensures forall b :: 0 <= b < 64 ==> (m[b] <==> i <= w * 64 + b < j)
  {
    var u := i / 64;
    var v := (j - 1) / 64;
    if w < u || v < w then ZERO
    else if w == u && w == v then And(StartMask(i), EndMask(j))
    else if w == u then StartMask(i)
    else if w == v then EndMask(j)
    else ALL
  }

  /** What the scan makes of word w: the strategy under the word's mask, for the words of the range. */
  function ScanWord(op: Op, a: Word, b: Word, i: nat, j: nat, w: nat): Word
    requires i < j
  {
    if i / 64 <= w <= (j - 1) / 64 then MaskedWord(op, a, b, ScanMask(i, j, w)) else a
  }

  /** What the scan makes of block blk, given this set's block a3 and the other set's block b3. */
  function ScanBlock(op: Op, a3: Block, b3: Block, i: nat, j: nat, blk: nat): Block
    requires i < j
  {
    seq(LENGTH3, k requires 0 <= k < LENGTH3 => ScanWord(op, a3[k], b3[k], i, j, blk * LENGTH3 + k))
  }

  /** Word k of block blk lies among the words [i / 64, (j - 1) / 64] the scan visits. */
  predicate InScan(i: nat, j: nat, blk: nat, k: nat)
    requires j > 0
  {
    i / 64 <= blk * LENGTH3 + k <= (j - 1) / 64
  }

  /** The mask of word k of block blk. */
  function MaskAt(i: nat, j: nat, blk: nat, k: nat): Word
    requires i < j
  {
    ScanMask(i, j, blk * LENGTH3 + k)
  }

  /** The running result after the first n words of block blk. */
  function BlockFold(op: Op, acc: Acc, a3: Block, b3: Block, i: nat, j: nat, blk: nat, n: nat): Acc
    requires i < j && n <= LENGTH3
  {
    if n == 0 then acc
    else
      AccStep(op, BlockFold(op, acc, a3, b3, i, j, blk, n - 1), blk * LENGTH3 + n - 1, a3[n - 1], b3[n - 1], MaskAt(i, j, blk, n - 1))
  }

  /** The running result after the blocks [0, n) of this set ta against the other set tb. */
  function ScanFold(op: Op, ta: Level1, tb: Level1, i: nat, j: nat, n: nat): Acc
    requires i < j
  {
    if n == 0 then InitAcc(op)
    else BlockFold(op, ScanFold(op, ta, tb, i, j, n - 1), BlockAt(ta, n - 1), BlockAt(tb, n - 1), i, j, n - 1, LENGTH3)
  }

  /** The running result of a whole scan of [i, j). */
  function ScanResult(op: Op, ta: Level1, tb: Level1, i: nat, j: nat): Acc
    requires i < j
  {
    ScanFold(op, ta, tb, i, j, LastBlock(j) + 1)
  }

  /**
   * The blocks below cur have been scanned: each is what the scan makes of
   * the original block; the blocks from cur on are as they were.
   */
  ghost predicate ScannedTo(op: Op, t: Level1, a0: Level1, b: Level1, i: nat, j: nat, cur: nat)
    requires i < j
  {
    forall blk: nat :: BlockAt(t, blk) ==
      if blk < cur then ScanBlock(op, BlockAt(a0, blk), BlockAt(b, blk), i, j, blk) else BlockAt(a0, blk)
  }

  /** A block lying wholly inside the range that the scan treats as such (notFirstBlock && notLastBlock). */
  predicate Interior(i: nat, j: nat, blk: nat)
    requires j > 0
  {
    (i == 0 || blk > FirstBlock(i)) && blk < LastBlock(j)
  }

  // ---------------------------------------------------------------------
  // Lemmas about blocks

  /** Every word of an interior block lies wholly in the range. */
  lemma InteriorMask(i: nat, j: nat, blk: nat, k: nat)
    requires i < j && Interior(i, j, blk) && k < LENGTH3
    ensures ScanMask(i, j, blk * LENGTH3 + k) == ALL
    ensures i / 64 <= blk * LENGTH3 + k <= (j - 1) / 64
  {
    var w := blk * LENGTH3 + k;
    if i != 0 {
      assert w >= (FirstBlock(i) + 1) * 32;
    }
    assert w < LastBlock(j) * 32;
    if w == i / 64 {
      AlignedStart(i);
    }
  }

  /** A range starting at a word boundary takes its whole first word. */
  lemma AlignedStart(i: nat)
    requires i % 64 == 0
    ensures StartMask(i) == ALL
  {
    assert forall m :: 0 <= m < 64 ==> StartMask(i)[m] == ALL[m];
  }

  /** A block before the first block or after the last is left as it was and adds nothing to the result. */
  lemma OutsideBlock(op: Op, acc: Acc, a3: Block, b3: Block, i: nat, j: nat, blk: nat)
    requires i < j && (blk < FirstBlock(i) || blk > LastBlock(j))
    ensures ScanBlock(op, a3, b3, i, j, blk) == a3
    ensures BlockFold(op, acc, a3, b3, i, j, blk, LENGTH3) == acc
  {
    forall k | 0 <= k < LENGTH3
      ensures !InScan(i, j, blk, k)
    {
      if blk < FirstBlock(i) {
        assert blk * 32 + k < (blk + 1) * 32 <= FirstBlock(i) * 32;
      } else {
        assert blk * 32 >= (LastBlock(j) + 1) * 32;
      }
    }
    FoldIdle(op, acc, a3, b3, i, j, blk, 0, LENGTH3);
  }

  /** Words whose mask is empty leave the running result alone. */
  lemma {:induction false} FoldIdle(op: Op, acc: Acc, a3: Block, b3: Block, i: nat, j: nat, blk: nat, lo: nat, hi: nat)
    requires i < j && lo <= hi <= LENGTH3
    requires forall k :: lo <= k < hi ==> !InScan(i, j, blk, k)
    ensures BlockFold(op, acc, a3, b3, i, j, blk, hi) == BlockFold(op, acc, a3, b3, i, j, blk, lo)
  {
    if hi > lo {
      FoldIdle(op, acc, a3, b3, i, j, blk, lo, hi - 1);
      assert !InScan(i, j, blk, hi - 1);
      assert MaskAt(i, j, blk, hi - 1) == ZERO;
      ZeroMaskKeepsAcc(op, BlockFold(op, acc, a3, b3, i, j, blk, hi - 1), blk * LENGTH3 + hi - 1, a3[hi - 1], b3[hi - 1]);
    }
  }

  /** One more word of the block folded in. */
  lemma FoldNext(op: Op, acc: Acc, a3: Block, b3: Block, i: nat, j: nat, blk: nat, n: nat)
    requires i < j && n < LENGTH3
    ensures BlockFold(op, acc, a3, b3, i, j, blk, n + 1)
      == AccStep(op, BlockFold(op, acc, a3, b3, i, j, blk, n), blk * LENGTH3 + n, a3[n], b3[n], MaskAt(i, j, blk, n))
  {
  }

  /** Over whole words the fold is what block() computes, from the result reached at lo. */
  lemma {:induction false} FoldRun(op: Op, acc: Acc, a3: Block, b3: Block, i: nat, j: nat, blk: nat, lo: nat, hi: nat, start: Acc)
    requires i < j && lo <= hi <= LENGTH3
    requires forall k :: lo <= k < hi ==> MaskAt(i, j, blk, k) == ALL
    requires start == BlockFold(op, acc, a3, b3, i, j, blk, lo)
    ensures BlockFold(op, acc, a3, b3, i, j, blk, hi) == Steps(op, start, blk * LENGTH3, a3, b3, lo, hi)
  {
    if hi > lo {
      FoldRun(op, acc, a3, b3, i, j, blk, lo, hi - 1, start);
      assert MaskAt(i, j, blk, hi - 1) == ALL;
      FoldRunStep(op, acc, a3, b3, i, j, blk, lo, hi - 1, start);
    } else {
      assert hi == lo;
    }
  }

  /** One whole word more: word() under the full mask is block(). */
  lemma FoldRunStep(op: Op, acc: Acc, a3: Block, b3: Block, i: nat, j: nat, blk: nat, lo: nat, n: nat, start: Acc)
    requires i < j && lo <= n < LENGTH3 && MaskAt(i, j, blk, n) == ALL
    requires BlockFold(op, acc, a3, b3, i, j, blk, n) == Steps(op, start, blk * LENGTH3, a3, b3, lo, n)
    ensures BlockFold(op, acc, a3, b3, i, j, blk, n + 1) == Steps(op, start, blk * LENGTH3, a3, b3, lo, n + 1)
  {
    FoldNextFull(op, acc, a3, b3, i, j, blk, n);
    StepsNext(op, start, blk * LENGTH3, a3, b3, lo, n);
  }

  /** Under the full mask, one more word of the fold is one step of block(). */
  lemma FoldNextFull(op: Op, acc: Acc, a3: Block, b3: Block, i: nat, j: nat, blk: nat, n: nat)
    requires i < j && n < LENGTH3 && MaskAt(i, j, blk, n) == ALL
    ensures BlockFold(op, acc, a3, b3, i, j, blk, n + 1)
      == BlockStep(op, BlockFold(op, acc, a3, b3, i, j, blk, n), blk * LENGTH3 + n, a3[n], b3[n])
  {
    FoldNext(op, acc, a3, b3, i, j, blk, n);
    FullMaskStep(op, BlockFold(op, acc, a3, b3, i, j, blk, n + 1), BlockFold(op, acc, a3, b3, i, j, blk, n),
                 blk * LENGTH3 + n, a3[n], b3[n], MaskAt(i, j, blk, n));
  }

  /** A running result that word() reached under the full mask is the one block() reaches. */
  lemma FullMaskStep(op: Op, next: Acc, prev: Acc, index: nat, a: Word, b: Word, mask: Word)
    requires mask == ALL && next == AccStep(op, prev, index, a, b, mask)
    ensures next == BlockStep(op, prev, index, a, b)
  {
    BlockStepIsFullMask(op, prev, index, a, b, mask);
  }

  /** The strategies that write leave the running result alone. */
  lemma {:induction false} MutatorFold(op: Op, acc: Acc, a3: Block, b3: Block, i: nat, j: nat, blk: nat, n: nat)
    requires i < j && n <= LENGTH3 && Mutates(op)
    ensures BlockFold(op, acc, a3, b3, i, j, blk, n) == acc
  {
    if n > 0 {
      MutatorFold(op, acc, a3, b3, i, j, blk, n - 1);
    }
  }

  /** A scan of a range inside [0, MaxInt32) leaves the bit MaxInt32 clear when it was. */
  lemma TopBitClear(op: Op, t: Level1, a0: Level1, b: Level1, i: nat, j: nat)
    requires i < j <= MAX_INT32 && ScannedTo(op, t, a0, b, i, j, LastBlock(j) + 1)
    requires !Get(a0, MAX_INT32)
    ensures !Get(t, MAX_INT32)
  {
    ScanBits(op, t, a0, b, i, j);
  }

  /** Strategies that only read leave every block as it was. */
  lemma ReaderBlock(op: Op, a3: Block, b3: Block, i: nat, j: nat, blk: nat)
    requires i < j && !Mutates(op)
    ensures ScanBlock(op, a3, b3, i, j, blk) == a3
  {
    ReadersKeepWords(op);
    assert forall k :: 0 <= k < LENGTH3 ==> ScanBlock(op, a3, b3, i, j, blk)[k] == a3[k];
  }

  /** An interior block becomes block() of its words and adds what block() adds. */
  lemma InteriorBlock(op: Op, acc: Acc, a3: Block, b3: Block, i: nat, j: nat, blk: nat)
    requires i < j && Interior(i, j, blk)
    ensures forall k :: 0 <= k < LENGTH3 ==> ScanBlock(op, a3, b3, i, j, blk)[k] == WordOp(op, a3[k], b3[k])
    ensures BlockFold(op, acc, a3, b3, i, j, blk, LENGTH3) == Steps(op, acc, blk * LENGTH3, a3, b3, 0, LENGTH3)
  {
    forall k | 0 <= k < LENGTH3
      ensures MaskAt(i, j, blk, k) == ALL
      ensures ScanBlock(op, a3, b3, i, j, blk)[k] == WordOp(op, a3[k], b3[k])
    {
      InteriorMask(i, j, blk, k);
      FullMask(op, a3[k], b3[k]);
    }
    FoldRun(op, acc, a3, b3, i, j, blk, 0, LENGTH3, acc);
  }

  /** The word-level shape a declared property of the strategy covers: the result is the zero word. */
  predicate WordSkips(op: Op, a: Word, b: Word) {
    var p := Properties(op);
    (a == ZERO && b == ZERO && HasFlag(p, F_OP_F_EQ_F))
    || (a == ZERO && HasFlag(p, F_OP_X_EQ_F))
    || (b == ZERO && HasFlag(p, X_OP_F_EQ_F))
  }

  /** The block-level short-cut: the shape a declared property names lets the scan drop the block. */
  predicate SkipShape(op: Op, a3: Block, b3: Block) {
    var p := Properties(op);
    (a3 == ZERO_BLOCK && b3 == ZERO_BLOCK && HasFlag(p, F_OP_F_EQ_F))
    || (a3 == ZERO_BLOCK && HasFlag(p, F_OP_X_EQ_F))
    || (b3 == ZERO_BLOCK && HasFlag(p, X_OP_F_EQ_F))
  }

  /**
   * Skipping is sound: an interior block of a shape the strategy's properties
   * cover becomes the zero block, and the running result does not move.
   */
  lemma SkipBlock(op: Op, acc: Acc, a3: Block, b3: Block, i: nat, j: nat, blk: nat)
    requires i < j && Interior(i, j, blk) && SkipShape(op, a3, b3)
    ensures ScanBlock(op, a3, b3, i, j, blk) == ZERO_BLOCK
    ensures BlockFold(op, acc, a3, b3, i, j, blk, LENGTH3) == acc
  {
    InteriorBlock(op, acc, a3, b3, i, j, blk);
    forall k | 0 <= k < LENGTH3
      ensures WordSkips(op, a3[k], b3[k])
      ensures ScanBlock(op, a3, b3, i, j, blk)[k] == ZERO
    {
      SkipWord(op, acc, a3, b3, k);
    }
    IdleSteps(op, acc, blk * LENGTH3, a3, b3, LENGTH3);
  }

  /** Each word pair of a block of such a shape has the word-level shape, and gives the zero word. */
  lemma SkipWord(op: Op, acc: Acc, a3: Block, b3: Block, k: nat)
    requires SkipShape(op, a3, b3) && k < LENGTH3
    ensures WordSkips(op, a3[k], b3[k]) && WordOp(op, a3[k], b3[k]) == ZERO
  {
    assert a3 == ZERO_BLOCK ==> a3[k] == ZERO;
    assert b3 == ZERO_BLOCK ==> b3[k] == ZERO;
    PropertiesSound(op, acc, k, a3[k], b3[k]);
  }

  /** The word-level shape X_OP_F_EQ_X covers: a zero word of the other set leaves the word as it is. */
  predicate WordKeeps(op: Op, b: Word) {
    b == ZERO && HasFlag(Properties(op), X_OP_F_EQ_X)
  }

  /** block() over words of a shape the properties cover leaves the running result alone. */
  lemma {:induction false} IdleSteps(op: Op, acc: Acc, base: nat, a3: Block, b3: Block, n: nat)
    requires n <= LENGTH3
    requires forall k :: 0 <= k < LENGTH3 ==> WordSkips(op, a3[k], b3[k]) || WordKeeps(op, b3[k])
    ensures Steps(op, acc, base, a3, b3, 0, n) == acc
  {
    if n > 0 {
      IdleSteps(op, acc, base, a3, b3, n - 1);
      assert WordSkips(op, a3[n - 1], b3[n - 1]) || WordKeeps(op, b3[n - 1]);
      PropertiesSound(op, acc, base + n - 1, a3[n - 1], b3[n - 1]);
    }
  }

  /**
   * The short-cut of X_OP_F_EQ_X is sound: against an absent block of the
   * other set, an interior block stays as it is and adds nothing to the result.
   */
  lemma KeepBlock(op: Op, acc: Acc, a3: Block, b3: Block, i: nat, j: nat, blk: nat)
    requires i < j && Interior(i, j, blk) && b3 == ZERO_BLOCK && HasFlag(Properties(op), X_OP_F_EQ_X)
    ensures ScanBlock(op, a3, b3, i, j, blk) == a3
    ensures BlockFold(op, acc, a3, b3, i, j, blk, LENGTH3) == acc
  {
    InteriorBlock(op, acc, a3, b3, i, j, blk);
    forall k | 0 <= k < LENGTH3
      ensures WordKeeps(op, b3[k])
      ensures ScanBlock(op, a3, b3, i, j, blk)[k] == a3[k]
    {
      assert b3[k] == ZERO;
      PropertiesSound(op, acc, blk * LENGTH3 + k, a3[k], b3[k]);
    }
    IdleSteps(op, acc, blk * LENGTH3, a3, b3, LENGTH3);
  }

  /** An absent area or block reads as the zero block. */
  lemma AbsentIsZero(t: Level1, blk: nat)
    requires !(blk / LENGTH2 < |t| && t[blk / LENGTH2].Some? && t[blk / LENGTH2].value[blk % LENGTH2].Some?)
    ensures BlockAt(t, blk) == ZERO_BLOCK
  {
  }

  // ---------------------------------------------------------------------
  // The scan as a whole

  /** Blocks before the first one scanned are as they were, and the running result is still the initial one. */
  lemma {:induction false} ScanStart(op: Op, ta: Level1, tb: Level1, i: nat, j: nat, n: nat)
    requires i < j && n <= FirstBlock(i)
    ensures ScanFold(op, ta, tb, i, j, n) == InitAcc(op)
  {
    if n > 0 {
      ScanStart(op, ta, tb, i, j, n - 1);
      ScanStartStep(op, ta, tb, i, j, n);
    } else {
      assert n == 0;
    }
  }

  /** A block before the first one of the range leaves the initial result alone. */
  lemma ScanStartStep(op: Op, ta: Level1, tb: Level1, i: nat, j: nat, n: nat)
    requires i < j && 0 < n <= FirstBlock(i)
    requires ScanFold(op, ta, tb, i, j, n - 1) == InitAcc(op)
    ensures ScanFold(op, ta, tb, i, j, n) == InitAcc(op)
  {
    OutsideBlock(op, InitAcc(op), BlockAt(ta, n - 1), BlockAt(tb, n - 1), i, j, n - 1);
  }

  /** Scanning from the first block on: ScannedTo holds at the first block. */
  lemma ScannedFromStart(op: Op, a0: Level1, b: Level1, i: nat, j: nat)
    requires i < j
    ensures ScannedTo(op, a0, a0, b, i, j, FirstBlock(i))
  {
    forall blk: nat | blk < FirstBlock(i)
      ensures ScanBlock(op, BlockAt(a0, blk), BlockAt(b, blk), i, j, blk) == BlockAt(a0, blk)
    {
      OutsideBlock(op, InitAcc(op), BlockAt(a0, blk), BlockAt(b, blk), i, j, blk);
    }
  }

  /**
   * After the last block, what the scan made of the set, bit by bit: the
   * truth table of the strategy inside [i, j); outside it, the bits as they
   * were, except that copy clears the other bits of the range's first and last words.
   */
  lemma ScanBits(op: Op, t: Level1, a0: Level1, b: Level1, i: nat, j: nat)
    requires i < j && ScannedTo(op, t, a0, b, i, j, LastBlock(j) + 1)
    ensures forall k: nat ::
      Get(t, k) == (if i <= k < j then BitOp(op, Get(a0, k), Get(b, k))
       else if op.CopyOp? && i / 64 <= k / 64 <= (j - 1) / 64 then false
       else Get(a0, k))
  {
    forall k: nat
      ensures Get(t, k) ==
        if i <= k < j then BitOp(op, Get(a0, k), Get(b, k))
        else if op.CopyOp? && i / 64 <= k / 64 <= (j - 1) / 64 then false
        else Get(a0, k)
    {
      var w := k / 64;
      var blk := w / 32;
      var a3 := BlockAt(a0, blk);
      var b3 := BlockAt(b, blk);
      assert w == blk * 32 + w % 32;
      assert k == w * 64 + k % 64;
      if blk <= LastBlock(j) {
        assert BlockAt(t, blk) == ScanBlock(op, a3, b3, i, j, blk);
        assert WordAt(t, w) == ScanWord(op, a3[w % 32], b3[w % 32], i, j, w);
        MaskedWordTable(op, a3[w % 32], b3[w % 32], ScanMask(i, j, w));
      } else {
        assert BlockAt(t, blk) == a3;
        assert w > (j - 1) / 64;
      }
    }
  }

  /** Strategies that only read leave every block as it was. */
  lemma ReadersKeepBits(op: Op, t: Level1, a0: Level1, b: Level1, i: nat, j: nat, cur: nat)
    requires i < j && !Mutates(op) && ScannedTo(op, t, a0, b, i, j, cur)
    ensures SameBits(t, a0)
  {
    forall blk: nat ensures BlockAt(t, blk) == BlockAt(a0, blk) {
      ReaderBlock(op, BlockAt(a0, blk), BlockAt(b, blk), i, j, blk);
    }
  }
}
