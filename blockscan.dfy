/**
 * The scanner's treatment of one level-3 block (the inner body of
 * setScanner): an interior block is handed to block() whole, the block
 * holding the first or the last bit of the range word by word and in runs,
 * and the block's zero report decides whether the scan drops it.
 */
module BlockScan {
  import opened Constants
  import opened Words
  import opened Addressing
  import opened Strategies
  import opened Tree
  import opened ScanSpec

  /** isZeroBlock(): every word of the block is zero. */
  method IsZeroBlock(a3: Block) returns (z: bool)
    ensures z <==> a3 == ZERO_BLOCK
  {
    z := true;
    for k := 0 to LENGTH3
      invariant z <==> forall m :: 0 <= m < k ==> a3[m] == ZERO
    {
      if a3[k] != ZERO {
        z := false;
      }
    }
    if z {
      assert forall m :: 0 <= m < LENGTH3 ==> a3[m] == ZERO_BLOCK[m];
    }
  }

  /**
   * What the scan has done with block blk once its words are treated: r is
   * what the scan makes of the block unless the block is reported zero, a
   * block reported zero is one the scan makes zero (and a zero block, such
   * as the spare, is left zero), and the report is exact for the strategies
   * whose block() reports exactly.
   */
  ghost predicate BlockDone(op: Op, a3: Block, b3: Block, i: nat, j: nat, blk: nat, acc: Acc,
                            r: Block, acc': Acc, isZero: bool)
    requires i < j
  {
    var s := ScanBlock(op, a3, b3, i, j, blk);
    && acc' == BlockFold(op, acc, a3, b3, i, j, blk, LENGTH3)
    && (!isZero ==> r == s)
    && (isZero ==> s == ZERO_BLOCK && (a3 == ZERO_BLOCK ==> r == ZERO_BLOCK))
    && (ExactZero(op) ==> (isZero <==> s == ZERO_BLOCK))
  }

  /**
   * What the pieces applied to a block at an end of the range have done
   * before the zero recheck: the words are what the scan makes of the block,
   * the running result is the scan's fold over it, and a block the scan
   * makes zero is reported zero by every piece (for the strategies whose
   * report is exact).
   */
  ghost predicate PiecesDone(op: Op, a3: Block, b3: Block, i: nat, j: nat, blk: nat, acc: Acc,
                             r: seq<Word>, acc': Acc, isZero: bool)
    requires i < j
  {
    && r == ScanBlock(op, a3, b3, i, j, blk)
    && acc' == BlockFold(op, acc, a3, b3, i, j, blk, LENGTH3)
    && (ExactZero(op) && r == ZERO_BLOCK ==> isZero)
  }

  /**
   * The treatment of one block the scan does not skip: an interior block is
   * handed over whole, the block holding the last bit of a range that
   * started earlier in two pieces, and the block holding the first bit of
   * the range piece by piece. a3 is this set's block (the spare when absent)
   * and b3 the other set's block (the zero block when absent).
   */
  method ProcessBlock(op: Op, a3: Block, b3: Block, acc: Acc, haveB3: bool, notFirstBlock: bool, notLastBlock: bool,
                      u: nat, v: nat, u3: nat, v3: nat, um: Word, vm: Word, ghost i: nat, ghost j: nat, blk: nat)
    returns (r: Block, acc': Acc, isZero: bool)
    requires i < j && FirstBlock(i) <= blk <= LastBlock(j)
    requires notFirstBlock <==> (i == 0 || blk > FirstBlock(i))
    requires notLastBlock <==> blk != LastBlock(j)
    requires !haveB3 ==> b3 == ZERO_BLOCK
    requires u == i / 64 && v == (j - 1) / 64 && v3 == v % LENGTH3
    requires !notFirstBlock ==> u3 == u % LENGTH3
    requires um == StartMask(i) && vm == EndMask(j)
    ensures BlockDone(op, a3, b3, i, j, blk, acc, r, acc', isZero)
  {
    if notFirstBlock && notLastBlock {
      r, acc', isZero := FullBlock(op, a3, b3, acc, haveB3, i, j, blk);
    } else if notFirstBlock {
      r, acc', isZero := LastPartBlock(op, a3, b3, acc, v3, vm, i, j, blk);
    } else {
      r, acc', isZero := FirstPartBlock(op, a3, b3, acc, notLastBlock, u, v, u3, v3, um, vm, i, j, blk);
    }
  }

  /**
   * A block wholly inside the range: with X_OP_F_EQ_X and no block in the
   * other set only the zero test is needed; otherwise block() over all 32 words.
   */
  method FullBlock(op: Op, a3: Block, b3: Block, acc: Acc, haveB3: bool, ghost i: nat, ghost j: nat, blk: nat)
    returns (r: Block, acc': Acc, isZero: bool)
    requires i < j && Interior(i, j, blk)
    requires !haveB3 ==> b3 == ZERO_BLOCK
    ensures BlockDone(op, a3, b3, i, j, blk, acc, r, acc', isZero)
  {
    if HasFlag(Properties(op), X_OP_F_EQ_X) && !haveB3 {
      KeepBlock(op, acc, a3, b3, i, j, blk);
      isZero := IsZeroBlock(a3);
      r, acc' := a3, acc;
    } else {
      r, acc', isZero := WholeBlock(op, a3, b3, acc, i, j, blk);
    }
  }

  /** block(0, 32) on an interior block. */
  method WholeBlock(op: Op, a3: Block, b3: Block, acc: Acc, ghost i: nat, ghost j: nat, blk: nat)
    returns (r: Block, acc': Acc, isZero: bool)
    requires i < j && Interior(i, j, blk)
    ensures BlockDone(op, a3, b3, i, j, blk, acc, r, acc', isZero)
  {
    var s: seq<Word>;
    s, acc', isZero := OpBlock(op, blk * LENGTH3, 0, LENGTH3, a3, b3, acc);
    r := s;
    if op.ClearOp? {
      FullClear(op, acc, a3, b3, i, j, blk, r, acc', isZero);
    } else {
      FullWrites(op, acc, a3, b3, i, j, blk, r, acc', isZero);
    }
  }

  /** A block of 32 words is the zero block exactly when each of its words is zero. */
  lemma ZeroWords(r: Block)
    ensures (forall k :: 0 <= k < LENGTH3 ==> r[k] == ZERO) <==> r == ZERO_BLOCK
  {
    if forall k :: 0 <= k < LENGTH3 ==> r[k] == ZERO {
      assert forall k :: 0 <= k < LENGTH3 ==> r[k] == ZERO_BLOCK[k];
    }
  }

  /** What block() of clear over a whole interior block reports: it writes nothing and the scan drops the block. */
  lemma FullClear(op: Op, acc: Acc, a3: Block, b3: Block, i: nat, j: nat, blk: nat, r: Block, acc': Acc, isZero: bool)
    requires i < j && Interior(i, j, blk) && op.ClearOp?
    requires BlockApplied(op, blk * LENGTH3, 0, LENGTH3, a3, b3, acc, r, acc', isZero)
    ensures BlockDone(op, a3, b3, i, j, blk, acc, r, acc', isZero)
  {
    InteriorBlock(op, acc, a3, b3, i, j, blk);
    ClearInterior(op, a3, b3, i, j, blk);
    assert forall k :: 0 <= k < LENGTH3 ==> r[k] == a3[k];
    assert r == a3;
  }

  /** What block() of the other strategies over a whole interior block reports is what the scan makes of the block. */
  lemma FullWrites(op: Op, acc: Acc, a3: Block, b3: Block, i: nat, j: nat, blk: nat, r: Block, acc': Acc, isZero: bool)
    requires i < j && Interior(i, j, blk) && !op.ClearOp?
    requires BlockApplied(op, blk * LENGTH3, 0, LENGTH3, a3, b3, acc, r, acc', isZero)
    ensures BlockDone(op, a3, b3, i, j, blk, acc, r, acc', isZero)
  {
    InteriorBlock(op, acc, a3, b3, i, j, blk);
    assert forall k :: 0 <= k < LENGTH3 ==> r[k] == WordOp(op, a3[k], b3[k]);
    InteriorWrites(op, a3, b3, i, j, blk, r);
    ZeroWords(r);
  }

  /** Clear makes every interior block zero. */
  lemma ClearInterior(op: Op, a3: Block, b3: Block, i: nat, j: nat, blk: nat)
    requires i < j && Interior(i, j, blk) && op.ClearOp?
    ensures ScanBlock(op, a3, b3, i, j, blk) == ZERO_BLOCK
  {
    InteriorBlock(op, InitAcc(op), a3, b3, i, j, blk);
    ZeroWords(ScanBlock(op, a3, b3, i, j, blk));
  }

  /** block() over all the words of an interior block writes what the scan makes of the block. */
  lemma InteriorWrites(op: Op, a3: Block, b3: Block, i: nat, j: nat, blk: nat, r: Block)
    requires i < j && Interior(i, j, blk)
    requires forall k :: 0 <= k < LENGTH3 ==> r[k] == WordOp(op, a3[k], b3[k])
    ensures r == ScanBlock(op, a3, b3, i, j, blk)
  {
    InteriorBlock(op, InitAcc(op), a3, b3, i, j, blk);
    assert forall k :: 0 <= k < LENGTH3 ==> r[k] == ScanBlock(op, a3, b3, i, j, blk)[k];
  }

  /**
   * The last block of a range starting in an earlier block: block() over the
   * words before word v3, then word() on word v3 under vm. Both are applied;
   * the Go code skips word() once block() reports a non-zero run.
   */
  method LastPartBlock(op: Op, a3: Block, b3: Block, acc: Acc, v3: nat, vm: Word, ghost i: nat, ghost j: nat, blk: nat)
    returns (r: Block, acc': Acc, isZero: bool)
    requires i < j && (i == 0 || blk > FirstBlock(i)) && blk == LastBlock(j)
    requires v3 == ((j - 1) / 64) % LENGTH3 && vm == EndMask(j)
    ensures r == ScanBlock(op, a3, b3, i, j, blk)
    ensures acc' == BlockFold(op, acc, a3, b3, i, j, blk, LENGTH3)
    ensures isZero ==> r == ZERO_BLOCK
    ensures ExactZero(op) ==> (isZero <==> r == ZERO_BLOCK)
  {
    var base := blk * LENGTH3;
    var r1: seq<Word>, acc1: Acc, z1: bool;
    r1, acc1, z1 := OpBlock(op, base, 0, v3, a3, b3, acc);
    var r2: seq<Word>, z2: bool;
    r2, acc', z2 := OpWord(op, base, v3, r1, b3, vm, acc1);
    LastPartDone(op, a3, b3, acc, i, j, blk, v3, vm, r1, acc1, z1, r2, acc', z2);
    r := r2;
    isZero := z1 && z2;
    if isZero {
      isZero := IsZeroBlock(r);
    }
  }

  /** What block(0, v3) and word(v3, vm) return is what the scan makes of the last block. */
  lemma LastPartDone(op: Op, a3: Block, b3: Block, acc: Acc, i: nat, j: nat, blk: nat, v3: nat, vm: Word,
                     r1: seq<Word>, acc1: Acc, z1: bool, r2: seq<Word>, acc2: Acc, z2: bool)
    requires i < j && (i == 0 || blk > FirstBlock(i)) && blk == LastBlock(j)
    requires v3 == ((j - 1) / 64) % LENGTH3 && vm == EndMask(j)
    requires BlockApplied(op, blk * LENGTH3, 0, v3, a3, b3, acc, r1, acc1, z1)
    requires WordApplied(op, blk * LENGTH3, v3, r1, b3, vm, acc1, r2, acc2, z2)
    ensures PiecesDone(op, a3, b3, i, j, blk, acc, r2, acc2, z1 && z2)
  {
    LastPartWords(op, a3, b3, i, j, blk, v3, vm);
    if Mutates(op) {
      MutatorFold(op, acc, a3, b3, i, j, blk, LENGTH3);
    } else {
      ReadersKeepWords(op);
      LastPartFold(op, acc, a3, b3, i, j, blk, v3, vm);
    }
  }

  /** Word v3 of the last block is the last word of the range. */
  lemma LastWordIndex(i: nat, j: nat, blk: nat)
    requires i < j && blk == LastBlock(j)
    ensures blk * LENGTH3 + ((j - 1) / 64) % LENGTH3 == (j - 1) / 64
  {
  }

  /**
   * block(0, v3) and then word(v3, vm) make of the last block what the scan
   * makes of it, and a block they leave zero is reported zero by each piece.
   */
  lemma LastPartWords(op: Op, a3: Block, b3: Block, i: nat, j: nat, blk: nat, v3: nat, vm: Word)
    requires i < j && (i == 0 || blk > FirstBlock(i)) && blk == LastBlock(j)
    requires v3 == ((j - 1) / 64) % LENGTH3 && vm == EndMask(j)
    ensures WordWrite(op, v3, BlockWrite(op, 0, v3, a3, b3), b3, vm) == ScanBlock(op, a3, b3, i, j, blk)
    ensures WordWrite(op, v3, BlockWrite(op, 0, v3, a3, b3), b3, vm) == ZERO_BLOCK ==>
      ZeroRun(BlockWrite(op, 0, v3, a3, b3), 0, v3) && WordWrite(op, v3, BlockWrite(op, 0, v3, a3, b3), b3, vm)[v3] == ZERO
  {
    var r1 := BlockWrite(op, 0, v3, a3, b3);
    var r := WordWrite(op, v3, r1, b3, vm);
    forall k | 0 <= k < LENGTH3 ensures r[k] == ScanBlock(op, a3, b3, i, j, blk)[k] {
      if k < v3 {
        RunMask(i, j, blk, k);
        FullMask(op, a3[k], b3[k]);
      } else if k == v3 {
        LastMask(i, j, blk);
      } else {
        LastWordIndex(i, j, blk);
        WordClass(i, j, blk, k);
      }
    }
    if r == ZERO_BLOCK {
      forall k | 0 <= k < v3 ensures r1[k] == ZERO {
        assert r1[k] == r[k] == ZERO_BLOCK[k];
      }
      assert r[v3] == ZERO_BLOCK[v3];
    }
  }

  /** A word of the last block before its last word, in a range that began in an earlier block, is wholly in the range. */
  lemma RunMask(i: nat, j: nat, blk: nat, k: nat)
    requires i < j && (i == 0 || blk > FirstBlock(i)) && blk == LastBlock(j)
    requires k < ((j - 1) / 64) % LENGTH3
    ensures InScan(i, j, blk, k) && MaskAt(i, j, blk, k) == ALL
  {
    LastWordIndex(i, j, blk);
    if i == 0 {
      AlignedStart(i);
    } else {
      assert i / 64 < blk * LENGTH3 + k;
    }
  }

  /** In a range that began in an earlier block (or at bit 0), the last word's mask is vm. */
  lemma LastMask(i: nat, j: nat, blk: nat)
    requires i < j && (i == 0 || blk > FirstBlock(i)) && blk == LastBlock(j)
    ensures MaskAt(i, j, blk, ((j - 1) / 64) % LENGTH3) == EndMask(j)
  {
    LastWordIndex(i, j, blk);
    if i != 0 {
      assert i / 64 < (j - 1) / 64;
    }
    EndWordMask(i, j);
  }

  /** The last word of a range that does not start inside it has mask vm. */
  lemma EndWordMask(i: nat, j: nat)
    requires i < j && (i % 64 == 0 || i / 64 < (j - 1) / 64)
    ensures ScanMask(i, j, (j - 1) / 64) == EndMask(j)
  {
    var m := ScanMask(i, j, (j - 1) / 64);
    assert forall b :: 0 <= b < 64 ==> m[b] == EndMask(j)[b];
  }

  /** The first word of a range that does not end inside it has mask um. */
  lemma StartWordMask(i: nat, j: nat)
    requires i < j && i / 64 < (j - 1) / 64
    ensures ScanMask(i, j, i / 64) == StartMask(i)
  {
    var m := ScanMask(i, j, i / 64);
    assert forall b :: 0 <= b < 64 ==> m[b] == StartMask(i)[b];
  }

  /** What block(0, v3) and word(v3, vm) fold in is what the scan folds in over the last block. */
  lemma LastPartFold(op: Op, acc: Acc, a3: Block, b3: Block, i: nat, j: nat, blk: nat, v3: nat, vm: Word)
    requires i < j && (i == 0 || blk > FirstBlock(i)) && blk == LastBlock(j)
    requires v3 == ((j - 1) / 64) % LENGTH3 && vm == EndMask(j)
    ensures AccStep(op, Steps(op, acc, blk * LENGTH3, a3, b3, 0, v3), blk * LENGTH3 + v3, a3[v3], b3[v3], vm)
      == BlockFold(op, acc, a3, b3, i, j, blk, LENGTH3)
  {
    LastWordIndex(i, j, blk);
    WholeRun(op, acc, a3, b3, i, j, blk, 0, v3);
    LastMask(i, j, blk);
    FoldNext(op, acc, a3, b3, i, j, blk, v3);
    IdleAbove(op, acc, a3, b3, i, j, blk, v3 + 1);
  }

  // ---------------------------------------------------------------------
  // The block holding the first bit of the range

  /**
   * The block holding bit i: word() on word u3 under um (under um & vm when
   * the range lies in one word); otherwise block() over the words after it
   * and, when the range also ends in this block, word() on word v3 under vm.
   * All pieces are applied; the Go code skips the later ones once an earlier
   * one reports a non-zero word.
   */
  method FirstPartBlock(op: Op, a3: Block, b3: Block, acc: Acc, notLastBlock: bool,
                        u: nat, v: nat, u3: nat, v3: nat, um: Word, vm: Word, ghost i: nat, ghost j: nat, blk: nat)
    returns (r: Block, acc': Acc, isZero: bool)
    requires i < j && blk == FirstBlock(i) && blk <= LastBlock(j)
    requires notLastBlock <==> blk != LastBlock(j)
    requires u == i / 64 && v == (j - 1) / 64 && u3 == u % LENGTH3 && v3 == v % LENGTH3
    requires um == StartMask(i) && vm == EndMask(j)
    ensures r == ScanBlock(op, a3, b3, i, j, blk)
    ensures acc' == BlockFold(op, acc, a3, b3, i, j, blk, LENGTH3)
    ensures isZero ==> r == ZERO_BLOCK
    ensures ExactZero(op) ==> (isZero <==> r == ZERO_BLOCK)
  {
    var limit3 := if notLastBlock then LENGTH3 else v3;
    var s: seq<Word>;
    if u == v {
      s, acc', isZero := FirstOnlyPiece(op, a3, b3, acc, u3, And(um, vm), i, j, blk);
    } else if limit3 != LENGTH3 {
      s, acc', isZero := FirstLastPieces(op, a3, b3, acc, u3, v3, um, vm, i, j, blk);
    } else {
      s, acc', isZero := FirstSpanPieces(op, a3, b3, acc, u3, um, i, j, blk);
    }
    r := s;
    if isZero {
      isZero := IsZeroBlock(r);
    }
  }

  /** word(u3, um & vm) on the block of a range that lies in one word. */
  method FirstOnlyPiece(op: Op, a3: Block, b3: Block, acc: Acc, u3: nat, m: Word, ghost i: nat, ghost j: nat, blk: nat)
    returns (r: seq<Word>, acc': Acc, isZero: bool)
    requires i < j && blk == FirstBlock(i) && i / 64 == (j - 1) / 64
    requires u3 == (i / 64) % LENGTH3 && m == And(StartMask(i), EndMask(j))
    ensures PiecesDone(op, a3, b3, i, j, blk, acc, r, acc', isZero)
  {
    r, acc', isZero := OpWord(op, blk * LENGTH3, u3, a3, b3, m, acc);
    FirstOnlyDone(op, a3, b3, acc, i, j, blk, u3, m, r, acc', isZero);
  }

  /** word(u3, um), block(u3 + 1, v3) and word(v3, vm) on a block holding both ends of the range. */
  method FirstLastPieces(op: Op, a3: Block, b3: Block, acc: Acc, u3: nat, v3: nat, um: Word, vm: Word,
                         ghost i: nat, ghost j: nat, blk: nat)
    returns (r: seq<Word>, acc': Acc, isZero: bool)
    requires i < j && blk == FirstBlock(i) && blk == LastBlock(j) && i / 64 != (j - 1) / 64
    requires u3 == (i / 64) % LENGTH3 && v3 == ((j - 1) / 64) % LENGTH3
    requires um == StartMask(i) && vm == EndMask(j)
    ensures PiecesDone(op, a3, b3, i, j, blk, acc, r, acc', isZero)
  {
    var base := blk * LENGTH3;
    FirstIndices(i, j, blk);
    var r1: seq<Word>, acc1: Acc, z1: bool;
    r1, acc1, z1 := OpWord(op, base, u3, a3, b3, um, acc);
    var r2: seq<Word>, acc2: Acc, z2: bool;
    r2, acc2, z2 := OpBlock(op, base, u3 + 1, v3, r1, b3, acc1);
    var r3: seq<Word>, z3: bool;
    r3, acc', z3 := OpWord(op, base, v3, r2, b3, vm, acc2);
    FirstLastDone(op, a3, b3, acc, i, j, blk, u3, v3, um, vm, r1, acc1, z1, r2, acc2, z2, r3, acc', z3);
    r, isZero := r3, z1 && z2 && z3;
  }

  /** word(u3, um) and block(u3 + 1, 32) on the first block of a range that goes on past it. */
  method FirstSpanPieces(op: Op, a3: Block, b3: Block, acc: Acc, u3: nat, um: Word, ghost i: nat, ghost j: nat, blk: nat)
    returns (r: seq<Word>, acc': Acc, isZero: bool)
    requires i < j && blk == FirstBlock(i) && blk < LastBlock(j) && u3 == (i / 64) % LENGTH3
    requires um == StartMask(i)
    ensures PiecesDone(op, a3, b3, i, j, blk, acc, r, acc', isZero)
  {
    var base := blk * LENGTH3;
    var r1: seq<Word>, acc1: Acc, z1: bool;
    r1, acc1, z1 := OpWord(op, base, u3, a3, b3, um, acc);
    var r2: seq<Word>, z2: bool;
    r2, acc', z2 := OpBlock(op, base, u3 + 1, LENGTH3, r1, b3, acc1);
    FirstSpanDone(op, a3, b3, acc, i, j, blk, u3, um, r1, acc1, z1, r2, acc', z2);
    r, isZero := r2, z1 && z2;
  }

  /** What word(u3, um & vm) returns is what the scan makes of the block of a range inside one word. */
  lemma FirstOnlyDone(op: Op, a3: Block, b3: Block, acc: Acc, i: nat, j: nat, blk: nat, u3: nat, m: Word,
                      r: seq<Word>, acc': Acc, z: bool)
    requires i < j && blk == FirstBlock(i) && i / 64 == (j - 1) / 64
    requires u3 == (i / 64) % LENGTH3 && m == And(StartMask(i), EndMask(j))
    requires WordApplied(op, blk * LENGTH3, u3, a3, b3, m, acc, r, acc', z)
    ensures PiecesDone(op, a3, b3, i, j, blk, acc, r, acc', z)
  {
    FirstOnlyMeaning(op, acc, a3, b3, i, j, blk, u3, m);
    if r == ZERO_BLOCK {
      assert r[u3] == ZERO_BLOCK[u3];
    }
  }

  /** What word(u3, um), block(u3 + 1, v3) and word(v3, vm) return is what the scan makes of the block. */
  lemma FirstLastDone(op: Op, a3: Block, b3: Block, acc: Acc, i: nat, j: nat, blk: nat, u3: nat, v3: nat, um: Word, vm: Word,
                      r1: seq<Word>, acc1: Acc, z1: bool, r2: seq<Word>, acc2: Acc, z2: bool, r3: seq<Word>, acc3: Acc, z3: bool)
    requires i < j && blk == FirstBlock(i) && blk == LastBlock(j) && i / 64 != (j - 1) / 64
    requires u3 == (i / 64) % LENGTH3 && v3 == ((j - 1) / 64) % LENGTH3 && u3 < v3
    requires um == StartMask(i) && vm == EndMask(j)
    requires WordApplied(op, blk * LENGTH3, u3, a3, b3, um, acc, r1, acc1, z1)
    requires |r1| == LENGTH3
    requires BlockApplied(op, blk * LENGTH3, u3 + 1, v3, r1, b3, acc1, r2, acc2, z2)
    requires |r2| == LENGTH3
    requires WordApplied(op, blk * LENGTH3, v3, r2, b3, vm, acc2, r3, acc3, z3)
    ensures PiecesDone(op, a3, b3, i, j, blk, acc, r3, acc3, z1 && z2 && z3)
  {
    FirstLastWords(op, a3, b3, i, j, blk, u3, v3, um, vm);
    if Mutates(op) {
      MutatorFold(op, acc, a3, b3, i, j, blk, LENGTH3);
    } else {
      FirstLastFold(op, acc, a3, b3, i, j, blk, u3, v3, um, vm);
    }
  }

  /** What word(u3, um) and block(u3 + 1, 32) return is what the scan makes of the first block of a longer range. */
  lemma FirstSpanDone(op: Op, a3: Block, b3: Block, acc: Acc, i: nat, j: nat, blk: nat, u3: nat, um: Word,
                      r1: seq<Word>, acc1: Acc, z1: bool, r2: seq<Word>, acc2: Acc, z2: bool)
    requires i < j && blk == FirstBlock(i) && blk < LastBlock(j) && u3 == (i / 64) % LENGTH3 && um == StartMask(i)
    requires WordApplied(op, blk * LENGTH3, u3, a3, b3, um, acc, r1, acc1, z1)
    requires |r1| == LENGTH3
    requires BlockApplied(op, blk * LENGTH3, u3 + 1, LENGTH3, r1, b3, acc1, r2, acc2, z2)
    ensures PiecesDone(op, a3, b3, i, j, blk, acc, r2, acc2, z1 && z2)
  {
    FirstSpanWords(op, a3, b3, i, j, blk, u3, um);
    if Mutates(op) {
      MutatorFold(op, acc, a3, b3, i, j, blk, LENGTH3);
    } else {
      FirstSpanFold(op, acc, a3, b3, i, j, blk, u3, um);
    }
  }

  /** Where the first and the last word of the range sit in the first block. */
  lemma FirstIndices(i: nat, j: nat, blk: nat)
    requires i < j && blk == FirstBlock(i) && blk <= LastBlock(j)
    ensures blk * LENGTH3 + (i / 64) % LENGTH3 == i / 64
    ensures blk == LastBlock(j) ==> blk * LENGTH3 + ((j - 1) / 64) % LENGTH3 == (j - 1) / 64
    ensures blk == LastBlock(j) && i / 64 != (j - 1) / 64 ==> (i / 64) % LENGTH3 < ((j - 1) / 64) % LENGTH3
    ensures blk < LastBlock(j) ==> (j - 1) / 64 >= (blk + 1) * LENGTH3
  {
  }

  /** The words of a block outside [i / 64, (j - 1) / 64] are not scanned; those strictly between are scanned whole. */
  lemma WordClass(i: nat, j: nat, blk: nat, k: nat)
    requires i < j && k < LENGTH3
    ensures blk * LENGTH3 + k < i / 64 || blk * LENGTH3 + k > (j - 1) / 64 ==> !InScan(i, j, blk, k)
    ensures i / 64 < blk * LENGTH3 + k < (j - 1) / 64 ==> InScan(i, j, blk, k) && MaskAt(i, j, blk, k) == ALL
  {
  }

  /** Words of the block before the first word of the range leave the running result alone. */
  lemma IdleBelow(op: Op, acc: Acc, a3: Block, b3: Block, i: nat, j: nat, blk: nat, n: nat)
    requires i < j && n <= LENGTH3 && blk * LENGTH3 + n <= i / 64
    ensures BlockFold(op, acc, a3, b3, i, j, blk, n) == acc
  {
    forall k | 0 <= k < n ensures !InScan(i, j, blk, k) {
      WordClass(i, j, blk, k);
    }
    FoldIdle(op, acc, a3, b3, i, j, blk, 0, n);
  }

  /** Words of the block after the last word of the range leave the running result alone. */
  lemma IdleAbove(op: Op, acc: Acc, a3: Block, b3: Block, i: nat, j: nat, blk: nat, n: nat)
    requires i < j && n <= LENGTH3 && (j - 1) / 64 < blk * LENGTH3 + n
    ensures BlockFold(op, acc, a3, b3, i, j, blk, LENGTH3) == BlockFold(op, acc, a3, b3, i, j, blk, n)
  {
    forall k | n <= k < LENGTH3 ensures !InScan(i, j, blk, k) {
      WordClass(i, j, blk, k);
    }
    FoldIdle(op, acc, a3, b3, i, j, blk, n, LENGTH3);
  }

  /** Over words wholly inside the range the fold is what block() computes. */
  lemma WholeRun(op: Op, acc: Acc, a3: Block, b3: Block, i: nat, j: nat, blk: nat, lo: nat, hi: nat)
    requires i < j && lo <= hi <= LENGTH3
    requires i == 0 || i / 64 < blk * LENGTH3 + lo
    requires blk * LENGTH3 + hi <= (j - 1) / 64
    ensures BlockFold(op, acc, a3, b3, i, j, blk, hi)
      == Steps(op, BlockFold(op, acc, a3, b3, i, j, blk, lo), blk * LENGTH3, a3, b3, lo, hi)
  {
    forall k | lo <= k < hi ensures MaskAt(i, j, blk, k) == ALL {
      if i == 0 {
        var m := MaskAt(i, j, blk, k);
        assert forall b :: 0 <= b < 64 ==> m[b] == ALL[b];
      } else {
        WordClass(i, j, blk, k);
      }
    }
    FoldRun(op, acc, a3, b3, i, j, blk, lo, hi, BlockFold(op, acc, a3, b3, i, j, blk, lo));
  }

  /** A range inside one word: word() under um & vm does all the scan does to the first block. */
  lemma FirstOnlyMeaning(op: Op, acc: Acc, a3: Block, b3: Block, i: nat, j: nat, blk: nat, u3: nat, m: Word)
    requires i < j && blk == FirstBlock(i) && i / 64 == (j - 1) / 64
    requires u3 == (i / 64) % LENGTH3 && m == And(StartMask(i), EndMask(j))
    ensures WordWrite(op, u3, a3, b3, m) == ScanBlock(op, a3, b3, i, j, blk)
    ensures AccStep(op, acc, blk * LENGTH3 + u3, a3[u3], b3[u3], m) == BlockFold(op, acc, a3, b3, i, j, blk, LENGTH3)
  {
    FirstIndices(i, j, blk);
    var r := WordWrite(op, u3, a3, b3, m);
    forall k | 0 <= k < LENGTH3 ensures r[k] == ScanBlock(op, a3, b3, i, j, blk)[k] {
      WordClass(i, j, blk, k);
    }
    IdleBelow(op, acc, a3, b3, i, j, blk, u3);
    assert MaskAt(i, j, blk, u3) == m;
    FoldNext(op, acc, a3, b3, i, j, blk, u3);
    IdleAbove(op, acc, a3, b3, i, j, blk, u3 + 1);
  }

  /**
   * A range leaving the first block: word() under um and block() over the
   * rest make of it what the scan makes of it, and a block they leave zero
   * is reported zero by each piece.
   */
  lemma FirstSpanWords(op: Op, a3: Block, b3: Block, i: nat, j: nat, blk: nat, u3: nat, um: Word)
    requires i < j && blk == FirstBlock(i) && blk < LastBlock(j) && u3 == (i / 64) % LENGTH3 && um == StartMask(i)
    ensures BlockWrite(op, u3 + 1, LENGTH3, WordWrite(op, u3, a3, b3, um), b3) == ScanBlock(op, a3, b3, i, j, blk)
    ensures BlockWrite(op, u3 + 1, LENGTH3, WordWrite(op, u3, a3, b3, um), b3) == ZERO_BLOCK ==>
      WordWrite(op, u3, a3, b3, um)[u3] == ZERO
      && ZeroRun(BlockWrite(op, u3 + 1, LENGTH3, WordWrite(op, u3, a3, b3, um), b3), u3 + 1, LENGTH3)
  {
    FirstIndices(i, j, blk);
    var r1 := WordWrite(op, u3, a3, b3, um);
    var r := BlockWrite(op, u3 + 1, LENGTH3, r1, b3);
    forall k | 0 <= k < LENGTH3 ensures r[k] == ScanBlock(op, a3, b3, i, j, blk)[k] {
      WordClass(i, j, blk, k);
      if k > u3 {
        FullMask(op, a3[k], b3[k]);
      } else if k == u3 {
        StartWordMask(i, j);
      }
    }
    if r == ZERO_BLOCK {
      assert r[u3] == ZERO_BLOCK[u3];
      forall k | u3 + 1 <= k < LENGTH3 ensures r[k] == ZERO {
        assert r[k] == ZERO_BLOCK[k];
      }
    }
  }

  /** What word(u3, um) and block(u3 + 1, 32) fold in is what the scan folds in over the first block. */
  lemma FirstSpanFold(op: Op, acc: Acc, a3: Block, b3: Block, i: nat, j: nat, blk: nat, u3: nat, um: Word)
    requires i < j && blk == FirstBlock(i) && blk < LastBlock(j) && u3 == (i / 64) % LENGTH3 && um == StartMask(i)
    ensures Steps(op, AccStep(op, acc, blk * LENGTH3 + u3, a3[u3], b3[u3], um), blk * LENGTH3, a3, b3, u3 + 1, LENGTH3)
      == BlockFold(op, acc, a3, b3, i, j, blk, LENGTH3)
  {
    FirstIndices(i, j, blk);
    IdleBelow(op, acc, a3, b3, i, j, blk, u3);
    StartWordMask(i, j);
    FoldNext(op, acc, a3, b3, i, j, blk, u3);
    WholeRun(op, acc, a3, b3, i, j, blk, u3 + 1, LENGTH3);
  }

  /**
   * A range that starts and ends in the same block but not in one word:
   * word() under um, block() between and word() under vm make of it what the
   * scan makes of it, and a block they leave zero is reported zero by each piece.
   */
  lemma FirstLastWords(op: Op, a3: Block, b3: Block, i: nat, j: nat, blk: nat, u3: nat, v3: nat, um: Word, vm: Word)
    requires i < j && blk == FirstBlock(i) && blk == LastBlock(j) && i / 64 != (j - 1) / 64
    requires u3 == (i / 64) % LENGTH3 && v3 == ((j - 1) / 64) % LENGTH3
    requires um == StartMask(i) && vm == EndMask(j)
    ensures u3 < v3
    ensures WordWrite(op, v3, BlockWrite(op, u3 + 1, v3, WordWrite(op, u3, a3, b3, um), b3), b3, vm)
      == ScanBlock(op, a3, b3, i, j, blk)
    ensures WordWrite(op, v3, BlockWrite(op, u3 + 1, v3, WordWrite(op, u3, a3, b3, um), b3), b3, vm) == ZERO_BLOCK ==>
      WordWrite(op, u3, a3, b3, um)[u3] == ZERO
      && ZeroRun(BlockWrite(op, u3 + 1, v3, WordWrite(op, u3, a3, b3, um), b3), u3 + 1, v3)
      && WordWrite(op, v3, BlockWrite(op, u3 + 1, v3, WordWrite(op, u3, a3, b3, um), b3), b3, vm)[v3] == ZERO
  {
    FirstIndices(i, j, blk);
    var r1 := WordWrite(op, u3, a3, b3, um);
    var r2 := BlockWrite(op, u3 + 1, v3, r1, b3);
    var r := WordWrite(op, v3, r2, b3, vm);
    forall k | 0 <= k < LENGTH3 ensures r[k] == ScanBlock(op, a3, b3, i, j, blk)[k] {
      WordClass(i, j, blk, k);
      if u3 < k < v3 {
        FullMask(op, a3[k], b3[k]);
      } else if k == u3 {
        StartWordMask(i, j);
      } else if k == v3 {
        EndWordMask(i, j);
      }
    }
    if r == ZERO_BLOCK {
      assert r[u3] == ZERO_BLOCK[u3];
      assert r[v3] == ZERO_BLOCK[v3];
      forall k | u3 + 1 <= k < v3 ensures r2[k] == ZERO {
        assert r[k] == ZERO_BLOCK[k];
      }
    }
  }

  /** What the three pieces fold in is what the scan folds in over a block holding both ends of the range. */
  lemma FirstLastFold(op: Op, acc: Acc, a3: Block, b3: Block, i: nat, j: nat, blk: nat, u3: nat, v3: nat, um: Word, vm: Word)
    requires i < j && blk == FirstBlock(i) && blk == LastBlock(j) && i / 64 != (j - 1) / 64
    requires u3 == (i / 64) % LENGTH3 && v3 == ((j - 1) / 64) % LENGTH3
    requires um == StartMask(i) && vm == EndMask(j)
    ensures u3 < v3
    ensures AccStep(op, Steps(op, AccStep(op, acc, blk * LENGTH3 + u3, a3[u3], b3[u3], um), blk * LENGTH3, a3, b3, u3 + 1, v3),
                    blk * LENGTH3 + v3, a3[v3], b3[v3], vm)
      == BlockFold(op, acc, a3, b3, i, j, blk, LENGTH3)
  {
    FirstIndices(i, j, blk);
    IdleBelow(op, acc, a3, b3, i, j, blk, u3);
    StartWordMask(i, j);
    FoldNext(op, acc, a3, b3, i, j, blk, u3);
    WholeRun(op, acc, a3, b3, i, j, blk, u3 + 1, v3);
    EndWordMask(i, j);
    FoldNext(op, acc, a3, b3, i, j, blk, v3);
    IdleAbove(op, acc, a3, b3, i, j, blk, v3 + 1);
  }
}
