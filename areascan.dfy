/**
 * The arithmetic and the tree facts behind setScanner's loop: the plan it
 * computes before the loop, the addresses it walks, and how each step it
 * takes (a block treated, a block or area skipped, an empty area dropped,
 * the array grown) moves the scan of ScanSpec one block or one area on.
 */
module AreaScan {
  import opened Constants
  import opened Words
  import opened Addressing
  import opened Strategies
  import opened Tree
  import opened ScanSpec
  import opened BlockScan

  /** The values setScanner fixes before its loop. */
  datatype Plan = Plan(
    op: Op, b1: Level1,
    i: nat, j: nat,
    u: nat, um: Word,              // first word of the range and its mask
    v: nat, vm: Word,              // last word of the range and its mask
    v1: nat, v2: nat, v3: nat,     // the address of the last word
    lastA3Block: nat,
    ffF: bool, fxF: bool, xfF: bool)

  /** The plan of a scan of [i, j) by op. */
  ghost predicate Ready(p: Plan) {
    && p.i < p.j <= MAX_INT32
    && p.u == p.i / 64 && p.um == StartMask(p.i)
    && p.v == (p.j - 1) / 64 && p.vm == EndMask(p.j)
    && p.v1 == p.v / AREA_WORDS && p.v2 == (p.v / LENGTH3) % LENGTH2 && p.v3 == p.v % LENGTH3
    && p.v1 == (p.j - 1) / UNIT && p.v1 < MAX_LENGTH1
    && p.lastA3Block == p.v1 * LENGTH2 + p.v2 && p.lastA3Block == LastBlock(p.j)
    && p.ffF == HasFlag(Properties(p.op), F_OP_F_EQ_F)
    && p.fxF == HasFlag(Properties(p.op), F_OP_X_EQ_F)
    && p.xfF == HasFlag(Properties(p.op), X_OP_F_EQ_F)
  }

  /**
   * The properties of the strategy decide the result from the presence of
   * the two operands alone (an absent area or block reads as zero).
   */
  predicate ShortCut(p: Plan, haveA: bool, haveB: bool) {
    (!haveA && !haveB && p.ffF) || (!haveA && p.fxF) || (!haveB && p.xfF)
  }

  /** Block m of area u1. */
  function AreaBlock(t: Level1, u1: nat, m: nat): Block {
    BlockAt(t, u1 * LENGTH2 + m)
  }

  /** The first n blocks of area u1 read as zero. */
  ghost predicate AreaZeroBelow(t: Level1, u1: nat, n: nat) {
    forall m :: 0 <= m < n ==> AreaBlock(t, u1, m) == ZERO_BLOCK
  }

  /** Every block of t' but block blk is as in t. */
  ghost predicate OthersKept(t': Level1, t: Level1, blk: nat) {
    forall x: nat :: x != blk ==> BlockAt(t', x) == BlockAt(t, x)
  }

  /** Where the scan stands after area u1: past the last block of the range, or at the next area. */
  function AreaEnd(p: Plan, u1: nat): nat {
    if u1 == p.v1 then p.lastA3Block + 1 else (u1 + 1) * LENGTH2
  }

  // ---------------------------------------------------------------------
  // Arithmetic of the addresses the scanner computes

  /** The block of word w is block (w >> 5) & 31 of area w >> 10. */
  lemma BlockOfWord(w: nat)
    ensures w / LENGTH3 == (w / AREA_WORDS) * LENGTH2 + (w / LENGTH3) % LENGTH2
  {
    var q := w / 32;
    assert w / 1024 == q / 32;
  }

  /** The area of bit x is (x >> 6) >> 10 = x >> 16. */
  lemma AreaOfBit(x: nat)
    ensures x / 64 / AREA_WORDS == x / UNIT
  {
  }

  /** The block m of area u1 is block u1 * 32 + m. */
  lemma BlockLookup(t: Level1, u1: nat, u2: nat, blk: nat)
    requires u2 < LENGTH2 && blk == u1 * LENGTH2 + u2
    ensures blk / LENGTH2 == u1 && blk % LENGTH2 == u2
    ensures BlockAt(t, blk) ==
      if u1 < |t| && t[u1].Some? && t[u1].value[u2].Some? then t[u1].value[u2].value else ZERO_BLOCK
  {
    BlockIndex(blk, u1, u2);
  }

  /** The plan setScanner fixes for a range it accepts is ready. */
  lemma PlanReady(p: Plan)
    requires 0 <= p.i < p.j <= MAX_INT32
    requires p.u == p.i / 64 && p.um == StartMask(p.i)
    requires p.v == (p.j - 1) / 64 && p.vm == EndMask(p.j)
    requires p.v1 == p.v / AREA_WORDS && p.v2 == (p.v / LENGTH3) % LENGTH2 && p.v3 == p.v % LENGTH3
    requires p.lastA3Block == p.v1 * LENGTH2 + p.v2
    requires p.ffF == HasFlag(Properties(p.op), F_OP_F_EQ_F)
    requires p.fxF == HasFlag(Properties(p.op), F_OP_X_EQ_F)
    requires p.xfF == HasFlag(Properties(p.op), X_OP_F_EQ_F)
    ensures Ready(p)
  {
    BlockOfWord(p.v);
    AreaOfBit(p.j - 1);
  }

  /** The plan setScanner computes from op, the other set's array and the range [i, j). */
  function NewPlan(op: Op, b1: Level1, i: nat, j: nat): (p: Plan)
    requires i < j <= MAX_INT32
    ensures Ready(p) && p.op == op && p.b1 == b1 && p.i == i && p.j == j
  {
    var u := i / 64;
    var v := (j - 1) / 64;
    var v1 := v / AREA_WORDS;
    var v2 := (v / LENGTH3) % LENGTH2;
    var props := Properties(op);
    var p := Plan(op, b1, i, j, u, StartMask(i), v, EndMask(j), v1, v2, v % LENGTH3, v1 * LENGTH2 + v2,
                  HasFlag(props, F_OP_F_EQ_F), HasFlag(props, F_OP_X_EQ_F), HasFlag(props, X_OP_F_EQ_F));
    PlanReady(p);
    p
  }

  /** u == 0 && um == ^0 holds exactly when the scan starts at bit 0. */
  lemma FirstBlockFlag(i: nat)
    ensures (i / 64 == 0 && StartMask(i) == ALL) <==> i == 0
  {
    if i / 64 == 0 && StartMask(i) == ALL {
      assert StartMask(i)[0] == ALL[0];
    }
    if i == 0 {
      assert forall m :: 0 <= m < 64 ==> StartMask(i)[m] == ALL[m];
    }
  }

  /**
   * The next area of the scan: inside the range while the last area is not
   * reached, and at or past j (capped at MaxInt32) after it.
   */
  lemma NextArea(k: nat, u1: nat, j: nat, v1: nat)
    requires k < j <= MAX_INT32 && k / UNIT == u1 && v1 == (j - 1) / UNIT
    ensures u1 <= v1 && k < (u1 + 1) * UNIT
    ensures u1 < v1 ==> (u1 + 1) * UNIT < j && ((u1 + 1) * UNIT) / UNIT == u1 + 1
    ensures u1 == v1 ==> (u1 + 1) * UNIT >= j
  {
  }

  // ---------------------------------------------------------------------
  // How the tree changes as the scan proceeds

  /** Block blk has been scanned and nothing else has changed: the scan is one block further. */
  lemma ScannedNext(op: Op, t': Level1, t: Level1, a0: Level1, b: Level1, i: nat, j: nat, blk: nat)
    requires i < j && ScannedTo(op, t, a0, b, i, j, blk) && OthersKept(t', t, blk)
    requires BlockAt(t', blk) == ScanBlock(op, BlockAt(a0, blk), BlockAt(b, blk), i, j, blk)
    ensures ScannedTo(op, t', a0, b, i, j, blk + 1)
  {
    forall x: nat
      ensures BlockAt(t', x) ==
        if x < blk + 1 then ScanBlock(op, BlockAt(a0, x), BlockAt(b, x), i, j, x) else BlockAt(a0, x)
    {
      if x != blk {
        assert BlockAt(t', x) == BlockAt(t, x);
      }
    }
  }

  /** Replacing the tree by one with the same bits keeps the scan where it was. */
  lemma ScannedSame(op: Op, t': Level1, t: Level1, a0: Level1, b: Level1, i: nat, j: nat, cur: nat)
    requires i < j && ScannedTo(op, t, a0, b, i, j, cur) && SameBits(t', t)
    ensures ScannedTo(op, t', a0, b, i, j, cur)
  {
    forall x: nat
      ensures BlockAt(t', x) ==
        if x < cur then ScanBlock(op, BlockAt(a0, x), BlockAt(b, x), i, j, x) else BlockAt(a0, x)
    {
      assert BlockAt(t', x) == BlockAt(t, x);
    }
  }

  /** Growing the level-1 array keeps every block. */
  lemma GrowKeeps(t: Level1, n: nat)
    requires |t| <= n
    ensures SameBits(Resized(t, n), t)
  {
    forall blk: nat ensures BlockAt(Resized(t, n), blk) == BlockAt(t, blk) {
      if blk / LENGTH2 >= n {
        AbsentIsZero(t, blk);
      }
    }
  }

  /** An area whose blocks all read as zero can be dropped: a1[u1] = nil changes no bit. */
  lemma DropZeroArea(t: Level1, u1: nat)
    requires u1 < |t| && AreaZeroBelow(t, u1, LENGTH2)
    ensures SameBits(DropArea(t, u1), t)
  {
    forall blk: nat ensures BlockAt(DropArea(t, u1), blk) == BlockAt(t, blk) {
      if blk / LENGTH2 == u1 {
        assert blk == u1 * LENGTH2 + blk % LENGTH2;
        assert AreaBlock(t, u1, blk % LENGTH2) == ZERO_BLOCK;
      }
    }
  }

  /** A zero block after n zero blocks: the first n + 1 blocks of the area read as zero. */
  lemma AreaZeroNext(t': Level1, t: Level1, u1: nat, n: nat, blk: nat)
    requires AreaZeroBelow(t, u1, n) && OthersKept(t', t, blk) && blk == u1 * LENGTH2 + n
    requires BlockAt(t', blk) == ZERO_BLOCK
    ensures AreaZeroBelow(t', u1, n + 1)
  {
    forall m | 0 <= m < n + 1 ensures AreaBlock(t', u1, m) == ZERO_BLOCK {
      if m < n {
        assert AreaBlock(t, u1, m) == ZERO_BLOCK;
      }
    }
  }

  /** The running result of a scan depends only on the bits of the sets. */
  lemma {:induction false} ScanFoldSameBits(op: Op, t: Level1, s: Level1, tb: Level1, i: nat, j: nat, n: nat)
    requires i < j && SameBits(t, s)
    ensures ScanFold(op, t, tb, i, j, n) == ScanFold(op, s, tb, i, j, n)
  {
    if n > 0 {
      ScanFoldSameBits(op, t, s, tb, i, j, n - 1);
      assert BlockAt(t, n - 1) == BlockAt(s, n - 1);
    }
  }

  /**
   * Only a strategy that writes can make the spare non-zero: for the ones
   * that only read, a zero block is reported zero, so the spare is never
   * promoted by them.
   */
  lemma SpareNeedsMutator(op: Op, a3: Block, b3: Block, i: nat, j: nat, blk: nat, acc: Acc, r: Block, acc': Acc, isZero: bool)
    requires i < j && BlockDone(op, a3, b3, i, j, blk, acc, r, acc', isZero)
    requires a3 == ZERO_BLOCK && !isZero
    ensures Mutates(op)
  {
    if !Mutates(op) {
      ReaderBlock(op, a3, b3, i, j, blk);
    }
  }

  /** Block blk leaves the running result acc where it was. */
  predicate IdleBlock(op: Op, ta: Level1, tb: Level1, i: nat, j: nat, blk: nat, acc: Acc)
    requires i < j
  {
    BlockFold(op, acc, BlockAt(ta, blk), BlockAt(tb, blk), i, j, blk, LENGTH3) == acc
  }

  /** Blocks lo .. hi - 1 that each leave the running result alone leave it alone together. */
  lemma {:induction false} IdleRunFold(op: Op, ta: Level1, tb: Level1, i: nat, j: nat, lo: nat, hi: nat, acc: Acc)
    requires i < j && lo <= hi
    requires ScanFold(op, ta, tb, i, j, lo) == acc
    requires forall blk :: lo <= blk < hi ==> IdleBlock(op, ta, tb, i, j, blk, acc)
    ensures ScanFold(op, ta, tb, i, j, hi) == acc
    decreases hi - lo
  {
    if lo < hi {
      IdleRunFold(op, ta, tb, i, j, lo, hi - 1, acc);
      IdleStep(op, ta, tb, i, j, hi, acc);
    } else {
      assert hi == lo;
    }
  }

  /** One idle block more. */
  lemma IdleStep(op: Op, ta: Level1, tb: Level1, i: nat, j: nat, n: nat, acc: Acc)
    requires i < j && n > 0
    requires ScanFold(op, ta, tb, i, j, n - 1) == acc && IdleBlock(op, ta, tb, i, j, n - 1, acc)
    ensures ScanFold(op, ta, tb, i, j, n) == acc
  {
  }

  /** An area the properties let the scan skip: every block of it has a shape they cover. */
  lemma AreaShapes(p: Plan, a0: Level1, t: Level1, u1: nat, haveA2: bool, haveB2: bool)
    requires forall m :: 0 <= m < LENGTH2 ==> AreaBlock(t, u1, m) == AreaBlock(a0, u1, m)
    requires haveA2 <==> u1 < |t| && t[u1].Some?
    requires haveB2 <==> u1 < |p.b1| && p.b1[u1].Some?
    requires Ready(p) && ShortCut(p, haveA2, haveB2)
    ensures forall m :: 0 <= m < LENGTH2 ==> SkipShape(p.op, AreaBlock(a0, u1, m), AreaBlock(p.b1, u1, m))
  {
    forall m | 0 <= m < LENGTH2 ensures SkipShape(p.op, AreaBlock(a0, u1, m), AreaBlock(p.b1, u1, m)) {
      var blk := u1 * LENGTH2 + m;
      BlockLookup(t, u1, m, blk);
      BlockLookup(p.b1, u1, m, blk);
      assert AreaBlock(t, u1, m) == AreaBlock(a0, u1, m);
    }
  }

  /** What the scan makes of block blk is the zero block. */
  predicate ZeroedBlock(op: Op, ta: Level1, tb: Level1, i: nat, j: nat, blk: nat)
    requires i < j
  {
    ScanBlock(op, BlockAt(ta, blk), BlockAt(tb, blk), i, j, blk) == ZERO_BLOCK
  }

  /**
   * The blocks of an interior area of shapes the properties cover: each is
   * made the zero block and leaves the running result alone.
   */
  lemma SkippedBlocks(op: Op, ta: Level1, tb: Level1, i: nat, j: nat, u1: nat, acc: Acc)
    requires i < j && (i == 0 || u1 * LENGTH2 > FirstBlock(i)) && (u1 + 1) * LENGTH2 <= LastBlock(j)
    requires forall m :: 0 <= m < LENGTH2 ==> SkipShape(op, AreaBlock(ta, u1, m), AreaBlock(tb, u1, m))
    ensures forall blk :: u1 * LENGTH2 <= blk < (u1 + 1) * LENGTH2 ==>
      IdleBlock(op, ta, tb, i, j, blk, acc) && ZeroedBlock(op, ta, tb, i, j, blk)
  {
    forall blk | u1 * LENGTH2 <= blk < (u1 + 1) * LENGTH2
      ensures IdleBlock(op, ta, tb, i, j, blk, acc) && ZeroedBlock(op, ta, tb, i, j, blk)
    {
      BlockIndex(blk, u1, blk % LENGTH2);
      assert SkipShape(op, AreaBlock(ta, u1, blk % LENGTH2), AreaBlock(tb, u1, blk % LENGTH2));
      assert Interior(i, j, blk);
      SkipBlock(op, acc, BlockAt(ta, blk), BlockAt(tb, blk), i, j, blk);
    }
  }

  /**
   * An area the properties let the scan skip: each of its blocks is made the
   * zero block and leaves the running result alone.
   */
  lemma SkipAreaBlocks(p: Plan, a0: Level1, t: Level1, u1: nat, haveA2: bool, haveB2: bool, acc: Acc)
    requires Ready(p) && u1 < p.v1
    requires p.i == 0 || u1 * LENGTH2 > FirstBlock(p.i)
    requires ScannedTo(p.op, t, a0, p.b1, p.i, p.j, u1 * LENGTH2)
    requires haveA2 <==> u1 < |t| && t[u1].Some?
    requires haveB2 <==> u1 < |p.b1| && p.b1[u1].Some?
    requires ShortCut(p, haveA2, haveB2)
    ensures forall blk :: u1 * LENGTH2 <= blk < (u1 + 1) * LENGTH2 ==>
      IdleBlock(p.op, a0, p.b1, p.i, p.j, blk, acc) && ZeroedBlock(p.op, a0, p.b1, p.i, p.j, blk)
  {
    forall m | 0 <= m < LENGTH2 ensures AreaBlock(t, u1, m) == AreaBlock(a0, u1, m) {
      assert BlockAt(t, u1 * LENGTH2 + m) == BlockAt(a0, u1 * LENGTH2 + m);
    }
    AreaShapes(p, a0, t, u1, haveA2, haveB2);
    assert (u1 + 1) * LENGTH2 <= LastBlock(p.j);
    SkippedBlocks(p.op, a0, p.b1, p.i, p.j, u1, acc);
  }

  /** Dropping area u1 after it has been made zero moves the scan past it. */
  lemma DroppedArea(op: Op, a0: Level1, b1: Level1, i: nat, j: nat, t: Level1, t': Level1, u1: nat)
    requires i < j && ScannedTo(op, t, a0, b1, i, j, u1 * LENGTH2)
    requires forall blk :: u1 * LENGTH2 <= blk < (u1 + 1) * LENGTH2 ==> ZeroedBlock(op, a0, b1, i, j, blk)
    requires t' == if u1 < |t| then DropArea(t, u1) else t
    ensures ScannedTo(op, t', a0, b1, i, j, (u1 + 1) * LENGTH2)
  {
    forall x: nat
      ensures BlockAt(t', x) ==
        if x < (u1 + 1) * LENGTH2 then ScanBlock(op, BlockAt(a0, x), BlockAt(b1, x), i, j, x) else BlockAt(a0, x)
    {
      if x / LENGTH2 == u1 {
        BlockIndex(x, u1, x % LENGTH2);
        assert ZeroedBlock(op, a0, b1, i, j, x);
        AbsentIsZero(t', x);
      } else {
        assert BlockAt(t', x) == BlockAt(t, x);
      }
    }
  }

  /**
   * An area skipped as a whole (a1[u1] = nil when the array reaches it):
   * the scan moves to the next area with the same running result.
   */
  lemma SkipArea(p: Plan, a0: Level1, t: Level1, t': Level1, u1: nat, haveA2: bool, haveB2: bool, acc: Acc)
    requires Ready(p) && u1 < p.v1
    requires p.i == 0 || u1 * LENGTH2 > FirstBlock(p.i)
    requires ScannedTo(p.op, t, a0, p.b1, p.i, p.j, u1 * LENGTH2) && FoldedTo(p.op, a0, p.b1, p.i, p.j, u1 * LENGTH2, acc)
    requires haveA2 <==> u1 < |t| && t[u1].Some?
    requires haveB2 <==> u1 < |p.b1| && p.b1[u1].Some?
    requires ShortCut(p, haveA2, haveB2)
    requires t' == if u1 < |t| then DropArea(t, u1) else t
    ensures ScannedTo(p.op, t', a0, p.b1, p.i, p.j, (u1 + 1) * LENGTH2)
    ensures FoldedTo(p.op, a0, p.b1, p.i, p.j, (u1 + 1) * LENGTH2, acc)
  {
    assert acc == ScanFold(p.op, a0, p.b1, p.i, p.j, u1 * LENGTH2);
    SkipAreaBlocks(p, a0, t, u1, haveA2, haveB2, acc);
    IdleRunFold(p.op, a0, p.b1, p.i, p.j, u1 * LENGTH2, (u1 + 1) * LENGTH2, acc);
    DroppedArea(p.op, a0, p.b1, p.i, p.j, t, t', u1);
    assert acc == ScanFold(p.op, a0, p.b1, p.i, p.j, (u1 + 1) * LENGTH2);
  }

  /**
   * One block treated: t' holds what the scan makes of block blk of t and
   * every other block of t, and the running result has taken the block's
   * words in.
   */
  ghost predicate StepDone(op: Op, t': Level1, t: Level1, b: Level1, i: nat, j: nat, blk: nat, acc: Acc, acc': Acc)
    requires i < j
  {
    && OthersKept(t', t, blk)
    && BlockAt(t', blk) == ScanBlock(op, BlockAt(t, blk), BlockAt(b, blk), i, j, blk)
    && acc' == BlockFold(op, acc, BlockAt(t, blk), BlockAt(b, blk), i, j, blk, LENGTH3)
  }

  /**
   * acc is the running result of the scan over the blocks [0, n). The
   * equation is stated for the single index m == n, so a proof unfolds the
   * fold only where it names ScanFold at that index.
   */
  ghost predicate FoldedTo(op: Op, ta: Level1, tb: Level1, i: nat, j: nat, n: nat, acc: Acc)
    requires i < j
  {
    forall m: nat {:trigger ScanFold(op, ta, tb, i, j, m)} :: m == n ==> acc == ScanFold(op, ta, tb, i, j, m)
  }

  /** acc is the running result of the whole scan of [i, j): ScanResult, in the form FoldedTo keeps. */
  ghost predicate ResultIs(op: Op, ta: Level1, tb: Level1, i: nat, j: nat, acc: Acc)
    requires i < j
  {
    FoldedTo(op, ta, tb, i, j, LastBlock(j) + 1, acc)
  }

  /** ResultIs says exactly that acc is the scan's result. */
  lemma ResultIsMeaning(op: Op, ta: Level1, tb: Level1, i: nat, j: nat, acc: Acc)
    requires i < j
    ensures ResultIs(op, ta, tb, i, j, acc) <==> acc == ScanResult(op, ta, tb, i, j)
  {
    if acc == ScanResult(op, ta, tb, i, j) {
      assert forall m: nat {:trigger ScanFold(op, ta, tb, i, j, m)} :: m == LastBlock(j) + 1 ==> acc == ScanFold(op, ta, tb, i, j, m);
    }
  }

  /** The scan starts at the first block of the range with the strategy's initial result. */
  lemma FoldStart(op: Op, ta: Level1, tb: Level1, i: nat, j: nat)
    requires i < j
    ensures FoldedTo(op, ta, tb, i, j, FirstBlock(i), InitAcc(op))
  {
    ScanStart(op, ta, tb, i, j, FirstBlock(i));
  }

  /** A block treated moves the scan one block further. */
  lemma StepProgress(op: Op, t': Level1, t: Level1, a0: Level1, b: Level1, i: nat, j: nat, blk: nat, acc: Acc, acc': Acc)
    requires i < j && ScannedTo(op, t, a0, b, i, j, blk) && FoldedTo(op, a0, b, i, j, blk, acc)
    requires StepDone(op, t', t, b, i, j, blk, acc, acc')
    ensures ScannedTo(op, t', a0, b, i, j, blk + 1) && FoldedTo(op, a0, b, i, j, blk + 1, acc')
  {
    assert acc == ScanFold(op, a0, b, i, j, blk);
    assert BlockAt(t, blk) == BlockAt(a0, blk);
    assert acc' == ScanFold(op, a0, b, i, j, blk + 1);
    ScannedNext(op, t', t, a0, b, i, j, blk);
  }
}
