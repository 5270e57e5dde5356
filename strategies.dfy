/**
 * The strategies a scan of the bit set is parameterised by: what each does
 * to a word under a mask (word()), to a run of whole words of a block
 * (block()), and to its running result, and the short-cut properties that
 * let a scan skip absent blocks and areas.
 */
module Strategies {
  import opened Constants
  import opened Words
  import opened Statistics

  datatype Op = AndOp | AndNotOp | ClearOp | CopyOp | EqualsOp | FlipOp | IntersectsOp | OrOp | SetOp | UpdateOp | XorOp

  /** The strategies whose start() reports that the set changes (so the cache goes stale). */
  predicate Mutates(op: Op) { !(op.EqualsOp? || op.IntersectsOp? || op.UpdateOp?) }

  /** The strategies whose start() panics when the other set is nil. */
  predicate NeedsOperand(op: Op) { op.AndOp? || op.AndNotOp? || op.EqualsOp? || op.IntersectsOp? }

  /**
   * properties(): the short-cuts each strategy declares. And declares that a
   * zero on either side gives zero (F_OP_X_EQ_F and X_OP_F_EQ_F), as its
   * documentation says.
   */
  function Properties(op: Op): bv32 {
    match op
    case AndOp => F_OP_F_EQ_F + F_OP_X_EQ_F + X_OP_F_EQ_F
    case AndNotOp => F_OP_F_EQ_F + F_OP_X_EQ_F + X_OP_F_EQ_X
    case ClearOp => F_OP_F_EQ_F + F_OP_X_EQ_F
    case CopyOp => F_OP_F_EQ_F + X_OP_F_EQ_F
    case EqualsOp => F_OP_F_EQ_F
    case FlipOp => 0
    case IntersectsOp => F_OP_F_EQ_F + F_OP_X_EQ_F
    case OrOp => F_OP_F_EQ_F + X_OP_F_EQ_X
    case SetOp => 0
    case UpdateOp => F_OP_F_EQ_F + F_OP_X_EQ_F
    case XorOp => F_OP_F_EQ_F + X_OP_F_EQ_X
  }

  /** The documented truth table of each strategy: bit a of this set against bit b of the other. */
  function BitOp(op: Op, a: bool, b: bool): bool {
    match op
    case AndOp => a && b
    case AndNotOp => a && !b
    case ClearOp => false
    case CopyOp => b
    case FlipOp => !a
    case OrOp => a || b
    case SetOp => true
    case XorOp => a != b
    case _ => a      // equals, intersects and update leave the set as it is
  }

  /** What block() writes into each whole word. */
  function WordOp(op: Op, a: Word, b: Word): Word {
    match op
    case AndOp => And(a, b)
    case AndNotOp => And(a, Not(b))
    case ClearOp => ZERO
    case CopyOp => b
    case FlipOp => Xor(a, ALL)
    case OrOp => Or(a, b)
    case SetOp => ALL
    case XorOp => Xor(a, b)
    case _ => a
  }

  /** What word() writes into a word under a mask. */
  function MaskedWord(op: Op, a: Word, b: Word, mask: Word): Word {
    match op
    case AndOp => And(a, Or(b, Not(mask)))
    case AndNotOp => And(a, Not(And(b, mask)))
    case ClearOp => And(a, Not(mask))
    case CopyOp => And(b, mask)
    case FlipOp => Xor(a, mask)
    case OrOp => Or(a, And(b, mask))
    case SetOp => Or(a, mask)
    case XorOp => Xor(a, And(b, mask))
    case _ => a
  }

  /**
   * word() applies the truth table to the bits under the mask and leaves the
   * others as they were, except that copy clears them.
   */
  lemma MaskedWordTable(op: Op, a: Word, b: Word, mask: Word)
    ensures forall k :: 0 <= k < 64 ==>
      MaskedWord(op, a, b, mask)[k] == (if mask[k] then BitOp(op, a[k], b[k]) else if op.CopyOp? then false else a[k])
  {
  }

  /** block() applies the truth table to every bit of a word. */
  lemma WordOpTable(op: Op, a: Word, b: Word)
    ensures forall k :: 0 <= k < 64 ==> WordOp(op, a, b)[k] == BitOp(op, a[k], b[k])
  {
  }

  /** Under the full mask, word() writes what block() writes. */
  lemma FullMask(op: Op, a: Word, b: Word)
    ensures MaskedWord(op, a, b, ALL) == WordOp(op, a, b)
  {
    WordOpTable(op, a, b);
    MaskedWordTable(op, a, b, ALL);
    assert forall k :: 0 <= k < 64 ==> MaskedWord(op, a, b, ALL)[k] == WordOp(op, a, b)[k];
  }

  // ---------------------------------------------------------------------
  // What the strategies compute while they scan

  /** The running result: the verdict of equals or intersects, and the totals of update. */
  datatype Acc = Acc(result: bool, stats: Stats)

  /** start(): equals presumes equality, intersects presumes no common bit, update starts its totals. */
  function InitAcc(op: Op): Acc {
    Acc(op.EqualsOp?, InitStats)
  }

  /** How word() folds one word, under a mask, into the running result. */
  function AccStep(op: Op, acc: Acc, index: nat, a: Word, b: Word, mask: Word): Acc {
    match op
    case EqualsOp => acc.(result := acc.result && And(a, mask) == And(b, mask))
    case IntersectsOp => acc.(result := acc.result || And(And(a, b), mask) != ZERO)
    case UpdateOp =>
      var word1 := And(a, mask);
      if word1 != ZERO then acc.(stats := Compute(acc.stats, index, word1)) else acc
    case _ => acc
  }

  /** How block() folds one whole word into the running result. */
  function BlockStep(op: Op, acc: Acc, index: nat, a: Word, b: Word): Acc {
    match op
    case EqualsOp => acc.(result := acc.result && a == b)
    case IntersectsOp => acc.(result := acc.result || And(a, b) != ZERO)
    case UpdateOp => if a != ZERO then acc.(stats := Compute(acc.stats, index, a)) else acc
    case _ => acc
  }

  lemma AndAll(a: Word)
    ensures And(a, ALL) == a
  {
    assert forall k :: 0 <= k < 64 ==> And(a, ALL)[k] == a[k];
  }

  /** block() folds a word into the result as word() does under the full mask. */
  lemma BlockStepIsFullMask(op: Op, acc: Acc, index: nat, a: Word, b: Word, mask: Word)
    requires mask == ALL
    ensures BlockStep(op, acc, index, a, b) == AccStep(op, acc, index, a, b, mask)
  {
    AndAll(a);
    AndAll(b);
    AndAll(And(a, b));
  }

  /** A word outside the scanned range (a zero mask) leaves the running result alone. */
  lemma ZeroMaskKeepsAcc(op: Op, acc: Acc, index: nat, a: Word, b: Word)
    ensures AccStep(op, acc, index, a, b, ZERO) == acc
  {
    assert And(a, ZERO) == ZERO by {
      assert forall k :: 0 <= k < 64 ==> And(a, ZERO)[k] == ZERO[k];
    }
    assert And(b, ZERO) == ZERO by {
      assert forall k :: 0 <= k < 64 ==> And(b, ZERO)[k] == ZERO[k];
    }
    assert And(And(a, b), ZERO) == ZERO by {
      assert forall k :: 0 <= k < 64 ==> And(And(a, b), ZERO)[k] == ZERO[k];
    }
  }

  /** The words [lo, hi) of a block folded into the running result by block(), word base + k at position k. */
  function Steps(op: Op, acc: Acc, base: nat, a3: seq<Word>, b3: seq<Word>, lo: nat, hi: nat): Acc
    requires lo <= hi <= |a3| && hi <= |b3|
    decreases hi - lo
  {
    if hi == lo then acc
    else BlockStep(op, Steps(op, acc, base, a3, b3, lo, hi - 1), base + hi - 1, a3[hi - 1], b3[hi - 1])
  }

  /** The short-cut properties each strategy's sum of flags declares. */
  lemma PropertiesDecode(op: Op)
    ensures HasFlag(Properties(op), F_OP_F_EQ_F) <==> !(op.FlipOp? || op.SetOp?)
    ensures HasFlag(Properties(op), F_OP_X_EQ_F) <==>
      (op.AndOp? || op.AndNotOp? || op.ClearOp? || op.IntersectsOp? || op.UpdateOp?)
    ensures HasFlag(Properties(op), X_OP_F_EQ_F) <==> (op.AndOp? || op.CopyOp?)
    ensures HasFlag(Properties(op), X_OP_F_EQ_X) <==> (op.AndNotOp? || op.OrOp? || op.XorOp?)
  {
    match op
    case AndOp =>
      FlagsDecode(true, true, true, false);
      assert F_OP_F_EQ_F + F_OP_X_EQ_F + X_OP_F_EQ_F == Flags(true, true, true, false);
    case AndNotOp =>
      FlagsDecode(true, true, false, true);
      assert F_OP_F_EQ_F + F_OP_X_EQ_F + X_OP_F_EQ_X == Flags(true, true, false, true);
    case ClearOp =>
      FlagsDecode(true, true, false, false);
      assert F_OP_F_EQ_F + F_OP_X_EQ_F == Flags(true, true, false, false);
    case CopyOp =>
      FlagsDecode(true, false, true, false);
      assert F_OP_F_EQ_F + X_OP_F_EQ_F == Flags(true, false, true, false);
    case EqualsOp =>
      FlagsDecode(true, false, false, false);
      assert F_OP_F_EQ_F == Flags(true, false, false, false);
    case FlipOp =>
      FlagsDecode(false, false, false, false);
      assert 0 == Flags(false, false, false, false);
    case IntersectsOp =>
      FlagsDecode(true, true, false, false);
      assert F_OP_F_EQ_F + F_OP_X_EQ_F == Flags(true, true, false, false);
    case OrOp =>
      FlagsDecode(true, false, false, true);
      assert F_OP_F_EQ_F + X_OP_F_EQ_X == Flags(true, false, false, true);
    case SetOp =>
      FlagsDecode(false, false, false, false);
      assert 0 == Flags(false, false, false, false);
    case UpdateOp =>
      FlagsDecode(true, true, false, false);
      assert F_OP_F_EQ_F + F_OP_X_EQ_F == Flags(true, true, false, false);
    case XorOp =>
      FlagsDecode(true, false, false, true);
      assert F_OP_F_EQ_F + X_OP_F_EQ_X == Flags(true, false, false, true);
  }

  /** The identities of the zero word the short-cuts rest on. */
  lemma ZeroLaws(a: Word)
    ensures And(a, ZERO) == ZERO && And(ZERO, a) == ZERO
    ensures And(a, Not(ZERO)) == a && Or(a, ZERO) == a && Xor(a, ZERO) == a
  {
    assert forall k :: 0 <= k < 64 ==> And(a, ZERO)[k] == ZERO[k] && And(ZERO, a)[k] == ZERO[k];
    assert forall k :: 0 <= k < 64 ==> And(a, Not(ZERO))[k] == a[k] && Or(a, ZERO)[k] == a[k];
    assert forall k :: 0 <= k < 64 ==> Xor(a, ZERO)[k] == a[k];
  }

  /**
   * The short-cut properties are sound: when a strategy declares one, a whole
   * word pair of the shape it names gives the word it names, and the running
   * result does not move, so an absent block of that shape may be skipped.
   */
  lemma PropertiesSound(op: Op, acc: Acc, index: nat, a: Word, b: Word)
    ensures HasFlag(Properties(op), F_OP_F_EQ_F) && a == ZERO && b == ZERO ==>
      WordOp(op, a, b) == ZERO && BlockStep(op, acc, index, a, b) == acc
    ensures HasFlag(Properties(op), F_OP_X_EQ_F) && a == ZERO ==>
      WordOp(op, a, b) == ZERO && BlockStep(op, acc, index, a, b) == acc
    ensures HasFlag(Properties(op), X_OP_F_EQ_F) && b == ZERO ==>
      WordOp(op, a, b) == ZERO && BlockStep(op, acc, index, a, b) == acc
    ensures HasFlag(Properties(op), X_OP_F_EQ_X) && b == ZERO ==>
      WordOp(op, a, b) == a && BlockStep(op, acc, index, a, b) == acc
  {
    PropertiesDecode(op);
    ZeroLaws(a);
    ZeroLaws(b);
  }

  /** Strategies that change the set leave the running result alone. */
  lemma MutatorsKeepAcc(op: Op, acc: Acc, index: nat, a: Word, b: Word, mask: Word)
    requires Mutates(op)
    ensures AccStep(op, acc, index, a, b, mask) == acc
    ensures BlockStep(op, acc, index, a, b) == acc
  {
  }

  /** Strategies that only read the set never change a word. */
  lemma ReadersKeepWords(op: Op)
    requires !Mutates(op)
    ensures forall a: Word, b: Word :: WordOp(op, a, b) == a
    ensures forall a: Word, b: Word, mask: Word :: MaskedWord(op, a, b, mask) == a
  {
  }

  /** Whether block() reports a zero run exactly: clear always reports one, set and xor never do. */
  predicate ExactZero(op: Op) { !(op.ClearOp? || op.SetOp? || op.XorOp?) }

  // ---------------------------------------------------------------------
  // The kernels

  /** The words word() leaves: word u3 under the mask, the others as they were. */
  function WordWrite(op: Op, u3: nat, a3: seq<Word>, b3: seq<Word>, mask: Word): seq<Word>
    requires u3 < |a3| && u3 < |b3|
  {
    a3[u3 := MaskedWord(op, a3[u3], b3[u3], mask)]
  }

  /**
   * What word() does: word u3 of the block is put under the mask, the word is
   * folded into the running result, and the zero report says whether the new
   * word is zero; the strategies that write leave the running result alone,
   * the others leave the words alone.
   */
  predicate WordApplied(op: Op, base: nat, u3: nat, a3: seq<Word>, b3: seq<Word>, mask: Word, acc: Acc,
                        r: seq<Word>, acc': Acc, isZero: bool)
    requires u3 < |a3| && u3 < |b3|
  {
    && r == WordWrite(op, u3, a3, b3, mask)
    && acc' == AccStep(op, acc, base + u3, a3[u3], b3[u3], mask)
    && (isZero <==> r[u3] == ZERO)
    && (Mutates(op) ==> acc' == acc)
    && (!Mutates(op) ==> r == a3)
  }

  /**
   * word(): apply the strategy to word u3 of a block under a mask, fold the
   * word into the running result, and report whether the word is now zero.
   */
  method OpWord(op: Op, base: nat, u3: nat, a3: seq<Word>, b3: seq<Word>, mask: Word, acc: Acc)
    returns (r: seq<Word>, acc': Acc, isZero: bool)
    requires u3 < |a3| && u3 < |b3|
    ensures WordApplied(op, base, u3, a3, b3, mask, acc, r, acc', isZero)
  {
    var word := a3[u3];
    acc' := AccStep(op, acc, base + u3, word, b3[u3], mask);
    r := a3[u3 := MaskedWord(op, word, b3[u3], mask)];
    isZero := r[u3] == ZERO;
    if Mutates(op) {
      MutatorsKeepAcc(op, acc, base + u3, word, b3[u3], mask);
    } else {
      ReadersKeepWords(op);
    }
  }

  /** Clear skips its writes when asked for the whole block, which the scan then drops. */
  predicate SkipsWrites(op: Op, u3: nat, v3: nat, n: nat) { op.ClearOp? && u3 == 0 && v3 == n }

  /** The words [lo, hi) of a block are all zero. */
  predicate ZeroRun(r: seq<Word>, lo: nat, hi: nat)
    requires lo <= hi <= |r|
  {
    forall k :: lo <= k < hi ==> r[k] == ZERO
  }

  /** The words block() leaves: the strategy's word on each word of [u3, v3), the others as they were. */
  function BlockWrite(op: Op, u3: nat, v3: nat, a3: seq<Word>, b3: seq<Word>): seq<Word>
    requires u3 <= v3 <= |a3| && |b3| == |a3|
  {
    seq(|a3|, k requires 0 <= k < |a3| =>
      if u3 <= k < v3 && !SkipsWrites(op, u3, v3, |a3|) then WordOp(op, a3[k], b3[k]) else a3[k])
  }

  /**
   * What block() does: the strategy's word on each of the words [u3, v3),
   * each folded into the running result; the zero report is exact for every
   * strategy except clear (always zero), set and xor (never zero).
   */
  predicate BlockApplied(op: Op, base: nat, u3: nat, v3: nat, a3: seq<Word>, b3: seq<Word>, acc: Acc,
                         r: seq<Word>, acc': Acc, isZero: bool)
    requires u3 <= v3 <= |a3| && |b3| == |a3|
  {
    && |r| == |a3|
    && r == BlockWrite(op, u3, v3, a3, b3)
    && acc' == Steps(op, acc, base, a3, b3, u3, v3)
    && (op.ClearOp? ==> isZero)
    && (op.SetOp? || op.XorOp? ==> !isZero)
    && (ExactZero(op) ==> (isZero <==> ZeroRun(r, u3, v3)))
    && (Mutates(op) ==> acc' == acc)
    && (!Mutates(op) ==> r == a3)
  }

  /** block(): apply the strategy to the whole words [u3, v3) of a block and fold them into the running result. */
  method OpBlock(op: Op, base: nat, u3: nat, v3: nat, a3: seq<Word>, b3: seq<Word>, acc: Acc)
    returns (r: seq<Word>, acc': Acc, isZero: bool)
    requires u3 <= v3 <= |a3| && |b3| == |a3|
    ensures BlockApplied(op, base, u3, v3, a3, b3, acc, r, acc', isZero)
  {
    if op.ClearOp? {
      r := ClearBlock(u3, v3, a3);
      isZero := true;
      assert r == BlockWrite(op, u3, v3, a3, b3);
    } else if Mutates(op) {
      r, isZero := WriteBlock(op, u3, v3, a3, b3);
      assert r == BlockWrite(op, u3, v3, a3, b3);
      if op.SetOp? || op.XorOp? {
        isZero := false;
      }
    } else {
      acc', isZero := ReadBlock(op, base, u3, v3, a3, b3, acc);
      ReadersKeepWords(op);
      assert a3 == BlockWrite(op, u3, v3, a3, b3);
      return a3, acc', isZero;
    }
    MutatorSteps(op, acc, base, a3, b3, u3, v3);
    acc' := acc;
  }

  /** block() of clear: zero the words [u3, v3), unless that is the whole block. */
  method ClearBlock(u3: nat, v3: nat, a3: seq<Word>) returns (r: seq<Word>)
    requires u3 <= v3 <= |a3|
    ensures |r| == |a3|
    ensures forall k :: 0 <= k < |r| ==>
      r[k] == if u3 <= k < v3 && !SkipsWrites(ClearOp, u3, v3, |a3|) then ZERO else a3[k]
  {
    r := a3;
    if u3 != 0 || v3 != |a3| {
      for w3 := u3 to v3
        invariant |r| == |a3|
        invariant forall k :: 0 <= k < |r| ==> r[k] == if u3 <= k < w3 then ZERO else a3[k]
      {
        r := r[w3 := ZERO];
      }
    }
  }

  /** block() of the strategies that write: each word of [u3, v3) becomes the strategy's word. */
  method WriteBlock(op: Op, u3: nat, v3: nat, a3: seq<Word>, b3: seq<Word>) returns (r: seq<Word>, isZero: bool)
    requires Mutates(op) && !op.ClearOp?
    requires u3 <= v3 <= |a3| && |b3| == |a3|
    ensures |r| == |a3|
    ensures forall k :: 0 <= k < |r| ==> r[k] == if u3 <= k < v3 then WordOp(op, a3[k], b3[k]) else a3[k]
    ensures isZero <==> forall k :: u3 <= k < v3 ==> r[k] == ZERO
  {
    r := a3;
    isZero := true;
    for w3 := u3 to v3
      invariant |r| == |a3|
      invariant forall k :: 0 <= k < |r| ==> r[k] == if u3 <= k < w3 then WordOp(op, a3[k], b3[k]) else a3[k]
      invariant isZero <==> forall k :: u3 <= k < w3 ==> r[k] == ZERO
    {
      r := r[w3 := WordOp(op, r[w3], b3[w3])];
      isZero := isZero && r[w3] == ZERO;
    }
  }

  /** block() of the strategies that only read: fold each word of [u3, v3) into the result. */
  method ReadBlock(op: Op, base: nat, u3: nat, v3: nat, a3: seq<Word>, b3: seq<Word>, acc: Acc)
    returns (acc': Acc, isZero: bool)
    requires !Mutates(op)
    requires u3 <= v3 <= |a3| && |b3| == |a3|
    ensures acc' == Steps(op, acc, base, a3, b3, u3, v3)
    ensures isZero <==> forall k :: u3 <= k < v3 ==> a3[k] == ZERO
  {
    acc' := acc;
    isZero := true;
    for w3 := u3 to v3
      invariant acc' == Steps(op, acc, base, a3, b3, u3, w3)
      invariant isZero <==> forall k :: u3 <= k < w3 ==> a3[k] == ZERO
    {
      var word := a3[w3];
      StepsNext(op, acc, base, a3, b3, u3, w3);
      acc' := BlockStep(op, acc', base + w3, word, b3[w3]);
      isZero := isZero && word == ZERO;
    }
  }

  lemma StepsNext(op: Op, acc: Acc, base: nat, a3: seq<Word>, b3: seq<Word>, lo: nat, hi: nat)
    requires lo <= hi < |a3| && hi < |b3|
    ensures Steps(op, acc, base, a3, b3, lo, hi + 1)
      == BlockStep(op, Steps(op, acc, base, a3, b3, lo, hi), base + hi, a3[hi], b3[hi])
  {
  }

  /** The strategies that write leave the running result as it was over any run of words. */
  lemma {:induction false} MutatorSteps(op: Op, acc: Acc, base: nat, a3: seq<Word>, b3: seq<Word>, lo: nat, hi: nat)
    requires Mutates(op)
    requires lo <= hi <= |a3| && hi <= |b3|
    ensures Steps(op, acc, base, a3, b3, lo, hi) == acc
    decreases hi - lo
  {
    if hi > lo {
      MutatorSteps(op, acc, base, a3, b3, lo, hi - 1);
    }
  }
}
