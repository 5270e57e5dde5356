/**
 * The code of the two drafts as written, where it departs from the behaviour
 * the rest of the model gives the bit set. Each as-written function comes
 * with a lemma naming inputs on which it and the intended behaviour differ;
 * the intended behaviour is the one the classes and functions of the other
 * modules implement and prove.
 */
module Drafts {
  import opened Wrappers
  import opened Constants
  import opened Words
  import opened Addressing
  import opened Strategies
  import opened Statistics
  import opened Tree
  import opened BitSets

  // ---------------------------------------------------------------------
  // Masks and shift counts

  /** vm := ^wordType(^uint(0) << remainderOf64(j)), the last-word mask of the internal draft's setScanner. */
  function EndMaskAsWritten(j: Int32): Word {
    Not(Shl(ALL, RemainderOf64(j)))
  }

  /**
   * When the range ends at a multiple of 64, its last word lies wholly inside
   * the range, yet the mask as written selects none of its bits.
   */
  lemma EndMaskAtWordBoundary(j: Int32)
    requires j > 0 && j % 64 == 0
    ensures EndMaskAsWritten(j) == ZERO
    ensures EndMask(j) == ALL
  {
    assert forall m :: 0 <= m < 64 ==> EndMaskAsWritten(j)[m] == ZERO[m];
  }

  /** um := wordType(int64(^0) << uint(i)) in the first draft: the shift count is not reduced modulo 64. */
  function StartMaskFirstDraft(i: nat): Word {
    Shl(ALL, i)
  }

  /** vm := ^wordType(int64(^0) << uint(j)) in the first draft. */
  function EndMaskFirstDraft(j: nat): Word {
    Not(Shl(ALL, j))
  }

  /**
   * Beyond the first word the first draft's masks are degenerate: the start
   * mask selects nothing, where bit i % 64 should be selected, and the end
   * mask selects everything, where the bits from j % 64 on should be left out.
   */
  lemma FirstDraftMasksBeyondFirstWord(i: nat, j: nat)
    requires 64 <= i && 64 <= j
    ensures StartMaskFirstDraft(i) == ZERO && StartMask(i)[i % 64]
    ensures EndMaskFirstDraft(j) == ALL && (j % 64 != 0 ==> !EndMask(j)[63])
  {
    assert forall m :: 0 <= m < 64 ==> StartMaskFirstDraft(i)[m] == ZERO[m];
    assert forall m :: 0 <= m < 64 ==> EndMaskFirstDraft(j)[m] == ALL[m];
  }

  /** a3[w & MASK3] &= ^wordType(int64(1) << uint(i)), the word update of the first draft's Clear. */
  function ClearWordFirstDraft(word: Word, i: nat): Word {
    And(word, Not(Shl(ONE, i)))
  }

  /** From bit 64 on the first draft's Clear leaves the word as it was, where bit i % 64 should become clear. */
  lemma ClearBeyondFirstWord(word: Word, i: nat)
    requires i >= 64
    ensures ClearWordFirstDraft(word, i) == word
    ensures !And(word, Not(Bit(i % 64)))[i % 64]
  {
    assert forall m :: 0 <= m < 64 ==> ClearWordFirstDraft(word, i)[m] == word[m];
  }

  // ---------------------------------------------------------------------
  // The and strategy

  /** properties() of the internal draft's and strategy: cFalseOpFalseEqFalse + cValueOpFalseEqFalse + cValueOpFalseEqFalse. */
  function AndPropertiesAsWritten(): bv32 {
    F_OP_F_EQ_F + X_OP_F_EQ_F + X_OP_F_EQ_F
  }

  /**
   * Adding the same flag twice yields the flag "x op false == x", which the
   * scan takes as leave an absent b block's partner alone; and the flag
   * "x op false == false" is lost. And of a non-zero word with zero is not
   * the word.
   */
  lemma AndClaimsRightIdentity(a: Word)
    requires a != ZERO
    ensures AndPropertiesAsWritten() == F_OP_F_EQ_F | X_OP_F_EQ_X
    ensures HasFlag(AndPropertiesAsWritten(), X_OP_F_EQ_X) && !HasFlag(AndPropertiesAsWritten(), X_OP_F_EQ_F)
    ensures WordOp(AndOp, a, ZERO) != a
  {
    assert forall m :: 0 <= m < 64 ==> WordOp(AndOp, a, ZERO)[m] == ZERO[m];
  }

  /** a3[u3] = a3[u3]&b3[u3] | ^mask, the and strategy's word() in both drafts (& binds tighter than |). */
  function AndWordAsWritten(a: Word, b: Word, mask: Word): Word {
    Or(And(a, b), Not(mask))
  }

  /**
   * Every bit outside the mask comes out set, where the intended word leaves
   * the bits outside the mask as they were.
   */
  lemma AndWordSetsOutsideMask(a: Word, b: Word, mask: Word)
    ensures forall k :: 0 <= k < 64 && !mask[k] ==> AndWordAsWritten(a, b, mask)[k]
    ensures forall k :: 0 <= k < 64 && !mask[k] ==> MaskedWord(AndOp, a, b, mask)[k] == a[k]
  {
  }

  // ---------------------------------------------------------------------
  // The growth of the level-1 array

  /** The level-1 length the internal draft's resize chooses: w1 := (index >> cShift3) >> cShift3 is index >> 12. */
  function NewSizeAsWritten(index: Int32): nat {
    var w1 := index / 4096;
    var h := HighestOneBit(w1);
    var s0 := if h == 0 then 1 else h;
    var s1 := if w1 >= s0 then 2 * s0 else s0;
    if s1 > MAX_LENGTH1 then MAX_LENGTH1 else s1
  }

  /** Set(70000) lies in area 1, so two areas suffice; the internal draft makes room for 32. */
  lemma ResizeOverAllocates()
    ensures NewSizeAsWritten(70000) == 32
    ensures NewSize(70000) == 2 && 70000 / UNIT < 2
  {
    assert HighestOneBit(17) == 16;
  }

  /** highestOneBit in the first draft: it tests result, still 0, where it means l, and so returns 0. */
  function HighestOneBitFirstDraft(x: Int32): nat {
    var result := 0;
    if result == 0 then result else HighestOneBit(x)
  }

  /** The level-1 length the first draft's resize chooses, with that highestOneBit. */
  function NewSizeFirstDraft(index: Int32): nat {
    var w1 := index / UNIT;
    var h := HighestOneBitFirstDraft(w1);
    var s0 := if h == 0 then 1 else h;
    var s1 := if w1 >= s0 then 2 * s0 else s0;
    if s1 > MAX_LENGTH1 then MAX_LENGTH1 else s1
  }

  /**
   * The first draft never grows the level-1 array beyond two areas: Set(3 *
   * 65536) resizes to 2 and then indexes area 3, which does not exist.
   */
  lemma FirstDraftResizeTooSmall(index: Int32)
    ensures HighestOneBitFirstDraft(index) == 0
    ensures NewSizeFirstDraft(index) <= 2
    ensures NewSizeFirstDraft(3 * UNIT) == 2 && NewSize(3 * UNIT) == 4
  {
    assert HighestOneBit(3) == 2;
  }

  // ---------------------------------------------------------------------
  // The searches

  /** The bit index of bit tz of word w3 of block w2 of area w1. */
  function Position(w1: nat, w2: nat, w3: nat, tz: nat): nat {
    ((w1 * LENGTH2 + w2) * LENGTH3 + w3) * LENGTH4 + tz
  }

  /** nword = ^a3[w3] & wordType(int64(0)<<uint(i)), the start word of the first draft's NextClearBit. */
  function StartClearWordFirstDraft(word: Word, i: nat): Word {
    And(Not(word), Shl(ZERO, i))
  }

  /**
   * The first draft never finds a clear bit in the start word: its mask is
   * zero, where the intended mask finds every clear bit from i % 64 on.
   */
  lemma StartWordNeverSearched(word: Word, i: nat, m: nat)
    requires i % 64 <= m < 64 && !word[m]
    ensures StartClearWordFirstDraft(word, i) == ZERO
    ensures And(Not(word), StartMask(i)) != ZERO
  {
    assert forall k :: 0 <= k < 64 ==> StartClearWordFirstDraft(word, i)[k] == ZERO[k];
    assert And(Not(word), StartMask(i))[m] != ZERO[m];
  }

  /**
   * The search loop of NextClearBit in both drafts from word w3 of block w2 of
   * area w1, nword being the complement of the last word read: an absent area
   * or block ends the search and keeps that stale nword.
   */
  function SeekClearAsWritten(t: Level1, w1: nat, w2: nat, w3: nat, nword: Word): (nat, nat, nat, Word)
    requires w2 <= LENGTH2 && w3 <= LENGTH3
    decreases |t| - w1, LENGTH2 - w2, LENGTH3 - w3
  {
    if w1 >= |t| || t[w1].None? then (w1, w2, w3, nword)
    else if w2 == LENGTH2 then SeekClearAsWritten(t, w1 + 1, 0, 0, nword)
    else if t[w1].value[w2].None? then (w1, w2, w3, nword)
    else if w3 == LENGTH3 then SeekClearAsWritten(t, w1, w2 + 1, 0, nword)
    else if Not(t[w1].value[w2].value[w3]) != ZERO then (w1, w2, w3, Not(t[w1].value[w2].value[w3]))
    else SeekClearAsWritten(t, w1, w2, w3 + 1, Not(t[w1].value[w2].value[w3]))
  }

  /**
   * NextClearBit of the internal draft for i >= 0: the position of the lowest
   * set bit of nword in the word the search stopped at (the sum is not wrapped
   * to 32 bits), and -1 for MaxInt32.
   */
  function NextClearAsWritten(t: Level1, i: nat): int {
    var w := i / LENGTH4;
    var w3, w2, w1 := w % LENGTH3, (w / LENGTH3) % LENGTH2, w / AREA_WORDS;
    var present := w1 < |t| && t[w1].Some? && t[w1].value[w2].Some?;
    var s :=
      if !present then (w1, w2, w3, StartMask(i))
      else if And(Not(t[w1].value[w2].value[w3]), StartMask(i)) != ZERO then
        (w1, w2, w3, And(Not(t[w1].value[w2].value[w3]), StartMask(i)))
      else SeekClearAsWritten(t, (w + 1) / AREA_WORDS, ((w + 1) / LENGTH3) % LENGTH2, (w + 1) % LENGTH3, ALL);
    var result := Position(s.0, s.1, s.2, TrailingZeros(s.3));
    if result == MAX_INT32 then -1 else result
  }

  /** The set {1920, ..., 2047}: the last two words of block 0 full, block 1 absent. */
  function StaleClearTree(): Level1 {
    [Some(EMPTY_AREA[0 := Some(ZERO_BLOCK[30 := ALL][31 := ALL])])]
  }

  /** Not(ALL) is the zero word. */
  lemma NotAll()
    ensures Not(ALL) == ZERO
  {
    assert forall m :: 0 <= m < 64 ==> Not(ALL)[m] == ZERO[m];
  }

  /** The search from word 31 of block 0 reads the full word 31 and stops at the absent block 1 with nword 0. */
  lemma StaleClearSeek()
    ensures SeekClearAsWritten(StaleClearTree(), 0, 0, 31, ALL) == (0, 1, 0, ZERO)
  {
    var t := StaleClearTree();
    var blk: Block := ZERO_BLOCK[30 := ALL][31 := ALL];
    NotAll();
    assert t[0].value[0] == Some(blk) && t[0].value[1] == None;
    assert SeekClearAsWritten(t, 0, 0, 32, ZERO) == (0, 1, 0, ZERO);
  }

  /** The start word 30 of {1920, ..., 2047} has no clear bit. */
  lemma StaleClearStart()
    ensures StaleClearTree()[0].Some? && StaleClearTree()[0].value[0].Some?
    ensures And(Not(StaleClearTree()[0].value[0].value[30]), StartMask(1920)) == ZERO
  {
    NotAll();
    assert forall m :: 0 <= m < 64 ==> And(ZERO, StartMask(1920))[m] == ZERO[m];
  }

  /** A start word with no clear bit from i on hands the search to the loop, which begins at the next word. */
  lemma NextClearSearched(t: Level1, i: nat, w: nat, w1: nat, w2: nat, w3: nat, stop: (nat, nat, nat, Word), result: nat)
    requires w == i / LENGTH4 && w1 == w / AREA_WORDS && w2 == (w / LENGTH3) % LENGTH2 && w3 == w % LENGTH3
    requires w1 < |t| && t[w1].Some? && t[w1].value[w2].Some?
    requires And(Not(t[w1].value[w2].value[w3]), StartMask(i)) == ZERO
    requires stop == SeekClearAsWritten(t, (w + 1) / AREA_WORDS, ((w + 1) / LENGTH3) % LENGTH2, (w + 1) % LENGTH3, ALL)
    requires result == Position(stop.0, stop.1, stop.2, TrailingZeros(stop.3))
    ensures NextClearAsWritten(t, i) == if result == MAX_INT32 then -1 else result
  {
  }

  /**
   * NextClearBit(1920) on {1920, ..., 2047} stops at the absent block 1 with
   * the stale nword 0, whose 64 trailing zeros give 2112; bit 2048 is the
   * next clear bit.
   */
  lemma StaleClearWord()
    ensures NextClearAsWritten(StaleClearTree(), 1920) == 2112
    ensures !Get(StaleClearTree(), 2048) && forall k :: 1920 <= k < 2048 ==> Get(StaleClearTree(), k)
  {
    StaleClearStart();
    StaleClearSeek();
    assert TrailingZeros(ZERO) == 64;
    NextClearSearched(StaleClearTree(), 1920, 30, 0, 0, 30, (0, 1, 0, ZERO), 2112);
    StaleClearBits();
  }

  /** Bits 1920 to 2047 are set, bit 2048 is not. */
  lemma StaleClearBits()
    ensures !Get(StaleClearTree(), 2048) && forall k :: 1920 <= k < 2048 ==> Get(StaleClearTree(), k)
  {
    var t := StaleClearTree();
    forall k | 1920 <= k < 2048 ensures Get(t, k) {
      assert k / 64 == 30 || k / 64 == 31;
    }
  }

  /**
   * The search loop of NextSetBit in both drafts: an absent area moves to the
   * next area without resetting w2 and w3, an absent block moves to the next
   * block without resetting w3. It stops at a non-zero word, or past the end.
   */
  function SeekSetAsWritten(t: Level1, w1: nat, w2: nat, w3: nat): (r: (nat, nat, nat))
    requires w2 <= LENGTH2 && w3 <= LENGTH3
    ensures r.0 < |t| ==> r.1 < LENGTH2 && r.2 < LENGTH3 && t[r.0].Some? && t[r.0].value[r.1].Some?
    decreases |t| - w1, LENGTH2 - w2, LENGTH3 - w3
  {
    if w1 >= |t| then (w1, w2, w3)
    else if t[w1].None? then SeekSetAsWritten(t, w1 + 1, w2, w3)
    else if w2 == LENGTH2 then SeekSetAsWritten(t, w1 + 1, 0, 0)
    else if t[w1].value[w2].None? then SeekSetAsWritten(t, w1, w2 + 1, w3)
    else if w3 == LENGTH3 then SeekSetAsWritten(t, w1, w2 + 1, 0)
    else if t[w1].value[w2].value[w3] != ZERO then (w1, w2, w3)
    else SeekSetAsWritten(t, w1, w2, w3 + 1)
  }

  /** NextSetBit of both drafts for i >= 0: -1 when the search runs past the level-1 array. */
  function NextSetAsWritten(t: Level1, i: nat): int {
    var w := i / LENGTH4;
    var w3, w2, w1 := w % LENGTH3, (w / LENGTH3) % LENGTH2, w / AREA_WORDS;
    if w1 >= |t| then -1
    else
      var word := if t[w1].Some? && t[w1].value[w2].Some? then And(t[w1].value[w2].value[w3], StartMask(i)) else ZERO;
      if word != ZERO then Position(w1, w2, w3, TrailingZeros(word))
      else
        var s := SeekSetAsWritten(t, (w + 1) / AREA_WORDS, ((w + 1) / LENGTH3) % LENGTH2, (w + 1) % LENGTH3);
        if s.0 >= |t| then -1 else Position(s.0, s.1, s.2, TrailingZeros(t[s.0].value[s.1].value[s.2]))
  }

  /** The set {2048, 2432}: words 0 and 6 of block 1 hold one bit each, block 0 is absent. */
  function StaleSetTree(): Level1 {
    [Some(EMPTY_AREA[1 := Some(ZERO_BLOCK[0 := ONE][6 := ONE])])]
  }

  /**
   * NextSetBit(320) starts in word 5 of the absent block 0 and carries w3 = 6
   * into block 1, skipping its word 0: it answers 2432, though 2048 is set.
   */
  lemma StaleSetWord()
    ensures NextSetAsWritten(StaleSetTree(), 320) == 2432
    ensures Get(StaleSetTree(), 2048) && 320 <= 2048 < 2432
  {
    var t := StaleSetTree();
    var blk: Block := ZERO_BLOCK[0 := ONE][6 := ONE];
    assert t[0].value[0] == None && t[0].value[1] == Some(blk);
    assert ONE[0] && ONE != ZERO;
    assert SeekSetAsWritten(t, 0, 0, 6) == (0, 1, 6);
    assert TrailingZeros(ONE) == 0;
  }

  // ---------------------------------------------------------------------
  // The scanner

  /** The array setScanner of the first draft reads b through: b1 is tested for nil before it is assigned, so it stays nil. */
  function OperandFirstDraft(b: Option<Level1>): Level1 {
    var b1: Level1 := [];
    if b1 != [] then Operand(b) else b1
  }

  /** The first draft's scans see no bit of b: a bit set in b is clear in what they read. */
  lemma OperandNeverRead(t: Level1, k: nat)
    requires Get(t, k)
    ensures OperandFirstDraft(Some(t)) == [] && !Get(OperandFirstDraft(Some(t)), k)
    ensures Get(Operand(Some(t)), k)
  {
  }

  /** The zero report of block(): always for clear, never for set and xor, exact for the others. */
  function BlockReport(op: Op, r: seq<Word>, lo: nat, hi: nat): bool
    requires lo <= hi <= |r|
  {
    if op.ClearOp? then true else if op.SetOp? || op.XorOp? then false else ZeroRun(r, lo, hi)
  }

  /**
   * The first block of a range that ends in a later word (u != v) in both
   * drafts: word() on word u3 under um, then block() up to limit3, then
   * word() on word limit3 under vm, each joined by a short-circuit && and so
   * run only while the earlier pieces reported zero.
   */
  function FirstBlockAsWritten(op: Op, a3: Block, b3: Block, u3: nat, limit3: nat, um: Word, vm: Word): seq<Word>
    requires u3 < limit3 <= LENGTH3
  {
    var r1 := WordWrite(op, u3, a3, b3, um);
    if r1[u3] != ZERO then r1
    else
      var r2 := BlockWrite(op, u3 + 1, limit3, r1, b3);
      if limit3 == LENGTH3 || !BlockReport(op, r2, u3 + 1, limit3) then r2
      else WordWrite(op, limit3, r2, b3, vm)
  }

  /**
   * SetRange(2048, 2113) on an empty set: the range starts in block 1, which
   * takes the first-block path with u3 = 0, limit3 = 1 and the last-word
   * mask of 2113, the same as that of 65. Word 0 of the block becomes
   * non-zero, so word() is never applied to word 1, and bit 2112, which the
   * range covers, stays clear. (A range from 0 takes the last-block path
   * instead, where block() of set reports non-zero and skips word() alike.)
   */
  lemma ShortCircuitSkipsLastWord()
    ensures FirstBlockAsWritten(SetOp, ZERO_BLOCK, ZERO_BLOCK, 0, 1, StartMask(0), EndMask(65))[1] == ZERO
    ensures MaskedWord(SetOp, ZERO, ZERO, EndMask(65))[0]
  {
    var r1 := WordWrite(SetOp, 0, ZERO_BLOCK, ZERO_BLOCK, StartMask(0));
    assert r1[0][0] && !ZERO[0];
  }

  // ---------------------------------------------------------------------
  // Statistics

  /**
   * word() of the first draft's update strategy: its receiver is a value, so
   * compute() accumulates into a copy and the totals come back unchanged.
   */
  function UpdateWordFirstDraft(s: Stats, base: nat, u3: nat, a3: seq<Word>, mask: Word): (Stats, bool)
    requires u3 < |a3|
  {
    (s, a3[u3] == ZERO)
  }

  /**
   * A set bit in the last word of a full scan is never counted. The update
   * scan of [0, 65536) sends blocks 0 to 30 through block(), which counts
   * them, and reaches only word 31 of block 31 through word(). For the set
   * {65535} that word holds bit 63, and the first draft leaves the
   * cardinality as it was, where compute() adds the word's bit.
   */
  lemma UpdateWordLost(s: Stats, a3: seq<Word>)
    requires |a3| == LENGTH3 && a3[31] == Bit(63)
    ensures UpdateWordFirstDraft(s, 992, 31, a3, ALL).0.cardinality == s.cardinality
    ensures Compute(s, 1023, And(a3[31], ALL)).cardinality > s.cardinality
  {
    assert And(a3[31], ALL)[63] && !ZERO[63];
  }

  /** The size finish() caches in both drafts: it subtracts the leading zeros of the first word, not its trailing zeros. */
  function SizeAsWritten(s: Stats): int {
    LengthOf(s) - s.wMin * LENGTH4 - LeadingZeros(s.wordMin)
  }

  /** For the set {0} (first and last word 1 at index 0) the size as written is -62; the span of the set is 1. */
  lemma SizeOfSingleton(s: Stats)
    requires s.wMin == 0 && s.wordMin == ONE && s.wMax == 0 && s.wordMax == ONE
    ensures SizeAsWritten(s) == -62
    ensures Finish(s).size == 1
  {
    assert ONE[0] && ONE != ZERO;
    assert forall m :: 1 <= m < 64 ==> !ONE[m];
    assert BitLength(ONE) == 1;
    assert TrailingZeros(ONE) == 0;
  }

  // ---------------------------------------------------------------------
  // Single bits and clone

  /** The area index of bit i, as Get splits it. */
  function AreaOf(i: nat): nat {
    i / LENGTH4 / LENGTH3 / LENGTH2
  }

  /**
   * FlipBit in both drafts for a bit inside the level-1 array: when its area
   * is absent, the new area and block receive the flip but the area is never
   * stored into the level-1 array.
   */
  function FlipBitAsWritten(t: Level1, i: nat): Level1
    requires AreaOf(i) < |t|
  {
    var w := i / LENGTH4;
    var blk := w / LENGTH3;
    var w1, w2 := blk / LENGTH2, blk % LENGTH2;
    if t[w1].None? then t
    else
      var a3 := if t[w1].value[w2].Some? then t[w1].value[w2].value else ZERO_BLOCK;
      PutBlock(t, w1, w2, Some(a3[w % LENGTH3 := Xor(a3[w % LENGTH3], Bit(i % LENGTH4))]))
  }

  /** A flip into an absent area is lost: the bit stays clear, where a flip of a clear bit sets it. */
  lemma FlipLostInAbsentArea(t: Level1, i: nat)
    requires AreaOf(i) < |t| && t[AreaOf(i)].None?
    ensures FlipBitAsWritten(t, i) == t
    ensures !Get(FlipBitAsWritten(t, i), i)
  {
  }

  /** The index check of the internal draft's Set: only a negative index panics. */
  function SetCheckAsWritten(i: Int32): Outcome {
    if i < 0 then Fail(IndexOutOfRange) else Pass
  }

  /**
   * Set accepts MaxInt32, which no other operation of the set can reach; it
   * agrees with the check of the other single-bit operations everywhere else.
   */
  lemma SetAcceptsMaxInt32()
    ensures SetCheckAsWritten(MAX_INT32) == Pass && IndexCheck(MAX_INT32) == Fail(IndexOutOfRange)
    ensures forall i: Int32 :: i != MAX_INT32 ==> SetCheckAsWritten(i) == IndexCheck(i)
  {
  }

  /** clone in both drafts: reflect.Copy is given two struct values, not slices or arrays, and panics. */
  function CloneAsWritten(t: Level1): Result<Level1> {
    Err(NotCopyable)
  }

  /** clone, and with it And, AndNot, Or and Xor of two sets, panics whatever the set holds. */
  lemma ClonePanics(t: Level1)
    ensures CloneAsWritten(t) == Err(NotCopyable)
  {
  }
}
