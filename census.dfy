/**
 * What the two reading strategies that report something compute, bit by
 * bit. The scan of [i, j) folds one word per word index; the update
 * strategy's totals are the number of set bits, the logical length, the
 * first set bit and the number of non-zero words of the range, and the
 * intersects strategy's verdict is whether the two sets share a bit in it.
 */
module Census {
  import opened Constants
  import opened Words
  import opened Statistics
  import opened Strategies
  import opened Tree
  import opened ScanSpec

  // ---------------------------------------------------------------------
  // Reference definitions on the bits

  /** The number of set bits below n. */
  function CountBelow(t: Level1, n: nat): nat {
    if n == 0 then 0 else CountBelow(t, n - 1) + (if Get(t, n - 1) then 1 else 0)
  }

  /** One past the highest set bit below n, or 0 when none is set: the logical length. */
  function TopBelow(t: Level1, n: nat): (l: nat)
    ensures l <= n
  {
    if n == 0 then 0 else if Get(t, n - 1) then n else TopBelow(t, n - 1)
  }

  /** The lowest set bit in [k, n), or n when none is set. */
  function LowestIn(t: Level1, k: nat, n: nat): (f: nat)
    requires k <= n
    ensures k <= f <= n
    decreases n - k
  {
    if k == n then n else if Get(t, k) then k else LowestIn(t, k + 1, n)
  }

  /** Word w holds a set bit below n. */
  predicate WordInUse(t: Level1, n: nat, w: nat) {
    exists b :: 0 <= b < 64 && w * 64 + b < n && WordAt(t, w)[b]
  }

  /** The number of words below m that hold a set bit below n. */
  function WordsInUse(t: Level1, n: nat, m: nat): nat {
    if m == 0 then 0 else WordsInUse(t, n, m - 1) + (if WordInUse(t, n, m - 1) then 1 else 0)
  }

  lemma {:induction false} CountBelowZero(t: Level1, n: nat)
    ensures CountBelow(t, n) == 0 <==> forall k: nat :: k < n ==> !Get(t, k)
    decreases n
  {
    if n > 0 {
      var p := n - 1;
      CountBelowZero(t, p);
    }
  }

  /** At most n of the bits below n are set. */
  lemma {:induction false} CountBelowAtMost(t: Level1, n: nat)
    ensures CountBelow(t, n) <= n
    decreases n
  {
    if n > 0 {
      var p := n - 1;
      CountBelowAtMost(t, p);
    }
  }

  lemma {:induction false} TopBelowMeaning(t: Level1, n: nat)
    ensures forall k: nat :: k < n && Get(t, k) ==> k < TopBelow(t, n)
    ensures TopBelow(t, n) > 0 ==> Get(t, TopBelow(t, n) - 1)
    decreases n
  {
    if n > 0 && !Get(t, n - 1) {
      var p := n - 1;
      TopBelowMeaning(t, p);
    }
  }

  lemma {:induction false} LowestInMeaning(t: Level1, k: nat, n: nat)
    requires k <= n
    ensures forall m: nat :: k <= m < LowestIn(t, k, n) ==> !Get(t, m)
    ensures LowestIn(t, k, n) < n ==> Get(t, LowestIn(t, k, n))
    decreases n - k
  {
    if k < n && !Get(t, k) {
      var k' := k + 1;
      LowestInMeaning(t, k', n);
    }
  }

  /** The logical length is the only number with its two properties. */
  lemma TopBelowUnique(t: Level1, n: nat, l: nat)
    requires l <= n
    requires forall k: nat :: k < n && Get(t, k) ==> k < l
    requires l > 0 ==> Get(t, l - 1)
    ensures l == TopBelow(t, n)
  {
    TopBelowMeaning(t, n);
  }

  /** The lowest set bit is the only set bit with no set bit below it. */
  lemma LowestInUnique(t: Level1, n: nat, f: nat)
    requires f < n && Get(t, f)
    requires forall k: nat :: k < f ==> !Get(t, k)
    ensures f == LowestIn(t, 0, n)
  {
    LowestInMeaning(t, 0, n);
  }

  // ---------------------------------------------------------------------
  // The scan as a fold over words

  predicate Reports(op: Op) { op.UpdateOp? || op.IntersectsOp? || op.EqualsOp? }

  /**
   * The word the strategy looks at, under the mask: this set's word for
   * update, the bits where the two sets differ for equals, the common bits
   * for intersects.
   */
  function Effective(op: Op, a: Word, b: Word, mask: Word): Word {
    if op.UpdateOp? then And(a, mask) else if op.EqualsOp? then And(Xor(a, b), mask) else And(And(a, b), mask)
  }

  /** One step of the fold on that word. */
  function WordStep(op: Op, acc: Acc, index: nat, e: Word): Acc {
    if op.UpdateOp? then (if e != ZERO then acc.(stats := Compute(acc.stats, index, e)) else acc)
    else if op.EqualsOp? then acc.(result := acc.result && e == ZERO)
    else acc.(result := acc.result || e != ZERO)
  }

  /** The fold of the first m words. */
  function WordsFold(op: Op, ws: seq<Word>, m: nat): Acc
    requires m <= |ws|
  {
    if m == 0 then InitAcc(op) else WordStep(op, WordsFold(op, ws, m - 1), m - 1, ws[m - 1])
  }

  /** The word the scan of [i, j) looks at with word index w. */
  function ScanWord(op: Op, ta: Level1, tb: Level1, i: nat, j: nat, w: nat): Word
    requires i < j
  {
    Effective(op, WordAt(ta, w), WordAt(tb, w), ScanMask(i, j, w))
  }

  /** The words the scan of [i, j) looks at, for the first n word indices. */
  function ScanWords(op: Op, ta: Level1, tb: Level1, i: nat, j: nat, n: nat): (ws: seq<Word>)
    requires i < j
    ensures |ws| == n
  {
    seq(n, w requires 0 <= w < n => ScanWord(op, ta, tb, i, j, w))
  }

  /** The fold of the words the scan looks at, for the first n word indices. */
  function IndexFold(op: Op, ta: Level1, tb: Level1, i: nat, j: nat, n: nat): Acc
    requires i < j
  {
    if n == 0 then InitAcc(op) else WordStep(op, IndexFold(op, ta, tb, i, j, n - 1), n - 1, ScanWord(op, ta, tb, i, j, n - 1))
  }

  /** Bit k of a sequence of words. */
  function BitAt(ws: seq<Word>, k: nat): bool
    requires k < 64 * |ws|
  {
    ws[k / 64][k % 64]
  }

  lemma AccStepIsWordStep(op: Op, acc: Acc, index: nat, a: Word, b: Word, mask: Word)
    requires Reports(op)
    ensures AccStep(op, acc, index, a, b, mask) == WordStep(op, acc, index, Effective(op, a, b, mask))
  {
    if op.EqualsOp? {
      MaskedEqual(a, b, mask);
    }
  }

  /** Two words agree under a mask exactly when their difference under it is zero. */
  lemma MaskedEqual(a: Word, b: Word, mask: Word)
    ensures And(a, mask) == And(b, mask) <==> And(Xor(a, b), mask) == ZERO
  {
    if And(Xor(a, b), mask) == ZERO {
      forall m | 0 <= m < 64 ensures And(a, mask)[m] == And(b, mask)[m] {
        assert And(Xor(a, b), mask)[m] == ZERO[m];
      }
    } else if And(a, mask) == And(b, mask) {
      forall m | 0 <= m < 64 ensures And(Xor(a, b), mask)[m] == ZERO[m] {
        assert And(a, mask)[m] == And(b, mask)[m];
      }
    }
  }

  /** Each word of ws is the word the strategy looks at with that word index. */
  ghost predicate Looks(op: Op, ta: Level1, tb: Level1, i: nat, j: nat, ws: seq<Word>)
    requires i < j
  {
    forall w :: 0 <= w < |ws| ==> ws[w] == Effective(op, WordAt(ta, w), WordAt(tb, w), ScanMask(i, j, w))
  }

  lemma ScanWordsLook(op: Op, ta: Level1, tb: Level1, i: nat, j: nat, n: nat)
    requires i < j
    ensures Looks(op, ta, tb, i, j, ScanWords(op, ta, tb, i, j, n))
  {
  }

  /** Word n of block blk has word index blk * 32 + n. */
  lemma WordOfBlock(t: Level1, blk: nat, n: nat)
    requires n < LENGTH3
    ensures WordAt(t, blk * LENGTH3 + n) == BlockAt(t, blk)[n]
  {
    var w := blk * LENGTH3 + n;
    assert w / LENGTH3 == blk && w % LENGTH3 == n;
  }

  /** Folding word n of block blk is folding the word with index blk * 32 + n. */
  lemma BlockWordStep(op: Op, ta: Level1, tb: Level1, i: nat, j: nat, blk: nat, n: nat, x: Acc)
    requires Reports(op) && i < j && n < LENGTH3
    ensures AccStep(op, x, blk * LENGTH3 + n, BlockAt(ta, blk)[n], BlockAt(tb, blk)[n], MaskAt(i, j, blk, n))
         == WordStep(op, x, blk * LENGTH3 + n, ScanWord(op, ta, tb, i, j, blk * LENGTH3 + n))
  {
    WordOfBlock(ta, blk, n);
    WordOfBlock(tb, blk, n);
    AccStepIsWordStep(op, x, blk * LENGTH3 + n, BlockAt(ta, blk)[n], BlockAt(tb, blk)[n], MaskAt(i, j, blk, n));
  }

  /** One more word index folded in. */
  lemma IndexNext(op: Op, ta: Level1, tb: Level1, i: nat, j: nat, blk: nat, n: nat)
    requires i < j
    ensures IndexFold(op, ta, tb, i, j, blk * LENGTH3 + n + 1)
         == WordStep(op, IndexFold(op, ta, tb, i, j, blk * LENGTH3 + n), blk * LENGTH3 + n, ScanWord(op, ta, tb, i, j, blk * LENGTH3 + n))
  {
  }

  /** Equal word counts give equal folds, stated for whatever terms name them. */
  lemma IndexCongruent(op: Op, ta: Level1, tb: Level1, i: nat, j: nat)
    requires i < j
    ensures forall n: nat, n': nat {:trigger IndexFold(op, ta, tb, i, j, n), IndexFold(op, ta, tb, i, j, n')} ::
      n == n' ==> IndexFold(op, ta, tb, i, j, n) == IndexFold(op, ta, tb, i, j, n')
  {
  }

  /** Equal word counts give equal block folds, stated for whatever terms name them. */
  lemma BlockFoldCongruent(op: Op, acc: Acc, a3: Block, b3: Block, i: nat, j: nat, blk: nat)
    requires i < j
    ensures forall n: nat, n': nat {:trigger BlockFold(op, acc, a3, b3, i, j, blk, n), BlockFold(op, acc, a3, b3, i, j, blk, n')} ::
      n <= LENGTH3 && n == n' ==> BlockFold(op, acc, a3, b3, i, j, blk, n) == BlockFold(op, acc, a3, b3, i, j, blk, n')
  {
  }

  /** The first m words of block blk fold as the word indices below blk * 32 + m do. */
  lemma {:induction false} BlockFoldIndex(op: Op, ta: Level1, tb: Level1, i: nat, j: nat, blk: nat, m: nat, start: Acc)
    requires Reports(op) && i < j && m <= LENGTH3
    requires start == IndexFold(op, ta, tb, i, j, blk * LENGTH3)
    ensures BlockFold(op, start, BlockAt(ta, blk), BlockAt(tb, blk), i, j, blk, m) == IndexFold(op, ta, tb, i, j, blk * LENGTH3 + m)
    decreases m
  {
    if m == 0 {
      IndexCongruent(op, ta, tb, i, j);
    } else {
      var n := m - 1;
      BlockFoldIndex(op, ta, tb, i, j, blk, n, start);
      FoldNext(op, start, BlockAt(ta, blk), BlockAt(tb, blk), i, j, blk, n);
      IndexNext(op, ta, tb, i, j, blk, n);
      BlockWordStep(op, ta, tb, i, j, blk, n, BlockFold(op, start, BlockAt(ta, blk), BlockAt(tb, blk), i, j, blk, n));
      BlockFoldCongruent(op, start, BlockAt(ta, blk), BlockAt(tb, blk), i, j, blk);
      IndexCongruent(op, ta, tb, i, j);
    }
  }

  /** Equal block counts give equal scan folds, stated for whatever terms name them. */
  lemma ScanFoldCongruent(op: Op, ta: Level1, tb: Level1, i: nat, j: nat)
    requires i < j
    ensures forall n: nat, n': nat {:trigger ScanFold(op, ta, tb, i, j, n), ScanFold(op, ta, tb, i, j, n')} ::
      n == n' ==> ScanFold(op, ta, tb, i, j, n) == ScanFold(op, ta, tb, i, j, n')
  {
  }

  /** One more block folded in. */
  lemma ScanFoldNext(op: Op, ta: Level1, tb: Level1, i: nat, j: nat, p: nat)
    requires i < j
    ensures ScanFold(op, ta, tb, i, j, p + 1)
         == BlockFold(op, ScanFold(op, ta, tb, i, j, p), BlockAt(ta, p), BlockAt(tb, p), i, j, p, LENGTH3)
  {
  }

  /** The fold over the first nb blocks is the fold over their word indices. */
  lemma {:induction false} ScanFoldIndex(op: Op, ta: Level1, tb: Level1, i: nat, j: nat, nb: nat)
    requires Reports(op) && i < j
    ensures ScanFold(op, ta, tb, i, j, nb) == IndexFold(op, ta, tb, i, j, nb * LENGTH3)
    decreases nb
  {
    IndexCongruent(op, ta, tb, i, j);
    if nb == 0 {
      assert nb * LENGTH3 == 0;
    } else {
      var p := nb - 1;
      ScanFoldIndex(op, ta, tb, i, j, p);
      BlockFoldIndex(op, ta, tb, i, j, p, LENGTH3, ScanFold(op, ta, tb, i, j, p));
      ScanFoldNext(op, ta, tb, i, j, p);
      ScanFoldCongruent(op, ta, tb, i, j);
      assert nb * LENGTH3 == p * LENGTH3 + LENGTH3;
    }
  }

  /** Equal word counts give equal folds of a sequence, stated for whatever terms name them. */
  lemma WordsFoldCongruent(op: Op, ws: seq<Word>)
    ensures forall n: nat, n': nat {:trigger WordsFold(op, ws, n), WordsFold(op, ws, n')} ::
      n <= |ws| && n == n' ==> WordsFold(op, ws, n) == WordsFold(op, ws, n')
  {
  }

  /** Folding the scanned words as a sequence is folding them by index. */
  lemma {:induction false} WordsFoldIndex(op: Op, ta: Level1, tb: Level1, i: nat, j: nat, ws: seq<Word>, n: nat)
    requires i < j && n <= |ws| && ws == ScanWords(op, ta, tb, i, j, |ws|)
    ensures WordsFold(op, ws, n) == IndexFold(op, ta, tb, i, j, n)
    decreases n
  {
    if n > 0 {
      var p := n - 1;
      WordsFoldIndex(op, ta, tb, i, j, ws, p);
      assert ws[p] == ScanWord(op, ta, tb, i, j, p);
      assert WordsFold(op, ws, p + 1) == WordStep(op, WordsFold(op, ws, p), p, ws[p]);
      assert IndexFold(op, ta, tb, i, j, p + 1) == WordStep(op, IndexFold(op, ta, tb, i, j, p), p, ScanWord(op, ta, tb, i, j, p));
      WordsFoldCongruent(op, ws);
      IndexCongruent(op, ta, tb, i, j);
    }
  }

  /** The whole scan is the fold of the sequence of words it looks at. */
  lemma ScanAsWords(op: Op, ta: Level1, tb: Level1, i: nat, j: nat, nb: nat, n: nat, ws: seq<Word>)
    requires Reports(op) && i < j && nb == LastBlock(j) + 1 && n == nb * LENGTH3
    requires ws == ScanWords(op, ta, tb, i, j, n)
    ensures ScanResult(op, ta, tb, i, j) == WordsFold(op, ws, n)
  {
    ScanFoldIndex(op, ta, tb, i, j, nb);
    WordsFoldIndex(op, ta, tb, i, j, ws, n);
    ScanFoldCongruent(op, ta, tb, i, j);
    IndexCongruent(op, ta, tb, i, j);
  }

  /** The words of the whole scan cover every bit below j. */
  lemma ScanCovers(j: nat)
    requires j > 0
    ensures j <= 64 * ((LastBlock(j) + 1) * LENGTH3)
  {
    var v := (j - 1) / 64;
    assert j - 1 < 64 * (v + 1);
    assert v < 32 * (v / 32 + 1);
  }

  /** Bit k of the words the scan looks at. */
  lemma ScanWordBits(op: Op, ta: Level1, tb: Level1, i: nat, j: nat, ws: seq<Word>, k: nat)
    requires Reports(op) && !op.EqualsOp? && i < j && Looks(op, ta, tb, i, j, ws) && k < 64 * |ws|
    ensures BitAt(ws, k) == (i <= k < j && Get(ta, k) && (op.IntersectsOp? ==> Get(tb, k)))
  {
    assert k / 64 * 64 + k % 64 == k;
  }

  // ---------------------------------------------------------------------
  // Intersects

  lemma {:induction false} AnyWord(ws: seq<Word>, m: nat)
    requires m <= |ws|
    ensures WordsFold(IntersectsOp, ws, m).result <==> exists w :: 0 <= w < m && ws[w] != ZERO
    decreases m
  {
    if m > 0 {
      var p := m - 1;
      AnyWord(ws, p);
    }
  }

  /** A non-zero scanned word holds a bit the strategy reports. */
  lemma WordHasBit(op: Op, ta: Level1, tb: Level1, i: nat, j: nat, ws: seq<Word>, w: nat)
    requires Reports(op) && !op.EqualsOp? && i < j && Looks(op, ta, tb, i, j, ws) && w < |ws| && ws[w] != ZERO
    ensures exists k: nat :: i <= k < j && Get(ta, k) && (op.IntersectsOp? ==> Get(tb, k))
  {
    NonZeroWord(ws[w]);
    var b :| 0 <= b < 64 && ws[w][b];
    var k := w * 64 + b;
    assert k / 64 == w && k % 64 == b;
    ScanWordBits(op, ta, tb, i, j, ws, k);
  }

  /** A bit the strategy reports makes its scanned word non-zero. */
  lemma BitInWord(op: Op, ta: Level1, tb: Level1, i: nat, j: nat, ws: seq<Word>, k: nat)
    requires Reports(op) && !op.EqualsOp? && i < j && Looks(op, ta, tb, i, j, ws) && k < 64 * |ws|
    requires i <= k < j && Get(ta, k) && (op.IntersectsOp? ==> Get(tb, k))
    ensures ws[k / 64] != ZERO
  {
    ScanWordBits(op, ta, tb, i, j, ws, k);
    NonZeroWord(ws[k / 64]);
  }

  /** Some scanned word is non-zero exactly when both sets share a bit in [i, j). */
  lemma WordsHoldBit(ta: Level1, tb: Level1, i: nat, j: nat, n: nat, ws: seq<Word>)
    requires i < j && j <= 64 * n && ws == ScanWords(IntersectsOp, ta, tb, i, j, n)
    ensures (exists w :: 0 <= w < n && ws[w] != ZERO) <==> exists k: nat :: i <= k < j && Get(ta, k) && Get(tb, k)
  {
    ScanWordsLook(IntersectsOp, ta, tb, i, j, n);
    if exists w :: 0 <= w < n && ws[w] != ZERO {
      var w :| 0 <= w < n && ws[w] != ZERO;
      WordHasBit(IntersectsOp, ta, tb, i, j, ws, w);
    }
    if exists k: nat :: i <= k < j && Get(ta, k) && Get(tb, k) {
      var k: nat :| i <= k < j && Get(ta, k) && Get(tb, k);
      BitInWord(IntersectsOp, ta, tb, i, j, ws, k);
    }
  }

  /** The intersects scan of [i, j) finds a bit set in both sets exactly when there is one. */
  lemma IntersectsMeaning(ta: Level1, tb: Level1, i: nat, j: nat)
    requires i < j
    ensures ScanResult(IntersectsOp, ta, tb, i, j).result <==> exists k: nat :: i <= k < j && Get(ta, k) && Get(tb, k)
  {
    var nb := LastBlock(j) + 1;
    var n := nb * LENGTH3;
    var ws := ScanWords(IntersectsOp, ta, tb, i, j, n);
    ScanAsWords(IntersectsOp, ta, tb, i, j, nb, n, ws);
    AnyWord(ws, n);
    ScanCovers(j);
    WordsHoldBit(ta, tb, i, j, n, ws);
  }

  // ---------------------------------------------------------------------
  // Equals

  lemma {:induction false} EveryWord(ws: seq<Word>, m: nat)
    requires m <= |ws|
    ensures WordsFold(EqualsOp, ws, m).result <==> forall w :: 0 <= w < m ==> ws[w] == ZERO
    decreases m
  {
    if m > 0 {
      var p := m - 1;
      EveryWord(ws, p);
    }
  }

  /** Bit k of the words the equals scan looks at: set where the sets differ inside [i, j). */
  lemma DifferenceBits(ta: Level1, tb: Level1, i: nat, j: nat, ws: seq<Word>, k: nat)
    requires i < j && Looks(EqualsOp, ta, tb, i, j, ws) && k < 64 * |ws|
    ensures BitAt(ws, k) == (i <= k < j && Get(ta, k) != Get(tb, k))
  {
    assert k / 64 * 64 + k % 64 == k;
  }

  /** Every scanned difference word is zero exactly when the sets agree on [i, j). */
  lemma WordsAgree(ta: Level1, tb: Level1, i: nat, j: nat, n: nat, ws: seq<Word>)
    requires i < j && j <= 64 * n && ws == ScanWords(EqualsOp, ta, tb, i, j, n)
    ensures (forall w :: 0 <= w < n ==> ws[w] == ZERO) <==> forall k: nat :: i <= k < j ==> Get(ta, k) == Get(tb, k)
  {
    ScanWordsLook(EqualsOp, ta, tb, i, j, n);
    if forall w :: 0 <= w < n ==> ws[w] == ZERO {
      forall k: nat | i <= k < j ensures Get(ta, k) == Get(tb, k) {
        DifferenceBits(ta, tb, i, j, ws, k);
        assert ws[k / 64] == ZERO;
      }
    } else {
      var w :| 0 <= w < n && ws[w] != ZERO;
      NonZeroWord(ws[w]);
      var b :| 0 <= b < 64 && ws[w][b];
      var k := w * 64 + b;
      assert k / 64 == w && k % 64 == b;
      DifferenceBits(ta, tb, i, j, ws, k);
    }
  }

  /** The equals scan of [i, j) keeps its verdict true exactly when the two sets agree on every bit of [i, j). */
  lemma EqualsMeaning(ta: Level1, tb: Level1, i: nat, j: nat)
    requires i < j
    ensures ScanResult(EqualsOp, ta, tb, i, j).result <==> forall k: nat :: i <= k < j ==> Get(ta, k) == Get(tb, k)
  {
    var nb := LastBlock(j) + 1;
    var n := nb * LENGTH3;
    var ws := ScanWords(EqualsOp, ta, tb, i, j, n);
    ScanAsWords(EqualsOp, ta, tb, i, j, nb, n, ws);
    EveryWord(ws, n);
    ScanCovers(j);
    WordsAgree(ta, tb, i, j, n, ws);
  }

  // ---------------------------------------------------------------------
  // The update strategy's totals

  /** The number of set bits among the first n bits of the words. */
  function CountTo(ws: seq<Word>, n: nat): nat
    requires n <= 64 * |ws|
  {
    if n == 0 then 0 else CountTo(ws, n - 1) + (if BitAt(ws, n - 1) then 1 else 0)
  }

  /** The number of non-zero words among the first m. */
  function NonZeroCount(ws: seq<Word>, m: nat): nat
    requires m <= |ws|
  {
    if m == 0 then 0 else NonZeroCount(ws, m - 1) + (if ws[m - 1] != ZERO then 1 else 0)
  }

  /** The running hash after the first m words: 1234 xor-folded with word * (index + 1). */
  function HashOf(ws: seq<Word>, m: nat): Word
    requires m <= |ws|
  {
    if m == 0 then HashSeed() else Xor(HashOf(ws, m - 1), HashTerm(m - 1, ws[m - 1]))
  }

  ghost predicate AllZero(ws: seq<Word>, lo: nat, hi: nat)
    requires hi <= |ws|
  {
    forall w :: lo <= w < hi ==> ws[w] == ZERO
  }

  /**
   * The totals after the first m words: the hash of every word, the set bits
   * and the non-zero words counted, and the first and last non-zero words
   * with their indices (or the initial values when every word so far is zero).
   */
  ghost predicate StatsOf(ws: seq<Word>, m: nat, s: Stats)
    requires m <= |ws|
  {
    && s.hash == HashOf(ws, m)
    && s.cardinality == CountTo(ws, 64 * m)
    && s.count == NonZeroCount(ws, m)
    && if AllZero(ws, 0, m) then
         s.wMin == -1 && s.wordMin == ZERO && s.wMax == 0 && s.wordMax == ZERO
       else
         && 0 <= s.wMin <= s.wMax < m
         && s.wordMin == ws[s.wMin] && ws[s.wMin] != ZERO
         && s.wordMax == ws[s.wMax] && ws[s.wMax] != ZERO
         && AllZero(ws, 0, s.wMin) && AllZero(ws, s.wMax + 1, m)
  }

  /** The count of a word's bits, added bit by bit. */
  lemma {:induction false} CountWord(ws: seq<Word>, w: nat, b: nat)
    requires w < |ws| && b <= 64
    ensures CountTo(ws, 64 * w + b) == CountTo(ws, 64 * w) + PopBelow(ws[w], b)
    decreases b
  {
    if b > 0 {
      var p := b - 1;
      CountWord(ws, w, p);
      var k := 64 * w + p;
      assert k / 64 == w && k % 64 == p;
    }
  }

  /** A zero word, which compute() never sees, leaves the hash as it was. */
  lemma HashStep(ws: seq<Word>, m: nat, h: Word)
    requires m < |ws| && h == HashOf(ws, m)
    ensures HashOf(ws, m + 1) == if ws[m] != ZERO then Xor(h, HashTerm(m, ws[m])) else h
  {
    if ws[m] == ZERO {
      ZeroWordHash(h, m, ws[m]);
    }
  }

  /** compute() on a non-zero word keeps StatsOf one word further. */
  lemma ComputeStep(ws: seq<Word>, m: nat, s: Stats)
    requires m < |ws| && StatsOf(ws, m, s)
    ensures StatsOf(ws, m + 1, if ws[m] != ZERO then Compute(s, m, ws[m]) else s)
  {
    CountWord(ws, m, 64);
    assert 64 * m + 64 == 64 * (m + 1);
    if ws[m] == ZERO {
      assert PopBelow(ws[m], 64) == PopCount(ws[m]) == 0;
    }
    HashStep(ws, m, s.hash);
  }

  lemma {:induction false} StatsFold(ws: seq<Word>, m: nat)
    requires m <= |ws|
    ensures StatsOf(ws, m, WordsFold(UpdateOp, ws, m).stats)
    decreases m
  {
    if m > 0 {
      var p := m - 1;
      StatsFold(ws, p);
      ComputeStep(ws, p, WordsFold(UpdateOp, ws, p).stats);
    }
  }

  /** length = (wMax + 1) * 64 - leadingZeros(wordMax) is one past the highest set bit, 0 when none is set. */
  lemma LengthMeaning(ws: seq<Word>, m: nat, s: Stats)
    requires m <= |ws| && StatsOf(ws, m, s)
    ensures 0 <= LengthOf(s) <= 64 * m
    ensures forall k: nat :: k < 64 * m && BitAt(ws, k) ==> k < LengthOf(s)
    ensures LengthOf(s) > 0 ==> BitAt(ws, LengthOf(s) - 1)
  {
    if AllZero(ws, 0, m) {
      forall k: nat | k < 64 * m ensures !BitAt(ws, k) {
        assert ws[k / 64] == ZERO;
      }
    } else {
      var l := BitLength(s.wordMax);
      assert LengthOf(s) == s.wMax * 64 + l;
      var top := s.wMax * 64 + l - 1;
      assert top / 64 == s.wMax && top % 64 == l - 1;
      forall k: nat | k < 64 * m && BitAt(ws, k) ensures k < LengthOf(s) {
        var w := k / 64;
        if w == s.wMax {
          assert k % 64 < l;
        }
      }
    }
  }

  /** wMin * 64 + trailingZeros(wordMin) is the lowest set bit, and 0 when none is set. */
  lemma FirstMeaning(ws: seq<Word>, m: nat, s: Stats)
    requires m <= |ws| && StatsOf(ws, m, s)
    ensures AllZero(ws, 0, m) ==> FirstOf(s) == 0
    ensures !AllZero(ws, 0, m) ==> 0 <= FirstOf(s) < 64 * m && BitAt(ws, FirstOf(s))
    ensures forall k: nat :: k < FirstOf(s) ==> k < 64 * m && !BitAt(ws, k)
  {
    if !AllZero(ws, 0, m) {
      var z := TrailingZeros(s.wordMin);
      var f := s.wMin * 64 + z;
      assert f / 64 == s.wMin && f % 64 == z;
      forall k: nat | k < FirstOf(s) ensures k < 64 * m && !BitAt(ws, k) {
        var w := k / 64;
      }
    }
  }

  /** The update words are this set's bits below n. */
  lemma UpdateBits(t: Level1, n: nat, ws: seq<Word>)
    requires n > 0 && Looks(UpdateOp, t, [], 0, n, ws)
    ensures WordsOf(ws, t, n)
  {
    forall k: nat | k < 64 * |ws| ensures BitAt(ws, k) == (k < n && Get(t, k)) {
      ScanWordBits(UpdateOp, t, [], 0, n, ws, k);
    }
  }

  /** The words hold exactly this set's bits below n. */
  ghost predicate WordsOf(ws: seq<Word>, t: Level1, n: nat) {
    forall k: nat :: k < 64 * |ws| ==> BitAt(ws, k) == (k < n && Get(t, k))
  }

  lemma {:induction false} CountToBelow(t: Level1, n: nat, ws: seq<Word>, m: nat)
    requires m <= n && m <= 64 * |ws| && WordsOf(ws, t, n)
    ensures CountTo(ws, m) == CountBelow(t, m)
    decreases m
  {
    if m > 0 {
      var p := m - 1;
      CountToBelow(t, n, ws, p);
      var bit := BitAt(ws, p);
      assert bit == Get(t, p);
    }
  }

  /** No word bit from n on is set, so the count stops growing at n. */
  lemma {:induction false} CountToSettles(ws: seq<Word>, n: nat, m: nat)
    requires n <= m <= 64 * |ws|
    requires forall k: nat :: n <= k < 64 * |ws| ==> !BitAt(ws, k)
    ensures CountTo(ws, m) == CountTo(ws, n)
    decreases m
  {
    if m > n {
      var p := m - 1;
      CountToSettles(ws, n, p);
    }
  }

  /** A scanned word is non-zero exactly when the set uses it below n. */
  lemma InUseWord(t: Level1, n: nat, ws: seq<Word>, w: nat)
    requires w < |ws| && n > 0 && Looks(UpdateOp, t, [], 0, n, ws)
    ensures ws[w] != ZERO <==> WordInUse(t, n, w)
  {
    NonZeroWord(ws[w]);
    if ws[w] != ZERO {
      var b :| 0 <= b < 64 && ws[w][b];
      ScanWordBits(UpdateOp, t, [], 0, n, ws, w * 64 + b);
      assert (w * 64 + b) / 64 == w && (w * 64 + b) % 64 == b;
    }
    if WordInUse(t, n, w) {
      var b :| 0 <= b < 64 && w * 64 + b < n && WordAt(t, w)[b];
      ScanWordBits(UpdateOp, t, [], 0, n, ws, w * 64 + b);
      assert (w * 64 + b) / 64 == w && (w * 64 + b) % 64 == b;
      assert ws[w][b];
    }
  }

  lemma {:induction false} NonZeroInUse(t: Level1, n: nat, ws: seq<Word>, m: nat)
    requires m <= |ws| && n > 0 && Looks(UpdateOp, t, [], 0, n, ws)
    ensures NonZeroCount(ws, m) == WordsInUse(t, n, m)
    decreases m
  {
    if m > 0 {
      var w := m - 1;
      NonZeroInUse(t, n, ws, w);
      InUseWord(t, n, ws, w);
    }
  }

  /** Words from (n + 63) / 64 on hold no bit below n. */
  lemma {:induction false} InUseSettles(t: Level1, n: nat, m: nat)
    requires (n + 63) / 64 <= m
    ensures WordsInUse(t, n, m) == WordsInUse(t, n, (n + 63) / 64)
    decreases m
  {
    if m > (n + 63) / 64 {
      var p := m - 1;
      InUseSettles(t, n, p);
    }
  }

  /** The update scan of [0, n) ends with the totals of the words it looks at. */
  lemma UpdateTotals(t: Level1, n: nat, nb: nat, m: nat, ws: seq<Word>)
    requires n > 0 && nb == LastBlock(n) + 1 && m == nb * LENGTH3 && ws == ScanWords(UpdateOp, t, [], 0, n, m)
    ensures StatsOf(ws, m, ScanResult(UpdateOp, t, [], 0, n).stats)
  {
    ScanAsWords(UpdateOp, t, [], 0, n, nb, m, ws);
    StatsFold(ws, m);
  }

  /** The counted set bits of the words are this set's bits below n. */
  lemma CardinalityOf(t: Level1, n: nat, m: nat, ws: seq<Word>, s: Stats)
    requires n <= 64 * m && m <= |ws| && StatsOf(ws, m, s) && WordsOf(ws, t, n)
    ensures s.cardinality == CountBelow(t, n)
  {
    CountToBelow(t, n, ws, n);
    CountToSettles(ws, n, 64 * m);
  }

  /** The counted non-zero words are the words in use below n. */
  lemma CountOf(t: Level1, n: nat, m: nat, ws: seq<Word>, s: Stats)
    requires n > 0 && (n + 63) / 64 <= m <= |ws| && StatsOf(ws, m, s) && Looks(UpdateOp, t, [], 0, n, ws)
    ensures s.count == WordsInUse(t, n, (n + 63) / 64)
  {
    NonZeroInUse(t, n, ws, m);
    InUseSettles(t, n, m);
  }

  /** A word of ws with no set bit among the first 64 * m bits is zero. */
  lemma NoBitInWord(ws: seq<Word>, m: nat, w: nat)
    requires m <= |ws| && w < m && forall k: nat :: k < 64 * m ==> !BitAt(ws, k)
    ensures ws[w] == ZERO
  {
    forall b | 0 <= b < 64 ensures !ws[w][b] {
      assert (w * 64 + b) / 64 == w && (w * 64 + b) % 64 == b;
      assert !BitAt(ws, w * 64 + b);
    }
    NonZeroWord(ws[w]);
  }

  /** The length and the size the totals give are those of this set's bits below n. */
  lemma LengthSizeOf(t: Level1, n: nat, m: nat, ws: seq<Word>, s: Stats)
    requires n <= 64 * m && m <= |ws| && StatsOf(ws, m, s) && WordsOf(ws, t, n)
    ensures LengthOf(s) == TopBelow(t, n)
    ensures LengthOf(s) - FirstOf(s) == if LengthOf(s) == 0 then 0 else LengthOf(s) - LowestIn(t, 0, n)
  {
    LengthMeaning(ws, m, s);
    TopBelowUnique(t, n, LengthOf(s));
    FirstMeaning(ws, m, s);
    if LengthOf(s) > 0 {
      assert !AllZero(ws, 0, m) by {
        assert BitAt(ws, LengthOf(s) - 1);
      }
      LowestInUnique(t, n, FirstOf(s));
    } else {
      assert AllZero(ws, 0, m) by {
        forall w | 0 <= w < m ensures ws[w] == ZERO {
          NoBitInWord(ws, m, w);
        }
      }
    }
  }

  /** Word w of this set's bits below n: the bits at or beyond n read as clear. */
  function WordBelow(t: Level1, n: nat, w: nat): (r: Word)
    ensures forall b :: 0 <= b < 64 ==> r[b] == (w * 64 + b < n && Get(t, w * 64 + b))
  {
    seq(64, b requires 0 <= b < 64 => w * 64 + b < n && Get(t, w * 64 + b))
  }

  /**
   * The hash that the documentation of hashCode gives for the bits below n:
   * 1234 xor-folded with word * (index + 1) over the first m words. It is
   * defined by the bits alone, with no reference to the tree.
   */
  function HashBelow(t: Level1, n: nat, m: nat): Word {
    if m == 0 then HashSeed() else Xor(HashBelow(t, n, m - 1), HashTerm(m - 1, WordBelow(t, n, m - 1)))
  }

  /** Words that hold this set's bits below n hash as HashBelow does. */
  lemma {:induction false} HashOfWords(t: Level1, n: nat, ws: seq<Word>, m: nat)
    requires m <= |ws| && WordsOf(ws, t, n)
    ensures HashOf(ws, m) == HashBelow(t, n, m)
    decreases m
  {
    if m > 0 {
      var w := m - 1;
      HashOfWords(t, n, ws, w);
      forall b | 0 <= b < 64 ensures ws[w][b] == WordBelow(t, n, w)[b] {
        assert (w * 64 + b) / 64 == w && (w * 64 + b) % 64 == b;
        assert BitAt(ws, w * 64 + b) == (w * 64 + b < n && Get(t, w * 64 + b));
      }
      assert ws[w] == WordBelow(t, n, w);
    }
  }

  /** A word at or beyond bit n holds no bit below n. */
  lemma WordBeyond(t: Level1, n: nat, w: nat)
    requires n <= 64 * w
    ensures WordBelow(t, n, w) == ZERO
  {
  }

  lemma XorZero(h: Word)
    ensures Xor(h, ZERO) == h
  {
  }

  /** A zero word adds nothing to a hash. */
  lemma ZeroWordHash(h: Word, index: nat, word: Word)
    requires word == ZERO
    ensures Xor(h, HashTerm(index, word)) == h
  {
    WrappingMulZero(index + 1);
    XorZero(h);
  }

  /** n rounded up to whole words. */
  lemma RoundUp(n: nat)
    ensures n <= 64 * ((n + 63) / 64)
  {
    assert n + 63 == 64 * ((n + 63) / 64) + (n + 63) % 64;
  }

  /** Words from bit n on are zero and leave the hash unchanged. */
  lemma {:induction false} HashBelowSettles(t: Level1, n: nat, q: nat, m: nat)
    requires n <= 64 * q && q <= m
    ensures HashBelow(t, n, m) == HashBelow(t, n, q)
    decreases m
  {
    if m > q {
      var w := m - 1;
      HashBelowSettles(t, n, q, w);
      WordBeyond(t, n, w);
      ZeroWordHash(HashBelow(t, n, w), w, WordBelow(t, n, w));
    }
  }

  /** The hash depends only on which bits are set: two sets that agree below n hash alike. */
  lemma {:induction false} HashDependsOnBits(ta: Level1, tb: Level1, n: nat, m: nat)
    requires forall k: nat :: k < n ==> Get(ta, k) == Get(tb, k)
    ensures HashBelow(ta, n, m) == HashBelow(tb, n, m)
    decreases m
  {
    if m > 0 {
      HashDependsOnBits(ta, tb, n, m - 1);
      assert WordBelow(ta, n, m - 1) == WordBelow(tb, n, m - 1);
    }
  }

  /**
   * What statisticsUpdate caches for the bits [0, n): the number of set
   * bits, the logical length, the span from the lowest to the highest set
   * bit, the number of words in use, all zero when no bit is set; and the
   * hash of the bits with its upper half folded into its lower half.
   */
  lemma CacheMeaning(t: Level1, n: nat, c: Cache)
    requires n > 0 && c == Finish(ScanResult(UpdateOp, t, [], 0, n).stats)
    ensures c.valid
    ensures c.cardinality == CountBelow(t, n)
    ensures c.length == TopBelow(t, n)
    ensures c.size == if c.length == 0 then 0 else c.length - LowestIn(t, 0, n)
    ensures c.count == WordsInUse(t, n, (n + 63) / 64)
    ensures c.hash == Xor(Shr(HashBelow(t, n, (n + 63) / 64), 32), HashBelow(t, n, (n + 63) / 64))
  {
    var nb := LastBlock(n) + 1;
    var m := nb * LENGTH3;
    var ws := ScanWords(UpdateOp, t, [], 0, n, m);
    var s := ScanResult(UpdateOp, t, [], 0, n).stats;
    UpdateTotals(t, n, nb, m, ws);
    ScanCovers(n);
    ScanWordsLook(UpdateOp, t, [], 0, n, m);
    UpdateBits(t, n, ws);
    CardinalityOf(t, n, m, ws, s);
    CountOf(t, n, m, ws, s);
    LengthSizeOf(t, n, m, ws, s);
    HashOfWords(t, n, ws, m);
    RoundUp(n);
    HashBelowSettles(t, n, (n + 63) / 64, m);
  }
}
