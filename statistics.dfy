/**
 * The running totals of the update strategy and the cache they finish into:
 * the hash, the first and last non-zero words, the number of non-zero words
 * and the number of set bits.
 */
module Statistics {
  import opened Words

  /** The state of the update strategy while it scans. */
  datatype Stats = Stats(
    hash: Word,          // 1234 xor-folded with word * (index + 1)
    wMin: int,           // index of the first non-zero word, -1 before one is seen
    wordMin: Word,       // that word
    wMax: int,           // index of the last non-zero word seen
    wordMax: Word,       // that word
    count: nat,          // non-zero words seen
    cardinality: nat)    // set bits seen

  /** The hash start() begins with, uint64(1234): its set bits 1, 4, 6, 7 and 10 are 2 + 16 + 64 + 128 + 1024. */
  function HashSeed(): Word {
    seq(64, k => k == 1 || k == 4 || k == 6 || k == 7 || k == 10)
  }

  /** The state start() sets up. */
  const InitStats: Stats := Stats(HashSeed(), -1, ZERO, 0, ZERO, 0, 0)

  /**
   * The cached statistics. The Go code marks them stale by a hash of zero;
   * the model keeps an explicit flag, valid, instead (a finished hash can
   * itself be zero).
   */
  datatype Cache = Cache(valid: bool, hash: Word, size: int, cardinality: int, length: int, count: int)

  /** The cache of a new set: stale, every value zero. */
  const EMPTY_CACHE: Cache := Cache(false, ZERO, 0, 0, 0, 0)

  /** cache.hash = 0: every cached value becomes stale. */
  function Invalidate(c: Cache): (r: Cache)
    ensures !r.valid
  {
    c.(valid := false, hash := ZERO)
  }

  /** The hash contribution of a word: the unsigned 64-bit product word * (index + 1). */
  function HashTerm(index: nat, word: Word): Word {
    WrappingMul(word, index + 1)
  }

  /**
   * compute(): take a non-zero word at an index into the totals. The first
   * such word fixes wMin, every one moves wMax, and the counts grow by one
   * word and by the word's set bits.
   */
  function Compute(s: Stats, index: nat, word: Word): Stats
  {
    var s1 := s.(count := s.count + 1, hash := Xor(s.hash, HashTerm(index, word)));
    var s2 := if s1.wMin < 0 then s1.(wMin := index, wordMin := word) else s1;
    s2.(wMax := index, wordMax := word, cardinality := s2.cardinality + PopCount(word))
  }

  /** The length: one past the highest set bit, from the last non-zero word. */
  function LengthOf(s: Stats): int {
    (s.wMax + 1) * 64 - LeadingZeros(s.wordMax)
  }

  /** The position of the lowest set bit, from the first non-zero word. */
  function FirstOf(s: Stats): int {
    s.wMin * 64 + TrailingZeros(s.wordMin)
  }

  /**
   * finish(): the cache the totals produce. The size is the span from the
   * lowest to the highest set bit; the hash folds its upper half into its
   * lower half.
   */
  function Finish(s: Stats): Cache
  {
    var length := LengthOf(s);
    Cache(true, Xor(Shr(s.hash, 32), s.hash), length - FirstOf(s), s.cardinality, length, s.count)
  }

  /** An empty scan finishes with length and size 0 and no bits. */
  lemma FinishEmpty()
    ensures Finish(InitStats).length == 0 && Finish(InitStats).size == 0
    ensures Finish(InitStats).cardinality == 0 && Finish(InitStats).count == 0
  {
  }

  /**
   * The finished hash is zero exactly when the running hash is. Only then
   * does the Go check, a hash of zero, take a fresh cache for a stale one.
   */
  lemma FinishedHashZero(h: Word)
    ensures Xor(Shr(h, 32), h) == ZERO <==> h == ZERO
  {
    if Xor(Shr(h, 32), h) == ZERO {
      assert forall k :: 32 <= k < 64 ==> !h[k] by {
        forall k | 32 <= k < 64 ensures !h[k] {
          assert Xor(Shr(h, 32), h)[k] == ZERO[k];
        }
      }
      forall k | 0 <= k < 32 ensures h[k] == ZERO[k] {
        assert Xor(Shr(h, 32), h)[k] == ZERO[k];
      }
      assert h == ZERO;
    }
  }
}
