/**
 * The 64-bit words of the bit set, as sequences of 64 bits (bit k is the bit
 * of weight 2^k), with the operators the Go code applies to its uint64 words
 * and the counting functions of math/bits it calls.
 */
module Words {
  import opened Constants

  /** Sixty-four copies of one bit. */
  function Fill(b: bool): seq<bool> {
    seq(64, _ => b)
  }

  /** The word 0. */
  const ZERO: seq<bool> := Fill(false)

  /** A uint64 word, bit by bit. */
  type Word = w: seq<bool> | |w| == 64 witness ZERO

  /** ^uint64(0): every bit set. */
  const ALL: Word := Fill(true)

  /** The word 1: only bit 0 set. */
  const ONE: Word := ZERO[0 := true]

  // ---------------------------------------------------------------------------
  // Bitwise operators
  // ---------------------------------------------------------------------------

  /** a & b */
  function And(a: Word, b: Word): (r: Word)
    ensures forall k :: 0 <= k < 64 ==> r[k] == (a[k] && b[k])
  {
    seq(64, k requires 0 <= k < 64 => a[k] && b[k])
  }

  /** a | b */
  function Or(a: Word, b: Word): (r: Word)
    ensures forall k :: 0 <= k < 64 ==> r[k] == (a[k] || b[k])
  {
    seq(64, k requires 0 <= k < 64 => a[k] || b[k])
  }

  /** a ^ b */
  function Xor(a: Word, b: Word): (r: Word)
    ensures forall k :: 0 <= k < 64 ==> r[k] == (a[k] != b[k])
  {
    seq(64, k requires 0 <= k < 64 => a[k] != b[k])
  }

  /** ^a */
  function Not(a: Word): (r: Word)
    ensures forall k :: 0 <= k < 64 ==> r[k] == !a[k]
  {
    seq(64, k requires 0 <= k < 64 => !a[k])
  }

  /** x << n on a uint64; Go gives 0 once n reaches 64. */
  function Shl(x: Word, n: nat): (r: Word)
    ensures forall k :: 0 <= k < 64 ==> r[k] == (n <= k && x[k - n])
  {
    seq(64, k requires 0 <= k < 64 => n <= k && x[k - n])
  }

  /** x >> n on a uint64 (a logical shift); 0 once n reaches 64. */
  function Shr(x: Word, n: nat): (r: Word)
    ensures forall k :: 0 <= k < 64 ==> r[k] == (k + n < 64 && x[k + n])
  {
    seq(64, k requires 0 <= k < 64 => k + n < 64 && x[k + n])
  }

  /** uint(1) << k: the word with only bit k set (no bit at all once k reaches 64). */
  function Bit(k: nat): (r: Word)
    ensures forall m :: 0 <= m < 64 ==> r[m] == (m == k)
  {
    Shl(ONE, k)
  }

  /** ^uint64(0) << k: bit k and every bit above it. */
  function UpperMask(k: nat): (r: Word)
    ensures forall m :: 0 <= m < 64 ==> r[m] == (k <= m)
  {
    Shl(ALL, k)
  }

  /** ^(^uint64(0) << k): every bit below k. */
  function LowerMask(k: nat): (r: Word)
    ensures forall m :: 0 <= m < 64 ==> r[m] == (m < k)
  {
    Not(Shl(ALL, k))
  }

  // ---------------------------------------------------------------------------
  // The unsigned value of a word, for the wrapping multiplication of the hash
  // ---------------------------------------------------------------------------

  /** The value of the lowest n bits of a word. */
  function ValueBelow(w: Word, n: nat): nat
    requires n <= 64
  {
    if n == 0 then 0 else ValueBelow(w, n - 1) + (if w[n - 1] then Pow2(n - 1) else 0)
  }

  /** The lowest len binary digits of n, least significant first. */
  function Digits(n: nat, len: nat): (d: seq<bool>)
    ensures |d| == len
  {
    if len == 0 then [] else [n % 2 == 1] + Digits(n / 2, len - 1)
  }

  /** uint64(n): the word of the lowest 64 binary digits of n, that is of n mod 2^64. */
  function FromValue(n: nat): Word {
    Digits(n, 64)
  }

  /** uint64(w) * uint64(n): the product wraps modulo 2^64, as FromValue keeps 64 digits. */
  function WrappingMul(w: Word, n: nat): Word {
    FromValue(ValueBelow(w, 64) * n)
  }

  /** The zero word has value 0. */
  lemma {:induction false} ValueOfZero(n: nat)
    requires n <= 64
    ensures ValueBelow(ZERO, n) == 0
  {
    if n > 0 {
      ValueOfZero(n - 1);
    }
  }

  /** The digits of 0 are all clear. */
  lemma {:induction false} DigitsOfZero(len: nat)
    ensures forall k :: 0 <= k < len ==> !Digits(0, len)[k]
  {
    if len > 0 {
      DigitsOfZero(len - 1);
      assert Digits(0, len) == [false] + Digits(0, len - 1);
    }
  }

  /** 0 * n wraps to the zero word. */
  lemma WrappingMulZero(n: nat)
    ensures WrappingMul(ZERO, n) == ZERO
  {
    ValueOfZero(64);
    DigitsOfZero(64);
  }

  // ---------------------------------------------------------------------------
  // Counting functions of math/bits, defined bit by bit
  // ---------------------------------------------------------------------------

  /** The lowest set position at or above k, or 64 if there is none. */
  function LowestFrom(x: Word, k: nat): (n: nat)
    requires k <= 64
    ensures k <= n <= 64
    decreases 64 - k
  {
    if k == 64 then 64 else if x[k] then k else LowestFrom(x, k + 1)
  }

  /** bits.TrailingZeros64: the position of the lowest set bit, 64 for a zero word. */
  function TrailingZeros(x: Word): (n: nat)
    ensures n <= 64
    ensures n < 64 ==> x[n]
    ensures forall m :: 0 <= m < n ==> !x[m]
    ensures n == 64 <==> x == ZERO
  {
    LowestFromMeaning(x, 0);
    LowestFrom(x, 0)
  }

  /** The number of set bits among the lowest n. */
  function PopBelow(x: Word, n: nat): (c: nat)
    requires n <= 64
    ensures c <= n
  {
    if n == 0 then 0 else PopBelow(x, n - 1) + (if x[n - 1] then 1 else 0)
  }

  /** bits.OnesCount64: the number of set bits. */
  function PopCount(x: Word): (c: nat)
    ensures c <= 64
    ensures c == multiset(x)[true]
    ensures c == 0 <==> x == ZERO
  {
    PopBelowCounts(x, 64);
    assert x[..64] == x;
    PopCountZero(x);
    PopBelow(x, 64)
  }

  /** One past the highest set position among the lowest n, 0 if none is set. */
  function LengthBelow(x: Word, n: nat): (l: nat)
    requires n <= 64
    ensures l <= n
  {
    if n == 0 then 0 else if x[n - 1] then n else LengthBelow(x, n - 1)
  }

  /** bits.Len64: one past the position of the highest set bit, 0 for a zero word. */
  function BitLength(x: Word): (l: nat)
    ensures l <= 64
    ensures l > 0 ==> x[l - 1]
    ensures forall m :: l <= m < 64 ==> !x[m]
    ensures l == 0 <==> x == ZERO
  {
    LengthBelowMeaning(x, 64);
    LengthBelow(x, 64)
  }

  /** bits.LeadingZeros64: the number of clear bits above the highest set bit. */
  function LeadingZeros(x: Word): (n: nat)
    ensures n <= 64
    ensures n == 64 <==> x == ZERO
  {
    64 - BitLength(x)
  }

  /** x & (1 << k) != 0 tests bit k. */
  lemma BitTest(x: Word, k: nat)
    requires k < 64
    ensures And(x, Bit(k)) != ZERO <==> x[k]
  {
    if !x[k] {
      assert forall m :: 0 <= m < 64 ==> And(x, Bit(k))[m] == ZERO[m];
    }
  }

  // ---------------------------------------------------------------------------
  // What the counting functions mean
  // ---------------------------------------------------------------------------

  /** LowestFrom finds the first set position at or above k, and 64 only for none. */
  lemma {:induction false} LowestFromMeaning(x: Word, k: nat)
    requires k <= 64
    ensures LowestFrom(x, k) < 64 ==> x[LowestFrom(x, k)]
    ensures forall m :: k <= m < LowestFrom(x, k) ==> !x[m]
    ensures LowestFrom(x, k) == 64 <==> forall m :: k <= m < 64 ==> !x[m]
    ensures k == 0 ==> (LowestFrom(x, k) == 64 <==> x == ZERO)
    decreases 64 - k
  {
    if k < 64 && !x[k] {
      LowestFromMeaning(x, k + 1);
    }
    if k == 0 && LowestFrom(x, k) == 64 {
      assert forall m :: 0 <= m < 64 ==> x[m] == ZERO[m];
    }
  }

  /** PopBelow counts the true entries of the lowest n bits. */
  lemma {:induction false} PopBelowCounts(x: Word, n: nat)
    requires n <= 64
    ensures PopBelow(x, n) == multiset(x[..n])[true]
  {
    if n > 0 {
      PopBelowCounts(x, n - 1);
      assert x[..n] == x[..n - 1] + [x[n - 1]];
    }
  }

  /** A word has no set bit exactly when it is the zero word. */
  lemma PopCountZero(x: Word)
    ensures multiset(x)[true] == 0 <==> x == ZERO
  {
    if multiset(x)[true] == 0 {
      assert forall k :: 0 <= k < 64 ==> x[k] == ZERO[k];
    }
  }

  /** A word is non-zero exactly when one of its bits is set. */
  lemma NonZeroWord(x: Word)
    ensures x != ZERO <==> exists b :: 0 <= b < 64 && x[b]
  {
    if forall b :: 0 <= b < 64 ==> !x[b] {
      assert forall k :: 0 <= k < 64 ==> x[k] == ZERO[k];
    }
  }

  /** LengthBelow finds one past the highest set position below n. */
  lemma {:induction false} LengthBelowMeaning(x: Word, n: nat)
    requires n <= 64
    ensures LengthBelow(x, n) > 0 ==> x[LengthBelow(x, n) - 1]
    ensures forall m :: LengthBelow(x, n) <= m < n ==> !x[m]
    ensures n == 64 ==> (LengthBelow(x, n) == 0 <==> x == ZERO)
  {
    if n > 0 && !x[n - 1] {
      LengthBelowMeaning(x, n - 1);
    }
    if n == 64 && LengthBelow(x, n) == 0 {
      assert forall m :: 0 <= m < 64 ==> x[m] == ZERO[m];
    }
  }
}
