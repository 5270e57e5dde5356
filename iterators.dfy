/**
 * The four direct iterators of the bit set, NextSetBit, NextClearBit,
 * PreviousSetBit and PreviousClearBit, in the style of java.util.BitSet:
 * what they return, said bit by bit, and the inner loops over the blocks
 * of an area and the words of a block that they run.
 */
module Iterators {
  import opened Constants
  import opened Words
  import opened Tree
  import opened Content

  // ---------------------------------------------------------------------
  // What the iterators return

  /** No bit in [lo, hi) is set. */
  ghost predicate ClearIn(t: Level1, lo: int, hi: int) {
    forall k: nat :: lo <= k < hi ==> !Get(t, k)
  }

  /** Every bit in [lo, hi) is set. */
  ghost predicate SetIn(t: Level1, lo: int, hi: int) {
    forall k: nat :: lo <= k < hi ==> Get(t, k)
  }

  /** r is the least set index at or after i, or -1 when no bit from i on is set. */
  ghost predicate IsNextSet(t: Level1, i: nat, r: int) {
    || (r == -1 && NoBitsFrom(t, i))
    || (i <= r && Get(t, r) && ClearIn(t, i, r))
  }

  /**
   * r is the least clear index at or after i, or -1 when that index would be
   * MaxInt32 (every bit from i up to MaxInt32 is set).
   */
  ghost predicate IsNextClear(t: Level1, i: nat, r: int) {
    || (r == -1 && SetIn(t, i, MAX_INT32))
    || (i <= r < MAX_INT32 && !Get(t, r) && SetIn(t, i, r))
  }

  /** r is the greatest set index at or before i, or -1 when none is. */
  ghost predicate IsPreviousSet(t: Level1, i: nat, r: int) {
    || (r == -1 && ClearIn(t, 0, i + 1))
    || (0 <= r <= i && Get(t, r) && ClearIn(t, r + 1, i + 1))
  }

  /** r is the greatest clear index at or before i, or -1 when none is. */
  ghost predicate IsPreviousClear(t: Level1, i: nat, r: int) {
    || (r == -1 && SetIn(t, 0, i + 1))
    || (0 <= r <= i && !Get(t, r) && SetIn(t, r + 1, i + 1))
  }

  /** There is one answer for NextSetBit. */
  lemma NextSetUnique(t: Level1, i: nat, r: int, r': int)
    requires IsNextSet(t, i, r) && IsNextSet(t, i, r')
    ensures r == r'
  {
  }

  /** There is one answer for NextClearBit. */
  lemma NextClearUnique(t: Level1, i: nat, r: int, r': int)
    requires IsNextClear(t, i, r) && IsNextClear(t, i, r')
    ensures r == r'
  {
  }

  /** There is one answer for PreviousSetBit. */
  lemma PreviousSetUnique(t: Level1, i: nat, r: int, r': int)
    requires IsPreviousSet(t, i, r) && IsPreviousSet(t, i, r')
    ensures r == r'
  {
  }

  /** There is one answer for PreviousClearBit. */
  lemma PreviousClearUnique(t: Level1, i: nat, r: int, r': int)
    requires IsPreviousClear(t, i, r) && IsPreviousClear(t, i, r')
    ensures r == r'
  {
  }

  // ---------------------------------------------------------------------
  // Words of an area, and the bits they hold

  /** Word x (0 <= x < 1024) of an area, counted across its blocks: zero in an absent block. */
  function AreaWord(a2: Area, x: nat): Word {
    if x < 1024 && a2[x / 32].Some? then a2[x / 32].value[x % 32] else ZERO
  }

  /** The words [lo, hi) of an area are zero. */
  ghost predicate ZeroArea(a2: Area, lo: int, hi: int) {
    forall x: nat :: lo <= x < hi ==> AreaWord(a2, x) == ZERO
  }

  /** The words [lo, hi) of an area are all ones (their complements zero), none in an absent block. */
  ghost predicate FullArea(a2: Area, lo: int, hi: int) {
    && hi <= 1024
    && forall x: nat :: lo <= x < hi ==> a2[x / 32].Some? && Not(AreaWord(a2, x)) == ZERO
  }

  /** Word x (0 <= x < 1024) of area u1 of the level-1 array: zero in an absent area or block. */
  function WordOf(t: Level1, u1: nat, x: nat): Word {
    if u1 < |t| && t[u1].Some? then AreaWord(t[u1].value, x) else ZERO
  }

  /** Word u3 of block u2, as the area counts it. */
  lemma AreaWordOf(a2: Area, u2: nat, u3: nat)
    requires u2 < 32 && u3 < 32
    ensures u2 * 32 + u3 < 1024 && (u2 * 32 + u3) / 32 == u2 && (u2 * 32 + u3) % 32 == u3
    ensures AreaWord(a2, u2 * 32 + u3) == if a2[u2].Some? then a2[u2].value[u3] else ZERO
  {
  }

  /** Bit b of word x of the present area u1 is bit (u1 * 1024 + x) * 64 + b of the set. */
  lemma GetInArea(t: Level1, u1: nat, x: nat, b: nat)
    requires u1 < |t| && t[u1].Some? && x < 1024 && b < 64
    ensures Get(t, (u1 * 1024 + x) * 64 + b) == AreaWord(t[u1].value, x)[b]
  {
    var w := u1 * 1024 + x;
    var k := w * 64 + b;
    assert k / 64 == w && k % 64 == b;
    assert w / 32 == u1 * 32 + x / 32 && w % 32 == x % 32;
    assert (w / 32) / 32 == u1 && (w / 32) % 32 == x / 32;
  }

  /** Every bit of an area the level-1 array does not hold is clear. */
  lemma GetOutsideArea(t: Level1, u1: nat, k: nat)
    requires !(u1 < |t| && t[u1].Some?) && k / 65536 == u1
    ensures !Get(t, k)
  {
    assert k / 64 / 32 / 32 == k / 65536;
  }

  /** A bit of words [lo, hi) of area u1: its word x in the area and its position b in the word. */
  lemma SplitBit(u1: nat, lo: nat, hi: nat, k: nat) returns (x: nat, b: nat)
    requires hi <= 1024 && (u1 * 1024 + lo) * 64 <= k < (u1 * 1024 + hi) * 64
    ensures lo <= x < hi && b < 64 && k == (u1 * 1024 + x) * 64 + b
  {
    x, b := k / 64 - u1 * 1024, k % 64;
  }

  /** Zero words [lo, hi) of the present area u1 hold no set bit. */
  lemma AreaClear(t: Level1, u1: nat, lo: nat, hi: nat)
    requires u1 < |t| && t[u1].Some? && hi <= 1024 && ZeroArea(t[u1].value, lo, hi)
    ensures ClearIn(t, (u1 * 1024 + lo) * 64, (u1 * 1024 + hi) * 64)
  {
    forall k: nat | (u1 * 1024 + lo) * 64 <= k < (u1 * 1024 + hi) * 64
      ensures !Get(t, k)
    {
      var x, b := SplitBit(u1, lo, hi, k);
      GetInArea(t, u1, x, b);
    }
  }

  /** Full words [lo, hi) of the present area u1 hold only set bits. */
  lemma AreaSet(t: Level1, u1: nat, lo: nat, hi: nat)
    requires u1 < |t| && t[u1].Some? && hi <= 1024 && FullArea(t[u1].value, lo, hi)
    ensures SetIn(t, (u1 * 1024 + lo) * 64, (u1 * 1024 + hi) * 64)
  {
    forall k: nat | (u1 * 1024 + lo) * 64 <= k < (u1 * 1024 + hi) * 64
      ensures Get(t, k)
    {
      var x, b := SplitBit(u1, lo, hi, k);
      GetInArea(t, u1, x, b);
      assert Not(AreaWord(t[u1].value, x))[b] == ZERO[b];
    }
  }

  /** Bit b of word x of area u1 is bit (u1 * 1024 + x) * 64 + b of the set, present or not. */
  lemma GetWord(t: Level1, u1: nat, x: nat, b: nat)
    requires x < 1024 && b < 64
    ensures Get(t, (u1 * 1024 + x) * 64 + b) == WordOf(t, u1, x)[b]
  {
    if u1 < |t| && t[u1].Some? {
      GetInArea(t, u1, x, b);
    } else {
      var k := (u1 * 1024 + x) * 64 + b;
      assert k / 65536 == u1;
      GetOutsideArea(t, u1, k);
    }
  }

  /** An area the level-1 array does not hold has no set bit. */
  lemma AbsentAreaClear(t: Level1, u1: nat, lo: nat)
    requires !(u1 < |t| && t[u1].Some?) && lo <= 1024
    ensures ClearIn(t, (u1 * 1024 + lo) * 64, (u1 + 1) * 65536)
  {
    forall k: nat | (u1 * 1024 + lo) * 64 <= k < (u1 + 1) * 65536
      ensures !Get(t, k)
    {
      GetOutsideArea(t, u1, k);
    }
  }

  /** Beyond the level-1 array no bit is set. */
  lemma BeyondArray(t: Level1, lo: nat)
    requires lo >= |t| * 65536
    ensures NoBitsFrom(t, lo)
  {
    forall k: nat | lo <= k
      ensures !Get(t, k)
    {
      GetOutsideArea(t, k / 65536, k);
    }
  }

  /** The word index w as area, block and word coordinates. */
  lemma Coordinates(w: nat)
    ensures w == (w / 1024) * 1024 + ((w / 32) % 32) * 32 + w % 32
    ensures (w / 32) % 32 < 32 && w % 32 < 32
  {
    var q := w / 32;
    assert w == q * 32 + w % 32;
    assert q == (q / 32) * 32 + q % 32;
    assert q / 32 == w / 1024;
  }

  /** A zero word stays zero under any mask. */
  lemma ZeroMasked(m: nat)
    ensures And(ZERO, UpperMask(m)) == ZERO
  {
    assert forall k :: 0 <= k < 64 ==> And(ZERO, UpperMask(m))[k] == ZERO[k];
  }

  /** Clear runs that meet make one clear run. */
  lemma ClearJoin(t: Level1, lo: int, mid: int, hi: int)
    requires ClearIn(t, lo, mid) && ClearIn(t, mid, hi)
    ensures ClearIn(t, lo, hi)
  {
  }

  /** Set runs that meet make one set run. */
  lemma SetJoin(t: Level1, lo: int, mid: int, hi: int)
    requires SetIn(t, lo, mid) && SetIn(t, mid, hi)
    ensures SetIn(t, lo, hi)
  {
  }

  /** No set bit from lo to the end of the level-1 array, so none from lo on. */
  lemma ClearToEnd(t: Level1, lo: nat)
    requires lo <= |t| * 65536 && ClearIn(t, lo, |t| * 65536)
    ensures NoBitsFrom(t, lo)
  {
    BeyondArray(t, |t| * 65536);
  }

  /** Word w3 of block w2 of area w1, as WordOf counts it. */
  lemma WordOfBlock(t: Level1, w1: nat, w2: nat, w3: nat)
    requires w2 < 32 && w3 < 32
    ensures w2 * 32 + w3 < 1024
    ensures WordOf(t, w1, w2 * 32 + w3) ==
      if w1 < |t| && t[w1].Some? && t[w1].value[w2].Some? then t[w1].value[w2].value[w3] else ZERO
  {
    if w1 < |t| && t[w1].Some? {
      AreaWordOf(t[w1].value, w2, w3);
    }
  }

  /** The bits of word x of area u1, which starts at bit p of the set. */
  lemma WordBits(t: Level1, u1: nat, x: nat, p: nat)
    requires x < 1024 && p == (u1 * 1024 + x) * 64
    ensures forall b :: 0 <= b < 64 ==> Get(t, p + b) == WordOf(t, u1, x)[b]
  {
    forall b | 0 <= b < 64
      ensures Get(t, p + b) == WordOf(t, u1, x)[b]
    {
      GetWord(t, u1, x, b);
    }
  }

  /**
   * The word cw holds bits p to p + 63 of the set, and word is cw with the
   * bits below m masked off. When word is not zero, its lowest bit is the
   * first set bit from p + m on.
   */
  lemma SetHitFrom(t: Level1, cw: Word, m: nat, word: Word, p: nat)
    requires m < 64 && forall b :: 0 <= b < 64 ==> Get(t, p + b) == cw[b]
    requires word == And(cw, UpperMask(m)) && word != ZERO
    ensures m <= TrailingZeros(word) < 64
    ensures Get(t, p + TrailingZeros(word))
    ensures ClearIn(t, p + m, p + TrailingZeros(word))
  {
    var z := TrailingZeros(word);
    assert z < 64 && word[z] == (cw[z] && UpperMask(m)[z]);
    assert cw[z] == Get(t, p + z);
    forall k: nat | p + m <= k < p + z
      ensures !Get(t, k)
    {
      var b := k - p;
      assert !word[b] && cw[b] == Get(t, p + b);
    }
  }

  /** As for SetHitFrom, with word zero: the bits from p + m to the end of the word are clear. */
  lemma SetMissFrom(t: Level1, cw: Word, m: nat, p: nat)
    requires m < 64 && forall b :: 0 <= b < 64 ==> Get(t, p + b) == cw[b]
    requires And(cw, UpperMask(m)) == ZERO
    ensures ClearIn(t, p + m, p + 64)
  {
    forall k: nat | p + m <= k < p + 64
      ensures !Get(t, k)
    {
      var b := k - p;
      assert And(cw, UpperMask(m))[b] == ZERO[b] && cw[b] == Get(t, p + b);
    }
  }

  /**
   * The word cw holds bits p to p + 63 of the set, and word is its
   * complement with the bits below m masked off. When word is not zero, its
   * lowest bit is the first clear bit from p + m on.
   */
  lemma ClearHitFrom(t: Level1, cw: Word, m: nat, word: Word, p: nat)
    requires m < 64 && forall b :: 0 <= b < 64 ==> Get(t, p + b) == cw[b]
    requires word == And(Not(cw), UpperMask(m)) && word != ZERO
    ensures m <= TrailingZeros(word) < 64
    ensures !Get(t, p + TrailingZeros(word))
    ensures SetIn(t, p + m, p + TrailingZeros(word))
  {
    var z := TrailingZeros(word);
    assert z < 64 && word[z] == (Not(cw)[z] && UpperMask(m)[z]);
    assert cw[z] == Get(t, p + z);
    forall k: nat | p + m <= k < p + z
      ensures Get(t, k)
    {
      var b := k - p;
      assert !word[b] && cw[b] == Get(t, p + b);
    }
  }

  /** As for ClearHitFrom, with word zero: the bits from p + m to the end of the word are set. */
  lemma ClearMissFrom(t: Level1, cw: Word, m: nat, p: nat)
    requires m < 64 && forall b :: 0 <= b < 64 ==> Get(t, p + b) == cw[b]
    requires And(Not(cw), UpperMask(m)) == ZERO
    ensures SetIn(t, p + m, p + 64)
  {
    forall k: nat | p + m <= k < p + 64
      ensures Get(t, k)
    {
      var b := k - p;
      assert And(Not(cw), UpperMask(m))[b] == ZERO[b] && cw[b] == Get(t, p + b);
    }
  }

  /** Masking the complement of the word 0 leaves the mask. */
  lemma FullMasked(m: nat)
    ensures And(Not(ZERO), UpperMask(m)) == UpperMask(m)
  {
    assert forall k :: 0 <= k < 64 ==> And(Not(ZERO), UpperMask(m))[k] == UpperMask(m)[k];
  }

  /** A mask below 64 keeps bit m. */
  lemma UpperMaskNonZero(m: nat)
    requires m < 64
    ensures UpperMask(m) != ZERO
  {
    assert UpperMask(m)[m] != ZERO[m];
  }

  /** The complement of the word 0 is all ones. */
  lemma NotZero()
    ensures Not(ZERO) == ALL && ALL != ZERO
  {
    assert forall k :: 0 <= k < 64 ==> Not(ZERO)[k] == ALL[k];
    assert ALL[0] != ZERO[0];
  }

  // ---------------------------------------------------------------------
  // Inner loops of NextSetBit

  /** The first non-zero word of a block at or after w3, 32 when there is none. */
  method SeekSetInBlock(a3: Block, w3: nat) returns (v3: nat)
    requires w3 <= 32
    ensures w3 <= v3 <= 32
    ensures v3 < 32 ==> a3[v3] != ZERO
    ensures forall x :: w3 <= x < v3 ==> a3[x] == ZERO
  {
    v3 := w3;
    while v3 != 32 && a3[v3] == ZERO
      invariant w3 <= v3 <= 32
      invariant forall x :: w3 <= x < v3 ==> a3[x] == ZERO
    {
      v3 := v3 + 1;
    }
  }

  /**
   * The first non-zero word of an area at or after word w3 of block w2,
   * skipping absent blocks; found is false when the rest of the area is zero.
   */
  method SeekSetInArea(a2: Area, w2: nat, w3: nat) returns (v2: nat, v3: nat, word: Word, found: bool)
    requires w2 < 32 && w3 < 32
    ensures found ==> v2 < 32 && v3 < 32 && w2 * 32 + w3 <= v2 * 32 + v3
    ensures found ==> a2[v2].Some? && word == a2[v2].value[v3] && word != ZERO
    ensures ZeroArea(a2, w2 * 32 + w3, if found then v2 * 32 + v3 else 1024)
  {
    v2, v3 := w2, w3;
    while v2 != 32
      invariant w2 <= v2 <= 32 && v3 < 32 && (v2 > w2 ==> v3 == 0) && (v2 == w2 ==> v3 == w3)
      invariant ZeroArea(a2, w2 * 32 + w3, v2 * 32 + v3)
    {
      if a2[v2].Some? {
        var r := SeekSetInBlock(a2[v2].value, v3);
        forall x: nat | v2 * 32 + v3 <= x < v2 * 32 + r
          ensures AreaWord(a2, x) == ZERO
        {
          AreaWordOf(a2, v2, x - v2 * 32);
        }
        if r < 32 {
          AreaWordOf(a2, v2, r);
          return v2, r, a2[v2].value[r], true;
        }
      } else {
        forall x: nat | v2 * 32 + v3 <= x < v2 * 32 + 32
          ensures AreaWord(a2, x) == ZERO
        {
          AreaWordOf(a2, v2, x - v2 * 32);
        }
      }
      v2, v3 := v2 + 1, 0;
    }
    return v2, 0, ZERO, false;
  }

  /**
   * A stop of the NextSetBit search at the non-zero word w2 * 32 + w3 of
   * area w1, starting at bit p: its lowest set bit is set, every bit below
   * it clear.
   */
  lemma SetStop(t: Level1, w1: nat, w2: nat, w3: nat, word: Word, p: nat)
    requires w2 < 32 && w3 < 32 && p == (w1 * 1024 + w2 * 32 + w3) * 64
    requires w1 < |t| && t[w1].Some? && word == AreaWord(t[w1].value, w2 * 32 + w3) && word != ZERO
    ensures TrailingZeros(word) < 64
    ensures Get(t, p + TrailingZeros(word))
    ensures ClearIn(t, p, p + TrailingZeros(word))
  {
    WordBits(t, w1, w2 * 32 + w3, p);
    assert And(word, UpperMask(0)) == word;
    SetHitFrom(t, word, 0, word, p);
  }

  /**
   * The area loop of NextSetBit: from word w on, the first non-zero word,
   * skipping absent areas and blocks; not found once the areas run out.
   */
  method SeekSetFrom(t: Level1, w: nat) returns (w1: nat, w2: nat, w3: nat, word: Word, found: bool)
    requires |t| <= 32768
    ensures w2 < 32 && w3 < 32
    ensures found ==> w1 < |t| && t[w1].Some? && word == AreaWord(t[w1].value, w2 * 32 + w3) && word != ZERO
    ensures found ==> w <= w1 * 1024 + w2 * 32 + w3 && ClearIn(t, w * 64, (w1 * 1024 + w2 * 32 + w3) * 64)
    ensures !found ==> |t| <= w1
    ensures !found && w <= |t| * 1024 ==> ClearIn(t, w * 64, |t| * 65536)
  {
    w3, w2, w1 := w % 32, (w / 32) % 32, w / 1024;
    Coordinates(w);
    found := false;
    word := ZERO;
    if w1 >= |t| {
      return;
    }
    while w1 != |t|
      invariant w1 <= |t| && w2 < 32 && w3 < 32
      invariant w1 == |t| ==> w2 == 0 && w3 == 0
      invariant w <= w1 * 1024 + w2 * 32 + w3
      invariant ClearIn(t, w * 64, (w1 * 1024 + w2 * 32 + w3) * 64)
    {
      if t[w1].Some? {
        var v2, v3, wd, f := SeekSetInArea(t[w1].value, w2, w3);
        var x := if f then v2 * 32 + v3 else 1024;
        AreaClear(t, w1, w2 * 32 + w3, x);
        ClearJoin(t, w * 64, (w1 * 1024 + w2 * 32 + w3) * 64, (w1 * 1024 + x) * 64);
        if f {
          AreaWordOf(t[w1].value, v2, v3);
          return w1, v2, v3, wd, true;
        }
      } else {
        AbsentAreaClear(t, w1, w2 * 32 + w3);
        ClearJoin(t, w * 64, (w1 * 1024 + w2 * 32 + w3) * 64, (w1 + 1) * 65536);
      }
      w1, w2, w3 := w1 + 1, 0, 0;
    }
  }

  /**
   * The first step of NextSetBit: word w3 of block w2 of area w1, which
   * starts at bit p, from bit m up. A hit is the answer; otherwise the rest
   * of that word is clear.
   */
  method FirstSetInWord(t: Level1, w1: nat, w2: nat, w3: nat, m: nat, p: nat) returns (r: nat, hit: bool)
    requires w2 < 32 && w3 < 32 && m < 64 && p == (w1 * 1024 + w2 * 32 + w3) * 64
    ensures hit ==> w1 < |t| && p + m <= r < p + 64 && Get(t, r) && ClearIn(t, p + m, r)
    ensures !hit ==> ClearIn(t, p + m, p + 64)
  {
    var x := w2 * 32 + w3;
    WordOfBlock(t, w1, w2, w3);
    WordBits(t, w1, x, p);
    var word := ZERO;
    if w1 < |t| && t[w1].Some? && t[w1].value[w2].Some? {
      word := And(t[w1].value[w2].value[w3], UpperMask(m));
    } else {
      ZeroMasked(m);
    }
    r, hit := 0, false;
    if word != ZERO {
      SetHitFrom(t, WordOf(t, w1, x), m, word, p);
      r, hit := p + TrailingZeros(word), true;
    } else {
      SetMissFrom(t, WordOf(t, w1, x), m, p);
    }
  }

  /**
   * The search of NextSetBit over a level-1 array: the word of i is tested
   * from bit i % 64 up, then SeekSetFrom runs on from the next word.
   */
  method NextSetIn(t: Level1, i: nat) returns (r: int)
    requires |t| <= 32768
    ensures IsNextSet(t, i, r) && r < |t| * 65536
  {
    var w: nat := i / 64;
    var m: nat := i % 64;
    var w3: nat, w2: nat, w1: nat := w % 32, (w / 32) % 32, w / 1024;
    Coordinates(w);
    if w1 >= |t| {
      BeyondArray(t, i);
      return -1;
    }
    var hit;
    r, hit := FirstSetInWord(t, w1, w2, w3, m, w * 64);
    if hit {
      return;
    }
    // the search goes on from the next word
    var found, word;
    w1, w2, w3, word, found := SeekSetFrom(t, w + 1);
    if found {
      var p := (w1 * 1024 + w2 * 32 + w3) * 64;
      SetStop(t, w1, w2, w3, word, p);
      ClearJoin(t, i, p, p + TrailingZeros(word));
      return p + TrailingZeros(word);
    } else if w + 1 <= |t| * 1024 {
      ClearJoin(t, i, (w + 1) * 64, |t| * 65536);
      ClearToEnd(t, i);
    } else {
      BeyondArray(t, i);
    }
    return -1;
  }

  // ---------------------------------------------------------------------
  // NextClearBit

  /**
   * A stop of the NextClearBit search at word w2 * 32 + w3 of area w1,
   * starting at bit p: nword is the complement of that word and not zero,
   * so its lowest set bit is the lowest clear bit of the word, and every
   * bit below it is set.
   */
  lemma ClearStop(t: Level1, w1: nat, w2: nat, w3: nat, nword: Word, p: nat)
    requires w2 < 32 && w3 < 32 && p == (w1 * 1024 + w2 * 32 + w3) * 64
    requires nword == Not(WordOf(t, w1, w2 * 32 + w3)) && nword != ZERO
    ensures TrailingZeros(nword) < 64
    ensures !Get(t, p + TrailingZeros(nword))
    ensures SetIn(t, p, p + TrailingZeros(nword))
  {
    WordBits(t, w1, w2 * 32 + w3, p);
    assert And(Not(WordOf(t, w1, w2 * 32 + w3)), UpperMask(0)) == nword;
    ClearHitFrom(t, WordOf(t, w1, w2 * 32 + w3), 0, nword, p);
  }

  /** Full words [lo, hi) of the present block v2 are full words of the area. */
  lemma BlockFull(a2: Area, v2: nat, lo: nat, hi: nat)
    requires v2 < 32 && lo <= hi <= 32 && a2[v2].Some?
    requires forall x :: lo <= x < hi ==> Not(a2[v2].value[x]) == ZERO
    ensures FullArea(a2, v2 * 32 + lo, v2 * 32 + hi)
  {
    forall x: nat | v2 * 32 + lo <= x < v2 * 32 + hi
      ensures a2[x / 32].Some? && Not(AreaWord(a2, x)) == ZERO
    {
      AreaWordOf(a2, v2, x - v2 * 32);
    }
  }

  /** Full runs of words that meet make one full run. */
  lemma FullJoin(a2: Area, lo: int, mid: int, hi: int)
    requires FullArea(a2, lo, mid) && FullArea(a2, mid, hi) && mid <= hi
    ensures FullArea(a2, lo, hi)
  {
  }

  /** The first word of a block at or after w3 that is not all ones, 32 when there is none. */
  method SeekClearInBlock(a3: Block, w3: nat) returns (v3: nat, nword: Word)
    requires w3 <= 32
    ensures w3 <= v3 <= 32
    ensures v3 < 32 ==> nword == Not(a3[v3]) && nword != ZERO
    ensures forall x :: w3 <= x < v3 ==> Not(a3[x]) == ZERO
  {
    v3, nword := w3, ZERO;
    while v3 != 32
      invariant w3 <= v3 <= 32
      invariant forall x :: w3 <= x < v3 ==> Not(a3[x]) == ZERO
    {
      nword := Not(a3[v3]);
      if nword != ZERO {
        return;
      }
      v3 := v3 + 1;
    }
  }

  /**
   * The first word of an area at or after word w3 of block w2 that is not
   * all ones, an absent block stopping the search at once with nword all
   * ones; v2 is 32 when every word to the end of the area is all ones.
   */
  method SeekClearInArea(a2: Area, w2: nat, w3: nat) returns (v2: nat, v3: nat, nword: Word)
    requires w2 < 32 && w3 < 32
    ensures v2 <= 32 && v3 < 32 && w2 * 32 + w3 <= v2 * 32 + v3
    ensures v2 == 32 ==> v3 == 0
    ensures v2 < 32 ==> nword == Not(AreaWord(a2, v2 * 32 + v3)) && nword != ZERO
    ensures FullArea(a2, w2 * 32 + w3, v2 * 32 + v3)
  {
    v2, v3, nword := w2, w3, ALL;
    while v2 != 32
      invariant w2 <= v2 <= 32 && v3 < 32 && (v2 > w2 ==> v3 == 0) && (v2 == w2 ==> v3 == w3)
      invariant FullArea(a2, w2 * 32 + w3, v2 * 32 + v3)
    {
      if a2[v2].None? {
        AreaWordOf(a2, v2, v3);
        NotZero();
        return v2, v3, ALL;
      }
      var r, nw := SeekClearInBlock(a2[v2].value, v3);
      BlockFull(a2, v2, v3, r);
      FullJoin(a2, w2 * 32 + w3, v2 * 32 + v3, v2 * 32 + r);
      if r < 32 {
        AreaWordOf(a2, v2, r);
        return v2, r, nw;
      }
      v2, v3 := v2 + 1, 0;
    }
  }

  /**
   * The area loop of NextClearBit from word w: the first word that is not
   * all ones, an absent area or block counting as such with nword all ones;
   * w1 == |t| when every word from w to the end of the array is all ones.
   */
  method SeekClearFrom(t: Level1, w: nat) returns (w1: nat, w2: nat, w3: nat, nword: Word)
    requires w <= |t| * 1024
    ensures w1 <= |t| && w2 < 32 && w3 < 32
    ensures w1 == |t| ==> w2 == 0 && w3 == 0
    ensures w1 < |t| ==> nword == Not(WordOf(t, w1, w2 * 32 + w3)) && nword != ZERO
    ensures w <= w1 * 1024 + w2 * 32 + w3 && SetIn(t, w * 64, (w1 * 1024 + w2 * 32 + w3) * 64)
  {
    w3, w2, w1 := w % 32, (w / 32) % 32, w / 1024;
    Coordinates(w);
    nword := ALL;
    while w1 != |t|
      invariant w1 <= |t| && w2 < 32 && w3 < 32
      invariant w1 == |t| ==> w2 == 0 && w3 == 0
      invariant w <= w1 * 1024 + w2 * 32 + w3
      invariant SetIn(t, w * 64, (w1 * 1024 + w2 * 32 + w3) * 64)
    {
      if t[w1].None? {
        assert WordOf(t, w1, w2 * 32 + w3) == ZERO;
        NotZero();
        return w1, w2, w3, ALL;
      }
      var v2, v3, nw := SeekClearInArea(t[w1].value, w2, w3);
      AreaSet(t, w1, w2 * 32 + w3, v2 * 32 + v3);
      SetJoin(t, w * 64, (w1 * 1024 + w2 * 32 + w3) * 64, (w1 * 1024 + v2 * 32 + v3) * 64);
      if v2 < 32 {
        return w1, v2, v3, nw;
      }
      w1, w2, w3 := w1 + 1, 0, 0;
    }
  }

  /**
   * The first step of NextClearBit: word w3 of block w2 of area w1, which
   * starts at bit p, from bit m up, an absent block or area answering p + m
   * itself. Without a hit the block is present and the rest of that word
   * is set.
   */
  method FirstClearInWord(t: Level1, w1: nat, w2: nat, w3: nat, m: nat, p: nat) returns (r: nat, hit: bool)
    requires w2 < 32 && w3 < 32 && m < 64 && p == (w1 * 1024 + w2 * 32 + w3) * 64
    ensures hit ==> p + m <= r < p + 64 && !Get(t, r) && SetIn(t, p + m, r)
    ensures !hit ==> w1 < |t| && SetIn(t, p + m, p + 64)
  {
    var x := w2 * 32 + w3;
    WordOfBlock(t, w1, w2, w3);
    WordBits(t, w1, x, p);
    var nword := UpperMask(m);
    if w1 < |t| && t[w1].Some? && t[w1].value[w2].Some? {
      nword := And(Not(t[w1].value[w2].value[w3]), UpperMask(m));
    } else {
      FullMasked(m);
      UpperMaskNonZero(m);
    }
    r, hit := 0, false;
    if nword != ZERO {
      ClearHitFrom(t, WordOf(t, w1, x), m, nword, p);
      r, hit := p + TrailingZeros(nword), true;
    } else {
      ClearMissFrom(t, WordOf(t, w1, x), m, p);
    }
  }

  /**
   * The rest of the NextClearBit search, from word w on: the position the
   * search stops at is clear and every bit from word w up to it is set.
   * When every word to the end of the array is all ones, that is the first
   * position past the array.
   */
  method ClearAfter(t: Level1, w: nat) returns (q: nat)
    requires w <= |t| * 1024
    ensures w * 64 <= q && !Get(t, q) && SetIn(t, w * 64, q)
  {
    var w1, w2, w3, nword := SeekClearFrom(t, w);
    var p := (w1 * 1024 + w2 * 32 + w3) * 64;
    if w1 < |t| {
      ClearStop(t, w1, w2, w3, nword, p);
      SetJoin(t, w * 64, p, p + TrailingZeros(nword));
      q := p + TrailingZeros(nword);
    } else {
      q := p;
      BeyondArray(t, p);
    }
  }

  /**
   * The first clear bit q from i on is at most MaxInt32, because bit
   * MaxInt32 is clear; NextClearBit reports MaxInt32 itself as -1.
   */
  lemma ClearAnswer(t: Level1, i: nat, q: nat)
    requires i <= MAX_INT32 && !Get(t, MAX_INT32)
    requires i <= q && !Get(t, q) && SetIn(t, i, q)
    ensures q <= MAX_INT32 && IsNextClear(t, i, if q == MAX_INT32 then -1 else q)
  {
  }

  /**
   * The search of NextClearBit over a level-1 array whose bit MaxInt32 is
   * clear: the word of i first, then SeekClearFrom from the next word; an
   * answer of MaxInt32 is reported as -1.
   */
  method NextClearIn(t: Level1, i: nat) returns (r: int)
    requires i <= MAX_INT32 && !Get(t, MAX_INT32)
    ensures IsNextClear(t, i, r)
  {
    var w: nat := i / 64;
    var m: nat := i % 64;
    var w3: nat, w2: nat, w1: nat := w % 32, (w / 32) % 32, w / 1024;
    Coordinates(w);
    var hit;
    r, hit := FirstClearInWord(t, w1, w2, w3, m, w * 64);
    if !hit {
      r := ClearAfter(t, w + 1);
      SetJoin(t, i, (w + 1) * 64, r);
    }
    ClearAnswer(t, i, r);
    if r == MAX_INT32 {
      r := -1;
    }
  }

  // ---------------------------------------------------------------------
  // PreviousClearBit and PreviousSetBit

  /** Set bits lo to hi - 1 of the word cw, which holds bits p to p + 63, are set in the set. */
  lemma WordRunSet(t: Level1, cw: Word, p: nat, lo: nat, hi: nat)
    requires hi <= 64 && forall b :: 0 <= b < 64 ==> Get(t, p + b) == cw[b]
    requires forall k :: lo <= k < hi ==> cw[k]
    ensures SetIn(t, p + lo, p + hi)
  {
    forall k: nat | p + lo <= k < p + hi
      ensures Get(t, k)
    {
      var b := k - p;
      assert cw[b] && Get(t, p + b) == cw[b];
    }
  }

  /** Clear bits lo to hi - 1 of the word cw, which holds bits p to p + 63, are clear in the set. */
  lemma WordRunClear(t: Level1, cw: Word, p: nat, lo: nat, hi: nat)
    requires hi <= 64 && forall b :: 0 <= b < 64 ==> Get(t, p + b) == cw[b]
    requires forall k :: lo <= k < hi ==> !cw[k]
    ensures ClearIn(t, p + lo, p + hi)
  {
    forall k: nat | p + lo <= k < p + hi
      ensures !Get(t, k)
    {
      var b := k - p;
      assert !cw[b] && Get(t, p + b) == cw[b];
    }
  }

  /** The zero word has no set bit. */
  lemma ZeroBits()
    ensures forall k :: 0 <= k < 64 ==> !ZERO[k]
  {
  }

  /** Every bit of the absent block w2 of the present area w1, which starts at bit P, is clear. */
  lemma AbsentBlockClear(t: Level1, w1: nat, w2: nat, P: nat)
    requires w1 < |t| && t[w1].Some? && w2 < 32 && t[w1].value[w2].None?
    requires P == (w1 * 1024 + w2 * 32) * 64
    ensures ClearIn(t, P, P + 2048)
  {
    forall x: nat | w2 * 32 <= x < w2 * 32 + 32
      ensures AreaWord(t[w1].value, x) == ZERO
    {
      AreaWordOf(t[w1].value, w2, x - w2 * 32);
    }
    AreaClear(t, w1, w2 * 32, w2 * 32 + 32);
  }

  /** The bits p to p + 63 of the set are word w3 of the present block w2 of area w1. */
  lemma BlockWordBits(t: Level1, w1: nat, w2: nat, w3: nat, p: nat)
    requires w1 < |t| && t[w1].Some? && w2 < 32 && t[w1].value[w2].Some? && w3 < 32
    requires p == (w1 * 1024 + w2 * 32 + w3) * 64
    ensures forall b :: 0 <= b < 64 ==> Get(t, p + b) == t[w1].value[w2].value[w3][b]
  {
    WordOfBlock(t, w1, w2, w3);
    WordBits(t, w1, w2 * 32 + w3, p);
  }

  /** The bit loop of PreviousClearBit: from bit w4 of a word down, the first clear bit; -1 when bits 0 to w4 are all set. */
  method PrevClearInWord(word: Word, w4: nat) returns (b: int)
    requires w4 < 64
    ensures -1 <= b <= w4
    ensures b >= 0 ==> !word[b]
    ensures forall k :: b < k <= w4 ==> word[k]
  {
    b := w4;
    while b >= 0
      invariant -1 <= b <= w4
      invariant forall k :: b < k <= w4 ==> word[k]
    {
      BitTest(word, b);
      if And(word, Bit(b)) == ZERO {
        return;
      }
      b := b - 1;
    }
  }

  /**
   * One word of the word loop of PreviousClearBit: word w3 of the present
   * block w2 of area w1, holding bits p to p + 63, searched down from bit
   * m; a zero word answers bit m at once.
   */
  method PrevClearInBlockWord(t: Level1, w1: nat, w2: nat, w3: nat, m: nat, p: nat) returns (b: int)
    requires w1 < |t| && t[w1].Some? && w2 < 32 && t[w1].value[w2].Some? && w3 < 32 && m < 64
    requires p == (w1 * 1024 + w2 * 32 + w3) * 64
    ensures -1 <= b <= m
    ensures b >= 0 ==> !Get(t, p + b)
    ensures SetIn(t, p + b + 1, p + m + 1)
  {
    var word := t[w1].value[w2].value[w3];
    BlockWordBits(t, w1, w2, w3, p);
    if word == ZERO {
      ZeroBits();
      return m;
    }
    b := PrevClearInWord(word, m);
    WordRunSet(t, word, p, b + 1, m + 1);
  }

  /**
   * The word loop of PreviousClearBit in the present block w2 of area w1,
   * which starts at bit P, from bit w4 of word w3 down: the first clear
   * bit, bit b of word v3, a zero word answering at once; v3 == -1 when
   * every bit from the start of the block up to there is set.
   */
  method PrevClearInBlock(t: Level1, w1: nat, w2: nat, w3: nat, w4: nat, P: nat) returns (v3: int, b: int)
    requires w1 < |t| && t[w1].Some? && w2 < 32 && t[w1].value[w2].Some? && w3 < 32 && w4 < 64
    requires P == (w1 * 1024 + w2 * 32) * 64
    ensures -1 <= v3 <= w3
    ensures v3 >= 0 ==> 0 <= b < 64 && v3 * 64 + b <= w3 * 64 + w4
    ensures v3 >= 0 ==> !Get(t, P + v3 * 64 + b) && SetIn(t, P + v3 * 64 + b + 1, P + w3 * 64 + w4 + 1)
    ensures v3 == -1 ==> SetIn(t, P, P + w3 * 64 + w4 + 1)
  {
    var cur4: nat := w4;
    v3, b := w3, 0;
    while v3 >= 0
      invariant -1 <= v3 <= w3 && cur4 < 64 && (v3 < w3 ==> cur4 == 63)
      invariant v3 * 64 + cur4 <= w3 * 64 + w4
      invariant SetIn(t, P + v3 * 64 + cur4 + 1, P + w3 * 64 + w4 + 1)
    {
      var p := P + v3 * 64;
      b := PrevClearInBlockWord(t, w1, w2, v3, cur4, p);
      SetJoin(t, p + b + 1, p + cur4 + 1, P + w3 * 64 + w4 + 1);
      if b >= 0 {
        return;
      }
      cur4 := 63;
      v3 := v3 - 1;
    }
  }

  /**
   * The block loop of PreviousClearBit in the present area w1, which
   * starts at bit Q, from bit w4 of word w3 of block w2 down: the first
   * clear bit, an absent block answering at once; v2 == -1 when every bit
   * from the start of the area up to there is set.
   */
  method PrevClearInArea(t: Level1, w1: nat, w2: nat, w3: nat, w4: nat, Q: nat) returns (v2: int, v3: nat, b: nat)
    requires w1 < |t| && t[w1].Some? && w2 < 32 && w3 < 32 && w4 < 64 && Q == w1 * 65536
    ensures -1 <= v2 <= w2
    ensures v2 >= 0 ==> v3 < 32 && b < 64 && v2 * 2048 + v3 * 64 + b <= w2 * 2048 + w3 * 64 + w4
    ensures v2 >= 0 ==> !Get(t, Q + v2 * 2048 + v3 * 64 + b)
    ensures v2 >= 0 ==> SetIn(t, Q + v2 * 2048 + v3 * 64 + b + 1, Q + w2 * 2048 + w3 * 64 + w4 + 1)
    ensures v2 == -1 ==> SetIn(t, Q, Q + w2 * 2048 + w3 * 64 + w4 + 1)
  {
    var cur3: nat, cur4: nat := w3, w4;
    v2, v3, b := w2, 0, 0;
    while v2 >= 0
      invariant -1 <= v2 <= w2 && cur3 < 32 && cur4 < 64 && (v2 < w2 ==> cur3 == 31 && cur4 == 63)
      invariant v2 * 2048 + cur3 * 64 + cur4 <= w2 * 2048 + w3 * 64 + w4
      invariant SetIn(t, Q + v2 * 2048 + cur3 * 64 + cur4 + 1, Q + w2 * 2048 + w3 * 64 + w4 + 1)
    {
      if t[w1].value[v2].None? {
        AbsentBlockClear(t, w1, v2, Q + v2 * 2048);
        assert !Get(t, Q + v2 * 2048 + cur3 * 64 + cur4);
        return v2, cur3, cur4;
      }
      var u3, u := PrevClearInBlock(t, w1, v2, cur3, cur4, Q + v2 * 2048);
      if u3 >= 0 {
        return v2, u3, u;
      }
      SetJoin(t, Q + v2 * 2048, Q + v2 * 2048 + cur3 * 64 + cur4 + 1, Q + w2 * 2048 + w3 * 64 + w4 + 1);
      cur3, cur4 := 31, 63;
      v2 := v2 - 1;
    }
  }

  /**
   * The search of PreviousClearBit over a level-1 array: an index past the
   * array answers itself; otherwise the areas are searched down from the
   * word of i, an absent area answering at once.
   */
  method PrevClearIn(t: Level1, i: nat) returns (r: int)
    ensures IsPreviousClear(t, i, r)
  {
    var w: nat := i / 64;
    var w3: nat, w2: nat, w1: nat := w % 32, (w / 32) % 32, w / 1024;
    Coordinates(w);
    if w1 > |t| - 1 {
      BeyondArray(t, i);
      return i;
    }
    var cur2: nat, cur3: nat, cur4: nat := w2, w3, i % 64;
    var v1: int := w1;
    while v1 >= 0
      invariant -1 <= v1 <= w1 && cur2 < 32 && cur3 < 32 && cur4 < 64
      invariant v1 < w1 ==> cur2 == 31 && cur3 == 31 && cur4 == 63
      invariant v1 * 65536 + cur2 * 2048 + cur3 * 64 + cur4 <= i
      invariant SetIn(t, v1 * 65536 + cur2 * 2048 + cur3 * 64 + cur4 + 1, i + 1)
    {
      if t[v1].None? {
        AbsentAreaClear(t, v1, 0);
        assert !Get(t, v1 * 65536 + cur2 * 2048 + cur3 * 64 + cur4);
        return ((v1 * 1024 + cur2 * 32) + cur3) * 64 + cur4;
      }
      var u2, u3, u := PrevClearInArea(t, v1, cur2, cur3, cur4, v1 * 65536);
      if u2 >= 0 {
        return ((v1 * 1024 + u2 * 32) + u3) * 64 + u;
      }
      SetJoin(t, v1 * 65536, v1 * 65536 + cur2 * 2048 + cur3 * 64 + cur4 + 1, i + 1);
      cur2, cur3, cur4 := 31, 31, 63;
      v1 := v1 - 1;
    }
    return -1;
  }

  /** The bit loop of PreviousSetBit: from bit w4 of a word down, the first set bit; -1 when bits 0 to w4 are all clear. */
  method PrevSetInWord(word: Word, w4: nat) returns (b: int)
    requires w4 < 64
    ensures -1 <= b <= w4
    ensures b >= 0 ==> word[b]
    ensures forall k :: b < k <= w4 ==> !word[k]
  {
    b := w4;
    while b >= 0
      invariant -1 <= b <= w4
      invariant forall k :: b < k <= w4 ==> !word[k]
    {
      BitTest(word, b);
      if And(word, Bit(b)) != ZERO {
        return;
      }
      b := b - 1;
    }
  }

  /**
   * One word of the word loop of PreviousSetBit: word w3 of the present
   * block w2 of area w1, holding bits p to p + 63, searched down from bit
   * m; a zero word is passed over.
   */
  method PrevSetInBlockWord(t: Level1, w1: nat, w2: nat, w3: nat, m: nat, p: nat) returns (b: int)
    requires w1 < |t| && t[w1].Some? && w2 < 32 && t[w1].value[w2].Some? && w3 < 32 && m < 64
    requires p == (w1 * 1024 + w2 * 32 + w3) * 64
    ensures -1 <= b <= m
    ensures b >= 0 ==> Get(t, p + b)
    ensures ClearIn(t, p + b + 1, p + m + 1)
  {
    var word := t[w1].value[w2].value[w3];
    BlockWordBits(t, w1, w2, w3, p);
    if word != ZERO {
      b := PrevSetInWord(word, m);
      WordRunClear(t, word, p, b + 1, m + 1);
    } else {
      ZeroBits();
      WordRunClear(t, word, p, 0, m + 1);
      b := -1;
    }
  }

  /**
   * The word loop of PreviousSetBit in the present block w2 of area w1,
   * which starts at bit P, from bit w4 of word w3 down: the first set bit,
   * bit b of word v3, zero words passed over; v3 == -1 when no bit from the
   * start of the block up to there is set.
   */
  method PrevSetInBlock(t: Level1, w1: nat, w2: nat, w3: nat, w4: nat, P: nat) returns (v3: int, b: int)
    requires w1 < |t| && t[w1].Some? && w2 < 32 && t[w1].value[w2].Some? && w3 < 32 && w4 < 64
    requires P == (w1 * 1024 + w2 * 32) * 64
    ensures -1 <= v3 <= w3
    ensures v3 >= 0 ==> 0 <= b < 64 && v3 * 64 + b <= w3 * 64 + w4
    ensures v3 >= 0 ==> Get(t, P + v3 * 64 + b) && ClearIn(t, P + v3 * 64 + b + 1, P + w3 * 64 + w4 + 1)
    ensures v3 == -1 ==> ClearIn(t, P, P + w3 * 64 + w4 + 1)
  {
    var cur4: nat := w4;
    v3, b := w3, 0;
    while v3 >= 0
      invariant -1 <= v3 <= w3 && cur4 < 64 && (v3 < w3 ==> cur4 == 63)
      invariant v3 * 64 + cur4 <= w3 * 64 + w4
      invariant ClearIn(t, P + v3 * 64 + cur4 + 1, P + w3 * 64 + w4 + 1)
    {
      var p := P + v3 * 64;
      b := PrevSetInBlockWord(t, w1, w2, v3, cur4, p);
      ClearJoin(t, p + b + 1, p + cur4 + 1, P + w3 * 64 + w4 + 1);
      if b >= 0 {
        return;
      }
      cur4 := 63;
      v3 := v3 - 1;
    }
  }

  /**
   * The block loop of PreviousSetBit in the present area w1, which starts
   * at bit Q, from bit w4 of word w3 of block w2 down: the first set bit,
   * absent blocks passed over; v2 == -1 when no bit from the start of the
   * area up to there is set.
   */
  method PrevSetInArea(t: Level1, w1: nat, w2: nat, w3: nat, w4: nat, Q: nat) returns (v2: int, v3: nat, b: nat)
    requires w1 < |t| && t[w1].Some? && w2 < 32 && w3 < 32 && w4 < 64 && Q == w1 * 65536
    ensures -1 <= v2 <= w2
    ensures v2 >= 0 ==> v3 < 32 && b < 64 && v2 * 2048 + v3 * 64 + b <= w2 * 2048 + w3 * 64 + w4
    ensures v2 >= 0 ==> Get(t, Q + v2 * 2048 + v3 * 64 + b)
    ensures v2 >= 0 ==> ClearIn(t, Q + v2 * 2048 + v3 * 64 + b + 1, Q + w2 * 2048 + w3 * 64 + w4 + 1)
    ensures v2 == -1 ==> ClearIn(t, Q, Q + w2 * 2048 + w3 * 64 + w4 + 1)
  {
    var cur3: nat, cur4: nat := w3, w4;
    v2, v3, b := w2, 0, 0;
    while v2 >= 0
      invariant -1 <= v2 <= w2 && cur3 < 32 && cur4 < 64 && (v2 < w2 ==> cur3 == 31 && cur4 == 63)
      invariant v2 * 2048 + cur3 * 64 + cur4 <= w2 * 2048 + w3 * 64 + w4
      invariant ClearIn(t, Q + v2 * 2048 + cur3 * 64 + cur4 + 1, Q + w2 * 2048 + w3 * 64 + w4 + 1)
    {
      if t[w1].value[v2].Some? {
        var u3, u := PrevSetInBlock(t, w1, v2, cur3, cur4, Q + v2 * 2048);
        if u3 >= 0 {
          return v2, u3, u;
        }
      } else {
        AbsentBlockClear(t, w1, v2, Q + v2 * 2048);
      }
      ClearJoin(t, Q + v2 * 2048, Q + v2 * 2048 + cur3 * 64 + cur4 + 1, Q + w2 * 2048 + w3 * 64 + w4 + 1);
      cur3, cur4 := 31, 63;
      v2 := v2 - 1;
    }
  }

  /**
   * The search of PreviousSetBit over a level-1 array: from the word of i,
   * or from the very last bit of the array when i lies past it, the areas
   * are searched down, absent areas passed over.
   */
  method PrevSetIn(t: Level1, i: nat) returns (r: int)
    ensures IsPreviousSet(t, i, r)
  {
    var w: nat := i / 64;
    var w1: int := w / 1024;
    var cur2: nat, cur3: nat, cur4: nat;
    Coordinates(w);
    if w1 > |t| - 1 {
      // start from the very end
      w1 := |t| - 1;
      cur2, cur3, cur4 := 31, 31, 63;
      BeyondArray(t, |t| * 65536);
    } else {
      cur2, cur3, cur4 := (w / 32) % 32, w % 32, i % 64;
    }
    var v1: int := w1;
    while v1 >= 0
      invariant -1 <= v1 <= w1 && cur2 < 32 && cur3 < 32 && cur4 < 64
      invariant v1 * 65536 + cur2 * 2048 + cur3 * 64 + cur4 <= i
      invariant ClearIn(t, v1 * 65536 + cur2 * 2048 + cur3 * 64 + cur4 + 1, i + 1)
      invariant v1 < w1 ==> cur2 == 31 && cur3 == 31 && cur4 == 63
    {
      if t[v1].Some? {
        var u2, u3, u := PrevSetInArea(t, v1, cur2, cur3, cur4, v1 * 65536);
        if u2 >= 0 {
          return ((v1 * 1024 + u2 * 32) + u3) * 64 + u;
        }
      } else {
        AbsentAreaClear(t, v1, 0);
      }
      ClearJoin(t, v1 * 65536, v1 * 65536 + cur2 * 2048 + cur3 * 64 + cur4 + 1, i + 1);
      cur2, cur3, cur4 := 31, 31, 63;
      v1 := v1 - 1;
    }
    return -1;
  }
}
