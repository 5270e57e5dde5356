/**
 * The sparse bit set object: its level-1 array, spare block, compaction
 * count, capacity and cached statistics; resize and nullify; and
 * setScanner, the loop over the areas and blocks of a range that every
 * range and whole-set operation runs with one of the strategies.
 */
module BitSets {
  import opened Wrappers
  import opened Constants
  import opened Words
  import opened Addressing
  import opened Statistics
  import opened Strategies
  import opened Tree
  import opened ScanSpec
  import opened BlockScan
  import opened AreaScan
  import opened Content
  import opened Iterators
  import opened Census
  import opened Rendering

  /** What a statistics scan of [0, n) leaves in the cache. */
  function CacheOf(t: Level1, n: nat): Cache
    requires n > 0
  {
    Finish(ScanResult(UpdateOp, t, [], 0, n).stats)
  }

  /** The array of a set that may be nil, as setScanner takes it. */
  function ArrayOf(b: BitSet?): Option<Level1>
    reads b
  {
    if b == null then None else Some(b.bits)
  }

  /** The other set's array as the scanner reads it: a nil set reads as an empty array. */
  function Operand(b: Option<Level1>): Level1 {
    if b.Some? then b.value else []
  }

  /**
   * Whether setScanner panics: start() of a strategy that reads the other
   * set panics on nil, then i must satisfy (i + 1) >= 1 in int32 (so neither
   * negative nor MaxInt32) and j must not be below i.
   */
  function ScanCheck(op: Op, b: Option<Level1>, i: int, j: int): Outcome {
    if NeedsOperand(op) && b.None? then Fail(NilOperand)
    else if j < i || i < 0 || i == MAX_INT32 then Fail(IndexOutOfRange)
    else Pass
  }

  /**
   * The check of a single-bit operation, (i + 1) < 1 in int32: a negative
   * index fails, and so does MaxInt32, whose successor wraps to MinInt32.
   */
  function IndexCheck(i: Int32): (r: Outcome)
    ensures r.Fail? <==> i < 0 || i == MAX_INT32
    ensures r.Fail? ==> r == Fail(IndexOutOfRange)
  {
    if AddInt32(i, 1) < 1 then Fail(IndexOutOfRange) else Pass
  }

  /**
   * c holds the statistics of the bits [0, n) of t. The equation is stated
   * for the single length m == n, so a proof unfolds the statistics only
   * where it names CacheOf at that length.
   */
  ghost predicate Caches(c: Cache, t: Level1, n: int) {
    forall m: nat {:trigger CacheOf(t, m)} :: 0 < m == n ==> c == CacheOf(t, m)
  }

  /** Caches says exactly that c is the cache of the bits. */
  lemma CachesMeaning(c: Cache, t: Level1, n: nat)
    requires n > 0
    ensures Caches(c, t, n) <==> c == CacheOf(t, n)
  {
    if c == CacheOf(t, n) {
      assert forall m: nat {:trigger CacheOf(t, m)} :: 0 < m == n ==> c == CacheOf(t, m);
    }
  }

  /**
   * n is the level-1 size resize picks for index. Stated for the single
   * index given, so a proof unfolds NewSize only where it names it.
   */
  ghost predicate SizedFor(n: nat, index: Int32) {
    forall x: Int32 {:trigger NewSize(x)} :: x == index ==> n == NewSize(x)
  }

  /** A cache of some bits is a cache of any bits equal to them. */
  lemma CachesSameBits(c: Cache, t: Level1, s: Level1, n: int)
    requires SameBits(t, s) && Caches(c, s, n)
    ensures Caches(c, t, n)
  {
    if n > 0 {
      CachesMeaning(c, s, n);
      CacheOfSameBits(t, s, n);
      CachesMeaning(c, t, n);
    }
  }

  /** The statistics depend only on the bits. */
  lemma CacheOfSameBits(t: Level1, s: Level1, n: nat)
    requires n > 0 && SameBits(t, s)
    ensures CacheOf(t, n) == CacheOf(s, n)
  {
    ScanFoldSameBits(UpdateOp, t, s, [], 0, n, LastBlock(n) + 1);
  }

  /** The update strategy's result over the whole set finishes into the cache of the bits. */
  lemma UpdateCache(t: Level1, a0: Level1, n: nat, acc: Acc)
    requires n > 0 && SameBits(t, a0)
    requires ResultIs(UpdateOp, a0, [], 0, n, acc)
    ensures Caches(Finish(acc.stats), a0, n) && Caches(Finish(acc.stats), t, n)
  {
    ResultIsMeaning(UpdateOp, a0, [], 0, n, acc);
    CachesMeaning(Finish(acc.stats), a0, n);
    CachesSameBits(Finish(acc.stats), t, a0, n);
  }

  /** The cached cardinality is the number of set bits below n. */
  lemma CachedCardinality(t: Level1, n: nat, c: Cache)
    requires n > 0 && Caches(c, t, n)
    ensures c.cardinality == CountBelow(t, n) <= n
  {
    CachesMeaning(c, t, n);
    CacheMeaning(t, n, c);
    CountBelowAtMost(t, n);
  }

  /** The cached length is one past the highest set bit below n, 0 when none is set. */
  lemma CachedLength(t: Level1, n: nat, c: Cache)
    requires n > 0 && Caches(c, t, n)
    ensures 0 <= c.length <= n
    ensures forall k: nat :: k < n && Get(t, k) ==> k < c.length
    ensures c.length > 0 ==> Get(t, c.length - 1)
  {
    CachesMeaning(c, t, n);
    CacheMeaning(t, n, c);
    TopBelowMeaning(t, n);
  }

  /** The cached size is the span from the lowest to the highest set bit below n, 0 when none is set. */
  lemma CachedSize(t: Level1, n: nat, c: Cache)
    requires n > 0 && Caches(c, t, n)
    ensures c.length == 0 ==> c.size == 0
    ensures c.length > 0 ==> 0 < c.size <= c.length && Get(t, c.length - c.size)
    ensures forall k: nat :: k < c.length - c.size ==> !Get(t, k)
  {
    CachesMeaning(c, t, n);
    CacheMeaning(t, n, c);
    TopBelowMeaning(t, n);
    LowestInMeaning(t, 0, n);
    if c.length > 0 {
      assert Get(t, c.length - 1);
    }
  }

  /** Level-1 arrays of different lengths have different capacities. */
  lemma LengthForInjective(a: nat, b: nat)
    requires 1 <= a <= MAX_LENGTH1 && 1 <= b <= MAX_LENGTH1 && LengthFor(a) == LengthFor(b)
    ensures a == b
  {
  }

  /** A freshly made level-1 array has no area, so no bit. */
  lemma EmptyArray(n: nat)
    ensures NoBits(Resized([], n))
  {
    forall k: nat ensures !Get(Resized([], n), k) {
      var u1 := k / 64 / 32 / 32;
      assert u1 < n ==> Resized([], n)[u1].None?;
    }
  }

  /** A copy of the bits of t over [0, its capacity) holds every bit of t. */
  lemma CopiedWhole(t': Level1, t: Level1)
    requires 1 <= |t| <= MAX_LENGTH1 && !Get(t, MAX_INT32)
    requires RangeOf(t', t, 0, LengthFor(|t|))
    ensures SameContent(t', t)
  {
    CapacityBound(t);
  }

  /** The intersects strategy's result over [i, j) says whether some bit there is set in both sets. */
  lemma IntersectsResult(ta: Level1, tb: Level1, i: nat, j: nat, acc: Acc)
    requires i < j && ResultIs(IntersectsOp, ta, tb, i, j, acc)
    ensures acc.result <==> exists k: nat :: i <= k < j && Get(ta, k) && Get(tb, k)
  {
    ResultIsMeaning(IntersectsOp, ta, tb, i, j, acc);
    IntersectsMeaning(ta, tb, i, j);
  }

  // ---------------------------------------------------------------------
  // The bit set

  class BitSet {
    var bits: Level1          // the level-1 array; an absent area or block holds zeros
    var spare: Block          // the block lent to the scanner where this set has none
    var compactionCount: Int32  // runs longer than this are compacted by String
    var bitsLength: int       // the bits the level-1 array can hold
    var cache: Cache          // the statistics, recomputed when stale

    /**
     * newWithSizeAndCompactionCount(capacity, compactionCount): an empty
     * set whose level-1 array resize sizes for the index capacity - 1 (an
     * int32 subtraction), with a zero spare block (constructorHelper) and
     * statistics computed once.
     */
    constructor (capacity: Int32, compactionCount: Int32)
      ensures Valid() && NoBits(bits) && cache.valid
      ensures SizedFor(|bits|, AddInt32(capacity, -1)) && bitsLength == LengthFor(|bits|)
      ensures this.compactionCount == compactionCount
    {
      var newSize := NewSize(AddInt32(capacity, -1));
      bits := Resized([], newSize);
      bitsLength := LengthFor(newSize);
      this.compactionCount := compactionCount;
      spare := ZERO_BLOCK;
      cache := EMPTY_CACHE;
      new;
      NewSizeMeaning(AddInt32(capacity, -1));
      EmptyArray(newSize);
      assert SizedFor(|bits|, AddInt32(capacity, -1));
      ghost var t0 := bits;
      StatisticsUpdate();
      SameBitsGet(bits, t0);
    }

    /** The shape of the storage: a power-of-two level-1 array, its capacity, a zero spare. */
    ghost predicate Shape()
      reads this
    {
      && 1 <= |bits| <= MAX_LENGTH1 && IsPowerOfTwo(|bits|)
      && bitsLength == LengthFor(|bits|)
      && spare == ZERO_BLOCK
    }

    /**
     * The invariant of the set: its shape; the bit MaxInt32, which no index
     * check admits, is clear; and a cache that is not stale holds the
     * statistics of the bits.
     */
    ghost predicate Valid()
      reads this
    {
      && Shape()
      && !Get(bits, MAX_INT32)
      && (cache.valid ==> Caches(cache, bits, bitsLength))
    }

    /** What stays true while a scan by op runs: the shape, and the cache as start() left it. */
    ghost predicate Frame(op: Op, c0: Cache, L0: int)
      reads this
    {
      && Shape()
      && (Mutates(op) ==> !cache.valid)
      && (!Mutates(op) ==> cache == c0 && bitsLength == L0)
    }

    /** The blocks before done are scanned, the running result is the fold over them. */
    ghost predicate Progress(p: Plan, a0: Level1, done: nat, acc: Acc)
      reads this
      requires p.i < p.j
    {
      && ScannedTo(p.op, bits, a0, p.b1, p.i, p.j, done)
      && FoldedTo(p.op, a0, p.b1, p.i, p.j, done, acc)
    }

    /**
     * nullify(start): every area from start on is dropped; the cache is made
     * stale when there was such an area.
     */
    method Nullify(start: nat)
      modifies this
      ensures bits == Nullified(old(bits), start)
      ensures start >= |old(bits)| ==> bits == old(bits)
      ensures cache == if start < |old(bits)| then Invalidate(old(cache)) else old(cache)
      ensures spare == old(spare) && compactionCount == old(compactionCount) && bitsLength == old(bitsLength)
    {
      var aLength := |bits|;
      if start < aLength {
        var w := start;
        while w != aLength
          invariant start <= w <= aLength == |bits| == |old(bits)|
          invariant forall x :: 0 <= x < aLength ==> bits[x] == if start <= x < w then None else old(bits)[x]
          invariant spare == old(spare) && compactionCount == old(compactionCount)
          invariant bitsLength == old(bitsLength) && cache == old(cache)
        {
          bits := bits[w := None];
          w := w + 1;
        }
        cache := Invalidate(cache);
      }
    }

    /**
     * resize(index): a level-1 array of NewSize(index) areas holding the
     * areas of the old one it has room for, with its capacity; a set that
     * had areas has its cache made stale.
     */
    method Resize(index: Int32)
      modifies this
      ensures NewSize(index) != |old(bits)| ==>
        && bits == Resized(old(bits), NewSize(index))
        && bitsLength == LengthFor(NewSize(index))
        && cache == if |old(bits)| != 0 then Invalidate(old(cache)) else old(cache)
      ensures NewSize(index) == |old(bits)| ==>
        bits == old(bits) && bitsLength == old(bitsLength) && cache == old(cache)
      ensures spare == old(spare) && compactionCount == old(compactionCount)
    {
      var newSize := NewSize(index);
      var aLength1 := |bits|;
      if newSize != aLength1 {
        var temp := Resized(bits, newSize);   // make, then copy the old references
        if aLength1 != 0 {
          Nullify(0);
        }
        bits := temp;
        bitsLength := MAX_INT32;
        if newSize != MAX_LENGTH1 {
          bitsLength := newSize * UNIT;
        }
      }
    }

    /**
     * setScanner(i, j, b, op): apply the strategy op to the bits [i, j) of
     * this set, against the other set's array b (None for nil). Afterwards
     * every block is what the scan makes of it (ScannedTo), the running
     * result is the scan's fold, and the strategies that only read leave
     * the bits, the capacity and (but for update) the cache alone.
     */
    method SetScanner(i: Int32, j: Int32, b: Option<Level1>, op: Op) returns (res: Outcome, acc: Acc)
      requires Valid()
      requires op.UpdateOp? ==> i == 0 && j == bitsLength && b.None?
      modifies this
      ensures Valid()
      ensures res == ScanCheck(op, b, i, j)
      ensures compactionCount == old(compactionCount)
      ensures res.Pass? && i < j ==> ScannedTo(op, bits, old(bits), Operand(b), i, j, LastBlock(j) + 1)
      ensures res.Pass? && i < j ==> ResultIs(op, old(bits), Operand(b), i, j, acc)
      ensures !(res.Pass? && i < j) ==> bits == old(bits) && bitsLength == old(bitsLength)
      ensures res.Pass? && i == j ==> acc == InitAcc(op)
      ensures Mutates(op) && res != Fail(NilOperand) ==> !cache.valid
      ensures !Mutates(op) ==> SameBits(bits, old(bits)) && bitsLength == old(bitsLength)
      ensures !Mutates(op) && !op.UpdateOp? ==> cache == old(cache)
      ensures op.UpdateOp? ==> Caches(cache, old(bits), old(bitsLength))
    {
      if NeedsOperand(op) && b.None? {
        return Fail(NilOperand), InitAcc(op);   // start() panics
      }
      if Mutates(op) {
        cache := Invalidate(cache);               // start() reported a change to come
      }
      if j < i || i < 0 || i == MAX_INT32 {
        return Fail(IndexOutOfRange), InitAcc(op);
      }
      res, acc := Pass, InitAcc(op);
      if i == j {
        return;
      }
      acc := ScanRange(i, j, b, op);
    }

    /** The scan of a checked, non-empty range [i, j) once start() has run. */
    method ScanRange(i: Int32, j: Int32, b: Option<Level1>, op: Op) returns (acc: Acc)
      requires Valid() && 0 <= i < j
      requires NeedsOperand(op) ==> b.Some?
      requires Mutates(op) ==> !cache.valid
      requires op.UpdateOp? ==> i == 0 && j == bitsLength && b.None?
      modifies this
      ensures Valid() && compactionCount == old(compactionCount)
      ensures ScannedTo(op, bits, old(bits), Operand(b), i, j, LastBlock(j) + 1)
      ensures ResultIs(op, old(bits), Operand(b), i, j, acc)
      ensures Mutates(op) ==> !cache.valid
      ensures !Mutates(op) ==> SameBits(bits, old(bits)) && bitsLength == old(bitsLength)
      ensures !Mutates(op) && !op.UpdateOp? ==> cache == old(cache)
      ensures op.UpdateOp? ==> Caches(cache, old(bits), old(bitsLength))
    {
      var p := NewPlan(op, Operand(b), i, j);
      ghost var a0, c0, L0 := bits, cache, bitsLength;
      var done;
      acc, done := ScanAreas(p, c0, L0);
      TopBitClear(op, bits, a0, p.b1, i, j);
      if !Mutates(op) {
        ReadersKeepBits(op, bits, a0, p.b1, i, j, done);
        if cache.valid {
          CachesSameBits(cache, bits, a0, bitsLength);
        }
      }
      if op.UpdateOp? {
        UpdateCache(bits, a0, bitsLength, acc);
        cache := Finish(acc.stats);              // finish()
      }
    }


    /**
     * The loop of setScanner over the areas the range touches, from the
     * area of i to the area of j - 1; the index k moves to the start of the
     * next area, u1 << 16 in 32-bit arithmetic, which stops the loop when it
     * would overflow.
     */
    method ScanAreas(p: Plan, ghost c0: Cache, ghost L0: int) returns (acc: Acc, done: nat)
      requires Ready(p) && Frame(p.op, c0, L0)
      modifies this
      ensures Frame(p.op, c0, L0) && compactionCount == old(compactionCount)
      ensures done == LastBlock(p.j) + 1
      ensures Progress(p, old(bits), done, acc)
    {
      ghost var a0 := bits;
      var u1: nat := p.u / AREA_WORDS;
      var u2: nat := (p.u / LENGTH3) % LENGTH2;
      var u3: nat := p.u % LENGTH3;
      var notFirstBlock := p.u == 0 && p.um == ALL;
      var a2IsEmpty := u2 == 0;
      var k: int := p.i;
      acc := InitAcc(p.op);
      done := FirstBlock(p.i);
      BlockOfWord(p.u);
      AreaOfBit(p.i);
      FirstBlockFlag(p.i);
      ScannedFromStart(p.op, a0, p.b1, p.i, p.j);
      FoldStart(p.op, a0, p.b1, p.i, p.j);
      while k < p.j
        invariant Frame(p.op, c0, L0) && compactionCount == old(compactionCount)
        invariant p.i <= k && FirstBlock(p.i) <= done <= LastBlock(p.j) + 1
        invariant Progress(p, a0, done, acc)
        invariant k < p.j ==> done == u1 * LENGTH2 + u2 && k / UNIT == u1 && u2 < LENGTH2
        invariant k < p.j ==> done <= LastBlock(p.j)
        invariant k < p.j ==> u2 == 0 || done == FirstBlock(p.i)
        invariant k >= p.j ==> done == LastBlock(p.j) + 1
        invariant notFirstBlock <==> (p.i == 0 || done > FirstBlock(p.i))
        invariant !notFirstBlock ==> u3 == p.u % LENGTH3
        invariant a2IsEmpty ==> u2 == 0
        decreases p.j - k
      {
        u3, notFirstBlock, a2IsEmpty, acc, done := ScanArea(p, a0, c0, L0, k, u1, u2, u3, notFirstBlock, a2IsEmpty, done, acc);
        k, u1 := Advance(p, k, u1, done);
        u2 := 0;
      }
    }

    /**
     * The step to the next area: u1 + 1, and the bit index of its start,
     * which in 32-bit arithmetic stops the loop when it would overflow.
     */
    method Advance(p: Plan, k: int, u1: nat, done: nat) returns (k': int, u1': nat)
      requires Ready(p) && 0 <= k < p.j && k / UNIT == u1 && done == AreaEnd(p, u1)
      ensures k < k' <= MAX_INT32 && u1' == u1 + 1
      ensures k' < p.j ==> done == u1' * LENGTH2 && k' / UNIT == u1' && done <= LastBlock(p.j)
      ensures k' >= p.j ==> done == LastBlock(p.j) + 1
    {
      NextArea(k, u1, p.j, p.v1);
      u1' := u1 + 1;
      k' := u1' * UNIT;          // i = u << SHIFT3 with u = u1 << SHIFT1
      if k' > MAX_INT32 {
        k' := MAX_INT32;         // the int32 shift went negative: stop at the end
      }
    }

    /**
     * One area of the scan: skipped whole when the strategy's properties
     * decide it, otherwise its blocks from u2 to the last one of the range
     * in it, after which an area left with no block is dropped.
     */
    method ScanArea(p: Plan, ghost a0: Level1, ghost c0: Cache, ghost L0: int,
                    k: int, u1: nat, u2: nat, u3: nat, notFirstBlock: bool, a2IsEmpty: bool,
                    blk0: nat, acc: Acc)
      returns (u3': nat, notFirstBlock': bool, a2IsEmpty': bool, acc': Acc, done: nat)
      requires Ready(p) && Frame(p.op, c0, L0)
      requires u2 < LENGTH2 && blk0 == u1 * LENGTH2 + u2
      requires FirstBlock(p.i) <= blk0 <= LastBlock(p.j)
      requires u2 == 0 || blk0 == FirstBlock(p.i)
      requires 0 <= k < p.j && k / UNIT == u1
      requires notFirstBlock <==> (p.i == 0 || blk0 > FirstBlock(p.i))
      requires !notFirstBlock ==> u3 == p.u % LENGTH3
      requires a2IsEmpty ==> u2 == 0
      requires Progress(p, a0, blk0, acc)
      modifies this
      ensures Frame(p.op, c0, L0) && compactionCount == old(compactionCount)
      ensures notFirstBlock'
      ensures done == AreaEnd(p, u1)
      ensures Progress(p, a0, done, acc')
    {
      var haveA2 := u1 < |bits| && bits[u1].Some?;
      var haveB2 := u1 < |p.b1| && p.b1[u1].Some?;
      if notFirstBlock && u1 != p.v1 && ShortCut(p, haveA2, haveB2) {
        done := SkipWholeArea(p, a0, c0, L0, u1, haveA2, haveB2, blk0, acc);
        return u3, notFirstBlock, a2IsEmpty, acc, done;
      }
      var limit2 := if u1 == p.v1 then p.v2 + 1 else LENGTH2;
      var empty;
      u3', notFirstBlock', empty, acc', done :=
        ScanBlocks(p, a0, c0, L0, k, u1, u2, limit2, haveA2, haveB2, u3, notFirstBlock, a2IsEmpty, blk0, acc);
      if limit2 == LENGTH2 && empty && u1 < |bits| {
        DropEmptyArea(p, a0, c0, L0, u1, done, acc');
      }
      a2IsEmpty' := empty;
    }

    /** a1[u1] = nil for an area whose every block reads as zero: no block changes. */
    method DropEmptyArea(p: Plan, ghost a0: Level1, ghost c0: Cache, ghost L0: int,
                         u1: nat, ghost done: nat, ghost acc: Acc)
      requires p.i < p.j && Frame(p.op, c0, L0)
      requires u1 < |bits| && AreaZeroBelow(bits, u1, LENGTH2)
      requires Progress(p, a0, done, acc)
      modifies this
      ensures Frame(p.op, c0, L0) && compactionCount == old(compactionCount)
      ensures SameBits(bits, old(bits))
      ensures Progress(p, a0, done, acc)
    {
      DropZeroArea(bits, u1);
      ScannedSame(p.op, DropArea(bits, u1), bits, a0, p.b1, p.i, p.j, done);
      bits := DropArea(bits, u1);
    }

    /**
     * An area the properties decide as a whole: a1[u1] = nil; its blocks
     * read as zero, which is what the scan makes of them.
     */
    method SkipWholeArea(p: Plan, ghost a0: Level1, ghost c0: Cache, ghost L0: int,
                         u1: nat, haveA2: bool, haveB2: bool, blk0: nat, ghost acc: Acc)
      returns (done: nat)
      requires Ready(p) && Frame(p.op, c0, L0) && u1 < p.v1
      requires blk0 == u1 * LENGTH2 && (p.i == 0 || blk0 > FirstBlock(p.i))
      requires haveA2 <==> u1 < |bits| && bits[u1].Some?
      requires haveB2 <==> u1 < |p.b1| && p.b1[u1].Some?
      requires ShortCut(p, haveA2, haveB2)
      requires Progress(p, a0, blk0, acc)
      modifies this
      ensures Frame(p.op, c0, L0) && compactionCount == old(compactionCount)
      ensures done == (u1 + 1) * LENGTH2
      ensures Progress(p, a0, done, acc)
    {
      ghost var t := bits;
      if u1 < |bits| {
        bits := DropArea(bits, u1);
      }
      SkipArea(p, a0, t, bits, u1, haveA2, haveB2, acc);
      done := (u1 + 1) * LENGTH2;
    }

    /** The blocks u2 to limit2 - 1 of area u1, one step each. */
    method ScanBlocks(p: Plan, ghost a0: Level1, ghost c0: Cache, ghost L0: int,
                      k: int, u1: nat, u2: nat, limit2: nat, haveA2: bool, haveB2: bool,
                      u3: nat, notFirstBlock: bool, a2IsEmpty: bool, blk0: nat, acc: Acc)
      returns (u3': nat, notFirstBlock': bool, a2IsEmpty': bool, acc': Acc, done: nat)
      requires Ready(p) && Frame(p.op, c0, L0)
      requires u2 < limit2 <= LENGTH2 && blk0 == u1 * LENGTH2 + u2 && FirstBlock(p.i) <= blk0
      requires u1 * LENGTH2 + limit2 <= LastBlock(p.j) + 1
      requires 0 <= k < p.j && k / UNIT == u1
      requires notFirstBlock <==> (p.i == 0 || blk0 > FirstBlock(p.i))
      requires !notFirstBlock ==> u3 == p.u % LENGTH3
      requires haveA2 <==> u1 < |bits| && bits[u1].Some?
      requires haveB2 <==> u1 < |p.b1| && p.b1[u1].Some?
      requires a2IsEmpty ==> u2 == 0
      requires Progress(p, a0, blk0, acc)
      modifies this
      ensures Frame(p.op, c0, L0) && compactionCount == old(compactionCount)
      ensures notFirstBlock'
      ensures done == u1 * LENGTH2 + limit2
      ensures a2IsEmpty' ==> AreaZeroBelow(bits, u1, limit2)
      ensures Progress(p, a0, done, acc')
    {
      var x2, x3, nfb, empty, haveA := u2, u3, notFirstBlock, a2IsEmpty, haveA2;
      acc' := acc;
      var blk := blk0;
      while x2 != limit2
        invariant u2 <= x2 <= limit2 && blk == u1 * LENGTH2 + x2
        invariant Frame(p.op, c0, L0) && compactionCount == old(compactionCount)
        invariant haveA <==> u1 < |bits| && bits[u1].Some?
        invariant nfb <==> (p.i == 0 || blk > FirstBlock(p.i))
        invariant !nfb ==> x3 == p.u % LENGTH3
        invariant x2 > u2 ==> nfb
        invariant empty ==> AreaZeroBelow(bits, u1, x2)
        invariant Progress(p, a0, blk, acc')
        decreases limit2 - x2
      {
        ghost var t, acc0 := bits, acc';
        haveA, nfb, empty, acc' := ScanStep(p, c0, L0, k, u1, x2, blk, haveA, haveB2, nfb, x3, empty, acc');
        StepProgress(p.op, bits, t, a0, p.b1, p.i, p.j, blk, acc0, acc');
        x2, blk := x2 + 1, blk + 1;
        x3 := 0;
      }
      return x3, nfb, empty, acc', blk;
    }

    /**
     * One block of the scan: dropped when the strategy's properties decide
     * it (neither first nor last block), otherwise treated.
     */
    method ScanStep(p: Plan, ghost c0: Cache, ghost L0: int,
                    k: int, u1: nat, u2: nat, blk: nat, haveA2: bool, haveB2: bool,
                    notFirstBlock: bool, u3: nat, a2IsEmpty: bool, acc: Acc)
      returns (haveA2': bool, notFirstBlock': bool, a2IsEmpty': bool, acc': Acc)
      requires Ready(p) && Frame(p.op, c0, L0)
      requires u2 < LENGTH2 && blk == u1 * LENGTH2 + u2
      requires FirstBlock(p.i) <= blk <= LastBlock(p.j)
      requires notFirstBlock <==> (p.i == 0 || blk > FirstBlock(p.i))
      requires !notFirstBlock ==> u3 == p.u % LENGTH3
      requires 0 <= k < p.j && k / UNIT == u1
      requires haveA2 <==> u1 < |bits| && bits[u1].Some?
      requires haveB2 <==> u1 < |p.b1| && p.b1[u1].Some?
      requires a2IsEmpty ==> AreaZeroBelow(bits, u1, u2)
      modifies this
      ensures Frame(p.op, c0, L0) && compactionCount == old(compactionCount)
      ensures haveA2' <==> u1 < |bits| && bits[u1].Some?
      ensures notFirstBlock'
      ensures a2IsEmpty' ==> AreaZeroBelow(bits, u1, u2 + 1)
      ensures StepDone(p.op, bits, old(bits), p.b1, p.i, p.j, blk, acc, acc')
    {
      var haveA3 := haveA2 && bits[u1].value[u2].Some?;
      var haveB3 := haveB2 && p.b1[u1].value[u2].Some?;
      var notLastBlock := p.lastA3Block != blk;
      if ShortCut(p, haveA3, haveB3) && notFirstBlock && notLastBlock {
        DropStep(p, c0, L0, u1, u2, blk, haveA2, haveB2, a2IsEmpty, acc);
        return haveA2, notFirstBlock, a2IsEmpty, acc;
      }
      haveA2', a2IsEmpty', acc' := TreatStep(p, c0, L0, k, u1, u2, blk, haveA2, haveB2, notFirstBlock, notLastBlock, u3, a2IsEmpty, acc);
      notFirstBlock' := true;
    }

    /**
     * A block the properties let the scan skip: a2[u2] = nil when the area
     * exists; the block reads as zero, which is what the scan makes of it.
     */
    method DropStep(p: Plan, ghost c0: Cache, ghost L0: int, u1: nat, u2: nat, ghost blk: nat,
                    haveA2: bool, haveB2: bool, ghost a2IsEmpty: bool, ghost acc: Acc)
      requires Ready(p) && Frame(p.op, c0, L0)
      requires u2 < LENGTH2 && blk == u1 * LENGTH2 + u2
      requires Interior(p.i, p.j, blk)
      requires haveA2 <==> u1 < |bits| && bits[u1].Some?
      requires haveB2 <==> u1 < |p.b1| && p.b1[u1].Some?
      requires ShortCut(p, haveA2 && bits[u1].value[u2].Some?, haveB2 && p.b1[u1].value[u2].Some?)
      requires a2IsEmpty ==> AreaZeroBelow(bits, u1, u2)
      modifies this
      ensures Frame(p.op, c0, L0) && compactionCount == old(compactionCount)
      ensures haveA2 <==> u1 < |bits| && bits[u1].Some?
      ensures a2IsEmpty ==> AreaZeroBelow(bits, u1, u2 + 1)
      ensures StepDone(p.op, bits, old(bits), p.b1, p.i, p.j, blk, acc, acc)
    {
      ghost var t0 := bits;
      BlockLookup(bits, u1, u2, blk);
      BlockLookup(p.b1, u1, u2, blk);
      if haveA2 {
        bits := PutBlock(bits, u1, u2, None);
      }
      SkipBlock(p.op, acc, BlockAt(t0, blk), BlockAt(p.b1, blk), p.i, p.j, blk);
      if a2IsEmpty {
        AreaZeroNext(bits, t0, u1, u2, blk);
      }
    }

    /**
     * A block the scan treats: this set's block (the spare when absent) and
     * the other set's block (the zero block when absent) go through the
     * strategy, and the result is stored.
     */
    method TreatStep(p: Plan, ghost c0: Cache, ghost L0: int,
                     k: int, u1: nat, u2: nat, blk: nat, haveA2: bool, haveB2: bool,
                     notFirstBlock: bool, notLastBlock: bool, u3: nat, a2IsEmpty: bool, acc: Acc)
      returns (haveA2': bool, a2IsEmpty': bool, acc': Acc)
      requires Ready(p) && Frame(p.op, c0, L0)
      requires u2 < LENGTH2 && blk == u1 * LENGTH2 + u2
      requires FirstBlock(p.i) <= blk <= LastBlock(p.j)
      requires notFirstBlock <==> (p.i == 0 || blk > FirstBlock(p.i))
      requires notLastBlock <==> blk != LastBlock(p.j)
      requires !notFirstBlock ==> u3 == p.u % LENGTH3
      requires 0 <= k < p.j && k / UNIT == u1
      requires haveA2 <==> u1 < |bits| && bits[u1].Some?
      requires haveB2 <==> u1 < |p.b1| && p.b1[u1].Some?
      requires a2IsEmpty ==> AreaZeroBelow(bits, u1, u2)
      modifies this
      ensures Frame(p.op, c0, L0) && compactionCount == old(compactionCount)
      ensures haveA2' <==> u1 < |bits| && bits[u1].Some?
      ensures a2IsEmpty' ==> AreaZeroBelow(bits, u1, u2 + 1)
      ensures StepDone(p.op, bits, old(bits), p.b1, p.i, p.j, blk, acc, acc')
    {
      ghost var t0 := bits;
      var r, acc1, isZero, a3IsSpare := TreatBlock(p, u1, u2, blk, haveA2, haveB2, notFirstBlock, notLastBlock, u3, acc);
      acc' := acc1;
      BlockLookup(bits, u1, u2, blk);
      haveA2' := StoreBlock(p.op, c0, L0, k, u1, u2, blk, haveA2, a3IsSpare, r, isZero);
      a2IsEmpty' := a2IsEmpty && !(haveA2' && bits[u1].value[u2].Some?);
      if a2IsEmpty' {
        BlockLookup(bits, u1, u2, blk);
        AreaZeroNext(bits, t0, u1, u2, blk);
      }
    }

    /**
     * Load this set's block (the spare when absent) and the other set's block
     * (the zero block when absent) and run the strategy over them.
     */
    method TreatBlock(p: Plan, u1: nat, u2: nat, blk: nat, haveA2: bool, haveB2: bool,
                      notFirstBlock: bool, notLastBlock: bool, u3: nat, acc: Acc)
      returns (r: Block, acc': Acc, isZero: bool, a3IsSpare: bool)
      requires Ready(p) && spare == ZERO_BLOCK
      requires u2 < LENGTH2 && blk == u1 * LENGTH2 + u2
      requires FirstBlock(p.i) <= blk <= LastBlock(p.j)
      requires notFirstBlock <==> (p.i == 0 || blk > FirstBlock(p.i))
      requires notLastBlock <==> blk != LastBlock(p.j)
      requires !notFirstBlock ==> u3 == p.u % LENGTH3
      requires haveA2 <==> u1 < |bits| && bits[u1].Some?
      requires haveB2 <==> u1 < |p.b1| && p.b1[u1].Some?
      ensures BlockDone(p.op, BlockAt(bits, blk), BlockAt(p.b1, blk), p.i, p.j, blk, acc, r, acc', isZero)
      ensures a3IsSpare <==> !(haveA2 && bits[u1].value[u2].Some?)
      ensures isZero && a3IsSpare ==> r == ZERO_BLOCK
      ensures !isZero && a3IsSpare ==> Mutates(p.op)
    {
      var haveA3 := haveA2 && bits[u1].value[u2].Some?;
      var haveB3 := haveB2 && p.b1[u1].value[u2].Some?;
      BlockLookup(bits, u1, u2, blk);
      BlockLookup(p.b1, u1, u2, blk);
      a3IsSpare := !haveA3;
      var a3: Block := if haveA3 then bits[u1].value[u2].value else spare;
      var b3: Block := if haveB3 then p.b1[u1].value[u2].value else ZERO_BLOCK;
      r, acc', isZero := ProcessBlock(p.op, a3, b3, acc, haveB3, notFirstBlock, notLastBlock,
                                      p.u, p.v, u3, p.v3, p.um, p.vm, p.i, p.j, blk);
      if !isZero && a3IsSpare {
        SpareNeedsMutator(p.op, a3, b3, p.i, p.j, blk, acc, r, acc', isZero);
      }
    }

    /**
     * Store the block the strategy produced: a zero result is dropped from
     * the area; a non-zero spare is put into the area (after resizing the
     * level-1 array and making the area when needed) and a new spare taken;
     * a block of the area was updated in place.
     */
    method StoreBlock(ghost op: Op, ghost c0: Cache, ghost L0: int, k: int, u1: nat, u2: nat, ghost blk: nat,
                      haveA2: bool, a3IsSpare: bool, r: Block, isZero: bool)
      returns (haveA2': bool)
      requires Frame(op, c0, L0)
      requires u2 < LENGTH2 && blk == u1 * LENGTH2 + u2
      requires 0 <= k < MAX_INT32 && k / UNIT == u1
      requires haveA2 <==> u1 < |bits| && bits[u1].Some?
      requires !a3IsSpare ==> haveA2 && bits[u1].value[u2].Some?
      requires a3IsSpare ==> BlockAt(bits, blk) == ZERO_BLOCK
      requires isZero && a3IsSpare ==> r == ZERO_BLOCK
      requires !isZero && a3IsSpare ==> Mutates(op)
      modifies this
      ensures Frame(op, c0, L0) && compactionCount == old(compactionCount)
      ensures haveA2' <==> u1 < |bits| && bits[u1].Some?
      ensures OthersKept(bits, old(bits), blk)
      ensures BlockAt(bits, blk) == if isZero then ZERO_BLOCK else r
    {
      haveA2' := haveA2;
      if isZero {
        if haveA2 {
          bits := PutBlock(bits, u1, u2, None);
        }
        if a3IsSpare {
          spare := r;                       // the spare was written in place and is zero again
        }
      } else if a3IsSpare {
        if k >= bitsLength {
          GrowTo(k, |bits|);
          GrowKeeps(bits, NewSize(k));
          NewSizeMeaning(k);
          Resize(k);
        } else {
          RoomFor(k, |bits|);
        }
        if !haveA2' {
          bits := NewArea(bits, u1);
          haveA2' := true;
        }
        bits := PutBlock(bits, u1, u2, Some(r));
        spare := ZERO_BLOCK;                // a new spare
      } else {
        bits := PutBlock(bits, u1, u2, Some(r));   // the block was updated in place
      }
    }
    // -------------------------------------------------------------------
    // Single bits

    /**
     * GetBit(i): bit i of the set. Beyond the capacity, and in an absent
     * area or block, the bit reads as false; a negative index and MaxInt32
     * panic.
     */
    function GetBit(i: Int32): (r: Result<bool>)
      reads this
      requires Valid()
      ensures r.Err? <==> i < 0 || i == MAX_INT32
      ensures r.Ok? ==> r.value == Get(bits, i)
    {
      if IndexCheck(i).Fail? then Err(IndexOutOfRange)
      else if i >= bitsLength then
        CapacityBound(bits);
        Ok(false)
      else
        var w := i / LENGTH4;
        var w1 := w / AREA_WORDS;
        var w2 := (w / LENGTH3) % LENGTH2;
        RoomFor(i, |bits|);
        AreaOfBit(i);
        BlockOfWord(w);
        BlockLookup(bits, w1, w2, w / LENGTH3);
        if bits[w1].None? || bits[w1].value[w2].None? then Ok(false)
        else
          var word := And(bits[w1].value[w2].value[w % LENGTH3], Bit(RemainderOf64(i)));
          BitTest(bits[w1].value[w2].value[w % LENGTH3], RemainderOf64(i));
          Ok(word != ZERO)
    }

    /**
     * What Set and FlipBit do before they write: resize when i lies beyond
     * the capacity, then make the area and the block of i when they are
     * absent. No bit changes.
     */
    method MakeRoom(i: Int32) returns (w1: nat, w2: nat)
      requires Valid() && 0 <= i < MAX_INT32
      modifies this
      ensures Valid() && compactionCount == old(compactionCount) && SameBits(bits, old(bits))
      ensures w1 == i / LENGTH4 / AREA_WORDS && w2 == (i / LENGTH4 / LENGTH3) % LENGTH2
      ensures w1 < |bits| && bits[w1].Some? && bits[w1].value[w2].Some?
    {
      ghost var t0 := bits;
      var w := i / LENGTH4;
      w1 := w / AREA_WORDS;
      w2 := (w / LENGTH3) % LENGTH2;
      AreaOfBit(i);
      if i >= bitsLength {
        GrowTo(i, |bits|);
        GrowKeeps(bits, NewSize(i));
        NewSizeMeaning(i);
        Resize(i);
      } else {
        RoomFor(i, |bits|);
      }
      if bits[w1].None? {
        bits := NewArea(bits, w1);
      }
      if bits[w1].value[w2].None? {
        BlockLookup(bits, w1, w2, w1 * LENGTH2 + w2);
        bits := PutBlock(bits, w1, w2, Some(ZERO_BLOCK));
      }
      assert SameBits(bits, t0);
      SameBitsGet(bits, t0);
      if cache.valid {
        CachesSameBits(cache, bits, t0, bitsLength);
      }
    }

    /** Set(i): bit i becomes true, no other bit changes, and the cache goes stale. */
    method Set(i: Int32) returns (res: Outcome)
      requires Valid()
      modifies this
      ensures Valid() && compactionCount == old(compactionCount)
      ensures res == IndexCheck(i)
      ensures res.Pass? ==> WithBit(bits, old(bits), i, true) && !cache.valid
      ensures res.Fail? ==> unchanged(this)
    {
      res := IndexCheck(i);
      if res.Fail? {
        return;
      }
      var w1, w2 := MakeRoom(i);
      var a3 := bits[w1].value[w2].value;
      var w3 := (i / LENGTH4) % LENGTH3;
      var x := Or(a3[w3], Bit(RemainderOf64(i)));
      PointUpdate(SetOp, bits, old(bits), i, w1, w2, w3, x);
      bits := PutBlock(bits, w1, w2, Some(a3[w3 := x]));   // a3[w & MASK3] |= 1 << (i % 64)
      cache := Invalidate(cache);
    }

    /**
     * Clear(i): bit i becomes false and no other bit changes. Nothing is
     * made or resized: beyond the capacity, or in an absent area or block,
     * the bit is already clear and the set, cache included, is left alone.
     */
    method Clear(i: Int32) returns (res: Outcome)
      requires Valid()
      modifies this
      ensures Valid() && compactionCount == old(compactionCount)
      ensures res == IndexCheck(i)
      ensures res.Pass? ==> WithBit(bits, old(bits), i, false)
      ensures |bits| == |old(bits)| && bitsLength == old(bitsLength) && spare == old(spare)
      ensures cache == if res.Pass? && BlockPresent(old(bits), i / LENGTH4) then Invalidate(old(cache)) else old(cache)
    {
      res := IndexCheck(i);
      if res.Fail? {
        return;
      }
      var w := i / LENGTH4;
      var w1 := w / AREA_WORDS;
      var w2 := (w / LENGTH3) % LENGTH2;
      AreaOfBit(i);
      if i >= bitsLength {
        CapacityBound(bits);
        RoomFor(i, |bits|);
        return;
      }
      RoomFor(i, |bits|);
      if bits[w1].None? || bits[w1].value[w2].None? {
        BlockOfWord(w);
        AbsentIsZero(bits, w / LENGTH3);
        return;
      }
      var a3 := bits[w1].value[w2].value;
      var w3 := w % LENGTH3;
      var x := And(a3[w3], Not(Bit(RemainderOf64(i))));
      PointUpdate(ClearOp, bits, bits, i, w1, w2, w3, x);
      bits := PutBlock(bits, w1, w2, Some(a3[w3 := x]));   // a3[w & MASK3] &= ^(1 << (i % 64))
      cache := Invalidate(cache);
    }

    /** FlipBit(i): bit i is inverted, no other bit changes, and the cache goes stale. */
    method FlipBit(i: Int32) returns (res: Outcome)
      requires Valid()
      modifies this
      ensures Valid() && compactionCount == old(compactionCount)
      ensures res == IndexCheck(i)
      ensures res.Pass? ==> WithBit(bits, old(bits), i, !Get(old(bits), i)) && !cache.valid
      ensures res.Fail? ==> unchanged(this)
    {
      res := IndexCheck(i);
      if res.Fail? {
        return;
      }
      var w1, w2 := MakeRoom(i);
      var a3 := bits[w1].value[w2].value;
      var w3 := (i / LENGTH4) % LENGTH3;
      var x := Xor(a3[w3], Bit(RemainderOf64(i)));
      PointUpdate(FlipOp, bits, old(bits), i, w1, w2, w3, x);
      bits := PutBlock(bits, w1, w2, Some(a3[w3 := x]));   // a3[w & MASK3] ^= 1 << (i % 64)
      cache := Invalidate(cache);
    }

    /** SetBit(i, value): bit i becomes value, no other bit changes. */
    method SetBit(i: Int32, value: bool) returns (res: Outcome)
      requires Valid()
      modifies this
      ensures Valid() && compactionCount == old(compactionCount)
      ensures res == IndexCheck(i)
      ensures res.Pass? ==> WithBit(bits, old(bits), i, value)
    {
      if value {
        res := Set(i);
      } else {
        res := Clear(i);
      }
    }

    /** AndBit(i, value): bit i becomes bit i and value; only a false value changes anything, through Clear. */
    method AndBit(i: Int32, value: bool) returns (res: Outcome)
      requires Valid()
      modifies this
      ensures Valid() && compactionCount == old(compactionCount)
      ensures res == IndexCheck(i)
      ensures res.Pass? ==> WithBit(bits, old(bits), i, Get(old(bits), i) && value)
      ensures value ==> unchanged(this)
    {
      res := IndexCheck(i);
      if res.Pass? && !value {
        res := Clear(i);
      }
    }

    /** AndNotBit(i, value): bit i becomes bit i and not value; only a true value changes anything. */
    method AndNotBit(i: Int32, value: bool) returns (res: Outcome)
      requires Valid()
      modifies this
      ensures Valid() && compactionCount == old(compactionCount)
      ensures res == IndexCheck(i)
      ensures res.Pass? ==> WithBit(bits, old(bits), i, Get(old(bits), i) && !value)
      ensures !value ==> unchanged(this)
    {
      res := IndexCheck(i);
      if res.Pass? && value {
        res := Clear(i);
      }
    }

    /** OrBit(i, value): bit i becomes bit i or value; only a true value changes anything, through Set. */
    method OrBit(i: Int32, value: bool) returns (res: Outcome)
      requires Valid()
      modifies this
      ensures Valid() && compactionCount == old(compactionCount)
      ensures res == IndexCheck(i)
      ensures res.Pass? ==> WithBit(bits, old(bits), i, Get(old(bits), i) || value)
      ensures !value ==> unchanged(this)
    {
      res := IndexCheck(i);
      if res.Pass? && value {
        res := Set(i);
      }
    }

    /** XorBit(i, value): bit i becomes bit i xor value; only a true value changes anything, through FlipBit. */
    method XorBit(i: Int32, value: bool) returns (res: Outcome)
      requires Valid()
      modifies this
      ensures Valid() && compactionCount == old(compactionCount)
      ensures res == IndexCheck(i)
      ensures res.Pass? ==> WithBit(bits, old(bits), i, Get(old(bits), i) != value)
      ensures !value ==> unchanged(this)
    {
      res := IndexCheck(i);
      if res.Pass? && value {
        res := FlipBit(i);
      }
    }
    // -------------------------------------------------------------------
    // Ranges

    /**
     * A range operation by a strategy that changes the set: setScanner over
     * [i, j), after which op holds over the range and no other bit changed.
     */
    method ScanOp(i: Int32, j: Int32, b: Option<Level1>, op: Op) returns (res: Outcome)
      requires Valid() && Mutates(op) && !op.CopyOp?
      modifies this
      ensures Valid() && compactionCount == old(compactionCount)
      ensures res == ScanCheck(op, b, i, j)
      ensures res.Pass? ==> Combined(op, bits, old(bits), Operand(b), i, j)
      ensures res.Fail? ==> bits == old(bits) && bitsLength == old(bitsLength)
      ensures res != Fail(NilOperand) ==> !cache.valid
    {
      var acc;
      res, acc := SetScanner(i, j, b, op);
      if res.Pass? && i < j {
        ScanCombined(op, bits, old(bits), Operand(b), i, j);
      }
    }

    /** SetRange(i, j): every bit in [i, j) becomes true, no other bit changes. */
    method SetRange(i: Int32, j: Int32) returns (res: Outcome)
      requires Valid()
      modifies this
      ensures Valid() && compactionCount == old(compactionCount)
      ensures res == ScanCheck(SetOp, None, i, j)
      ensures res.Pass? ==> Filled(bits, old(bits), i, j, true)
      ensures res.Fail? ==> bits == old(bits)
      ensures !cache.valid
    {
      res := ScanOp(i, j, None, SetOp);
    }

    /** ClearRange(i, j): every bit in [i, j) becomes false, no other bit changes. */
    method ClearRange(i: Int32, j: Int32) returns (res: Outcome)
      requires Valid()
      modifies this
      ensures Valid() && compactionCount == old(compactionCount)
      ensures res == ScanCheck(ClearOp, None, i, j)
      ensures res.Pass? ==> Filled(bits, old(bits), i, j, false)
      ensures res.Fail? ==> bits == old(bits)
      ensures !cache.valid
    {
      res := ScanOp(i, j, None, ClearOp);
    }

    /** SetRangeBit(i, j, value): every bit in [i, j) becomes value, no other bit changes. */
    method SetRangeBit(i: Int32, j: Int32, value: bool) returns (res: Outcome)
      requires Valid()
      modifies this
      ensures Valid() && compactionCount == old(compactionCount)
      ensures res == ScanCheck(SetOp, None, i, j)
      ensures res.Pass? ==> Filled(bits, old(bits), i, j, value)
      ensures res.Fail? ==> bits == old(bits)
      ensures !cache.valid
    {
      if value {
        res := SetRange(i, j);
      } else {
        res := ClearRange(i, j);
      }
    }

    /** FlipRange(i, j): every bit in [i, j) is inverted, no other bit changes. */
    method FlipRange(i: Int32, j: Int32) returns (res: Outcome)
      requires Valid()
      modifies this
      ensures Valid() && compactionCount == old(compactionCount)
      ensures res == ScanCheck(FlipOp, None, i, j)
      ensures res.Pass? ==> Combined(FlipOp, bits, old(bits), [], i, j)
      ensures res.Fail? ==> bits == old(bits)
      ensures !cache.valid
    {
      res := ScanOp(i, j, None, FlipOp);
    }

    /** AndRangeBitSet(i, j, b): each bit in [i, j) becomes its and with b's bit; b must not be nil. */
    method AndRangeBitSet(i: Int32, j: Int32, b: BitSet?) returns (res: Outcome)
      requires Valid()
      modifies this
      ensures Valid() && compactionCount == old(compactionCount)
      ensures res == ScanCheck(AndOp, old(ArrayOf(b)), i, j)
      ensures res.Pass? ==> Combined(AndOp, bits, old(bits), Operand(old(ArrayOf(b))), i, j)
      ensures res.Fail? ==> bits == old(bits)
      ensures res != Fail(NilOperand) ==> !cache.valid
    {
      res := ScanOp(i, j, ArrayOf(b), AndOp);
    }

    /** AndNotRangeBitSet(i, j, b): each bit in [i, j) stays set only where b's bit is clear; b must not be nil. */
    method AndNotRangeBitSet(i: Int32, j: Int32, b: BitSet?) returns (res: Outcome)
      requires Valid()
      modifies this
      ensures Valid() && compactionCount == old(compactionCount)
      ensures res == ScanCheck(AndNotOp, old(ArrayOf(b)), i, j)
      ensures res.Pass? ==> Combined(AndNotOp, bits, old(bits), Operand(old(ArrayOf(b))), i, j)
      ensures res.Fail? ==> bits == old(bits)
      ensures res != Fail(NilOperand) ==> !cache.valid
    {
      res := ScanOp(i, j, ArrayOf(b), AndNotOp);
    }

    /** OrRangeBitSet(i, j, b): each bit in [i, j) becomes its or with b's bit; a nil b reads as empty. */
    method OrRangeBitSet(i: Int32, j: Int32, b: BitSet?) returns (res: Outcome)
      requires Valid()
      modifies this
      ensures Valid() && compactionCount == old(compactionCount)
      ensures res == ScanCheck(OrOp, old(ArrayOf(b)), i, j)
      ensures res.Pass? ==> Combined(OrOp, bits, old(bits), Operand(old(ArrayOf(b))), i, j)
      ensures res.Fail? ==> bits == old(bits)
      ensures !cache.valid
    {
      res := ScanOp(i, j, ArrayOf(b), OrOp);
    }

    /** XorRangeBitSet(i, j, b): each bit in [i, j) becomes its xor with b's bit; a nil b reads as empty. */
    method XorRangeBitSet(i: Int32, j: Int32, b: BitSet?) returns (res: Outcome)
      requires Valid()
      modifies this
      ensures Valid() && compactionCount == old(compactionCount)
      ensures res == ScanCheck(XorOp, old(ArrayOf(b)), i, j)
      ensures res.Pass? ==> Combined(XorOp, bits, old(bits), Operand(old(ArrayOf(b))), i, j)
      ensures res.Fail? ==> bits == old(bits)
      ensures !cache.valid
    {
      res := ScanOp(i, j, ArrayOf(b), XorOp);
    }

    // -------------------------------------------------------------------
    // Whole sets

    /**
     * AndBitSet(b): every bit becomes its and with b's bit. The areas beyond
     * the shorter level-1 array are dropped first, then [0, min bitsLength)
     * is scanned. A nil b is dereferenced and panics.
     */
    method AndBitSet(b: BitSet?) returns (res: Outcome)
      requires Valid() && (b != null ==> b.Valid())
      modifies this
      ensures Valid() && compactionCount == old(compactionCount)
      ensures res == if b == null then Fail(NilOperand) else Pass
      ensures res.Pass? ==> Merged(AndOp, bits, old(bits), old(b.bits))
      ensures res.Fail? ==> unchanged(this)
      ensures res.Pass? ==> !cache.valid
    {
      if b == null {
        return Fail(NilOperand);
      }
      ghost var a0, s := bits, b.bits;
      var bmin := if |b.bits| < |bits| then |b.bits| else |bits|;
      Nullify(bmin);                           // optimisation
      assert b.bits == s;
      var lmin := if b.bitsLength < bitsLength then b.bitsLength else bitsLength;
      NullifiedContent(a0, bmin);
      assert Valid();
      res := ScanOp(0, lmin, ArrayOf(b), AndOp);
      AndWhole(bits, a0, s, bmin, lmin);
    }

    /** AndNotBitSet(b): every bit stays set only where b's bit is clear; [0, min bitsLength) is scanned. */
    method AndNotBitSet(b: BitSet?) returns (res: Outcome)
      requires Valid() && (b != null ==> b.Valid())
      modifies this
      ensures Valid() && compactionCount == old(compactionCount)
      ensures res == if b == null then Fail(NilOperand) else Pass
      ensures res.Pass? ==> Merged(AndNotOp, bits, old(bits), old(b.bits))
      ensures res.Fail? ==> unchanged(this)
      ensures res.Pass? ==> !cache.valid
    {
      if b == null {
        return Fail(NilOperand);
      }
      var lmin := if b.bitsLength < bitsLength then b.bitsLength else bitsLength;
      CapacityBound(bits);
      CapacityBound(b.bits);
      res := ScanOp(0, lmin, ArrayOf(b), AndNotOp);
      WholeScan(AndNotOp, bits, old(bits), old(b.bits), lmin);
    }

    /** OrBitSet(b): every bit becomes its or with b's bit; [0, b.bitsLength) is scanned, growing this set as needed. */
    method OrBitSet(b: BitSet?) returns (res: Outcome)
      requires Valid() && (b != null ==> b.Valid())
      modifies this
      ensures Valid() && compactionCount == old(compactionCount)
      ensures res == if b == null then Fail(NilOperand) else Pass
      ensures res.Pass? ==> Merged(OrOp, bits, old(bits), old(b.bits))
      ensures res.Fail? ==> unchanged(this)
      ensures res.Pass? ==> !cache.valid
    {
      if b == null {
        return Fail(NilOperand);
      }
      CapacityBound(b.bits);
      res := ScanOp(0, b.bitsLength, ArrayOf(b), OrOp);
      WholeScan(OrOp, bits, old(bits), old(b.bits), old(b.bitsLength));
    }

    /** XorBitSet(b): every bit becomes its xor with b's bit; [0, b.bitsLength) is scanned. */
    method XorBitSet(b: BitSet?) returns (res: Outcome)
      requires Valid() && (b != null ==> b.Valid())
      modifies this
      ensures Valid() && compactionCount == old(compactionCount)
      ensures res == if b == null then Fail(NilOperand) else Pass
      ensures res.Pass? ==> Merged(XorOp, bits, old(bits), old(b.bits))
      ensures res.Fail? ==> unchanged(this)
      ensures res.Pass? ==> !cache.valid
    {
      if b == null {
        return Fail(NilOperand);
      }
      CapacityBound(b.bits);
      res := ScanOp(0, b.bitsLength, ArrayOf(b), XorOp);
      WholeScan(XorOp, bits, old(bits), old(b.bits), old(b.bitsLength));
    }

    // -------------------------------------------------------------------
    // Iterators

    /**
     * NextSetBit(i): the least set index at or after i, or -1. The word of i
     * is tested from bit i % 64 up; then the search runs on through the
     * areas, over absent areas and blocks, to the first non-zero word.
     * MaxInt32 is accepted; a negative index panics.
     */
    method NextSetBit(i: Int32) returns (res: Result<Int32>)
      requires Valid()
      ensures res.Err? <==> i < 0
      ensures res.Ok? ==> IsNextSet(bits, i, res.value)
    {
      if i < 0 {
        return Err(IndexOutOfRange);
      }
      var r := NextSetIn(bits, i);
      return Ok(r);
    }

    /**
     * NextClearBit(i): the least clear index at or after i, or -1 when that
     * index would be MaxInt32 (which is never set). The search runs from the
     * word of i through the areas; an absent block or area answers at once.
     * A negative index panics.
     */
    method NextClearBit(i: Int32) returns (res: Result<Int32>)
      requires Valid()
      ensures res.Err? <==> i < 0
      ensures res.Ok? ==> IsNextClear(bits, i, res.value)
    {
      if i < 0 {
        return Err(IndexOutOfRange);
      }
      var r := NextClearIn(bits, i);
      return Ok(r);
    }

    /**
     * PreviousSetBit(i): the greatest set index at or before i, or -1. An
     * index past the level-1 array starts from its last bit. A negative
     * index, -1 included, panics.
     */
    method PreviousSetBit(i: Int32) returns (res: Result<Int32>)
      requires Valid()
      ensures res.Err? <==> i < 0
      ensures res.Ok? ==> IsPreviousSet(bits, i, res.value)
    {
      if i < 0 {
        return Err(IndexOutOfRange);
      }
      var r := PrevSetIn(bits, i);
      return Ok(r);
    }

    /**
     * PreviousClearBit(i): the greatest clear index at or before i, or -1.
     * An index past the level-1 array is itself clear. A negative index,
     * -1 included, panics.
     */
    method PreviousClearBit(i: Int32) returns (res: Result<Int32>)
      requires Valid()
      ensures res.Err? <==> i < 0
      ensures res.Ok? ==> IsPreviousClear(bits, i, res.value)
    {
      if i < 0 {
        return Err(IndexOutOfRange);
      }
      var r := PrevClearIn(bits, i);
      return Ok(r);
    }

    // -------------------------------------------------------------------
    // Text

    /**
     * String(): the set bits in ascending order between "{" and "}",
     * separated by ","; with a positive compaction count, a run of set bits
     * that ends beyond i + compactionCount (int32 arithmetic) and is followed
     * by a later set bit is written "first..last".
     */
    method String() returns (s: string)
      requires Valid()
      ensures s == Render(bits, compactionCount)
    {
      s := Text(bits, compactionCount);
    }

    // -------------------------------------------------------------------
    // Statistics

    /**
     * statisticsUpdate(): a stale cache is recomputed by an update scan of
     * the whole capacity, which also drops empty blocks and areas; a fresh
     * cache is kept as it is.
     */
    method StatisticsUpdate()
      requires Valid()
      modifies this
      ensures Valid() && cache.valid && Caches(cache, bits, bitsLength)
      ensures SameBits(bits, old(bits)) && |bits| == |old(bits)| && bitsLength == old(bitsLength)
      ensures compactionCount == old(compactionCount) && spare == old(spare)
      ensures old(cache.valid) ==> cache == old(cache) && bits == old(bits)
    {
      if cache.valid {
        return;
      }
      var res, acc := SetScanner(0, bitsLength, None, UpdateOp);
      LengthForInjective(|bits|, |old(bits)|);
      CachesSameBits(cache, bits, old(bits), bitsLength);
      CachesMeaning(cache, bits, bitsLength);
    }

    /** Cardinality(): the number of set bits, from the refreshed cache. */
    method Cardinality() returns (r: Int32)
      requires Valid()
      modifies this
      ensures Valid() && SameBits(bits, old(bits)) && bitsLength == old(bitsLength)
      ensures compactionCount == old(compactionCount)
      ensures r == CountBelow(bits, bitsLength)
    {
      StatisticsUpdate();
      CachedCardinality(bits, bitsLength, cache);
      r := cache.cardinality;
    }

    /** IsEmpty(): whether no bit is set, a cardinality of zero in the refreshed cache. */
    method IsEmpty() returns (r: bool)
      requires Valid()
      modifies this
      ensures Valid() && SameBits(bits, old(bits)) && bitsLength == old(bitsLength)
      ensures compactionCount == old(compactionCount)
      ensures r <==> NoBits(bits)
    {
      StatisticsUpdate();
      CachedCardinality(bits, bitsLength, cache);
      CountBelowZero(bits, bitsLength);
      CapacityBound(bits);
      r := cache.cardinality == 0;
    }

    /** Length(): one past the highest set bit, 0 when no bit is set, from the refreshed cache. */
    method Length() returns (r: Int32)
      requires Valid()
      modifies this
      ensures Valid() && SameBits(bits, old(bits)) && bitsLength == old(bitsLength)
      ensures compactionCount == old(compactionCount)
      ensures r >= 0 && forall k: nat :: Get(bits, k) ==> k < r
      ensures r > 0 ==> Get(bits, r - 1)
    {
      StatisticsUpdate();
      CachedLength(bits, bitsLength, cache);
      CapacityBound(bits);
      r := cache.length;
    }

    /**
     * Size(): the span from the lowest to the highest set bit, both
     * included, 0 when no bit is set, from the refreshed cache.
     */
    method Size() returns (r: Int32)
      requires Valid()
      modifies this
      ensures Valid() && SameBits(bits, old(bits)) && bitsLength == old(bitsLength)
      ensures compactionCount == old(compactionCount)
      ensures r == 0 <==> NoBits(bits)
      ensures r > 0 ==> exists lo: nat, hi: nat ::
        && r == hi + 1 - lo && Get(bits, lo) && Get(bits, hi)
        && (forall k: nat :: Get(bits, k) ==> lo <= k <= hi)
    {
      StatisticsUpdate();
      CachedLength(bits, bitsLength, cache);
      CachedSize(bits, bitsLength, cache);
      CapacityBound(bits);
      if cache.length > 0 {
        var lo, hi := cache.length - cache.size, cache.length - 1;
        assert Get(bits, lo) && Get(bits, hi);
      }
      r := cache.size;
    }

    // -------------------------------------------------------------------
    // Intersection tests

    /**
     * IntersectsRangeBitSet(i, j, b): whether some bit in [i, j) is set in
     * both sets; the range is checked as for every scan, and a nil b panics.
     * No bit changes, and neither does the cache.
     */
    method IntersectsRangeBitSet(i: Int32, j: Int32, b: BitSet?) returns (res: Result<bool>)
      requires Valid()
      modifies this
      ensures Valid() && SameBits(bits, old(bits)) && bitsLength == old(bitsLength)
      ensures cache == old(cache) && compactionCount == old(compactionCount)
      ensures res.Err? <==> ScanCheck(IntersectsOp, old(ArrayOf(b)), i, j).Fail?
      ensures res.Err? ==> res.failure == ScanCheck(IntersectsOp, old(ArrayOf(b)), i, j).failure
      ensures res.Ok? ==> (res.value <==> exists k: nat :: i <= k < j && Get(old(bits), k) && Get(old(b.bits), k))
    {
      var r, acc := SetScanner(i, j, ArrayOf(b), IntersectsOp);
      if r.Fail? {
        return Err(r.failure);
      }
      if i < j {
        IntersectsResult(old(bits), old(b.bits), i, j, acc);
      }
      return Ok(acc.result);
    }

    /**
     * IntersectsBitSet(b): whether some bit is set in both sets, by a scan
     * of [0, the larger capacity); a nil b is dereferenced and panics.
     */
    method IntersectsBitSet(b: BitSet?) returns (res: Result<bool>)
      requires Valid() && (b != null ==> b.Valid())
      modifies this
      ensures Valid() && SameBits(bits, old(bits)) && bitsLength == old(bitsLength)
      ensures cache == old(cache) && compactionCount == old(compactionCount)
      ensures res.Err? <==> b == null
      ensures res.Err? ==> res.failure == NilOperand
      ensures res.Ok? ==> (res.value <==> exists k: nat :: Get(old(bits), k) && Get(old(b.bits), k))
    {
      if b == null {
        return Err(NilOperand);
      }
      var bmax := if b.bitsLength > bitsLength then b.bitsLength else bitsLength;
      CapacityBound(bits);
      CapacityBound(b.bits);
      var r, acc := SetScanner(0, bmax, ArrayOf(b), IntersectsOp);
      IntersectsResult(old(bits), old(b.bits), 0, bmax, acc);
      return Ok(acc.result);
    }

    // -------------------------------------------------------------------
    // Copies

    /**
     * setScanner(i, j, b, copyStrategy) on a set with no bit: a range the
     * scan accepts leaves exactly b's bits in [i, j).
     */
    method CopyScan(i: Int32, j: Int32, b: Level1) returns (res: Outcome)
      requires Valid() && NoBits(bits)
      modifies this
      ensures Valid() && compactionCount == old(compactionCount)
      ensures res == ScanCheck(CopyOp, Some(b), i, j)
      ensures res.Pass? ==> RangeOf(bits, b, i, j)
    {
      var acc;
      res, acc := SetScanner(i, j, Some(b), CopyOp);
      if res.Pass? && i < j {
        ScanCopied(bits, old(bits), b, i, j);
      }
    }

    /**
     * clone(): a new set with the same bits and compaction count and storage
     * of its own: a one-area array (resize(1)), its own spare block, then a
     * copy scan of [0, bitsLength) from this set.
     */
    method Clone() returns (result: BitSet)
      requires Valid()
      ensures fresh(result) && result.Valid()
      ensures SameContent(result.bits, bits) && result.compactionCount == compactionCount
    {
      result := new BitSet(2, compactionCount);  // resize(1): 1 is the last usable index
      var res := result.CopyScan(0, bitsLength, bits);
      CopiedWhole(result.bits, bits);
    }

    /**
     * GetBitSetFromRange(i, j): a new set, sized for j and with this set's
     * compaction count, holding exactly this set's bits in [i, j); the range
     * is checked by the copy scan, which panics on a bad one.
     */
    method GetBitSetFromRange(i: Int32, j: Int32) returns (res: Result<BitSet>)
      requires Valid()
      ensures res.Err? <==> ScanCheck(CopyOp, Some(bits), i, j).Fail?
      ensures res.Err? ==> res.failure == IndexOutOfRange
      ensures res.Ok? ==> fresh(res.value) && res.value.Valid() && res.value.compactionCount == compactionCount
      ensures res.Ok? ==> RangeOf(res.value.bits, bits, i, j)
    {
      var result := new BitSet(j, compactionCount);
      var r := result.CopyScan(i, j, bits);
      if r.Fail? {
        return Err(r.failure);
      }
      return Ok(result);
    }

    /** ClearAll(): every area is dropped, so no bit is set. */
    method ClearAll()
      requires Valid()
      modifies this
      ensures Valid() && compactionCount == old(compactionCount) && |bits| == |old(bits)|
      ensures NoBits(bits) && !cache.valid
    {
      Nullify(0);
      NullifiedContent(old(bits), 0);
    }
  }
}
