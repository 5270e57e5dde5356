/**
 * The package-level entry points: the two constructors of an empty set and
 * the four functional set operations, each of which clones its first
 * argument and combines the clone in place with the second, so that neither
 * argument changes.
 */
module SetOps {
  import opened Wrappers
  import opened Constants
  import opened Addressing
  import opened Strategies
  import opened Tree
  import opened Content
  import opened BitSets

  /** The unsigned 32-bit integers. */
  type Uint32 = x: int | 0 <= x <= 0xFFFF_FFFF

  /** New: an empty set with room for one area and the default compaction count. */
  method New() returns (r: BitSet)
    ensures fresh(r) && r.Valid() && NoBits(r.bits)
    ensures |r.bits| == 1 && r.bitsLength == UNIT
    ensures r.compactionCount == COMPACTION_COUNT_DEFAULT
  {
    r := new BitSet(1, COMPACTION_COUNT_DEFAULT);
    assert NewSize(0) == 1;
  }

  /**
   * NewWithSize: the capacity is only a hint, which this version does not
   * take: the set is the one New builds.
   */
  method NewWithSize(capacity: Uint32) returns (r: BitSet)
    ensures fresh(r) && r.Valid() && NoBits(r.bits)
    ensures |r.bits| == 1 && r.bitsLength == UNIT
    ensures r.compactionCount == COMPACTION_COUNT_DEFAULT
  {
    r := new BitSet(1, COMPACTION_COUNT_DEFAULT);
    assert NewSize(0) == 1;
  }

  /** Combining a copy of t with s is combining t itself with s. */
  lemma MergedCopy(op: Op, r: Level1, c: Level1, t: Level1, s: Level1)
    requires SameContent(c, t) && Merged(op, r, c, s)
    ensures Merged(op, r, t, s)
  {
    forall k: nat ensures Get(r, k) == BitOp(op, Get(t, k), Get(s, k)) {
      assert Get(c, k) == Get(t, k);
    }
  }

  /**
   * Clone a and combine the clone with b by op; a nil a or b panics (on the
   * clone, or in the scan that reads b).
   */
  method Combine(op: Op, a: BitSet?, b: BitSet?) returns (res: Result<BitSet>)
    requires op.AndOp? || op.AndNotOp? || op.OrOp? || op.XorOp?
    requires a != null ==> a.Valid()
    requires b != null ==> b.Valid()
    ensures res.Err? <==> a == null || b == null
    ensures res.Err? ==> res.failure == NilOperand
    ensures res.Ok? ==> fresh(res.value) && res.value.Valid() && res.value.compactionCount == a.compactionCount
    ensures res.Ok? ==> Merged(op, res.value.bits, a.bits, b.bits)
  {
    if a == null {
      return Err(NilOperand);
    }
    var result := a.Clone();
    ghost var c := result.bits;
    var r: Outcome;
    match op {
      case AndOp => r := result.AndBitSet(b);
      case AndNotOp => r := result.AndNotBitSet(b);
      case OrOp => r := result.OrBitSet(b);
      case XorOp => r := result.XorBitSet(b);
    }
    if r.Fail? {
      return Err(r.failure);
    }
    MergedCopy(op, result.bits, c, a.bits, b.bits);
    return Ok(result);
  }

  /** And: a new set holding the bits set in both a and b. */
  method And(a: BitSet?, b: BitSet?) returns (res: Result<BitSet>)
    requires a != null ==> a.Valid()
    requires b != null ==> b.Valid()
    ensures res.Err? <==> a == null || b == null
    ensures res.Ok? ==> fresh(res.value) && res.value.Valid()
    ensures res.Ok? ==> forall k: nat :: Get(res.value.bits, k) == (Get(a.bits, k) && Get(b.bits, k))
  {
    res := Combine(AndOp, a, b);
  }

  /** AndNot: a new set holding the bits set in a and clear in b. */
  method AndNot(a: BitSet?, b: BitSet?) returns (res: Result<BitSet>)
    requires a != null ==> a.Valid()
    requires b != null ==> b.Valid()
    ensures res.Err? <==> a == null || b == null
    ensures res.Ok? ==> fresh(res.value) && res.value.Valid()
    ensures res.Ok? ==> forall k: nat :: Get(res.value.bits, k) == (Get(a.bits, k) && !Get(b.bits, k))
  {
    res := Combine(AndNotOp, a, b);
  }

  /** Or: a new set holding the bits set in a or in b. */
  method Or(a: BitSet?, b: BitSet?) returns (res: Result<BitSet>)
    requires a != null ==> a.Valid()
    requires b != null ==> b.Valid()
    ensures res.Err? <==> a == null || b == null
    ensures res.Ok? ==> fresh(res.value) && res.value.Valid()
    ensures res.Ok? ==> forall k: nat :: Get(res.value.bits, k) == (Get(a.bits, k) || Get(b.bits, k))
  {
    res := Combine(OrOp, a, b);
  }

  /** Xor: a new set holding the bits set in exactly one of a and b. */
  method Xor(a: BitSet?, b: BitSet?) returns (res: Result<BitSet>)
    requires a != null ==> a.Valid()
    requires b != null ==> b.Valid()
    ensures res.Err? <==> a == null || b == null
    ensures res.Ok? ==> fresh(res.value) && res.value.Valid()
    ensures res.Ok? ==> forall k: nat :: Get(res.value.bits, k) == (Get(a.bits, k) != Get(b.bits, k))
  {
    res := Combine(XorOp, a, b);
  }

  /** Xor of a set with the same set twice gives back the bits of the first. */
  lemma {:induction false} XorXor(r2: Level1, r1: Level1, t: Level1, s: Level1)
    requires Merged(XorOp, r1, t, s) && Merged(XorOp, r2, r1, s)
    ensures SameContent(r2, t)
  {
    forall k: nat ensures Get(r2, k) == Get(t, k) {
      assert Get(r1, k) == (Get(t, k) != Get(s, k));
    }
  }

  /** a and-not b together with a and b make up a again, without overlap. */
  lemma {:induction false} AndNotAndSplit(d: Level1, c: Level1, t: Level1, s: Level1)
    requires Merged(AndNotOp, d, t, s) && Merged(AndOp, c, t, s)
    ensures forall k: nat :: Get(t, k) == (Get(d, k) || Get(c, k))
    ensures forall k: nat :: !(Get(d, k) && Get(c, k))
  {
    forall k: nat ensures Get(t, k) == (Get(d, k) || Get(c, k)) && !(Get(d, k) && Get(c, k)) {
      assert Get(d, k) == (Get(t, k) && !Get(s, k));
      assert Get(c, k) == (Get(t, k) && Get(s, k));
    }
  }
}
