# Sparse bit set

This project is a Dafny model of a Go port of the Java `SparseBitSet`. The set holds bits at indices
0 to MaxInt32 - 1 in a three-level tree:

- **level 1** is an array, of power-of-two length, of areas;
- **level 2** is an area of 32 blocks;
- **level 3** is a block of 32 64-bit words.

An absent area or block reads as zeros. Every bulk operation goes through one scanner,
`setScanner`. The scanner walks the areas and blocks that a range `[i, j)` touches. For each one it
asks a *strategy* (and, andNot, clear, copy, equals, flip, intersects, or, set, update, xor) for two
things:

- its four shortcut properties, which say whether a missing block can be decided without visiting it;
- its word and block kernels.

The update strategy recomputes a statistics cache: cardinality, length, size, the count of words in
use, and a hash. Mutators mark that cache stale.

The repository has two drafts of the same code:

- `internal/sparse/*.go`, the second draft. Most rows cite it.
- `sparse/sparse.go`, the first draft. Rows cite it where only it has the code, and in the findings.

The model follows the behaviour that both drafts evidently intend. Every place where a draft does
something else is listed under "## Findings". Each of those rows has an as-written member and a
lemma that exhibits the difference; all of these live in module `Drafts`.

Layout, one module per file:

- `Words`: a 64-bit word as a sequence of 64 booleans, with its operators.
- `Constants`: the level sizes and the property flags.
- `Tree`: the level-1/2/3 storage as a value.
- `Addressing`: index arithmetic, masks and `resize`'s sizing.
- `Strategies`: the strategies' properties and kernels.
- `Statistics`: the update strategy's accumulator and the cache.
- `ScanSpec`: what a scan of `[i, j)` computes, block by block.
- `BlockScan`: the per-block piece logic of `setScanner`.
- `AreaScan`: the shortcuts and the loop invariants of `setScanner`.
- `Content`: set-level predicates such as "combined over a range" or "with one bit changed".
- `Census`: what the reporting strategies compute (intersects, equals, statistics).
- `Iterators`: the direct `Next*`/`Previous*` searches.
- `Rendering`: `String`.
- `BitSets`: class `BitSet`, whose fields are the storage, the spare block, the compaction count,
  the capacity and the cache.
- `SetOps`: the constructors and the two-set functions `And`, `AndNot`, `Or`, `Xor`.
- `Drafts`: the as-written halves of the findings.

## Model

| member | source | states |
|---|---|---|
| Constants.AddInt32 | internal/sparse/sparse.go:194-204 | int32 addition, which wraps modulo 2^32 as the `capacity - 1` passed to resize does |
| Constants.FullArrayCoversInt32 | internal/sparse/constants.go:43-81 | a full level-1 array of MAX_LENGTH1 areas of UNIT bits covers exactly the non-negative int32 indices |
| Constants.LengthsArePowers | internal/sparse/constants.go:43-81 | each level length is two to the power of its level width, and UNIT is 2^16 |
| Constants.FlagsDecode | internal/sparse/constants.go:117-143 | the four property flags are distinct bits, so each can be tested independently |
| Words.TrailingZeros | internal/sparse/sparse.go:535 | the index of the lowest set bit: every bit below it is clear, and it is 64 exactly for the zero word |
| Words.BitLength | internal/sparse/strategies.go:517-525 | one more than the highest set bit: every bit from it up is clear, and it is 0 exactly for the zero word |
| Words.PopCount | internal/sparse/strategies.go:543 | the number of set bits of a word, 0 exactly for the zero word |
| Words.LowestFromMeaning | internal/sparse/sparse.go:420-431 | the first set bit at or after k, with all bits between clear, or 64 when there is none |
| Tree.Resized | internal/sparse/internal.go:32-66 | a level-1 array of the new length keeps the areas below both lengths; new entries are absent; areas beyond the new length are lost |
| Tree.Nullified | internal/sparse/internal.go:103-111 | every area from start on is absent; the earlier areas are kept |
| Tree.PutBlock | internal/sparse/op_set.go:11-35 | storing a block changes that block only, with the level-1 length unchanged |
| Tree.NewArea | internal/sparse/op_set.go:22-26 | making an absent area present leaves every bit as it was |
| Addressing.Decompose | internal/sparse/op_set.go:15-17 | an index splits into area, block, word and bit coordinates within bounds that compose back to it |
| Addressing.DecomposeCompose | internal/sparse/op_set.go:15-17 | composing coordinates and splitting them again gives the same coordinates back |
| Addressing.RemainderOf64 | internal/sparse/internal.go:19-21 | a non-negative index gives its bit position in its word; a negative one gives 0 or a shift of 64 or more |
| Addressing.StartMask | internal/sparse/internal.go:186-187 | the first-word mask holds exactly the bits at or after i's position |
| Addressing.EndMask | internal/sparse/internal.go:191-193 | the last-word mask holds exactly the bits of the word of j - 1 that lie below j, so it is all ones when j is a multiple of 64 |
| Addressing.HighestOneBit | internal/sparse/internal.go:23-30 | 0 for a non-positive argument; otherwise a power of two r with r <= x < 2r |
| Addressing.NewSizeMeaning | internal/sparse/internal.go:32-45 | resize picks a power of two of at most MAX_LENGTH1 entries that covers the index's area and is at most twice the areas needed |
| Addressing.RoomFor | internal/sparse/op_set.go:19-21 | an index is below the capacity of n areas exactly when its area is below n |
| Addressing.GrowTo | internal/sparse/op_set.go:19-21 | for an index beyond the capacity, resize grows the array past the index's area |
| Strategies.PropertiesDecode | internal/sparse/strategies.go:68-559 | which of the four shortcut flags each strategy claims |
| Strategies.PropertiesSound | internal/sparse/strategies.go:68-559 | every claimed flag holds of the strategy's word operation, e.g. x AND 0 = 0 and x OR 0 = x |
| Strategies.MaskedWordTable | internal/sparse/strategies.go:79-567 | each word kernel applies the strategy's bit operation inside the mask; outside it, copy clears the bit and every other kernel keeps this set's bit |
| Strategies.WordOpTable | internal/sparse/strategies.go:84-576 | each block kernel applies the strategy's bit operation to every bit of every word |
| Strategies.ReadersKeepWords | internal/sparse/strategies.go:241-255 | the reporting strategies (equals, intersects, update) never change a word |
| Strategies.MutatorsKeepAcc | internal/sparse/strategies.go:79-91 | the mutating strategies report nothing: the running result stays as it was |
| Strategies.OpWord | internal/sparse/strategies.go:79-567 | one word step: the written word, the reported result and whether the word became zero |
| Strategies.OpBlock | internal/sparse/strategies.go:84-576 | one run of words u3..v3: the written words, the reported result and whether they all became zero |
| Strategies.WriteBlock | internal/sparse/strategies.go:84-91 | the mutators' block loop writes op(a, b) to each word of the run, keeps the others, and reports zero exactly when the run became zero |
| Strategies.ClearBlock | internal/sparse/strategies.go:167-174 | the clear block loop zeroes the run and keeps the other words |
| Strategies.ReadBlock | internal/sparse/strategies.go:506-515 | the reporting block loop folds the strategy over the run and reports whether the run was zero |
| Strategies.MutatorSteps | internal/sparse/strategies.go:84-91 | a mutator's fold over any run leaves the running result unchanged |
| Statistics.Invalidate | internal/sparse/internal.go:164-166 | a stale cache is one whose statistics must be recomputed |
| Statistics.FinishEmpty | internal/sparse/strategies.go:517-525 | an empty set finishes with length, size, cardinality and count all 0 |
| Statistics.FinishedHashZero | internal/sparse/strategies.go:524 | folding the hash's halves gives 0 only for a zero hash |
| ScanSpec.ScanBits | internal/sparse/internal.go:149-405 | after a scan, each bit in [i, j) is op(this bit, the other set's bit) and each bit outside is unchanged |
| ScanSpec.ReadersKeepBits | internal/sparse/internal.go:149-405 | a scan by a reporting strategy leaves every bit unchanged |
| Content.XorTwice | internal/sparse/op_xor.go:56-58 | xor-ing the same range of the same set twice restores the original bits |
| Content.FlipTwice | internal/sparse/op_flip.go:53-55 | flipping the same range twice restores the original bits |
| Content.NullifiedContent | internal/sparse/internal.go:103-111 | after nullify(start), a bit is set exactly when it was set and lies in an area below start |
| Content.GrowContent | internal/sparse/internal.go:32-66 | growing the level-1 array keeps every bit |
| Content.CapacityBound | internal/sparse/sparse.go:218-235 | no bit is set at or beyond the capacity of the level-1 array |
| BlockScan.IsZeroBlock | internal/sparse/internal.go:10-17 | true exactly when every word of the block is zero |
| BlockScan.ProcessBlock | internal/sparse/internal.go:297-348 | one block of the scan: the block written and the result folded are those of the scan's specification, and a zero report means a zero block |
| BlockScan.FirstPartBlock | internal/sparse/internal.go:326-341 | the first block of a range: its first word is masked by um, the last word by vm when the range ends in the block, and the words between are whole |
| BlockScan.LastPartBlock | internal/sparse/internal.go:320-324 | the last block of a range: whole words below v3, then word v3 under vm, every one of them processed |
| AreaScan.SkipArea | internal/sparse/internal.go:249-258 | dropping an area that the properties decide as a whole gives the blocks the scan would have produced |
| AreaScan.SkippedBlocks | internal/sparse/internal.go:292-296 | a block the properties let the scan skip gives zero and leaves the running result unchanged |
| AreaScan.DroppedArea | internal/sparse/internal.go:385-386 | removing an area that was left with no block changes no bit |
| Census.IntersectsMeaning | internal/sparse/strategies.go:311-339 | the intersects scan of [i, j) reports true exactly when some k in [i, j) is set in both sets |
| Census.EqualsMeaning | internal/sparse/strategies.go:227-255 | the equals scan of [i, j) reports true exactly when the two sets agree on every k in [i, j) |
| Census.CacheMeaning | internal/sparse/strategies.go:482-544 | the update scan gives cardinality = the number of set bits below the capacity; length = one past the highest set bit; size = length minus the lowest set bit; count = the words in use; hash = (h >> 32) ^ h for h the documented hash of the bits, HashBelow |
| Census.HashDependsOnBits | internal/sparse/sparse.go:259-281 | the documented hash, 1234 xor-folded with word * (index + 1) over the words, depends only on which bits are set |
| Census.CountBelowZero | internal/sparse/sparse.go:345-348 | the count of set bits below n is 0 exactly when no bit below n is set |
| Census.TopBelowMeaning | internal/sparse/sparse.go:358-361 | every set bit lies below the length, and the bit just below a non-zero length is set |
| Census.LowestInMeaning | internal/sparse/sparse.go:373-376 | the bits between k and the lowest set bit are clear, and that bit is set when it exists |
| Census.StatsFold | internal/sparse/strategies.go:527-544 | folding compute over the words gives the hash of every word (a zero word, which compute never sees, adds nothing to it), the count, the cardinality and the first and last words in use |
| Iterators.NextSetUnique | internal/sparse/sparse.go:475-537 | at most one index is the next set bit at or after i |
| Iterators.NextSetIn | internal/sparse/sparse.go:475-537 | the word, block and area search returns the smallest set index >= i, or -1 when there is none |
| Iterators.NextClearIn | internal/sparse/sparse.go:387-453 | the search returns the smallest clear index >= i, or -1 when every index from i to MaxInt32 - 1 is set |
| Iterators.PrevSetIn | internal/sparse/sparse.go:619-669 | the backward search returns the largest set index <= i, or -1 when there is none |
| Iterators.PrevClearIn | internal/sparse/sparse.go:553-602 | the backward search returns the largest clear index <= i, or -1 when there is none |
| Iterators.SeekSetFrom | internal/sparse/sparse.go:505-532 | the area, block and word loop finds the first non-zero word at or after w, with every word between zero, or runs off the array |
| Iterators.SeekClearFrom | internal/sparse/sparse.go:412-435 | the loop finds the first word at or after w that is not all ones, with every word between all ones |
| Rendering.Text | internal/sparse/sparse.go:713-754 | String's loop produces the rendering Render of the set and its compaction count |
| Rendering.EntriesExact | internal/sparse/sparse.go:713-754 | an entry of the rendering covers k exactly when bit k is set |
| Rendering.EntriesAscending | internal/sparse/sparse.go:713-754 | the entries are in strictly increasing order and do not overlap |
| Rendering.EntriesRuns | internal/sparse/sparse.go:722-740 | a run longer than the compaction count is one entry "first..last" of set bits bounded by clear bits; anything else is a single index |
| Rendering.DecimalValue | internal/sparse/sparse.go:719 | the decimal text of an index reads back as that index |
| Rendering.RenderEmpty | internal/sparse/sparse.go:713-754 | the empty set renders as "{}" |
| Rendering.RenderFields | internal/sparse/sparse.go:713-754 | the text is "{", the entries, "}"; cutting the text between the braces at its commas gives back each entry's text in order, so entries are separated by exactly one "," |
| BitSets.IndexCheck | internal/sparse/sparse.go:218-221 | an index fails exactly when it is negative or MaxInt32, the values for which `i + 1 < 1` in int32 |
| BitSets.CacheOfSameBits | internal/sparse/internal.go:415-420 | the statistics statisticsUpdate caches depend only on the bits, not on how the tree stores them |
| BitSets.CachedCardinality | internal/sparse/sparse.go:765-768 | a valid cache's cardinality is the number of set bits |
| BitSets.CachedLength | internal/sparse/sparse.go:358-361 | a valid cache's length bounds every set bit, and the bit just below it is set |
| BitSets.CachedSize | internal/sparse/sparse.go:373-376 | a valid cache's size spans from the lowest set bit to the length |
| BitSets.IntersectsResult | internal/sparse/sparse.go:311-315 | the intersects result is true exactly when some bit of the range is set in both sets |
| BitSets.BitSet.constructor | internal/sparse/sparse.go:194-204 | a new set is empty, with its array sized for capacity - 1, the given compaction count and a computed cache |
| BitSets.BitSet.Nullify | internal/sparse/internal.go:103-111 | areas from start on are dropped; the cache becomes stale when one existed |
| BitSets.BitSet.Resize | internal/sparse/internal.go:32-66 | the level-1 array takes the size resize chooses, keeping every bit below the new capacity |
| BitSets.BitSet.SetScanner | internal/sparse/internal.go:149-405 | index and operand checks fail as the source panics; otherwise every block of [i, j) is written as the scan specifies and the result is folded; mutators stale the cache; update refreshes it |
| BitSets.BitSet.StoreBlock | internal/sparse/internal.go:349-377 | a zero result block is removed and a non-zero spare is inserted, growing the array or the area when needed; no other block changes |
| BitSets.BitSet.GetBit | internal/sparse/sparse.go:218-235 | bit i, false beyond the capacity or in an absent area or block; fails for a negative index or MaxInt32 |
| BitSets.BitSet.Set | internal/sparse/op_set.go:11-35 | bit i becomes set, growing the array when needed, and nothing else changes; fails as GetBit does |
| BitSets.BitSet.Clear | internal/sparse/op_clear.go:13-34 | bit i becomes clear and nothing else changes; an index beyond the capacity is a no-op |
| BitSets.BitSet.FlipBit | internal/sparse/op_flip.go:13-39 | bit i is inverted and nothing else changes |
| BitSets.BitSet.SetBit | internal/sparse/op_set.go:46-52 | bit i takes the given value |
| BitSets.BitSet.AndBit | internal/sparse/op_and.go:18-25 | bit i becomes bit i AND value; a true value changes nothing |
| BitSets.BitSet.AndNotBit | internal/sparse/op_andnot.go:18-25 | bit i becomes bit i AND NOT value; a false value changes nothing |
| BitSets.BitSet.OrBit | internal/sparse/op_or.go:18-25 | bit i becomes bit i OR value; a false value changes nothing |
| BitSets.BitSet.XorBit | internal/sparse/op_xor.go:24-31 | bit i becomes bit i XOR value; a false value changes nothing |
| BitSets.BitSet.SetRange | internal/sparse/op_set.go:65-67 | every bit of [i, j) becomes set and the others are kept; fails when j < i or i < 0 |
| BitSets.BitSet.ClearRange | internal/sparse/op_clear.go:47-49 | every bit of [i, j) becomes clear and the others are kept |
| BitSets.BitSet.SetRangeBit | internal/sparse/op_set.go:81-87 | every bit of [i, j) takes the value and the others are kept |
| BitSets.BitSet.FlipRange | internal/sparse/op_flip.go:53-55 | every bit of [i, j) is inverted and the others are kept |
| BitSets.BitSet.AndRangeBitSet | internal/sparse/op_and.go:44-46 | bits of [i, j) become this AND b, the others are kept; a nil b fails and leaves the set untouched |
| BitSets.BitSet.AndNotRangeBitSet | internal/sparse/op_andnot.go:44-46 | bits of [i, j) become this AND NOT b, the others are kept; a nil b fails |
| BitSets.BitSet.OrRangeBitSet | internal/sparse/op_or.go:45-47 | bits of [i, j) become this OR b, the others are kept; a nil b counts as empty |
| BitSets.BitSet.XorRangeBitSet | internal/sparse/op_xor.go:56-58 | bits of [i, j) become this XOR b, the others are kept; a nil b counts as empty |
| BitSets.BitSet.AndBitSet | internal/sparse/op_and.go:59-74 | every bit becomes this AND b, including the bits beyond b's capacity, which become clear |
| BitSets.BitSet.AndNotBitSet | internal/sparse/op_andnot.go:59-65 | every bit becomes this AND NOT b |
| BitSets.BitSet.OrBitSet | internal/sparse/op_or.go:60-62 | every bit becomes this OR b |
| BitSets.BitSet.XorBitSet | internal/sparse/op_xor.go:77-79 | every bit becomes this XOR b |
| BitSets.BitSet.NextSetBit | internal/sparse/sparse.go:475-537 | the smallest set index >= i, or -1 when there is none; a negative i fails |
| BitSets.BitSet.NextClearBit | internal/sparse/sparse.go:387-453 | the smallest clear index >= i, or -1 when there is none; a negative i fails |
| BitSets.BitSet.PreviousSetBit | internal/sparse/sparse.go:619-669 | the largest set index <= i, or -1 when there is none; a negative i fails |
| BitSets.BitSet.PreviousClearBit | internal/sparse/sparse.go:553-602 | the largest clear index <= i, or -1 when there is none; a negative i fails |
| BitSets.BitSet.String | internal/sparse/sparse.go:713-754 | the text is the rendering of the set's bits with its compaction count |
| BitSets.BitSet.StatisticsUpdate | internal/sparse/internal.go:415-420 | afterwards the cache is valid and holds the statistics of the bits; a valid cache is left as it was |
| BitSets.BitSet.Cardinality | internal/sparse/sparse.go:765-768 | the number of set bits |
| BitSets.BitSet.IsEmpty | internal/sparse/sparse.go:345-348 | true exactly when no bit is set |
| BitSets.BitSet.Length | internal/sparse/sparse.go:358-361 | one past the highest set bit, or 0 for the empty set |
| BitSets.BitSet.Size | internal/sparse/sparse.go:373-376 | 0 exactly for the empty set; otherwise the span from the lowest to the highest set bit, both ends set |
| BitSets.BitSet.IntersectsRangeBitSet | internal/sparse/sparse.go:311-315 | true exactly when some k in [i, j) is set in both sets; bad indices or a nil b fail; no bit and no cache change |
| BitSets.BitSet.IntersectsBitSet | internal/sparse/sparse.go:328-336 | true exactly when some k is set in both sets; a nil b fails |
| BitSets.BitSet.CopyScan | internal/sparse/strategies.go:188-208 | a copy scan into an empty set gives exactly b's bits within [i, j) |
| BitSets.BitSet.Clone | internal/sparse/internal.go:439-458 | a fresh, independent set with the same bits and compaction count |
| BitSets.BitSet.GetBitSetFromRange | internal/sparse/sparse.go:252-256 | a fresh set holding exactly this set's bits within [i, j); bad indices fail |
| BitSets.BitSet.ClearAll | internal/sparse/sparse.go:671-674 | no bit is set afterwards and the array keeps its length |
| SetOps.New | internal/sparse/sparse.go:151-153 | an empty set of one area with the default compaction count |
| SetOps.NewWithSize | internal/sparse/sparse.go:172-174 | the same as New: the capacity is ignored |
| SetOps.And | internal/sparse/op_and.go:89-93 | a fresh set whose bit k is a[k] AND b[k]; a nil operand fails |
| SetOps.AndNot | internal/sparse/op_andnot.go:83-87 | a fresh set whose bit k is a[k] AND NOT b[k] |
| SetOps.Or | internal/sparse/op_or.go:77-81 | a fresh set whose bit k is a[k] OR b[k] |
| SetOps.Xor | internal/sparse/op_xor.go:99-103 | a fresh set whose bit k is a[k] XOR b[k] |
| SetOps.XorXor | internal/sparse/op_xor.go:77-79 | xor-ing with the same set twice gives the original bits back |
| SetOps.AndNotAndSplit | internal/sparse/op_andnot.go:59-65 | a AND NOT b and a AND b are disjoint and together give a |
| Drafts.EndMaskAtWordBoundary | internal/sparse/internal.go:191-193 | as written, vm is zero when j is a positive multiple of 64, where the intended mask is all ones |
| Drafts.FirstDraftMasksBeyondFirstWord | sparse/sparse.go:1586-1592 | the first draft's unreduced shifts make um zero and vm all ones once i, j >= 64 |
| Drafts.ClearBeyondFirstWord | sparse/sparse.go:1280 | the first draft's Clear mask leaves the word unchanged once i >= 64 |
| Drafts.AndClaimsRightIdentity | internal/sparse/strategies.go:68-70 | as written, and claims "x op 0 = x", which fails for every non-zero word |
| Drafts.AndWordSetsOutsideMask | internal/sparse/strategies.go:79-82 | as written, the and word kernel sets every bit outside the mask, where the intended kernel keeps them |
| Drafts.ResizeOverAllocates | internal/sparse/internal.go:35 | as written, resize divides by 4096 and sizes index 70000 for 32 areas instead of 2 |
| Drafts.FirstDraftResizeTooSmall | sparse/sparse.go:1348-1391 | the first draft's highestOneBit is always 0, so resize never exceeds 2 areas |
| Drafts.StartWordNeverSearched | sparse/sparse.go:732 | the first draft's NextClearBit masks its first word with zero, so a clear bit there is never found |
| Drafts.StaleClearWord | internal/sparse/sparse.go:412-435 | as written, NextClearBit answers 2112 for a set where 2048 is the next clear bit |
| Drafts.StaleSetWord | internal/sparse/sparse.go:505-532 | as written, NextSetBit skips the set bit 2048 and answers 2432 |
| Drafts.OperandNeverRead | sparse/sparse.go:1600-1605 | the first draft's scanner never reads the operand set and treats it as empty |
| Drafts.ShortCircuitSkipsLastWord | internal/sparse/internal.go:320-341 | as written, a zero-free block result stops `&&` from processing the last word of the range |
| Drafts.UpdateWordLost | sparse/sparse.go:2572-2579 | the first draft's update word kernel has a value receiver, so the statistics it computes are lost |
| Drafts.SizeOfSingleton | internal/sparse/strategies.go:523 | as written, size uses the leading zeros of the first word and gives -62 for {0} instead of 1 |
| Drafts.FlipLostInAbsentArea | internal/sparse/op_flip.go:26-31 | as written, FlipBit on an absent area never stores the new area, so the bit is not flipped |
| Drafts.SetAcceptsMaxInt32 | internal/sparse/op_set.go:12 | as written, Set checks only i < 0 and accepts MaxInt32, which every other index check rejects |
| Drafts.ClonePanics | internal/sparse/internal.go:442 | reflect.Copy on struct values panics, so clone never returns |

## Left out

- `Statistics` and `StatisticsAll` (the text reports) are not modelled. Neither are the `a2Count`/`a3Count` counters, which only those reports read.
- Panics are modelled as a `Fail` outcome or an `Err` result that leaves the set untouched. The panic texts are not modelled.
- Memory reuse is not modelled: the spare block is the zero block, and a fresh spare replaces it. Nothing models aliasing between sets; `b` is read as a value taken before the operation, which equals the Go behaviour when `b` is this set too.
- The first draft forces `isZero = false` in the set, update and xor block kernels (sparse/sparse.go:2485, 2589, 2650). This only keeps zero blocks allocated and changes no bit, so it is not modelled.
- hashCode is commented out (internal/sparse/sparse.go:287-292), so the hash has no public entry point. The model states the cached hash only, through Census.CacheMeaning and Census.HashDependsOnBits.
- The cache has an explicit `valid` flag in place of "hash == 0 means stale". A genuine hash of 0 makes the Go recompute on every query; the results are the same.
- BitSets.BitSet.String follows the code's "," separator (internal/sparse/sparse.go:745-747). The documentation at internal/sparse/sparse.go:684 says ", ".
- SetOps.NewWithSize ignores its capacity, as the code does (internal/sparse/sparse.go:172-174); the documentation promises a sized set.
- The Previous* methods fail for every negative i, following the code (internal/sparse/sparse.go:554 and 620). Java's SparseBitSet returns -1 for i == -1.
- Drafts.SeekClearAsWritten and Drafts.NextSetAsWritten compute positions on unbounded integers. They do not wrap to int32, which only matters past the last area.
- Draft defects that stop the packages from compiling are outside the model. internal/sparse/op_set.go has no package clause. internal/sparse/constants.go declares LENGTH4, SHIFT3 and the other constants without the `c` prefix that the other files use.
- Equals has no public entry point in the internal draft (internal/sparse/sparse.go:62 has it commented out). Only the strategy is modelled, by Census.EqualsMeaning.
- Words: a word is a sequence of 64 booleans, not a machine integer. The hash's wrapping multiply is written out bit by bit.

## Findings

| source | as written | input that shows it | evidently intended | confidence | as-written member | corrected member |
|---|---|---|---|---|---|---|
| internal/sparse/internal.go:193 | `vm := ^(^0 << remainderOf64(j))` is 0 when j % 64 == 0 | SetRange(0, 64) sets nothing | vm all ones, so word (j-1)/64 is taken whole | not executed | Drafts.EndMaskAtWordBoundary | Addressing.EndMask |
| sparse/sparse.go:1586-1592 | um and vm shift by i and j unreduced; Go gives 0 for shifts >= 64 | SetRange(64, 66) sets nothing | shift by i % 64 and j % 64 | not executed | Drafts.FirstDraftMasksBeyondFirstWord | Addressing.StartMask |
| sparse/sparse.go:1280 | Clear's mask is `^(1 << i)` with i unreduced | Set(64) then Clear(64) leaves bit 64 set | `^(1 << (i % 64))` | not executed | Drafts.ClearBeyondFirstWord | BitSets.BitSet.Clear |
| internal/sparse/strategies.go:68-70 | and's properties are F_OP_F_EQ_F + X_OP_F_EQ_F + X_OP_F_EQ_F = 9, which claims x AND 0 = x | this = {100000}, b with block 48 absent, AndRangeBitSet(0, 200000, b) keeps 100000 | F_OP_F_EQ_F + F_OP_X_EQ_F + X_OP_F_EQ_F | not executed | Drafts.AndClaimsRightIdentity | Strategies.PropertiesSound |
| internal/sparse/strategies.go:79-82 | `a3[u3]&b3[u3] \| ^mask` sets every bit outside the mask (also sparse/sparse.go:2151) | this = {0}, b = {0}, AndRangeBitSet(0, 1, b) sets bits 1..63 | `a3[u3] & (b3[u3] \| ^mask)` | not executed | Drafts.AndWordSetsOutsideMask | Strategies.MaskedWordTable |
| internal/sparse/internal.go:35 | resize computes the area as `(index >> 6) >> 6`, a shift by 12 | Set(70000) makes a level-1 array of 32 entries | shift by 16, giving 2 entries | not executed | Drafts.ResizeOverAllocates | Addressing.NewSizeMeaning |
| sparse/sparse.go:1348-1355 | highestOneBit tests the named result, which is still 0, and always returns 0 | Set(196608) sizes the array for 2 areas, too few for area 3 | test the bit length, as internal/sparse/internal.go:25 does | not executed | Drafts.FirstDraftResizeTooSmall | Addressing.HighestOneBit |
| sparse/sparse.go:732 | NextClearBit masks its first word with `0 << i`, which is zero | {1}: NextClearBit(0) returns 64 | mask `^0 << (i % 64)`, returning 0 | not executed | Drafts.StartWordNeverSearched | BitSets.BitSet.NextClearBit |
| internal/sparse/sparse.go:412-435 | on an absent area or block, the loop breaks with the stale nword of the last full word (also sparse/sparse.go:738-755) | bits 1920..2047 set: NextClearBit(1920) returns 2112 | an absent area or block is clear, giving 2048 | not executed | Drafts.StaleClearWord | BitSets.BitSet.NextClearBit |
| internal/sparse/sparse.go:505-532 | an absent area keeps w2 and w3, an absent block keeps w3 (also sparse/sparse.go:838-847) | {2048, 2432}: NextSetBit(320) returns 2432 | reset w2 and w3 to 0 when moving on, giving 2048 | not executed | Drafts.StaleSetWord | BitSets.BitSet.NextSetBit |
| sparse/sparse.go:1600-1605 | `if b1 != nil { b1 = b.bits }` tests the nil local, so the operand is never read | this = {}, b = {5}: OrBitSet(b) leaves this empty | `if b != nil` | not executed | Drafts.OperandNeverRead | BitSets.BitSet.OrRangeBitSet |
| internal/sparse/internal.go:320-341 | `isZero = isZero && op.word(...)` skips the word kernel once isZero is false (also sparse/sparse.go:1718-1736) | SetRange(2048, 2113) leaves bit 2112 clear | run every kernel, then combine the results | not executed | Drafts.ShortCircuitSkipsLastWord | BlockScan.FirstPartBlock |
| sparse/sparse.go:2572-2579 | the update word kernel has a value receiver, so compute updates a copy | {65535} in a 65536-bit set: Cardinality() returns 0 | a pointer receiver, as internal/sparse/strategies.go:497 has | not executed | Drafts.UpdateWordLost | BitSets.BitSet.Cardinality |
| internal/sparse/op_flip.go:26-31 | a new area is made for an absent level-1 entry but never stored in bits[w1] (also sparse/sparse.go:487-490) | New(), FlipBit(5): bit 5 stays clear | store the new area, as Set does | not executed | Drafts.FlipLostInAbsentArea | BitSets.BitSet.FlipBit |
| internal/sparse/strategies.go:523 | size subtracts the leading zeros of the first word (also sparse/sparse.go:2599) | {0}: Size() returns -62 | subtract the trailing zeros, giving 1 | not executed | Drafts.SizeOfSingleton | BitSets.BitSet.Size |
| internal/sparse/op_set.go:12 | Set checks only `i < 0` | Set(MaxInt32) is accepted | `(i + 1) < 1`, as every other index check has | not executed | Drafts.SetAcceptsMaxInt32 | BitSets.BitSet.Set |
| internal/sparse/internal.go:442 | `reflect.Copy` of two struct values panics (also sparse/sparse.go:1330) | any clone() | copy the struct, then deep-copy the tree | not executed | Drafts.ClonePanics | BitSets.BitSet.Clone |
