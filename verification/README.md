# Spora, verified

A Dafny model of the parts of the Spora node that carry real proof obligations, with the properties those
parts are relied on for. `dafny verify dfyconfig.toml` checks everything.

- **Big integers.** The types that `construct_uint!` generates are limb arrays; `Limbs.Val` is the number they
  denote. Addition, subtraction, shifts, multiplication, both divisions, comparison, bit length, conversion to
  `f64`, decimal and hexadecimal text are each proved, for every number of limbs, to do what their numbers do.
  `Arith.Times(x, y)` is `x * y` (`Arith.TimesIs`) and `Limbs.Scale(x, k)` is `x` moved up `k` limbs.
- **Compact targets.** The 32-bit encoding of a 256-bit target, both ways.
- **The cell transaction pool.** `PoolLedger` says what the pool does on the list of its entries in insertion order;
  `CellPool` is the mutable pool with its spent-output index, dependency links and statistics, and every method is
  proved to follow the list. `PoolGraph` holds the dependency graph.
- **The live-cell state tree.** `CommutativeGroup` and `MuHash` are the accumulator, `CellEntries` the committed
  serialization, `StateRoot` the root as a function of the live cells, `CellStateTree` the mutable tree,
  `CellPaging` the page-by-page enumeration, `CellDiffs` the diffs between states and their composition, and
  `TreeRewind` the tree moved along a chain of diffs and back.
- **Cached database access.** `Keyspace` has keys, their order and prefix ranges; `TypedStore` reads and writes values
  through them; `Cache` is the randomly evicting cache; `CacheRuns` says what whole runs of reads, writes, deletes,
  evictions and commits do; `CachedAccess` and `SetAccess` are the mutable accesses with direct or batched writes, and
  every method of `CachedAccess` is proved to be a step of a run.
- **Three algorithms.** The deterministic replay order of a block DAG (`TopologicalOrder`), the two-resource
  transaction chunker (`Chunker`) and the broadcasting plan (`Broadcaster`).

Random choices (which cache item is evicted, in which order a hash map is walked, how a send ends) are left open, so
the statements hold for every choice. Hash functions, the MuHash group, codecs and size estimators are parameters;
what is assumed of them is stated where they are used: group laws, decoding undoes encoding, no hash collision among
the outpoints at hand. Each public call is one atomic step. A panic is the value `Panicked`.

These properties turn out to hold only under a condition, which is stated and proved exact; where the failure is not
plain from the condition, a lemma shows it on given inputs:

- The overflow flag of the full multiplication misses overflows that come from skipped limb products
  (`UintMul.OverflowingMul`, `UintMul.FlagIsExactIff`, `UintMul.FlagMissesOverflow`).
- Converting a big integer to a double is correct exactly up to 2^1024 + 2^971; beyond that the exponent field runs past
  infinity (`UintFloat.AsF64`).
- A replacement whose conflict list names an entry twice fails after it has removed entries (`PoolLedger.AtomicIff`,
  `PoolLedger.ReplacementLosesEntry`, `PoolLedger.EntryLostInPoolOfFive`).
- Transactions that compete for an output are order-independent only with room for two entries
  (`PoolLedger.OrderMattersIff`, `PoolLedger.FullPoolKeepsWorseOffer`).
- Composing two cell diffs loses the new contents of a cell that is consumed and created again
  (`CellDiffs.CompositionIff`, `CellDiffs.CompositionKeepsStaleCell`); the comment at the branch calls this a net no-op.
- A cache miss between staging a batch and committing it can bring a value into the cache that the commit then
  invalidates (`CachedAccess.CachedDbAccess.Read`, `CacheRuns.StaleAfterCommit`).
- The buckets of a set store are isolated exactly when no key's bytes begin another's (`SetAccess.IsolationIff`,
  `SetAccess.UnequalKeysCollide`).
- The replay order exists exactly when the start block reaches no cycle; otherwise the ordering panics
  (`TopologicalOrder.TopologicallyOrderedHashes`).

## Model

| member | source | states |
|---|---|---|
| Limbs.Bits | math/src/uint.rs:52-59 | the bit count is the bit length of the number, found from the highest nonzero limb |
| Limbs.CmpIsNumeric | math/src/uint.rs:517-525 | comparing limbs from the top is comparing numbers, and equal numbers have equal limbs |
| UintAddSub.OverflowingAdd | math/src/uint.rs:112-127 | the sum modulo the width, and the carry flag exactly on overflow |
| UintAddSub.CarryingAddWord | math/src/uint.rs:115-119 | one column of the carry chain is exact; at most one of its two additions overflows |
| UintAddSub.OverflowingSub | math/src/uint.rs:143-159 | the difference modulo the width, and the borrow flag exactly when it is negative |
| UintAddSub.BorrowingSubWord | math/src/uint.rs:146-150 | one column of the borrow chain is exact |
| UintShift.OverflowingShl | math/src/uint.rs:67-84 | multiplication by the power of two of the shift reduced modulo the width, truncated to the width; the flag tells a shift of at least the width |
| UintShift.OverflowingShr | math/src/uint.rs:92-109 | division by the power of two of the reduced shift; the flag tells a shift of at least the width |
| UintMul.CarryingMulWord | math/src/uint.rs:181-190 | limbs and carry together are the exact product |
| UintMul.MulAddWords | math/src/uint.rs:201-203 | a word product plus two words never exceeds 128 bits |
| UintMul.OverflowingMul | math/src/uint.rs:193-209 | the limbs are the product modulo the width; the flag is raised exactly when the visited limb products reach the width, and the product overflows exactly when it is raised or a skipped limb product is not zero |
| UintMul.FlagIsSound | math/src/uint.rs:193-209 | a raised flag means the product overflows |
| UintMul.FlagIsExactIff | math/src/uint.rs:193-209 | the flag tells overflow exactly when it is raised or no nonzero limb product was skipped |
| UintMul.FlagMissesOverflow | math/src/uint.rs:200-206 | two limbs suffice for an overflow the flag misses |
| UintMul.SkippedZero | math/src/uint.rs:200-206 | nothing is skipped exactly when every limb pair beyond the width has a zero |
| UintDiv.DivRemWord | math/src/uint.rs:262-270 | quotient and remainder by a word: n = q*d + r with r < d; a zero divisor panics |
| UintDiv.DivRem | math/src/uint.rs:310-343 | n = q*d + r with r < d for every nonzero divisor; a zero divisor panics |
| UintDiv.QuotientUnique | math/src/uint.rs:310-343 | the returned pair is the Euclidean quotient and remainder |
| UintDiv.AlignDivisor | math/src/uint.rs:326-328 | the divisor aligned with the dividend loses no bit and exceeds half the dividend |
| UintDiv.LongDivide | math/src/uint.rs:329-341 | every round keeps n = q*d + rest, and the rest ends below the divisor |
| UintFloat.LastIs | math/src/uint.rs:297-305 | the last value that is converted correctly is 2^1024 + 2^971 |
| UintFloat.UnitsIs | math/src/uint.rs:273-306 | rounding is judged on the number in units of 2^-1074, the least positive double |
| UintFloat.PatternOfOne | math/src/uint.rs:273-306 | the pattern of the double 1.0 stands for one in these units |
| UintFloat.AsF64 | math/src/uint.rs:273-306 | the nearest double, ties to even, for every number of at most 1024 bits; for all the types built (48 limbs at most) exactly for the numbers up to 2^1024 + 2^971 |
| UintFloat.FloatCorrect | math/src/uint.rs:297-305 | adding exponent and rounded mantissa as integers gives the correctly rounded pattern, also when the mantissa carries into the exponent |
| UintFloat.NeighbourIsNearest | math/src/uint.rs:273-306 | picking the neighbour by the dropped bits is round-to-nearest-even of section 4.3.1 of IEEE 754-2008 |
| UintFloat.OverflowIsInfinity | math/src/uint.rs:273-306 | from 2^1024 on, infinity is the only correct result |
| UintFloat.SplitMantissa | math/src/uint.rs:280-297 | the highest dropped bit and the OR of the rest decide rounding as the dropped part against half a gap |
| UintDisplay.Display | math/src/uint.rs:763-819 | the text has only digits and no leading zero, and parses back to the number |
| UintDisplay.DisplayQuads | math/src/uint.rs:773-791 | the division loop never moves its cursor below zero in the buffer of 20 characters a limb |
| UintDisplay.BufferSuffices | math/src/uint.rs:773 | a number of n limbs has at most 20*n decimal digits |
| UintDisplay.GreaterEqualWordIs | math/src/uint.rs:479-489 | comparing with a word is comparing numbers |
| UintHex.ToBeBytesValue | math/src/uint.rs:245-252 | the big-endian bytes read in base 256 are the number |
| UintHex.FromBeBytesValue | math/src/uint.rs:225-232 | limbs from big-endian bytes denote the bytes' number |
| UintHex.LowerHexIsMinimal | math/src/uint.rs:749-760 | the hexadecimal text denotes the number, is in lower case and has no leading zero |
| UintHex.FromHexReads | math/src/uint.rs:411-421 | exactly the hexadecimal strings that fit are read, as their number; longer ones are a length error with their length, all others a character error |
| UintHex.HexRoundTrip | math/src/uint.rs:411-421 | reading what is printed gives the same limbs |
| CompactTarget.CompactTargetBits | math/src/lib.rs:86-101 | the encoder computes the byte count and the three-byte mantissa of the target |
| CompactTarget.FromCompactTargetBits | math/src/lib.rs:64-82 | the decoder computes the target its bits stand for |
| CompactTarget.CompactParts | math/src/lib.rs:86-101 | an encoding fits 32 bits and never sets the sign bit of its mantissa |
| CompactTarget.CompactMeans | math/src/lib.rs:86-101 | m * 256^k with m of 16 to 23 bits is encoded as m below the byte count k + 3 |
| CompactTarget.CompactSmall | math/src/lib.rs:86-101 | a smaller target is moved up by j bytes and gets the byte count 3 - j |
| CompactTarget.ExpandMeans | math/src/lib.rs:64-82 | every 32-bit word as its number: bytes dropped up to an exponent of three, a wrapping power of 256 above it, zero for a mantissa with its sign bit set |
| CompactTarget.CodecRoundTrip | math/src/lib.rs:64-101 | decoding an encoding gives y <= x with (x - y) * 2^15 <= x, and encodes to the same bits |
| CompactTarget.CodecIsMonotone | math/src/lib.rs:64-101 | larger targets never decode to smaller ones |
| CompactTarget.ExpandCompact | math/src/lib.rs:64-101 | decode after encode truncates the target to its mantissa |
| PoolLedger.BeatsMeans | mempool/src/cellpool.rs:43-71 | the key order is higher fee density, then higher blue score, a missing one counting as zero, then smaller id |
| PoolLedger.ConflictsAre | mempool/src/cellpool.rs:260-271 | the conflicts of a transaction are the entries that spend one of its inputs |
| PoolLedger.ConflictsConcat | mempool/src/cellpool.rs:260-271 | conflicts are listed input by input |
| PoolLedger.ConflictsOfOne | mempool/src/cellpool.rs:260-271 | an input that an entry spends lists that entry once |
| PoolLedger.RepeatsMean | mempool/src/cellpool.rs:260-271 | a conflict is listed twice exactly when an entry spends the outputs of two inputs |
| PoolLedger.NoConflictAfterRemoval | mempool/src/cellpool.rs:324-331 | once the conflicts are removed nothing conflicts, so the re-add recurses at most once |
| PoolLedger.ReAddAppends | mempool/src/cellpool.rs:324-331 | the re-add after the removals always succeeds and appends |
| PoolLedger.ReplacementOutcome | mempool/src/cellpool.rs:278-332 | removing the beaten conflicts one by one and adding again is the replacement, and stops at the first conflict already gone |
| PoolLedger.OfferDecides | mempool/src/cellpool.rs:134-199 | an offer on the fields of the entries: the four refusals in their order and when each happens; otherwise exactly the entries that share an output leave, the others keep their order, the offer enters last, and all counters follow |
| PoolLedger.BlueScoreBreaksTie | mempool/src/cellpool.rs:43-71 | of two offers for one output with equal fee density the one with the higher blue score stays, whichever came first |
| PoolLedger.RemoveIsCut | mempool/src/cellpool.rs:202-236 | removing an entry cuts it out of the list and keeps the order of the others |
| PoolLedger.DropAllOutcome | mempool/src/cellpool.rs:324-327 | removing a conflict list gets as far as its first repetition |
| PoolLedger.AtomicIff | mempool/src/cellpool.rs:278-332 | a refused offer leaves the pool unchanged exactly when it is known, the pool is full, some conflict is not beaten, or no conflict is listed twice |
| PoolLedger.ReplacementLosesEntry | mempool/src/cellpool.rs:278-332 | in a pool with room, any better offer for the same two outputs of a sole entry is refused and leaves the pool empty |
| PoolLedger.EntryLostInPoolOfFive | mempool/src/cellpool.rs:278-332 | the same at one offer to an empty pool of limit five, and a second that pays twice the fee |
| PoolLedger.AddKeepsSound | mempool/src/cellpool.rs:134-199 | an offer keeps distinct ids, no double spend, the size limit and added - removed = live |
| PoolLedger.RunKeepsSound | mempool/src/cellpool.rs:134-236 | every pool reachable by offers and removals is sound, also after a replacement that fails midway |
| PoolLedger.BestOfferWins | mempool/src/cellpool.rs:134-152 | with room for two, offers that compete for one outpoint leave exactly the best one in the pool |
| PoolLedger.ArrivalOrderIrrelevant | mempool/src/cellpool.rs:278-332 | and their arrival order does not matter |
| PoolLedger.FirstOfferStays | mempool/src/cellpool.rs:142-152 | with room for one, the first offer stays, since a full pool refuses before it looks at conflicts |
| PoolLedger.OrderMattersIff | mempool/src/cellpool.rs:134-152 | the outcome is independent of the order exactly when there is room for two |
| PoolLedger.FullPoolKeepsWorseOffer | mempool/src/cellpool.rs:142-152 | an empty pool of limit one keeps whichever of two competing offers comes first, better or not |
| PoolGraph.EdgesAreMutual | mempool/src/cellpool.rs:158-190 | dependencies and dependents are the two readings of the same edges |
| PoolGraph.DependencyIff | mempool/src/cellpool.rs:335-350 | an entry depends on another exactly when that one came before it and one of its inputs names that one's transaction |
| PoolGraph.ChildrenInOrder | mempool/src/cellpool.rs:183-188 | dependents are listed in insertion order |
| PoolGraph.ParentsComeFirst | mempool/src/cellpool.rs:335-350 | every dependency was inserted before its dependent |
| PoolGraph.NoDependencyCycle | mempool/src/cellpool.rs:335-350 | no entry depends on itself, however indirectly |
| CellPool.SpentIndexIsExact | mempool/src/cellpool.rs:158-190 | an outpoint is indexed under w exactly when w is live and spends it |
| CellPool.LinksAreMutual | mempool/src/cellpool.rs:158-190 | dependency lists mirror each other, name live entries only and never repeat one |
| CellPool.OrderIsTopological | mempool/src/cellpool.rs:158-190 | the map's own order lists every dependency before its dependent |
| CellPool.SpendInputs | mempool/src/cellpool.rs:178-181 | every input of a new transaction becomes indexed, and nothing else changes |
| CellPool.TotalsAppend | mempool/src/cellpool.rs:192-196 | the totals grow by the size and the fee of a new entry |
| CellPool.ReleaseInputs | mempool/src/cellpool.rs:209-212 | every input of a removed transaction is forgotten, and nothing else |
| CellPool.LinkToParents | mempool/src/cellpool.rs:183-188 | exactly the live parents gain the new dependent |
| CellPool.UnlinkNeighbours | mempool/src/cellpool.rs:214-227 | exactly the neighbours lose the removed id |
| CellPool.ScanProducers | mempool/src/cellpool.rs:335-350 | one pass finds exactly the entries an outpoint refers to |
| CellPool.CellPool.CheckConflicts | mempool/src/cellpool.rs:260-271 | the holders of the inputs, in input order, repetitions included |
| CellPool.CellPool.FindDependencies | mempool/src/cellpool.rs:335-350 | the producers of the inputs, each once, in ascending order |
| CellPool.CellPool.Remove | mempool/src/cellpool.rs:202-236 | the entry leaves all indexes and statistics follow, or the error leaves the pool alone |
| CellPool.CellPool.AddWithBlueScore | mempool/src/cellpool.rs:134-199 | the mutable pool does what the list says in every branch and stays valid |
| CellPool.CellPool.AddPlain | mempool/src/cellpool.rs:127-129 | the same without a blue score |
| CellPool.CellPool.TryReplaceByFee | mempool/src/cellpool.rs:278-332 | replacement on the mutable pool ends as on the list, and its recursion ends |
| CellPool.CellPool.BeatsEvery | mempool/src/cellpool.rs:307-320 | the comparison loop answers whether every conflict is beaten |
| CellPool.CellPool.RemoveEach | mempool/src/cellpool.rs:324-327 | the removal loop stops at the first conflict that is missing |
| MuHash.ValueAfter | crypto/muhash/src/lib.rs:52-103 | adding multiplies the value, removing divides it, normalizing keeps it |
| MuHash.AddAndRemoveCancel | crypto/muhash/src/lib.rs:26-30 | an element added and removed, in either order, leaves no trace |
| MuHash.RunValue | crypto/muhash/src/lib.rs:59-70 | the value is the product of what was added over what was removed, whatever the order |
| MuHash.BalancedHistoriesAgree | crypto/muhash/src/lib.rs:26-30 | histories whose additions and removals balance finalize alike |
| MuHash.CombineIsConcatenation | crypto/muhash/src/lib.rs:87-90 | combining two accumulators is adding all elements of one to the other |
| CellEntries.SerializeIsCommitment | state/src/cell_tree.rs:81-111 | two entries serialize alike exactly when their committed fields agree |
| CellEntries.SerializedByte | state/src/cell_tree.rs:81-111 | every byte at its offset: integers little-endian, hashes in byte order, a flag before the optional type hash, a flag last |
| CellEntries.PreimageParts | state/src/cell_tree.rs:114-120 | the entry is hashed behind its tag, the leaf behind its own tag, outpoint hash first |
| CellEntries.ResolvedMetadata | state/src/cell_tree.rs:73-78 | attaching scripts and data sets just those and keeps the commitment |
| CellEntries.LeafHashIgnoresMetadata | state/src/cell_tree.rs:73-78 | attached scripts and data never change the leaf hash |
| CellEntries.LeafHashBinds | state/src/cell_tree.rs:256-263 | equal leaf hashes mean equal keys and committed fields, or the digest collides on the two leaf preimages or on the two serialized entries |
| StateRoot.SameCommitmentSameRoot | state/src/cell_tree.rs:73-120 | states that agree in the committed fields have the same root |
| StateRoot.ContentInsert | state/src/cell_tree.rs:181-192 | the accumulated content is the unit for no cell, and a new cell multiplies in the element of the leaf hash of its key and entry |
| StateRoot.RootOfOne | state/src/cell_tree.rs:256-279 | the root of one cell is the final digest of the element of the digest of its leaf preimage |
| StateRoot.RootBinds | state/src/cell_tree.rs:256-279 | states that differ in the committed fields of one cell have different roots, or a named pair collides |
| StateRoot.AccumulatorInsert | state/src/cell_tree.rs:181-192 | dividing by the old leaf and multiplying by the new one keeps the accumulator at the product of the live leaves |
| StateRoot.AccumulatorRemove | state/src/cell_tree.rs:220-233 | dividing by the removed leaf does too |
| StateRoot.RootFromScratch | state/src/cell_tree.rs:265-279 | adding the live leaves to an empty accumulator in any order gives the root |
| CellStateTree.CellStateTree.constructor | state/src/cell_tree.rs:169-178 | an empty tree is valid |
| CellStateTree.CellStateTree.Insert | state/src/cell_tree.rs:181-191 | the cell is replaced, outpoints stay, all maps, accumulator and cached root stay consistent |
| CellStateTree.CellStateTree.InsertWithOutpoint | state/src/cell_tree.rs:194-217 | the cell and its outpoint are stored, and a key that held the outpoint before loses its cell |
| CellStateTree.CellStateTree.Remove | state/src/cell_tree.rs:220-233 | the cell and its outpoint are gone and returned |
| CellStateTree.CellStateTree.Clear | state/src/cell_tree.rs:281-288 | the tree is empty and valid |
| CellStateTree.CellStateTree.Root | state/src/cell_tree.rs:269-278 | cached or not, the root is a function of the live cells alone |
| CellStateTree.InsertIndex | state/src/cell_tree.rs:195-207 | the two outpoint maps stay exact inverses, and at most one other key is evicted |
| CellPaging.AscendingIsIncreasing | state/src/cell_tree.rs:296-300 | iteration lists every key once in increasing order |
| CellPaging.BeforeIsByteOrder | exec/src/celltx/types.rs:827-836 | outpoints are ordered by their 32 hash bytes, first byte first, and then by index |
| CellPaging.IterationIsComplete | state/src/cell_tree.rs:296-300 | for every anchor, skipped or not: every indexed cell from there on appears once with its hash and entry, ascending by outpoint, and nothing else |
| CellPaging.IterationContinues | state/src/cell_tree.rs:303-322 | iterating past the last outpoint seen yields exactly the rest |
| CellPaging.NextPage | consensus/src/consensus/mod.rs:234-249 | a page continues where the last one ended, and only the final page is short |
| CellPaging.SendPages | protocol/flows/src/v5/request_pruning_point_cell_set.rs:43-85 | for every page size the pages together are every indexed cell once in ascending order |
| CellDiffs.RevertIff | consensus/core/src/cell_diff.rs:251-266 | undoing a diff restores the state exactly when the diff fits it |
| CellDiffs.AppliedAt | consensus/core/src/cell_diff.rs:251-266 | applying a diff cell by cell |
| CellDiffs.WithDiffInPlace | consensus/core/src/cell_diff.rs:268-300 | folding one diff into another fails exactly on a double removal or a double addition, and otherwise gives the composed diff in any iteration order |
| CellDiffs.Fold | consensus/core/src/cell_diff.rs:268-300 | one of the two loops: cells on both sides cancel, a cell already on the target side is the error, the others join it |
| CellDiffs.ComposableMeans | consensus/core/src/cell_diff.rs:268-300 | composing fails exactly when a cell is consumed twice or created twice with nothing in between |
| CellDiffs.ComposedAt | consensus/core/src/cell_diff.rs:268-300 | the composed diff cell by cell, contents included |
| CellDiffs.CompositionIsDefined | consensus/core/src/cell_diff.rs:246-248 | merging diffs that fit one after the other never fails |
| CellDiffs.CompositionFits | consensus/core/src/cell_diff.rs:268-300 | the composed diff again fits the base and creates and consumes disjoint cells |
| CellDiffs.CompositionAgrees | consensus/core/src/cell_diff.rs:268-300 | it leads to the right set of cells, with the right contents wherever the base had none |
| CellDiffs.CompositionIff | consensus/core/src/cell_diff.rs:285-298 | it equals doing one diff after the other exactly when no base cell is created again with other contents |
| CellDiffs.CompositionKeepsStaleCell | consensus/core/src/cell_diff.rs:287-290 | a cell consumed and created again keeps its old contents |
| CellDiffs.ReversalCancels | consensus/core/src/cell_diff.rs:304-306 | a diff followed by its reversal composes to the empty diff |
| CellDiffs.RewindRestores | consensus/src/consensus/mod.rs:251-287 | undoing a chain of fitting diffs from the top gives back its base |
| CellDiffs.ChainKeepsBase | consensus/core/src/cell_diff.rs:246-300 | a whole chain composes, to the chain's result except that base cells live at the end keep their old contents |
| CellDiffs.FromCollectionsIff | consensus/core/src/cell_diff.rs:316-334 | the difference of two states leads from one to the other exactly when they agree on shared cells |
| TreeRewind.ViewDetermines | consensus/src/consensus/mod.rs:156-165 | a tree keyed by outpoint hashes is determined by its cells by outpoint |
| TreeRewind.SameViewSameRoot | consensus/src/consensus/mod.rs:251-287 | trees that hold the same cells have the same root, whatever led to them |
| TreeRewind.ApplyCellDiff | consensus/src/pipeline/virtual_processor/cell_processing.rs:237-247 | the tree ends up holding the cells of the applied diff |
| TreeRewind.RevertCellDiff | consensus/src/consensus/mod.rs:180-194 | the tree ends up holding the cells of the reverted diff |
| TreeRewind.SelectedChainCellTree | consensus/src/consensus/mod.rs:251-288 | walking the chain down gives the cells of the block it ends at |
| TopologicalOrder.FindReachable | simpa/src/main.rs:508-519 | the search finds exactly the strict descendants |
| TopologicalOrder.CountParents | simpa/src/main.rs:521-536 | every reachable block gets the count of its filtered parent list, and the ready blocks are those with none |
| TopologicalOrder.CountIsSize | simpa/src/main.rs:524-530 | that count is the number of reachable parents other than the start block |
| TopologicalOrder.LowerCounters | simpa/src/main.rs:541-550 | releasing a block's children lowers exactly their counters and readies exactly those that reach zero; it panics exactly when one of them is zero already |
| TopologicalOrder.Released | simpa/src/main.rs:538-550 | a counter plus the parents that are out stays what the counter started from |
| TopologicalOrder.ZerosAreReady | simpa/src/main.rs:538-550 | unless a cycle leads back to the start block, a counter is zero exactly when no reachable parent is missing |
| TopologicalOrder.NeverAllOut | simpa/src/main.rs:524-552 | if one does, the start block is taken off a counter it was never in, so not every block gets out |
| TopologicalOrder.SomethingReady | simpa/src/main.rs:538-552 | while a block is missing and none lies on a cycle some block is ready |
| TopologicalOrder.OrderForbidsCycle | simpa/src/main.rs:538-552 | an order with all blocks and parents first leaves no room for a cycle |
| TopologicalOrder.GreedyIsLeast | simpa/src/main.rs:538-539 | taking the least ready block gives the lexicographically least order |
| TopologicalOrder.TopologicallyOrderedHashes | simpa/src/main.rs:508-553 | it returns exactly when no cycle is reachable from the start block, and then each strict descendant once, parents first, the least such order; otherwise a counter underflows or the length assertion fails |
| CacheSizes.ItemFits | database/src/cache.rs:61-112 | subtracting an item's size never underflows |
| Cache.Cache.constructor | database/src/cache.rs:33-41 | an empty cache is valid under every policy, and has the limits its policy names |
| Cache.Cache.TrackedEvict | database/src/cache.rs:61-68 | eviction ends, meets the policy, keeps the size equal to the sum, and does nothing when the policy is met |
| Cache.Cache.Insert | database/src/cache.rs:70-84 | everything an insertion can lead to and nothing else: by size, evictions only while the limit is passed; by count, one item gives way in a full cache and the new one is kept |
| Cache.Cache.InsertMany | database/src/cache.rs:164-172 | everything inserting the pairs one by one can lead to; with room for all of them the cache is exactly the assigned map |
| Cache.InsertedOne | database/src/cache.rs:70-84 | what every insertion guarantees: nothing else comes in, a count-bounded cache keeps the item, and with room nothing goes |
| Cache.LastIsKept | database/src/cache.rs:164-172 | a count-bounded cache keeps the last pair inserted |
| Cache.UpdatedLast | database/src/cache.rs:164-172 | the last pair of a key decides |
| Cache.UpdatedOther | database/src/cache.rs:164-172 | and a key without a pair keeps what it had |
| Cache.WithoutIs | database/src/cache.rs:191-199 | exactly the listed keys are gone |
| Cache.Cache.UpdateIfEntryExists | database/src/cache.rs:86-100 | an item is changed in place if present, and the policy is met again |
| Cache.Cache.Remove | database/src/cache.rs:102-112 | exactly the item leaves, with its size |
| Cache.Cache.RemoveMany | database/src/cache.rs:191-199 | exactly the listed items leave |
| Cache.Cache.RemoveAll | database/src/cache.rs:201-210 | the cache is empty and its size zero |
| Keyspace.BucketKey | database/src/key.rs:19-49 | a bucketed key concatenates prefix, bucket and key, and counts all of it as prefix |
| Keyspace.PrefixRange | database/src/access.rs:164-165 | the range from a prefix to its successor holds exactly the keys that start with it |
| Keyspace.DeletesPrefix | database/src/access.rs:159-168 | deleting that range drops exactly those keys |
| Keyspace.NextPrefixExists | database/src/access.rs:165-166 | the successor is missing exactly for prefixes of 0xFF bytes only |
| CachedAccess.Database.Send | database/src/writer.rs:36-93 | a direct write changes the store, a batched one the pending batch; either way the committed future changes by the write |
| CachedAccess.Database.SendAll | database/src/writer.rs:36-93 | also for several writes in order |
| CachedAccess.Database.Commit | database/src/writer.rs:59-93 | committing makes the store the committed future |
| TypedStore.LookupPut | database/src/access.rs:89-98 | a write reads back and is invisible under other keys |
| TypedStore.LookupMeans | database/src/access.rs:51-68 | a missing path, bytes that decode and bytes that do not are three different answers |
| TypedStore.PathIs | database/src/key.rs:12-17 | a path is the prefix followed by the key's bytes |
| TypedStore.LookupPutAll | database/src/access.rs:100-116 | after many writes a key reads as its last pair says |
| TypedStore.LookupPutOthers | database/src/access.rs:100-116 | and a key without a pair as before |
| TypedStore.LookupDeleteAll | database/src/access.rs:146-156 | after many deletes exactly the listed keys are missing |
| TypedStore.OtherPrefixUntouched | database/src/key.rs:12-17 | stores under prefixes that do not extend each other do not interfere |
| TypedStore.AgreesAfterMiss | database/src/access.rs:58-63 | taking in a read value keeps the cache in agreement exactly when it is not kept or is what the committed future holds |
| CachedAccess.CachedDbAccess.constructor | database/src/access.rs:33-35 | a new access is coherent |
| CachedAccess.CachedDbAccess.Has | database/src/access.rs:44-49 | without a pending batch a coherent access answers as the store |
| CachedAccess.CachedDbAccess.Read | database/src/access.rs:51-68 | a read returns the cached or the stored value and takes a stored one into the cache, and keeps the cache coherent exactly when the key was cached, was not kept, or is left alone by the batch |
| CachedAccess.CachedDbAccess.Write | database/src/access.rs:89-98 | cache and committed future take the same value; a count-bounded cache, and a tracked one with room, holds it, so the next read finds it even while it is only staged |
| CachedAccess.CachedDbAccess.WriteMany | database/src/access.rs:100-116 | also for many pairs with repeated keys; with room for all the cache holds the last value of each |
| CachedAccess.CachedDbAccess.WriteManyWithoutCache | database/src/access.rs:119-135 | the pairs are written and the cache is cleared, so it is coherent whatever it was |
| CachedAccess.CachedDbAccess.Delete | database/src/access.rs:137-144 | exactly the key leaves cache and committed future |
| CachedAccess.CachedDbAccess.DeleteMany | database/src/access.rs:146-156 | exactly the listed keys leave |
| CachedAccess.CachedDbAccess.DeleteAll | database/src/access.rs:159-168 | exactly the keys under the prefix go; a prefix without a successor panics |
| CachedAccess.PerformAll | database/src/access.rs:44-168 | any sequence of calls ends where some run of the calls with evictions between them ends; if all writes are direct, every read returns what a plain store would, and the store ends up as a plain store |
| CacheRuns.StepsToIsRun | database/src/access.rs:44-168 | a call that keeps no more than it could is the call's step of a run followed by evictions |
| CacheRuns.SafeRunAgrees | database/src/access.rs:44-168 | in every run of single, bulk, uncached and prefix writes and deletes, reads, evictions and commits whose misses avoid the pending batch, all cached values are the committed future's |
| CacheRuns.DirectRunIsTransparent | database/src/access.rs:44-168 | with direct writes, any such run under any evictions reads like a plain store |
| CacheRuns.StaleAfterCommit | database/src/access.rs:51-68 | a staged delete, a missing read and a commit leave a deleted value in the cache |
| SetAccess.OneBucket | database/src/set_access.rs:137-140 | when no key's bytes begin another's, a path belongs to one bucket |
| SetAccess.FixedLengthIsPrefixFree | database/src/set_access.rs:137-140 | keys of one length are such keys |
| SetAccess.AfterPut | database/src/set_access.rs:132-140 | writing a member adds it to its bucket and to no other |
| SetAccess.AfterDelete | database/src/set_access.rs:149-152 | deleting a member removes it from its bucket only |
| SetAccess.AfterDrop | database/src/set_access.rs:142-147 | dropping a bucket empties that bucket only |
| SetAccess.IsolationIff | database/src/set_access.rs:132-147 | a path names one bucket, and dropping a bucket leaves all others alone, exactly when no key's bytes begin another's |
| SetAccess.UnequalKeysCollide | database/src/set_access.rs:142-147 | with keys of unequal length dropping one bucket empties another |
| SetAccess.CachedDbSetAccess.constructor | database/src/set_access.rs:57-59 | a new set access is coherent |
| SetAccess.CachedDbSetAccess.Read | database/src/set_access.rs:66-79 | a read returns the cached set or the stored bucket and takes the latter into the cache, and keeps the cache coherent exactly when the set was cached, was not kept, or its bucket is left alone by the batch |
| SetAccess.CachedDbSetAccess.Write | database/src/set_access.rs:81-87 | the access refines a map from key to set: one set gains one member, in the stored bucket and in place in the cache |
| SetAccess.CachedDbSetAccess.Delete | database/src/set_access.rs:94-101 | one set loses one member, in the stored bucket and in place in the cache |
| SetAccess.CachedDbSetAccess.DeleteBucket | database/src/set_access.rs:89-92 | one set becomes empty; a bucket prefix without a successor panics |
| Chunker.NextChunkUpperBound | mining/src/manager.rs:545-582 | the next chunk is nonempty, a single transaction or strictly below both limits in total mass and total cycles, and one more transaction would reach a limit; a sum that leaves 64 bits first panics |
| Chunker.RunningSums | mining/src/manager.rs:549-560 | the running sums are the totals of the masses and of the cycles |
| Chunker.ChunkIsTight | mining/src/manager.rs:545-567 | a chunk is what those totals say it is |
| Chunker.OverflowMeans | mining/src/manager.rs:552-560 | the panic happens exactly when a total leaves 64 bits while both are below the limits |
| Chunker.RoomMeansNoPanic | mining/src/manager.rs:552-560 | costs that leave room for the limits in 64 bits never panic |
| Chunker.ChunkAll | mining/src/manager.rs:415-429 | the chunks are contiguous, nonempty and cover the list once; it panics exactly when cuts at consecutive chunk ends lead to a chunk whose sum overflows |
| Chunker.CutsAgree | mining/src/manager.rs:415-429 | there is only one way to cut a list into such chunks |
| Chunker.ChunkCountBound | mining/src/manager.rs:487-500 | (chunks - 1) * maxMass * maxCycles <= 2 * (totalMass * maxCycles + totalCycles * maxMass) |
| Broadcaster.RemoveFromSets | notify/src/broadcaster.rs:53-66 | the inner search takes the listener out of the one set that holds it and reports a set left empty |
| Broadcaster.Search | notify/src/broadcaster.rs:48-66 | the two nested loops find the listener's group wherever it is |
| Broadcaster.RemoveListener | notify/src/broadcaster.rs:48-77 | the plan loses exactly that listener and keeps no empty group |
| Broadcaster.InsertListener | notify/src/broadcaster.rs:36-46 | a listener is registered once in the whole plan, in its own group |
| Broadcaster.SendToConnections | notify/src/broadcaster.rs:186-199 | one send to every connection of a set, and the closed ones are noted |
| Broadcaster.SendToAll | notify/src/broadcaster.rs:178-202 | one send to every listener whose subscription accepts the notification, in its encoding, and none to others |
| Broadcaster.ExpectedMeans | notify/src/broadcaster.rs:178-202 | who is to receive what, and who is removed, listener by listener |
| Broadcaster.Purge | notify/src/broadcaster.rs:204 | the noted listeners leave the plan |
| Broadcaster.Broadcaster.constructor | notify/src/broadcaster.rs:153-155 | an empty plan for every event type |
| Broadcaster.Broadcaster.Register | notify/src/broadcaster.rs:160-165 | the nested plan refines a flat map in which the listener's entry is replaced |
| Broadcaster.Broadcaster.Unregister | notify/src/broadcaster.rs:166-169 | the flat map loses the listener |
| Broadcaster.Broadcaster.Broadcast | notify/src/broadcaster.rs:176-204 | every accepting listener gets exactly one message, and exactly those found closed are removed |

## Left out

- Thread interleavings inside the pool, the caches and the accesses, whose phases take separate locks.
- Fee scoring and `get_sorted` of the pool: floating point; the fixed-point fee density enters as a number.
- Time stamps of pool entries, and everything the pool's statistics do not count.
- `mod_inverse`, the MuHash field arithmetic, Blake3 and Molecule: only the laws named above are assumed.
- RocksDB and bincode errors other than an undecodable value, and the database iterators beyond prefix ranges.
- Sharing of cached sets: a reader gets the set as it is, not a handle that later writes change.
- `seek_iterator` and `seek_pagination` of the database access, and `CachedDbItem`: they would add only easy members.
- Subscription compounding and address tracking behind the notifier.
- The remaining operators of the big integers (saturating, bitwise, sums, serde, wasm): thin wrappers over the ones modelled.
- GHOSTDAG, block templates, the script machine, the wallet, the daemon and the command line.
- CellPool.CellPool.AddWithBlueScore: counters are unbounded, so the panic of an overflowing 64-bit total is not modelled.
- Cache.Cache.Insert: the tracked size is unbounded, so its overflow panic is not modelled.
- UintFloat.AsF64: beyond 1024 bits nothing is said for types of more than 48 limbs, of which there are none.
- TopologicalOrder.TopologicallyOrderedHashes: arithmetic overflow panics, as in the release profile; the bench profile wraps instead.
- CellDiffs.WithDiffInPlace: the half-composed diff left behind by an error is not described; it depends on iteration order.
- SetAccess.CachedDbSetAccess.Read: takes every stored member of its buckets to decode; the error of one that does not is not modelled.
- Chunker.NextChunkUpperBound: a transaction's mass and cycles are given; how they are estimated is not modelled.
- TreeRewind.SelectedChainCellTree: the chain's diffs are given; the lookups that find them, and their errors, are not modelled.
- TreeRewind.ApplyCellDiff: says nothing when two outpoints at hand have the same hash.
- TreeRewind.RevertCellDiff: says nothing when two outpoints at hand have the same hash.
