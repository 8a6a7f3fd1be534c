# Verified models of fio

Dafny models of the parts of fio whose correctness is least obvious from the code, with proofs over
all inputs, all runs or all reachable states:

- **Numbers.** The compiler builtins that convert between 128-bit integers and IEEE 754 numbers.
  The conversion to double is proved to be roundTiesToEven (section 4.3.1 of IEEE 754-2008), measured
  against every finite binary64 number; the six conversions back are proved to truncate and saturate,
  in one theorem over all formats.
- **Merkle trees.** The in-place root computation, the proof paths that carry their side in one bit,
  the incremental tree that keeps only a frontier, and the bit tricks that compute its depth. Equal
  roots, whatever the numbers of leaves, are reduced to equal full trees or an explicit hash collision.
- **Block finality.** The header state machine that counts confirmations, computes the last
  irreversible block and switches producer schedules: on every chain from genesis, how many statements
  a proposed block has behind it, and exactly when they are two thirds of its own schedule; that slots
  only go up, who makes which share of the blocks, and how soon a block is proposed when all take part.
- **The fork database.** The tree of reversible blocks as a mutable object: adding, validating, pruning,
  advancing the root, fetching branches, and the file it is saved to and restored from.
- **Header checks and slots.** Block ids, header extensions, the round-robin producer schedule.
- **Text codecs.** Account names, name suffixes, symbols and assets.
- **The reflection validator.** The two-pointer matcher of `tools/validate_reflection.py`.

`dafny verify dfyconfig.toml` checks the whole project.

## How to read it

| area | files |
|---|---|
| bit and word arithmetic, results, sequences | `Bits`, `Wrappers`, `Sequences` |
| numbers | `Ieee`, `IntToDouble`, `Rounding`, `FloatToInt` |
| Merkle trees | `Merkle`, `MerklePadding`, `TreeDepth`, `IncrementalMerkle` |
| finality | `Schedule`, `Dpos`, `DposSafety`, `DposSlots`, `DposProgress`, `DposFinality`, `DposRuns` |
| fork database | `BlockIds`, `ForkTree`, `ForkState`, `ForkQueue`, `ForkBranches`, `ForkFile`, `ForkMerge`, `ForkDatabase` |
| header extensions | `HeaderExtensions` |
| text codecs | `Names`, `NameSuffix`, `Decimal`, `Symbols`, `Assets`, `AssetTheorems` |
| reflection | `Reflection`, `ReflectionTheorems`, `ReflectionSwaps` |

Code that updates state is modelled by methods with loops, or by a class, and proved equal to a
specification; the theorems are lemmas about the specification. Machine integers are unbounded
integers with the reduction modulo a power of two written where the code relies on it. The hash
function is a parameter of everything that uses it.

## Where the code does less than expected

Each is proved: where the property fails for some inputs, as the exact condition under which it holds,
mostly with a concrete input that shows the failing side.

- Signed float-to-integer conversion at unbiased exponent 127 shifts into the sign bit. The result is
  right exactly when the exponent is not 127 or the value is -2^127 (`FixSignedTruncatesIff`).
- The check against confirming twice computes `block_num + 1 - confirmed` in 32 bits. It refuses exactly
  the overlapping ranges as long as the header does not confirm more blocks than there are
  (`GuardMeaning`); otherwise it always passes.
- A block is proposed as irreversible with exactly as many statements as two thirds of its schedule plus
  one (`ProposedIsStated`). Those are two thirds of the schedule exactly when every one is by a producer
  of that schedule and none makes two (`ProposedHasQuorumIff`). That always holds while the schedule
  stays the same and headers confirm only existing blocks (`UnchangedIsProper`). It fails when a newcomer
  of the next schedule completes the count (`QuorumFailsAcrossPromotion`, ten headers from genesis) or
  when the guard wraps (`QuorumFailsOnARun`, five headers).
- The last irreversible block number can go down. It cannot after a step that kept the schedule
  (`LibNeverDropsWhenSettled`); the exact condition is `LibDropsIff`, and
  `LibDropsOnARun` gives ten headers from genesis on which it falls from 5 to 3.
- A fork database written by `close` can be opened again exactly when no block declares less irreversible
  than the block it builds on (`ReopensIff`, `ReopenCanFail`), which is what the previous point does
  not guarantee.
- `advance_root` to a validated block on another branch is refused only after the block has been erased.
  The database stays sound exactly when nothing was built on that block (`Database.AdvanceRoot`,
  `RefusalCanBreak`).
- Adding a block that is not validated can move the head, once some block is validated: exactly when the
  head is the root, or another validated block ties with the head and has a smaller id. In the first case
  the new head is strictly worse than the root (`HeadAfterAdd`, `TieCanOccur`, `HeadCanGetWorse`,
  `MoveHeadDown`).
- `open` accepts a file whose stored head is not validated. The result is sound exactly when the stored
  head is the root or validated (`Database.Open`, `UnsoundFileOpens`).
- A symbol keeps its precision in one byte. An accepted asset string has its decimal value exactly
  when its fraction has fewer than 256 digits or is zero (`ParseExactIff`, `LongFractionMisread`).
- A symbol with an empty name is valid, but an asset in it prints with a trailing space and does not parse
  back (`PrintParse`, `NamelessAsset`).
- The reflection matcher accepts some swap annotations that are not needed. `SwapsAcceptedIff` says which
  sets of swaps it accepts; `SingleSwapAcceptedIff` and `NeedlessSwapCanPass` follow from it. Whenever it
  complains about a needless swap it is right (`RejectedSwapIsNeedless`).
- A Merkle root does not determine the number of leaves (`SameRootOtherLength`). It determines, up to the
  side bit and unless two pairs collide, the full tree that the repetitions of `merkle` complete the leaves
  to, at the lesser of the two depths (`EqualRootsIff`).

Comments in the source that the code does not follow; the models follow the code:

- `block_header.hpp` says a producer cannot confirm the block they sign; `next` confirms it too.
- `clz_power_2` is documented as counting leading zeros; it returns the exponent of the power of two.
- `fetch_branch` is documented to throw for an unknown block; it returns an empty branch.
- `symbol.hpp` says the number of decimals must be larger than zero; zero is accepted.

## Model

| member | source | states |
|---|---|---|
| IntToDouble.ClzTiCounts | libraries/builtins/int_t.h:40-46 | the branch-free count c satisfies 2^(127-c) <= a < 2^(128-c) for every nonzero 128-bit a |
| IntToDouble.JamKeepsOrder | libraries/builtins/floatuntidf.c:41-50 | in all three cases of the switch, the two extra bits and the sticky bit decide below, at or above one half as the dropped bits do |
| IntToDouble.RoundJammed | libraries/builtins/floatuntidf.c:52-54 | or-ing P into R, adding one and dropping two bits rounds to nearest with ties to even |
| IntToDouble.CarryTest | libraries/builtins/floatuntidf.c:56-59 | testing bit 53 detects exactly the significand that rounding carried to 2^53 |
| IntToDouble.RoundMagnitude | libraries/builtins/floatuntidf.c:29-64 | the loop-free rounding code yields a 53-bit significand and an exponent that together encode the rounded value, including the carry into the exponent |
| IntToDouble.PackFields | libraries/builtins/floattidf.c:67-72 | the masked and shifted words hold sign, exponent and mantissa without overlap |
| IntToDouble.FloatUnTiDf | libraries/builtins/floatuntidf.c:26-70 | the bits returned are those of the specification for every unsigned 128-bit value; the next rows say what those are, zero included |
| IntToDouble.MagnitudeIsAbs | libraries/builtins/floattidf.c:30-31 | sign mask, xor and subtraction give the absolute value, also for -2^127 |
| IntToDouble.FloatTiDf | libraries/builtins/floattidf.c:26-73 | the signed conversion is the unsigned one of the magnitude with the sign bit set iff the value is negative, zero included |
| Rounding.NearestValue | libraries/builtins/floatuntidf.c:24-70 | the encoding is finite and positive and its real value is the rounded significand times its power of two |
| Rounding.NearestOfZero | libraries/builtins/floatuntidf.c:27-28 | zero becomes positive zero: all 64 bits clear, a finite number of value 0 |
| Rounding.NearestTiesToEven | libraries/builtins/floatuntidf.c:18-70 | for every unsigned 128-bit value, zero included: the result is finite and not negative, no finite binary64 number is closer to the integer, and if another is as close the chosen one is even |
| Rounding.SignedNearestTiesToEven | libraries/builtins/floattidf.c:15-73 | the same for every signed 128-bit value, zero included; the result has its sign bit set iff the integer is negative |
| Rounding.NearestMonotone | libraries/builtins/floatuntidf.c:26-70 | larger integers get encodings at least as large, across binades and rounding carries |
| FloatToInt.SourceFormats | libraries/builtins/fp128.h:8-23 | the three formats of the source have the widths, biases and largest exponents of their headers and meet the conditions of the theorems |
| FloatToInt.MasksAreFields | libraries/builtins/fixunsdfti.c:15-24 | the mask and shift expressions read sign, unbiased exponent and significand with the implicit bit |
| FloatToInt.ShiftTruncates | libraries/builtins/fixunsdfti.c:30-36 | shifting the significand left or right gives the magnitude rounded down and loses nothing |
| FloatToInt.FixUnsignedTruncates | libraries/builtins/fixunsdfti.c:15-37 | for every format and finite input: truncation toward zero, saturated at 0 and 2^128-1 |
| FloatToInt.FixSignedComputes | libraries/builtins/fixdfti.c:16-41 | for every format and finite input: truncation and saturation, or the wrapped value in the band of exponent 127 |
| FloatToInt.FixSignedTruncatesIff | libraries/builtins/fixtfti.c:13-37 | the signed result is the truncated and saturated value iff the exponent is not 127 or the value is -2^127 |
| FloatToInt.FixSignedWraps | libraries/builtins/fixdfti.c:36-40 | 2^127 converts to -2^127 |
| FloatToInt.FixNonFinite | libraries/builtins/fixunssfti.c:19-41 | infinities and NaNs saturate according to their sign bit |
| FloatToInt.FormatsAgree | libraries/builtins/fixsfti.c:16-40 | inputs of equal real value convert alike, whatever their formats |
| FloatToInt.RoundedError | libraries/builtins/floatuntidf.c:26-70 | the rounded value is exact below 2^53 and otherwise within 2^(sd-54) |
| FloatToInt.RoundTrip | libraries/builtins/fixunsdfti.c:15-37 | integer to double and back is the rounded value, or 2^128-1 exactly when rounding reached 2^128 |
| Merkle.SideBit | libraries/chain/merkle.cpp:15-33 | the masks clear, set and test bit 7 of the first word and nothing else |
| Merkle.MakeCanonicalLeft | libraries/chain/merkle.cpp:15-19 | bit 7 of the first word is cleared, its other bits and the other three words are kept |
| Merkle.MakeCanonicalRight | libraries/chain/merkle.cpp:21-25 | bit 7 of the first word is set, its other bits and the other three words are kept |
| Merkle.SideBitOnly | libraries/chain/merkle.cpp:7-33 | two digests have the same left form iff they agree in all four words except perhaps bit 7 of the first |
| Merkle.CanonicalSides | libraries/chain/merkle.cpp:15-33 | the canonical forms are recognised as their own side only, are the same digest up to the side bit, and every digest is on exactly one side |
| Merkle.ReduceLevel | libraries/chain/merkle.cpp:40-47 | the in-place pass over one level, with the last element duplicated, computes the level above and never reads an overwritten entry |
| Merkle.ComputeMerkle | libraries/chain/merkle.cpp:36-51 | the loop over levels computes the root; for no leaves, the digest of four zero words |
| Merkle.DepthIsCeilLog | libraries/chain/merkle.cpp:39-48 | the number of levels is the base-2 logarithm of the number of leaves, rounded up |
| Merkle.MerkleIsTree | libraries/chain/merkle.cpp:36-51 | the level-by-level root is the root of the recursive balanced tree in which a missing right subtree repeats the left one |
| Merkle.PathRecomputes | libraries/chain/merkle.cpp:7-33 | for every leaf, the path of siblings recomputes the root with each side chosen only by the sibling's side bit, has the depth of the tree as its length, and spells the leaf's position in its side bits |
| Merkle.EqualRoots | libraries/chain/merkle.cpp:36-51 | equal-length lists with equal roots agree leaf by leaf up to the side bit, or the two computations hashed different pairs to digests equal up to the side bit |
| MerklePadding.LevelPadded | libraries/chain/merkle.cpp:40-47 | the level above the padded leaves is the padded level above |
| MerklePadding.FullKeepsRoot | libraries/chain/merkle.cpp:36-51 | padding a list to the full tree its repetitions stand for changes neither the root nor the set of pairs hashed |
| MerklePadding.EqualRootsIff | libraries/chain/merkle.cpp:36-51 | for any two nonempty lists, of whatever lengths: the roots agree up to the side bit if the full trees agree at the lesser depth, and only then unless the two computations exhibit a collision |
| MerklePadding.SameRootOtherLength | libraries/chain/merkle.cpp:36-51 | the level above a list, and its padding, are lists of other lengths with the same root |
| MerklePadding.PathSound | libraries/chain/merkle.cpp:7-51 | a path that recomputes the root starts, up to the side bit, at the padded leaf whose position its side bits spell, or exhibits a collision |
| TreeDepth.SmearDoubles | libraries/chain/include/eosio/chain/incremental_merkle.hpp:20-26 | or-ing in the value shifted by t doubles a run of t leading ones |
| TreeDepth.NextPowerOf2Is | libraries/chain/include/eosio/chain/incremental_merkle.hpp:19-29 | the result is the least power of two at least n, modulo 2^64 |
| TreeDepth.MaskTests | libraries/chain/include/eosio/chain/incremental_merkle.hpp:44-49 | each mask tests one bit of the exponent of a power of two |
| TreeDepth.ClzPower2Counts | libraries/chain/include/eosio/chain/incremental_merkle.hpp:40-52 | for 2^k the result is k |
| TreeDepth.MaxDepthIs | libraries/chain/include/eosio/chain/incremental_merkle.hpp:61-67 | for every positive 64-bit count, also when the power of two wraps to 0, the result is the tree depth plus one |
| IncrementalMerkle.LevelAppend | libraries/chain/include/eosio/chain/incremental_merkle.hpp:182-216 | appending a node changes only the last node of the level above |
| IncrementalMerkle.RootAppend | libraries/chain/include/eosio/chain/incremental_merkle.hpp:182-220 | the collapse of the appended node computes the new root |
| IncrementalMerkle.FrontierAppend | libraries/chain/include/eosio/chain/incremental_merkle.hpp:182-216 | which completed nodes are kept after an append |
| IncrementalMerkle.FrontierSize | libraries/chain/include/eosio/chain/incremental_merkle.hpp:126-170 | one node is kept for each set bit of the number of leaves |
| IncrementalMerkle.ActiveEndsInRoot | libraries/chain/include/eosio/chain/incremental_merkle.hpp:136-168 | the active nodes end in the root, which doubles as the frontier when the number of leaves is a power of two |
| IncrementalMerkle.IncrementalMerkleTree.constructor | libraries/chain/include/eosio/chain/incremental_merkle.hpp:99-100 | an empty tree |
| IncrementalMerkle.IncrementalMerkleTree.Append | libraries/chain/include/eosio/chain/incremental_merkle.hpp:172-230 | after every append the returned root is the root `merkle` computes from all leaves appended so far; the append that wraps the 64-bit count leaves only the new digest |
| IncrementalMerkle.IncrementalMerkleTree.GetRoot | libraries/chain/include/eosio/chain/incremental_merkle.hpp:237-243 | the stored root is that of all leaves, the digest of four zero words when there are none |
| Schedule.IndexInRange | libraries/chain/block_header_state.cpp:13-17 | every slot maps to a position of the schedule |
| Schedule.SlotOwner | unittests/producer_schedule_tests.cpp:25-28 | in every round the positions come in order, each for 12 slots in a row |
| Schedule.IndexAdvances | libraries/chain/block_header_state.cpp:13-17 | 12 slots later the next position has its turn, after the last one the first |
| Schedule.RoundIsFair | unittests/producer_schedule_tests.cpp:25-28 | in every window of n times 12 consecutive slots, wherever it starts, each of the n positions owns exactly 12 |
| Schedule.NextRoundFirstBlock | unittests/producer_schedule_tests.cpp:42-50 | the loop returns the least multiple of the round length above the head block number |
| Dpos.ConfirmBlocks | libraries/chain/block_header_state.cpp:87-111 | the countdown loop equals the specification: decrement the confirmed range, or cut at the last block that reaches zero and propose it |
| Dpos.NthSmallestIs | libraries/chain/block_header_state.cpp:28-32 | the selected value has more than index entries at or below it and at most index below it |
| Dpos.TwoThirdsAtLeast | libraries/chain/block_header_state.cpp:26-32 | more than two thirds of the entries are at least the selected value |
| Dpos.QuorumValueIff | libraries/chain/block_header_state.cpp:26-32 | it is the largest such value: more than two thirds of the entries reach it, and two thirds or less reach any larger one |
| Dpos.QuorumMonotone | libraries/chain/block_header_state.cpp:19-33 | raising entries over the same producers never lowers the selected value |
| Dpos.LibIsQuorumValue | libraries/chain/block_header_state.cpp:19-33 | the last irreversible block number is that value over what each producer implied, and never exceeds the proposed one |
| Dpos.RebuildMap | libraries/chain/block_header_state.cpp:122-155 | the loop over the promoted schedule computes the map that the row of NextRecords describes producer by producer |
| Dpos.ScheduledProducer | libraries/chain/block_header_state.cpp:13-17 | the producer of a slot is one of the active schedule |
| Dpos.Next | libraries/chain/block_header_state.cpp:35-167 | the transition of the source, with its error conditions and promotion of a pending schedule, equals the transition function that NextAccepts, NextRecords and the theorems below are about |
| Dpos.ConfirmKeepsCounts | libraries/chain/block_header_state.cpp:87-113 | counting down keeps the tracked counts positive and aligned with block numbers, and the proposed block number never decreases |
| Dpos.NextKeepsValid | libraries/chain/block_header_state.cpp:35-167 | every accepted header keeps the state invariant, never lowers the proposed block, and keeps the irreversible one at or below the previously proposed one |
| Dpos.NextRecords | libraries/chain/block_header_state.cpp:116-164 | when a pending schedule is promoted, and the records of every producer afterwards: a promotion forgets those who leave, keeps those who stay, and starts newcomers at the irreversible block |
| Dpos.FirstStatement | libraries/chain/block_header_state.cpp:47-53 | after a promotion, a newcomer can confirm only blocks above the irreversible one, and a producer who stays only blocks after its own last one |
| DposSafety.Genesis | libraries/chain/controller.cpp:460-475 | the initial state satisfies the invariant |
| DposSafety.ExtendKeepsValid | libraries/chain/block_header_state.cpp:196-261 | transition and finishing checks keep the invariant and advance the block number by one |
| DposSafety.NotTwice | libraries/chain/block_header_state.cpp:47-53 | a producer who passes the guard, confirms no more blocks than there are and stayed in the schedule since an earlier statement does not reach back to it |
| DposSafety.RecordStep | libraries/chain/block_header_state.cpp:118-164 | every header, also one that promotes a schedule, keeps on record the last block of each producer who stays |
| DposSafety.OverlapStep | libraries/chain/block_header_state.cpp:47-53 | so the statements of a producer who stays never overlap |
| DposSafety.MissingAfter | libraries/chain/block_header_state.cpp:76-111 | for every tracked block, the stored count and the statements about it add up to what the schedule of that block needs, one more where the new header confirms |
| DposSafety.ConfirmMatches | libraries/chain/block_header_state.cpp:87-111 | the countdown keeps that equation for all tracked blocks, whatever schedules came since |
| DposSafety.ProposedIsStated | libraries/chain/block_header_state.cpp:87-113 | a block is proposed with exactly as many statements as two thirds of its own schedule plus one |
| DposSafety.ProperIff | libraries/chain/block_header_state.cpp:73-111 | the producers of a schedule who confirmed a block are at most as many as the statements, and as many iff every statement is by one of them and none makes two |
| DposSafety.ProposedHasQuorumIff | libraries/chain/block_header_state.cpp:87-113 | a proposed block has more than two thirds of its own schedule behind it iff its statements are of that kind |
| DposSafety.UnchangedIsProper | libraries/chain/block_header_state.cpp:47-53 | they are while the schedule stays the same and no header confirms more blocks than there are |
| DposSafety.ImproperBecause | libraries/chain/block_header_state.cpp:47-53 | otherwise a statement comes from outside the schedule, is out of range, or is by a producer who left in between |
| DposSafety.ExtendKeepsSound | libraries/chain/block_header_state.cpp:35-261 | each accepted header keeps all of these invariants, with no condition on what it confirms |
| DposSafety.RunKeepsSound | libraries/chain/block_header_state.cpp:35-261 | so does every sequence of accepted headers; the proposed block never goes back and the history records the headers |
| DposSafety.ChainSafety | libraries/chain/block_header_state.cpp:35-261 | on every chain from genesis: irreversible <= proposed <= head; a proposed block has exactly the statements it needs; it has two thirds of its own schedule iff they are proper, and always while the schedule is unchanged and headers are in range |
| DposSafety.QuorumsMeet | libraries/chain/block_header_state.cpp:26-32 | two quorums of one schedule share more than a third of it |
| DposSafety.TwoChains | libraries/chain/block_header_state.cpp:35-261 | two chains from genesis that both propose a block at one height, under one schedule unchanged since: more than a third of it confirmed that height on both |
| DposSlots.NextAccepts | libraries/chain/block_header_state.cpp:39-53 | a header is refused for its time iff it names a slot that is not after its parent's, and for double confirmation iff the guard fails for the owner of the slot; otherwise it is accepted with exactly that slot, that owner and the next block number |
| DposSlots.ExtendAccepts | libraries/chain/block_header_state.cpp:209-217 | a proposed schedule is refused iff one was promoted by the same header, its version is not the next one, or one is already waiting, each with its own error, in that order |
| DposSlots.ExtendKeepsTimed | libraries/chain/block_header_state.cpp:39-47 | an accepted header comes at a later slot than its parent and is by the owner of that slot |
| DposSlots.RunKeepsTimed | libraries/chain/block_header_state.cpp:35-261 | along every run the slots of successive blocks strictly increase, and time advances by at least one slot a block |
| DposSlots.GenesisTimed | libraries/chain/controller.cpp:460-475 | so on every chain from genesis |
| DposSlots.SharesOfARound | libraries/chain/include/eosio/chain/config.hpp:125-129 | under one schedule of n producers, in any window of n times 12 slots no position makes more than 12 of the accepted blocks, and each makes exactly 12 when no slot is missed |
| DposProgress.RunKeepsTracking | libraries/chain/block_header_state.cpp:73-111 | along every run the stored counts are those of exactly the blocks above the proposed one, at most the last 1024 |
| DposProgress.StatedIsProposed | libraries/chain/block_header_state.cpp:87-111 | the converse of ProposedIsStated: a block among the last 1024 with the statements its schedule needs is proposed or below a proposed one |
| DposProgress.ProposedInTime | libraries/chain/block_header_state.cpp:76-111 | when every slot from a block on has its block, the schedule stays and every producer confirms that block with the first of their own, it is proposed once two thirds plus one of the producers have had their 12 slots; with at most 125 producers that is within the 1024 counted blocks |
| DposProgress.ProgressFromGenesis | libraries/chain/controller.cpp:460-475 | on every chain from genesis the counts cover those blocks and the converse holds |
| DposFinality.GuardMeaning | libraries/chain/block_header_state.cpp:47-53 | the 32-bit guard passes iff the range starts after the producer's last block, or more blocks are confirmed than exist |
| DposRuns.QuorumFailsAcrossPromotion | libraries/chain/block_header_state.cpp:76-111 | a chain from genesis, all headers in range, that proposes a block with two of its own four producers behind it and one newcomer |
| DposRuns.QuorumFailsOnARun | libraries/chain/block_header_state.cpp:47-53 | a chain from genesis and a header on which the guard wraps and one of two producers alone gets its block proposed, with no change of schedule |
| DposFinality.LibHasQuorum | libraries/chain/block_header_state.cpp:19-33 | after a step that keeps the schedule, more than two thirds of its producers imply the irreversible block |
| DposFinality.LibNeverDropsWhenSettled | libraries/chain/block_header_state.cpp:114-164 | from such a state the next step does not lower the irreversible block |
| DposFinality.LibDropsIff | libraries/chain/block_header_state.cpp:114 | it is lowered iff more than (n-1)/3 of the n producers imply less |
| DposRuns.LibDropsOnARun | libraries/chain/block_header_state.cpp:140-155 | a chain from genesis, with an idle producer kept across a schedule change, on which the irreversible block goes from 5 back to 3 |
| DposFinality.VersionStep | libraries/chain/block_header_state.cpp:209-217 | a header keeps the active schedule or replaces it by the waiting one, one version up; a proposal is accepted only when none waits and none was promoted, and is recorded as waiting for its own block |
| DposFinality.VersionsOnRun | libraries/chain/block_header_state.cpp:196-261 | along every run, from each block's schedule to the next the version stays, with the schedule, or goes up by one |
| DposFinality.VersionsFromGenesis | libraries/chain/controller.cpp:460-475 | on every chain from genesis, starting with version 0 |
| BlockIds.ReverseReverse | libraries/chain/block_header.cpp:17-19 | reversing the bytes of a 32-bit number twice gives it back |
| BlockIds.ReverseOfBytes | libraries/chain/block_header.cpp:17-19 | the four bytes of a 32-bit number in the opposite order |
| BlockIds.HighWord | libraries/chain/block_header.cpp:24 | the mask clears the low half of the first word and nothing else |
| BlockIds.NumOfMadeId | libraries/chain/block_header.cpp:17-28 | the block number is read back from the id, and the other 224 bits of the digest are kept |
| BlockIds.NumberInFirstBytes | libraries/chain/block_header.cpp:17-28 | the first four bytes of an id are the block number, most significant byte first |
| BlockIds.IdLessIff | libraries/chain/include/eosio/chain/types.hpp:263-268 | the order of ids is the order of the 256-bit numbers with the first word the most significant |
| ForkTree.AncestorsAreChained | libraries/chain/fork_database.cpp:362-370 | of two ancestors of a block, the higher one descends from the lower one |
| ForkTree.ReachesRoot | libraries/chain/fork_database.cpp:260-268 | every block of a linked index descends from the root |
| ForkTree.PathShape | libraries/chain/include/eosio/chain/fork_database.hpp:71-78 | a path starts at its block, each entry builds on the next, numbers count down by one, and the last builds on the end point |
| ForkTree.MeetIsNearest | libraries/chain/fork_database.cpp:381-387 | walking back from the higher block, then from both, ends in a common ancestor that descends from every common ancestor |
| ForkTree.FirstExists | libraries/chain/fork_database.cpp:36-50 | the order of the index has a first element in every nonempty set |
| ForkTree.PreferredIff | libraries/chain/fork_database.cpp:53-56 | one block is preferred to another iff the pair of irreversible block and block number, as one number, is larger |
| ForkTree.FirstIsBest | libraries/chain/fork_database.cpp:36-56 | the first block is validated if any block is, and no block with the same flag is preferred to it |
| ForkTree.FirstIsChoice | libraries/chain/fork_database.cpp:36-50 | of blocks with one flag the first has the largest irreversible block, then the largest number, then the smallest id as a 256-bit number |
| ForkState.RootIsNotAdded | libraries/chain/fork_database.cpp:300-331 | a linkable block never has the id of the root |
| ForkState.FirstAfterMark | libraries/chain/fork_database.cpp:464-482 | after marking a block valid, the first block is preferred to the head iff the marked one is, and then it is the marked one |
| ForkState.HeadAfterAdd | libraries/chain/fork_database.cpp:332-335 | with some block validated, adding one that is not moves the head iff the head is the root or a validated block ties with it and has a smaller id; from the root it moves to a block the root is preferred to, otherwise to one that ties |
| ForkState.TieCanOccur | libraries/chain/fork_database.cpp:332-335 | a sound database in which that happens |
| ForkState.HeadCanGetWorse | libraries/chain/fork_database.cpp:332-335 | a sound database whose head is the root although a block is validated |
| ForkDatabase.MoveHeadDown | libraries/chain/fork_database.cpp:300-336 | four calls after which the root is preferred to the head |
| ForkState.RefusalCanBreak | libraries/chain/fork_database.cpp:252-284 | a sound database in which advancing the root to a validated block is refused and something is built on that block |
| ForkState.PruneKeepsSound | libraries/chain/fork_database.cpp:440-462 | removing a block and its descendants keeps the database sound when the head is not among them |
| ForkState.AdvanceStep | libraries/chain/fork_database.cpp:270-277 | each removal below the new root keeps all that is built on it and leaves no other orphans |
| ForkState.AdvanceEnds | libraries/chain/fork_database.cpp:270-277 | after the last removal exactly the blocks built on the new root are left |
| ForkState.AdvanceKeepsSound | libraries/chain/fork_database.cpp:252-284 | with the new root these form a sound database |
| ForkState.RefusedAdvance | libraries/chain/fork_database.cpp:270-277 | an advance refused midway leaves a sound database iff nothing was built on the refused block |
| ForkQueue.Children | libraries/chain/fork_database.cpp:450-454 | the inner loop finds each block with the given predecessor exactly once |
| ForkQueue.RemovalQueue | libraries/chain/fork_database.cpp:441-455 | the growing queue ends up holding exactly the descendants of a block, and fails iff the head is one of them |
| ForkBranches.AncestorIds | libraries/chain/fork_database.cpp:262-268 | the walk succeeds iff the block descends from the root, and then collects its predecessors one by one, the root last |
| ForkBranches.BelowIsSuffix | libraries/chain/fork_database.cpp:362-370 | trimming a branch by block number cuts off its upper end and nothing else |
| ForkBranches.BothStep | libraries/chain/fork_database.cpp:418-436 | two different blocks of one height are not the root, and both can be walked back within the index |
| ForkFile.AddableIff | libraries/chain/fork_database.cpp:183-215 | a written block can be added back in order iff its stored parent does not declare more irreversible |
| ForkFile.ReopensIff | libraries/chain/fork_database.cpp:80-222 | what close writes can be opened iff no block declares less irreversible than its parent, and then it gives back the same index, flags and head |
| ForkFile.ReopenCanFail | libraries/chain/fork_database.cpp:80-222 | a sound database whose file cannot be opened |
| ForkFile.UnsoundFileOpens | libraries/chain/fork_database.cpp:137-157 | a file whose stored head is not validated is accepted |
| ForkMerge.LastToFirst | libraries/chain/fork_database.cpp:183-189 | the reverse iterators visit each block of their part once, in reverse order of the index |
| ForkMerge.Merge | libraries/chain/fork_database.cpp:191-215 | the two-way merge writes every block once, in the exact order of the file: less preferred blocks first, of equals the validated ones first, then larger ids |
| ForkDatabase.Database.constructor | libraries/chain/fork_database.cpp:76-77 | an empty database without a root |
| ForkDatabase.Database.Reset | libraries/chain/fork_database.cpp:232-238 | only the root is left, and it is the head |
| ForkDatabase.Database.RollbackHeadToRoot | libraries/chain/fork_database.cpp:240-250 | no block is validated, the head is the root, and the index is unchanged |
| ForkDatabase.Database.Add | libraries/chain/fork_database.cpp:300-336 | when adding fails and with which error, the new index and flags, and that the head becomes the validated block with the largest irreversible block, then number, then smallest id |
| ForkDatabase.Database.MarkValid | libraries/chain/fork_database.cpp:464-482 | the block becomes validated, and becomes the head iff it is preferred to the old one |
| ForkDatabase.Database.Remove | libraries/chain/fork_database.cpp:441-462 | exactly the block and its descendants disappear, or nothing and an error if the head is one of them |
| ForkDatabase.Database.AdvanceRoot | libraries/chain/fork_database.cpp:252-284 | when it fails and with which error; on success exactly the blocks built on the new root stay; the orphaned-branch assertion never fires; what a refusal leaves behind |
| ForkDatabase.Database.PendingHead | libraries/chain/fork_database.cpp:350-360 | no block at all is preferred to the result, and it differs from the head only for a block preferred to it, the one with the smallest id among the best not validated |
| ForkDatabase.Database.FetchBranch | libraries/chain/fork_database.cpp:362-370 | the path from the block down to the root, trimmed; empty for an unknown block |
| ForkDatabase.Database.SearchOnBranch | libraries/chain/fork_database.cpp:372-379 | finds a block of the branch with the number iff the number is above the root's and at most the block's |
| ForkDatabase.Database.FetchBranchFrom | libraries/chain/fork_database.cpp:385-438 | succeeds iff both blocks are known, else reports the missing block, and returns the two paths down to their nearest common ancestor |
| ForkDatabase.Database.Close | libraries/chain/fork_database.cpp:164-226 | the file holds the root, the head's id and every block once with its flag, in exactly one order: less preferred first, then validated, then by falling id |
| ForkDatabase.Database.Open | libraries/chain/fork_database.cpp:80-162 | which files are accepted, which error the others get and for which entry, the root, index, flags and head they lead to, that the head is the root when no block is validated, and that the result is sound iff the stored head is the root or validated |
| HeaderExtensions.FindKind | libraries/chain/include/eosio/chain/types.hpp:319-352 | an extension type is found iff one of the supported types has the id, and then it is the first of them |
| HeaderExtensions.FaultIs | libraries/chain/block_header.cpp:41-64 | which of the four faults is reported: a smaller id than before, then no supported type, then data that does not decode, then a repeated unique id |
| HeaderExtensions.AcceptableSnoc | libraries/chain/block_header.cpp:41-64 | a list is acceptable iff no extension is at fault against those before it |
| HeaderExtensions.LastDecides | libraries/chain/block_header.cpp:45-60 | in an acceptable list, comparing with the last id alone decides order and repetition for the whole list |
| HeaderExtensions.ValidateAndExtract | libraries/chain/block_header.cpp:30-68 | accepts iff ids ascend over the whole list, every extension is supported and decodable, and every unique one occurs once; results are one for one in order; an error is the fault of the first offending extension |
| Names.FromDigitsOf | libraries/chain/include/eosio/chain/name.hpp:19-22 | every 64-bit value is put together from its twelve 5-bit symbols and one 4-bit symbol |
| Names.DigitsOfFrom | libraries/chain/include/eosio/chain/name.hpp:19-22 | every such sequence of symbols is taken apart again from its value |
| Names.ToString | libraries/chain/name.cpp:21-35 | the loop that fills 13 characters from the right and trims dots renders the symbols |
| Names.RenderKeepsOrder | libraries/chain/name.cpp:21-35 | v < w iff the rendering of v precedes that of w lexicographically; rendering is injective |
| Names.StringToName | libraries/chain/include/eosio/chain/name.hpp:23-39 | the loop of shifts and ors computes the value whose symbols are those of the characters, for strings of any length |
| Names.SetAcceptsIff | libraries/chain/name.cpp:10-18 | a string survives the round trip iff it has at most 13 characters of the alphabet, does not end in a dot, and its 13th is at most j |
| Names.NameOfRender | libraries/chain/name.cpp:21-35 | parsing the rendering of any 64-bit value gives the value back |
| Names.Name.Set | libraries/chain/name.cpp:10-18 | which strings are accepted, which of the two errors the others get, and the value stored, also by a rejected string of at most 13 characters |
| NameSuffix.BitsAfterLastActualDot | unittests/misc_tests.cpp:93-109 | the loop finds the last dot that has a character after it |
| NameSuffix.SuffixValue | unittests/misc_tests.cpp:118-121 | mask, shift and addition move the symbols after that dot to the front, the 4-bit last one into a 5-bit place |
| NameSuffix.Suffix | unittests/misc_tests.cpp:92-122 | the result renders as the part of the rendered input after its last dot, or all of it if there is none |
| Decimal.DecValueOfDec | libraries/chain/asset.cpp:27 | reading back a printed number gives the number |
| Decimal.TenDigits | libraries/chain/asset.cpp:27 | the digits 0 to 9 have their decimal values and places |
| Decimal.DecCanonical | libraries/chain/asset.cpp:27 | a printed number has no leading zero |
| Decimal.PaddedFraction | libraries/chain/asset.cpp:28-31 | adding the precision and erasing the first digit pads a fraction to exactly the number of decimals |
| Decimal.ToInt64OfDigits | libraries/chain/asset.cpp:65-70 | a digit string with optional minus is read as its value iff that fits 64 bits |
| Decimal.ToInt64Iff | libraries/chain/asset.cpp:65-70 | exactly the nonempty digit strings with at most one sign whose value fits 64 bits are read, and as that value |
| Decimal.TrimIs | libraries/chain/asset.cpp:37 | trimming takes white space off both ends and nothing else, and leaves none there |
| Decimal.TrimPadded | libraries/chain/asset.cpp:43 | white space around a text that has none at its ends is all that trimming removes |
| Symbols.Name | libraries/chain/include/eosio/chain/symbol.hpp:115-125 | the loop yields the bytes above the lowest one |
| Symbols.Precision | libraries/chain/include/eosio/chain/symbol.hpp:103-113 | the loop computes 10 to the number of decimals |
| Symbols.PlaceLetter | libraries/chain/include/eosio/chain/symbol.hpp:46-51 | or-ing in a shifted letter appends it to the packed name |
| Symbols.StringToSymbol | libraries/chain/include/eosio/chain/symbol.hpp:41-55 | the packing loop, its rejection of other characters, and the shift that would leave the word |
| AssetTheorems.PackedOkIff | libraries/chain/include/eosio/chain/symbol.hpp:41-55 | a name is packed iff it has at most seven letters, all upper-case; which error another name gets |
| Symbols.PackedIsSymbol | libraries/chain/include/eosio/chain/symbol.hpp:41-55 | a packed symbol has the given precision and name, fits 64 bits, and is valid iff the precision is at most 18 |
| Symbols.SymbolHasName | libraries/chain/include/eosio/chain/symbol.hpp:92-125 | every valid symbol has a name of at most seven letters that packs back to it |
| Symbols.SymbolUnique | libraries/chain/include/eosio/chain/symbol.hpp:92-125 | precision and name determine the symbol |
| Assets.ToString | libraries/chain/asset.cpp:24-33 | to_string prints sign, integer part, padded fraction and name, with all intermediate values in 64 bits |
| Assets.SymbolFromString | libraries/chain/include/eosio/chain/symbol.hpp:76-88 | the statements of symbol::from_string compute the specification of symbol parsing, errors included; SymbolText and SymbolWhiteSpaceIgnored say what that is |
| AssetTheorems.FromString | libraries/chain/asset.cpp:35-81 | the statements of from_string compute the specification of asset parsing, errors included; every decimal numeral with a name, with any white space before it, between the two after the space and at the end, is read as its value or refused with the error of ParseNumber |
| AssetTheorems.CombineIs | libraries/chain/asset.cpp:73-77 | the checked arithmetic succeeds iff the amount is below 2^62 in magnitude, and is then exact; otherwise it is an overflow above the 64-bit range, an underflow below it, and out of range inside it |
| AssetTheorems.ParseSymbolIs | libraries/chain/asset.cpp:52-61 | the symbol built from the count of fraction digits, of which one byte is kept |
| AssetTheorems.ParseNumber | libraries/chain/asset.cpp:35-81 | for every decimal numeral and name: accepted iff the low byte of the digit count is at most 18, the name has at most seven upper-case letters and the amount is in range; the amount and symbol returned; otherwise which error |
| AssetTheorems.WhiteSpaceIgnored | libraries/chain/asset.cpp:37-43 | white space around an asset text, and more of it between numeral and name, changes nothing |
| AssetTheorems.SymbolWhiteSpaceIgnored | libraries/chain/include/eosio/chain/symbol.hpp:76-79 | white space around a symbol text changes nothing |
| AssetTheorems.SymbolText | libraries/chain/include/eosio/chain/symbol.hpp:76-88 | a numeral, a comma and a name: accepted iff the low byte of the numeral is at most 18 and the name has at most seven upper-case letters; the symbol returned; the errors of the numeral |
| AssetTheorems.SymbolFormErrors | libraries/chain/include/eosio/chain/symbol.hpp:78-81 | a symbol text is refused as empty iff it is white space, and for a missing comma iff it is not and has none |
| AssetTheorems.NameEndsAtZero | libraries/chain/include/eosio/chain/symbol.hpp:83-86 | a zero character ends the name; what follows it is not read |
| AssetTheorems.FormErrors | libraries/chain/asset.cpp:37-49 | a string is refused for want of a space iff there is none inside it, and for want of a fraction iff the text before the first space ends in its only dot |
| AssetTheorems.AcceptedForm | libraries/chain/asset.cpp:35-81 | every accepted string, whatever it is, has a numeral, a space and a name inside white space, and stands for the amount and symbol these say |
| AssetTheorems.ParseExactIff | libraries/chain/asset.cpp:52-77 | the amount is the exact decimal value scaled by the precision iff the fraction is shorter than 256 digits or zero |
| AssetTheorems.LongFractionMisread | libraries/chain/asset.cpp:52-61 | 256 zeros and a one after the dot are read as one tenth |
| AssetTheorems.PrintParse | libraries/chain/asset.cpp:24-81 | from_string undoes to_string on a valid asset iff the symbol's name is not empty; otherwise it fails for want of a space |
| AssetTheorems.NamelessAsset | libraries/chain/asset.cpp:24-44 | a valid asset without a symbol name, which does not parse back |
| AssetTheorems.PrintInjective | libraries/chain/asset.cpp:24-33 | different valid assets print differently, named or not |
| AssetTheorems.PrintCanonical | libraries/chain/asset.cpp:24-33 | the printed text has a minus sign iff the amount is negative, no leading zeros, as many fraction digits as the symbol has decimals, one space and the name |
| AssetTheorems.ParsedReparses | libraries/chain/asset.cpp:35-81 | whatever string was parsed, the asset is valid and printing and parsing it again changes nothing unless its symbol has no name |
| Reflection.MatchFields | tools/validate_reflection.py:700-754 | the loop with its five lists takes the same decisions as the specification, which only knows the two positions |
| Reflection.FinalChecks | tools/validate_reflection.py:756-777 | the checks after the loop equal their set-level specification |
| ReflectionTheorems.WalkSound | tools/validate_reflection.py:700-777 | if no assertion fires, ignored fields are in the class and not reflected, swapped fields are in both, and without them both lists are equal |
| ReflectionTheorems.ReflectedIsPermutation | tools/validate_reflection.py:17-27 | then the reflected fields are a permutation of the class fields that are not ignored |
| ReflectionTheorems.WalkComplete | tools/validate_reflection.py:709-777 | when the annotations are right, only the complaint about a swap in the correct order can reject |
| ReflectionTheorems.RejectedSwapIsNeedless | tools/validate_reflection.py:720-721 | that complaint is always justified: without the named swap the annotations are still right |
| ReflectionTheorems.OutcomeJustified | tools/validate_reflection.py:709-777 | on every input, whatever assertion fires says something true of the lists: the named field is annotated as said and missing or out of order as said |
| ReflectionSwaps.SwapsAcceptedIff | tools/validate_reflection.py:709-777 | for right annotations with any set of swaps: the matcher complains iff some swapped field is the next reflected field after a common unannotated field, or the beginning, with only swapped fields not reflected before in between; otherwise it accepts |
| ReflectionSwaps.SingleSwapAcceptedIff | tools/validate_reflection.py:22-27 | with one swap: accepted iff it is needed, or the field before it in the class is ignored |
| ReflectionSwaps.NeedlessSwapCanPass | tools/validate_reflection.py:22-27 | of two swaps one is not needed, and both are accepted |

## Left out

- SHA-256, signatures, signing keys and key recovery: foreign code; the digest of a pair is a parameter.
- fc: `to_string`, `to_int64`, `trim`, `safe` and `endian_reverse_u32` are not in the repository; `Decimal`, `Symbols` and `BlockIds` give them their usual meaning, and strings outside the decimal grammar are covered only by what that meaning says.
- FixSignedComputes: the left shift into the sign bit and the product with -1 of the most negative value are undefined in C; they are modelled as wrap-around.
- Floating-point status flags, NaN payloads and host byte order of the `double_bits` union.
- Next: block numbers and slots do not wrap at 2^32; only the subtraction in the double-confirmation guard does.
- ChainSafety: schedules have at most 125 producers, the limit the source's own static assertion relies on.
- Header fields of `_finish_next` that are only compared, protocol feature activation, and the block-root tree inside the header state.
- Add: block numbers do not wrap at 2^32; the validated flag is a set of ids beside the index rather than a field of shared blocks, so two block states with one id cannot carry different flags.
- Open: the magic number, the version check, the protocol feature validator and the byte format of the file.
- C string handling around names and symbols, which is reduced to stopping at the first zero character.
- StringToSymbol: an eighth letter is shifted out of the 64-bit word, undefined in C++; the model reports it as an error of its own.
- The regular-expression parsers of `validate_reflection.py`; the matcher starts from the field lists they produce, which are free of repetitions.
- The rest of the controller, the authority checker, resource limits, the ABI serializer, wasm execution, plugins and contracts.
- `chain_config::validate` and similar lists of independent comparisons, which would only add easy members.
