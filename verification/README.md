# hipRAFT: verified models of its self-contained logic

A Dafny model of eight parts of hipRAFT that carry hard properties of their own: a random generator,
wavefront collectives, shared inverted lists, cancellation tokens, multi-dimensional layout arithmetic,
matrix products across layouts, batched query iteration, and the per-device resources manager.
`dafny verify dfyconfig.toml` checks everything. Every statement below is a theorem about the model, and the
model follows the code.

| part | files | what is modelled |
|---|---|---|
| PCG32 | `PcgPeriod`, `PcgOutput`, `PcgBounded`, `Pcg` | the 64-bit congruential step, the xorshift-rotate output, seeding, and the bounded draw as a class with the rejection loop |
| Wavefront collectives | `LaneMask`, `WarpShuffle`, `WarpReduce`, `WarpBinops` | lane masks, shuffles (an invalid or inactive source delivers an arbitrary value), the local shuffles, and both reduction loops over an array of registers |
| Inverted lists | `IvfCapacity`, `IvfList`, `IvfSharing`, `IvfCoverage`, `Codepacker` | capacity choice and resize on list objects with a compare-and-swap; any number of sharers as interleaved steps; the interleaved record layout and its packing loops |
| Cancellation tokens | `Interruptible`, `InterruptibleRuns` | registry, weak pointers, claims, late deleters and reused thread ids; each locked section is one step |
| Layouts | `IndexSpace`, `Mdspan`, `MdspanViews`, `RowAlignment`, `StridedDataset` | unravelling, contiguity tests, reshape and flatten for any rank; aligned row strides and strided datasets |
| GEMM | `Gemm` | the eight row/column-major combinations over any scalars, lowered to one column-major multiply |
| Batched k | `BatchKQuery` | the iterator with its cached prefix |
| Resources manager | `ResourcesManager`, `ResourcesManagerRuns` | setters, build-once components, thread-local caches and round-robin ids, in every interleaving |

`Bits` (machine words as natural numbers, one bit at a time), `Counting` (counting by bijection) and
`Wrappers` (Option, Result) are shared. Integers are unbounded; the widths that the results turn on are written
out (64-bit state, 32-bit subscripts, strides and list sizes, products in an index type), and those that are not
modelled are named under "Left out".

## What the code does not promise

Some properties that one might expect are false of the code as it stands. In each case the model keeps the
code, a lemma gives an input that fails, and another says exactly when the property holds.

* **IVF-flat sharing.** `extend` passes its old list size rounded up to a whole group
  (`cpp/include/raft/neighbors/detail/ivf_flat_build.cuh:257-263`), and a clone shares the lists
  (`:75-76`). When the new size does not exceed that rounded size, the resize neither copies nor asks the
  compare-and-swap, so two indexes that share a started group overwrite each other's records
  (`IvfSharing.RoundedResizesOverwrite`, reachable by `IvfSharing.SharersArise`). Call a growth in place safe when no
  other sharer has, or may write, records beyond those of the growing index. Whatever the other indexes are doing,
  all records stay readable after a step, in every further run of safe growths, exactly when the step is safe
  (`IvfSharing.AlwaysReadableIff`). Passing the exact size, as IVF-PQ does, makes the compare-and-swap guarantee
  that (`IvfSharing.ExactIsSafe`). The rounding is there for the copy: a prefix sized by an unrounded old size would
  lose components (`IvfCoverage.ReallocationSoundIff`).
* **Large lists.** The buffer of a list, and the prefix that a resize copies, are sized in 32 bits. A list has room
  for its capacity exactly when its elements can be counted in 32 bits (`IvfCoverage.BufferHasRoomIff`); 2^22 vectors
  of 1024 elements get no buffer (`IvfCoverage.WrappedListInput`).
* **Early cancels.** The comment on `cancel(thread_id)` (`cpp/include/raft/core/interruptible.hpp:160-169`)
  promises to cancel any current or next `synchronize` of that thread. Before the thread has claimed its token,
  the call reaches it exactly when the token it found is still unclaimed at the claim and another holder has kept
  it live until then (`InterruptibleRuns.CancelCall`); otherwise it is lost (`InterruptibleRuns.DroppedCancelIsLost`).
* **Sizes of views.** `reshape` compares the new size in 64 bits with what the view reports in its own index
  type. Acceptance means equal size exactly when the new size fits 64 bits and the view's count fits its index
  type (`MdspanViews.ReshapeSoundIff`, with `OverflowingShapeAccepted` and `NarrowViewMiscounted`), and `flatten` keeps
  all elements exactly in the second case (`MdspanViews.FlattenCountIff`). A view reads its elements in order exactly
  when it has no more of them than its index type has words (`MdspanViews.ReadsInOrderIff`).
* **Contiguity tests.** They compare strides with products in the index type, which is the products themselves
  exactly when these fit (`MdspanViews.CContiguousIff`, `FContiguousIff`; `ZeroStrideAccepted`, `ZeroStrideInput`).
* **Unravelling.** An extent that does not fit the chosen word is misread (`Mdspan.WideRowMisread`); the result is
  right exactly when the extents survive the cut (`Mdspan.UnravelBitsIff`).
* **Strided datasets.** A source whose column stride is not 1, or whose row stride does not fit 32 bits, is read at
  the wrong places; a dataset agrees with its source whatever the memory holds exactly when the layout fits
  (`StridedDataset.AgreesIff`, with the input in `WideColumnsMisread`).
* **Balance over several devices.** Round-robin ids are drawn per thread, not per device. The streams of every
  device are always loaded within one of each other exactly when at most one device is in use or there is a single
  stream (`ResourcesManagerRuns.BalancedIff`); three threads on two devices already break it (`TwoDevicesUnbalanced`).
* **Negative shuffle sources.** `__shfl_local_sync` takes the remainder in unsigned arithmetic, which is the wrapped
  rank for every negative source exactly when the mask's size divides 2^32 (`WarpShuffle.LocalRankWraps`; for the
  other sizes minus the size is such a source, `WarpShuffle.OtherSizesDoNot`).

## Model

| member | source | states |
|---|---|---|
| PcgPeriod.GeometricTwos | thirdparty/pcg/pcg_basic.c:60 | for a multiplier that is 1 mod 4, 2^k divides 1 + a + … + a^(n-1) exactly when it divides n |
| PcgPeriod.ReturnTime | thirdparty/pcg/pcg_basic.c:57-64 | with an odd increment the generator is back at a state exactly after the multiples of 2^64 steps |
| PcgPeriod.NoEarlyRepeat | thirdparty/pcg/pcg_basic.c:57-64 | no state repeats within 2^64 steps |
| PcgPeriod.FullPeriod | thirdparty/pcg/pcg_basic.c:57-64 | from any state every 64-bit state is visited within one period |
| PcgPeriod.SeedsOddIncrement | thirdparty/pcg/pcg_basic.c:45 | the seeded increment is an odd 64-bit word for every sequence number |
| PcgPeriod.StepInjective | thirdparty/pcg/pcg_basic.c:60 | the step never maps two states of a stream to one |
| PcgPeriod.SeededInjective | thirdparty/pcg/pcg_basic.c:42-49 | on one stream, different initial states seed different generator states |
| PcgPeriod.SeedingInjective | thirdparty/pcg/pcg_basic.c:42-49 | two seeds give the same generator only if they agree on the initial state and on the low 63 bits of the sequence number |
| PcgPeriod.SeedingIs | thirdparty/pcg/pcg_basic.c:42-49 | what two draws around adding the initial state leave behind, in integer arithmetic |
| PcgOutput.RightThenLeft | thirdparty/pcg/pcg_basic.c:62-63 | the rotation written with `(-rot) & 31`, rotation by zero included, is undone by rotating left |
| PcgOutput.LeftThenRight | thirdparty/pcg/pcg_basic.c:62-63 | and it undoes rotating left |
| PcgOutput.OutputUniform | thirdparty/pcg/pcg_basic.c:59-63 | every 32-bit word is the output of exactly 2^32 of the 2^64 states |
| PcgOutput.OutputBound | thirdparty/pcg/pcg_basic.c:57-64 | every output is a 32-bit word |
| PcgOutput.OutputBits | thirdparty/pcg/pcg_basic.c:61-63 | bit b of the output is the exclusive or of the state bits 27 + p and 45 + p, where p is b turned by the top five bits |
| PcgOutput.ReachesLargestOutput | thirdparty/pcg/pcg_basic.c:57-64 | from every state with an odd increment some draw within one period is 2^32 - 1 |
| PcgBounded.ThresholdIsRemainder | thirdparty/pcg/pcg_basic.c:75-88 | `-bound % bound` in 32 bits is 2^32 mod bound, as the comment claims |
| PcgBounded.ResidueCount | thirdparty/pcg/pcg_basic.c:97-100 | a window of q * bound outputs holds each remainder exactly q times |
| PcgBounded.BoundedDrawsUnbiased | thirdparty/pcg/pcg_basic.c:72-101 | every value below the bound has floor(2^32/bound) accepted outputs and is returned equally often over a period |
| Pcg.Pcg32.SRandom | thirdparty/pcg/pcg_basic.c:42-49 | seeding leaves, in integers, the increment 1 + 2 * (initseq mod 2^63) and the state ((initstate + inc) * 6364136223846793005 + inc) mod 2^64 |
| Pcg.Pcg32.Random | thirdparty/pcg/pcg_basic.c:57-64 | a draw returns the output of the state before the step and moves on to (state * 6364136223846793005 + inc) mod 2^64 |
| Pcg.Pcg32.BoundedRand | thirdparty/pcg/pcg_basic.c:72-101 | the rejection loop terminates for every bound from 1 on, within 2^64 draws, and returns the first accepted output reduced by the bound |
| Pcg.StopsAtFirstCounted | thirdparty/pcg/pcg_basic.c:97-100 | the loop stops at the first draw of the period that the count of unbiased draws includes, and returns the value it is counted for |
| LaneMask.FindUp | cpp/include/raft/amd_warp_primitives.h:85-87 | searching upwards finds the set lane of the wanted rank, or -1 exactly when there is none |
| LaneMask.FindDown | cpp/include/raft/amd_warp_primitives.h:289-293 | searching downwards finds the set lane of the wanted rank, or -1 exactly when there is none |
| LaneMask.LaneOfRank | cpp/include/raft/amd_warp_primitives.h:58-88 | every rank below the size belongs to a set lane whose rank it is |
| LaneMask.RankOfLane | cpp/include/raft/amd_warp_primitives.h:58-88 | the lane of a set lane's rank is that lane |
| LaneMask.RankToLaneMonotone | cpp/include/raft/amd_warp_primitives.h:79-88 | higher ranks belong to higher lanes |
| LaneMask.NoLane | cpp/include/raft/amd_warp_primitives.h:83 | ranks outside the mask's size, and only those, have no lane |
| WarpShuffle.DownReadsHigherRank | cpp/include/raft/amd_warp_primitives.h:236-266 | down by d reads the rank d higher, or the lane's own value past the last; no arbitrary value shows |
| WarpShuffle.UpReadsLowerRank | cpp/include/raft/amd_warp_primitives.h:268-298 | up by d reads the rank d lower, or the lane's own value before the first |
| WarpShuffle.LocalReadsRank | cpp/include/raft/amd_warp_primitives.h:213-234 | the local shuffle reads the rank that the unsigned remainder of the source selects |
| WarpShuffle.LocalRankWraps | cpp/include/raft/amd_warp_primitives.h:224-227 | negative sources wrap to the floored remainder for every source exactly when the size divides 2^32 |
| WarpShuffle.OtherSizesDoNot | cpp/include/raft/amd_warp_primitives.h:224-227 | for any other size, minus the size is a source that does not wrap |
| WarpShuffle.LocalShufflesShiftRanks | cpp/include/raft/amd_warp_primitives.h:236-298 | on the values in rank order, the local shuffles of a whole mask are shifts |
| WarpShuffle.UpAfterDown | cpp/include/raft/amd_warp_primitives.h:236-298 | down then up by the same distance restores every rank where neither falls back |
| WarpReduce.HalveEven | cpp/include/raft/amd_warp_primitives.h:449-455 | a round over an even number of values keeps their fold |
| WarpReduce.HalveOdd | cpp/include/raft/amd_warp_primitives.h:449-455 | a round over an odd number of values, where rank 0 sits out, keeps their fold |
| WarpReduce.HalvingRound | cpp/include/raft/amd_warp_primitives.h:439-456 | in a round of the loop the surviving ranks get their pairwise results, whatever lanes that left the loop would deliver |
| WarpReduce.FoldClassSplit | cpp/include/raft/amd_warp_primitives.h:433-437 | the lanes that agree on the low bits split into two halves whose folds combine to theirs |
| WarpReduce.ExchangeStep | cpp/include/raft/amd_warp_primitives.h:435-436 | after an exchange each lane holds the fold of the lanes agreeing with it on the bits not yet exchanged |
| WarpReduce.ButterflyFolds | cpp/include/raft/amd_warp_primitives.h:433-437 | for every power-of-two width each lane ends with the fold over all lanes |
| WarpReduce.Butterfly | cpp/include/raft/amd_warp_primitives.h:434-437 | the xor loop computes those rounds in place |
| WarpReduce.ReduceSync | cpp/include/raft/amd_warp_primitives.h:415-464 | for any mask, size and associative commutative op, every masked lane returns the fold of the masked lanes' values, whatever invalid shuffles deliver; other lanes keep theirs; the loops end |
| WarpBinops.AddOpFolds | cpp/include/raft/amd_warp_primitives.h:385-388 | wrapping addition meets the reduction's assumption |
| WarpBinops.MultiplyOpFolds | cpp/include/raft/amd_warp_primitives.h:380-383 | so does wrapping multiplication |
| WarpBinops.MinMaxFold | cpp/include/raft/amd_warp_primitives.h:390-398 | so do minimum and maximum on integers |
| WarpBinops.BitwiseOpsFold | cpp/include/raft/amd_warp_primitives.h:400-413 | so do the bitwise operations, at any width |
| WarpBinops.FoldedSum | cpp/include/raft/amd_warp_primitives.h:385-388 | reducing words with wrapping addition gives their sum, cut to the word |
| WarpBinops.FoldedProduct | cpp/include/raft/amd_warp_primitives.h:380-383 | reducing words with wrapping multiplication gives their product, cut to the word |
| WarpBinops.FoldedMinMax | cpp/include/raft/amd_warp_primitives.h:390-398 | reducing with minimum or maximum gives a value that is among the inputs and bounds them all |
| WarpBinops.FoldedBits | cpp/include/raft/amd_warp_primitives.h:400-413 | each bit of a bitwise reduction is set if all inputs, some input, or an odd number of inputs have it set |
| IvfCapacity.RoundUpSafe | cpp/include/raft/util/integer_utils.hpp:65-77 | rounding up in a machine word gives the least multiple, or is refused exactly when that overflows |
| IvfCapacity.ChosenCapacity | cpp/include/raft/neighbors/ivf_list.hpp:47-51 | the constructor throws exactly when rounding up overflows 32 bits, and otherwise chooses the least multiple of the alignment from the alignment on, and below it the lesser of the alignment and the least power of two that holds the rows and 32 |
| IvfCapacity.BoundByPowerOfTwo | cpp/include/raft/util/integer_utils.hpp:164-177 | the doubling loop in 32-bit words returns the least power of two not below x, or zero exactly when there is none |
| IvfCapacity.CapacityIs | cpp/include/raft/neighbors/ivf_list.hpp:47-51 | the same description holds of the capacity in unbounded arithmetic, for every alignment |
| IvfCapacity.CapacityIsWholeGroups | cpp/include/raft/neighbors/ivf_list.hpp:47-51 | capacity is at least the rows asked for, whole groups, at least one group and at most twice the rows |
| IvfCapacity.DataSizeIs | cpp/include/raft/neighbors/ivf_pq_types.hpp:255-263 | a quantised list's extents hold whole groups of records, a raw one's exactly the rows |
| IvfCapacity.PqRecordSizeIs | cpp/include/raft/neighbors/ivf_pq_types.hpp:257-262 | a quantised record takes the least number of 16-byte chunks that hold its codes, none across chunks |
| IvfCapacity.DataSizeMonotone | cpp/include/raft/neighbors/ivf_list.hpp:99-108 | the copied prefix fits both lists |
| IvfList.MakeList | cpp/include/raft/neighbors/ivf_list.hpp:42-69 | a new list has the capacity so described with alignment 32 or 1024, its data buffer sized in 32 bits, its size, and all index slots marked -1; it fails exactly on overflow or refused memory |
| IvfList.List.CompareExchange | cpp/include/raft/neighbors/ivf_list.hpp:87 | the atomic size changes exactly when it holds the expected value |
| IvfList.ResizeList | cpp/include/raft/neighbors/ivf_list.hpp:75-116 | the same list comes back exactly when the new size fits and either adds nothing or equals the old size by compare-and-swap, which alone changes the size; a reallocation copies the data prefix, sized in 32 bits, and the indices, marks the rest, and leaves the old list untouched; it has no result exactly on overflow, refused memory, or a copy past either buffer |
| IvfSharing.StepKeepsInv | cpp/include/raft/neighbors/ivf_list.hpp:75-116 | every step of every sharer keeps each index's records in place, whatever old size is passed, if only a longest sharer grows in place |
| IvfSharing.ExactIsSafe | cpp/include/raft/neighbors/ivf_list.hpp:84-94 | with the index's own size, a successful compare-and-swap makes it the longest sharer |
| IvfSharing.SafeRunsKeepRecords | cpp/include/raft/neighbors/ivf_list.hpp:75-116 | in every such run each index reads back every record that it wrote |
| IvfSharing.EveryIndexKeepsItsRecords | cpp/include/raft/neighbors/ivf_list.hpp:75-116 | so it does in every interleaving of resizes given exact sizes |
| IvfSharing.OneGrows | cpp/include/raft/neighbors/ivf_list.hpp:84-94 | at most one sharer of a list is growing it at a time |
| IvfSharing.LoserCopies | cpp/include/raft/neighbors/ivf_list.hpp:84-115 | of two sharers of one size, once the first grows in place the second continues on a copy |
| IvfSharing.ExactGrowsIff | cpp/include/raft/neighbors/ivf_list.hpp:84-94 | given its own size, an index grows its list in place exactly when the new size fits and nothing is added or the list ends where the index does |
| IvfSharing.FirstOfTwoGrows | cpp/include/raft/neighbors/ivf_list.hpp:84-94 | of two sharers at the end of their list, with room for both, the first grows it and the other copies |
| IvfSharing.SwapMakesList | cpp/include/raft/neighbors/ivf_list.hpp:99-115 | the list that ends a copy has the capacity for the new size, the copied slots first, and blanks after them |
| IvfSharing.LoneIndexGrows | cpp/include/raft/neighbors/ivf_list.hpp:75-116 | from its creation, through any exact run in which no other sharer extends its list, an index grows in place whenever the new size fits |
| IvfSharing.NeverStuck | cpp/include/raft/neighbors/ivf_list.hpp:75-116 | in every such run each index can always go on: extend, copy or swap, write or finish |
| IvfSharing.AlwaysReadableIff | cpp/include/raft/neighbors/ivf_list.hpp:84-94 | for any step and any activity of other indexes, the records stay readable in every further run in which only longest sharers grow in place, exactly when the step is no growth in place by a shorter sharer |
| IvfSharing.RoundedIsExact | cpp/include/raft/neighbors/detail/ivf_flat_build.cuh:257-263 | the rounded old size is the exact one exactly at whole groups |
| IvfSharing.RoundedResizesOverwrite | cpp/include/raft/neighbors/detail/ivf_flat_build.cuh:257-263 | two sharers of a started group that append with rounded sizes overwrite each other |
| IvfSharing.SharersArise | cpp/include/raft/neighbors/detail/ivf_flat_build.cuh:75-76 | such sharers arise by creating, extending and cloning an index |
| Codepacker.VecLen | cpp/include/raft/neighbors/ivf_flat_types.hpp:382-394 | the chunk length divides the dimension and a longer chunk fits 16 bytes |
| Codepacker.VecLenIs | cpp/include/raft/neighbors/ivf_flat_types.hpp:382-394 | chunks have as many elements as 16 bytes hold if that divides the dimension, and one element otherwise |
| Codepacker.NextInGroup | cpp/include/raft/neighbors/ivf_flat_codepacker.hpp:50-55 | components of a chunk are adjacent, and the same chunk of the next record in the group follows a chunk later |
| Codepacker.NextGroups | cpp/include/raft/neighbors/ivf_flat_codepacker.hpp:50-55 | the next chunk of a record follows 32 chunks later, and the next group 32 records later |
| Codepacker.Pack1 | cpp/include/raft/neighbors/ivf_flat_codepacker.hpp:41-58 | the nested loops write the components one by one to their positions, and nothing else |
| Codepacker.Unpack1 | cpp/include/raft/neighbors/ivf_flat_codepacker.hpp:73-89 | the nested loops read the components from their positions |
| Codepacker.SpotInverse | cpp/include/raft/neighbors/ivf_flat_codepacker.hpp:50-55 | record and component can be read off a position |
| Codepacker.SpotOnto | cpp/include/raft/neighbors/ivf_flat_codepacker.hpp:50-55 | every position belongs to a component of a record |
| Codepacker.SpotInCapacity | cpp/include/raft/neighbors/ivf_flat_codepacker.hpp:50-55 | the positions below capacity * dim are exactly those of the first `capacity` records, for whole groups |
| Codepacker.DistinctIff | cpp/include/raft/neighbors/ivf_flat_codepacker.hpp:55 | the 32-bit subscripts of a list are distinct exactly when it has at most 2^32 elements |
| Codepacker.PackThenUnpack | cpp/include/raft/neighbors/ivf_flat_codepacker.hpp:41-89 | a packed record unpacks to itself and disturbs no other |
| Codepacker.PackAllReads | cpp/include/raft/neighbors/ivf_flat_codepacker.hpp:41-89 | after packing any records in any order each reads back what was packed there last, or as before |
| IvfCoverage.PqSpotIsSpot | cpp/include/raft/neighbors/ivf_pq_types.hpp:220-229 | the quantised layout is the same interleaving with 16-byte chunks |
| IvfCoverage.CoversIff | cpp/include/raft/neighbors/ivf_list.hpp:101-108 | a prefix of the extents' product reaches every element of every old record exactly for quantised lists, whole groups, or single-chunk records |
| IvfCoverage.BufferHasRoomIff | cpp/include/raft/thirdparty/mdspan/include/experimental/__p0009_bits/layout_right.hpp:172-176 | a new list's buffer has room for all records of its capacity exactly when its elements can be counted in 32 bits |
| IvfCoverage.WrappedListInput | cpp/include/raft/neighbors/ivf_list.hpp:53 | 2^22 vectors of 1024 elements get no buffer, and one more gets one that a copy of half of them overruns |
| IvfCoverage.OverrunsIff | cpp/include/raft/neighbors/ivf_list.hpp:99-115 | the model refuses a copy exactly when a copied element lies outside the old buffer or the new one |
| IvfCoverage.CountedListsAreCopied | cpp/include/raft/neighbors/ivf_list.hpp:99-115 | lists that can be counted in 32 bits are never refused for it |
| IvfCoverage.ReallocationSoundIff | cpp/include/raft/neighbors/ivf_list.hpp:99-115 | a reallocation stays inside both buffers, keeps every decoded old record whatever the contents, and has room for its capacity, exactly when the new list can be counted in 32 bits, the old buffer reaches the old size, and the list is quantised, in whole groups, or of single-chunk records |
| IvfCoverage.CopiedListKeepsRecords | cpp/include/raft/neighbors/ivf_list.hpp:99-115 | under those conditions the list that the resize returns holds every decoded record and index below the old size |
| Interruptible.Registry.GetTokenImpl | cpp/include/raft/core/interruptible.hpp:243-267 | the locked section hands out one more reference to the live token of an id, or, if there is none or it is claimed already, registers a new one with its flag set; and claims it if asked to |
| Interruptible.Registry.Delete | cpp/include/raft/core/interruptible.hpp:200-219 | the deleter frees the token and erases the entry of its id exactly if that is dead or its own, and no other entry |
| Interruptible.Registry.Cancel | cpp/include/raft/core/interruptible.hpp:179 | a cancel clears the flag and nothing else |
| Interruptible.Registry.YieldNoThrow | cpp/include/raft/core/interruptible.hpp:288-291 | a check returns the flag and sets it |
| Interruptible.Synchronize | cpp/include/raft/core/interruptible.hpp:293-304 | polling stops at the first check that fails or query that is not "not ready", with that outcome |
| Interruptible.OutcomeIs | cpp/include/raft/core/interruptible.hpp:293-304 | a synchronization is interrupted exactly when some check fails before any query has finished |
| InterruptibleRuns.StepKeepsInv | cpp/include/raft/core/interruptible.hpp:196-267 | every step of threads, lookups, cancels, drops and deleters keeps registry, claims and threads consistent |
| InterruptibleRuns.NeverStuck | cpp/include/raft/core/interruptible.hpp:138-170 | in every run each thread can claim once, then check and exit, and any id can be looked up, cancelled and dropped |
| InterruptibleRuns.DeleterSparesLiveTokens | cpp/include/raft/core/interruptible.hpp:200-219 | in every run, deleters pending or not, an id whose newest token is live leads to that token, and still does after any pending deleter |
| InterruptibleRuns.RegistryExact | cpp/include/raft/core/interruptible.hpp:196-267 | with no deleter pending the registry's keys are exactly the ids whose newest token is live |
| InterruptibleRuns.ClaimsAreKept | cpp/include/raft/core/interruptible.hpp:257-265 | in any run a claim stays with the thread that made it |
| InterruptibleRuns.ClaimsAreDistinct | cpp/include/raft/core/interruptible.hpp:243-267 | a later claim in any run returns another token, even for the same thread id while the first token is held |
| InterruptibleRuns.TokenIsKept | cpp/include/raft/core/interruptible.hpp:138-144 | a thread owns its token until it exits |
| InterruptibleRuns.LookupFindsOwnToken | cpp/include/raft/core/interruptible.hpp:138-158 | from claim to exit every lookup by the thread's id returns its own token |
| InterruptibleRuns.FlagTracksCancels | cpp/include/raft/core/interruptible.hpp:179 | between checks the flag is clear exactly when a cancel has reached the token |
| InterruptibleRuns.CancelsFailOneCheck | cpp/include/raft/core/interruptible.hpp:281-291 | the cancels between two checks make exactly the next check fail |
| InterruptibleRuns.SynchronizeThrowsIff | cpp/include/raft/core/interruptible.hpp:293-304 | the checks of a synchronization, interleaved with anything, include a failing one exactly when the flag was clear at first or a cancel of the token precedes one of them |
| InterruptibleRuns.FlagIsClearIff | cpp/include/raft/core/interruptible.hpp:279 | in every run from the start a flag is clear exactly when a cancel of the token came after the last check by the thread that claimed it; never cancelled, it is set |
| InterruptibleRuns.ThrowsOnlyIfCancelled | cpp/include/raft/core/interruptible.hpp:281-304 | so a synchronization throws exactly when such a cancel is pending and it makes a check, or another cancel precedes one of its checks |
| InterruptibleRuns.ReferencesAreCounted | cpp/include/raft/core/interruptible.hpp:243-267 | a token has exactly the references that were handed out and not given back, and its deleter runs only when all are back |
| InterruptibleRuns.EarlyCancel | cpp/include/raft/core/interruptible.hpp:160-170 | a cleared flag found by id before the claim reaches the thread exactly when the token is then unclaimed and referenced |
| InterruptibleRuns.CancelCall | cpp/include/raft/core/interruptible.hpp:160-170 | the whole call, with its own reference dropped, reaches the thread exactly when another holder keeps the token live and unclaimed until the claim; without a live unclaimed token to find it is lost |
| InterruptibleRuns.DroppedCancelIsLost | cpp/include/raft/core/interruptible.hpp:160-170 | a run in which such a cancel is lost |
| IndexSpace.UnravelLinear | cpp/include/raft/core/mdspan.hpp:143-164 | unravelling by division inverts row-major numbering, and is in range exactly for indexes below the size, for any rank |
| IndexSpace.LinearUnravel | cpp/include/raft/core/mdspan.hpp:284-299 | unravelling the number of a coordinate gives the coordinate |
| Mdspan.NativePopCount | cpp/include/raft/core/detail/mdspan_util.cuh:57-65 | the clearing loop counts the set bits |
| Mdspan.StepDivides | cpp/include/raft/core/mdspan.hpp:152-160 | masking and shifting by the population count agree with division on every power of two |
| Mdspan.UnravelIndexImpl | cpp/include/raft/core/mdspan.hpp:143-164 | the loop computes the coordinates of the specification, extents cut to the word |
| Mdspan.UnravelBitsIff | cpp/include/raft/core/mdspan.hpp:143-164 | the result is in range with row-major number `idx` exactly when the extents survive being cut to the word |
| Mdspan.UnravelIndexCorrect | cpp/include/raft/core/mdspan.hpp:300-315 | the dispatch is correct for every index, read as an unsigned word of its width, whose extents fit the chosen word |
| Mdspan.PathsAgree | cpp/include/raft/core/mdspan.hpp:309-314 | the 32-bit and 64-bit paths agree where both fit |
| Mdspan.WideRowMisread | cpp/include/raft/core/mdspan.hpp:152 | an extent beyond 32 bits makes a small index misread |
| MdspanViews.IsCContiguous | cpp/include/raft/core/mdspan.hpp:328-336 | the loop compares each stride with the suffix product in the index type |
| MdspanViews.IsFContiguous | cpp/include/raft/core/mdspan.hpp:342-350 | the loop compares each stride with the prefix product in the index type |
| MdspanViews.CContiguousIff | cpp/include/raft/core/mdspan.hpp:328-336 | the test means "strides are the suffix products" exactly when these fit the index type |
| MdspanViews.FContiguousIff | cpp/include/raft/core/mdspan.hpp:342-350 | the test means "strides are the prefix products" exactly when these fit the index type |
| MdspanViews.COffsetBijection | cpp/include/raft/core/mdspan.hpp:324-336 | with such strides offsets are a bijection onto [0, size), inverse to unravelling |
| MdspanViews.FOffsetBijection | cpp/include/raft/core/mdspan.hpp:338-350 | the same for column-major order |
| MdspanViews.ZeroStrideAccepted | cpp/include/raft/core/mdspan.hpp:331-333 | two extents whose product is a multiple of the word make a stride of zero pass, in both orders |
| MdspanViews.ZeroStrideInput | cpp/include/raft/core/mdspan.hpp:331-333 | 65536 times 65536 with 32-bit strides is such an input |
| MdspanViews.Reshape | cpp/include/raft/core/mdspan.hpp:260-275 | the size loop wraps at 64 bits; a view that is not exhaustive is refused as not contiguous, and one that reports another size in its index type as a mismatch |
| MdspanViews.ShapeSoundIff | cpp/include/raft/core/mdspan.hpp:264-268 | a shape is accepted for exactly the views of its size, among those whose count fits, if and only if it fits 64 bits |
| MdspanViews.ViewSoundIff | cpp/include/raft/core/mdspan.hpp:268 | a view accepts exactly the shapes of its size, among those that fit 64 bits, if and only if its count fits its index type |
| MdspanViews.ReshapeSoundIff | cpp/include/raft/core/mdspan.hpp:264-268 | both conditions together, and then acceptance means equal size |
| MdspanViews.OverflowingShapeAccepted | cpp/include/raft/core/mdspan.hpp:264-268 | an empty view is reshaped to 2^64 elements |
| MdspanViews.NarrowViewMiscounted | cpp/include/raft/thirdparty/mdspan/include/experimental/__p0009_bits/mdspan.hpp:338-340 | a 32-bit view of 2^32 + 65536 elements is reshaped and flattened as one of 65536, and refused its own size |
| MdspanViews.ReshapeRoundTrip | cpp/include/raft/core/mdspan.hpp:260-275 | where both counts fit, reshaping keeps every element at its row-major position and reshaping back restores the view |
| MdspanViews.FlattenCountIff | cpp/include/raft/core/mdspan.hpp:234-244 | the flat view has all the elements exactly when their count fits the index type |
| MdspanViews.FlattenKeepsOrder | cpp/include/raft/core/mdspan.hpp:233-244 | and then lists them in row-major order |
| MdspanViews.FlattenThenReshape | cpp/include/raft/core/mdspan.hpp:233-275 | reshaping the flat view to the old shape gives the view back |
| MdspanViews.Refusals | cpp/include/raft/core/mdspan.hpp:236-268 | views with holes, and only those, are refused as not contiguous by both; other sizes that can be counted are refused as a mismatch |
| MdspanViews.ReadsInOrderIff | cpp/include/raft/thirdparty/mdspan/include/experimental/__p0009_bits/layout_right.hpp:76-89 | whatever the memory holds, a row-major view reads its elements in order exactly when it has no more of them than its index type has words |
| RowAlignment.LcmDivides | cpp/include/raft/neighbors/dataset.hpp:204-205 | every common multiple of alignment and element size is a multiple of the least one |
| RowAlignment.LeastStrideIsLeast | cpp/include/raft/neighbors/dataset.hpp:204-205 | the stride is aligned, not below the row length, and the least such |
| RowAlignment.AlignedStrideIff | cpp/include/raft/neighbors/dataset.hpp:142-143 | 64-bit and 32-bit truncation never let a wrong stride pass: success exactly when the least stride is a 32-bit word |
| RowAlignment.StrideErrors | cpp/include/raft/neighbors/dataset.hpp:204-206 | which of the two errors a stride that is too long causes |
| StridedDataset.MakeStridedDataset | cpp/include/raft/neighbors/dataset.hpp:129-183 | fails exactly for rows longer than the stride or overlapping source rows; borrows exactly when accessible, unit-strided and the source stride, or the row length where there is none, cut to 32 bits, is the required one; both forms read the rows of the source; copied padding is zero |
| StridedDataset.MakeAlignedDataset | cpp/include/raft/neighbors/dataset.hpp:198-207 | the same with the least aligned stride, and every error by its cause |
| StridedDataset.WideColumnsMisread | cpp/include/raft/neighbors/dataset.hpp:173-180 | with a column stride of two the copied row holds the gaps |
| StridedDataset.AgreesIff | cpp/include/raft/neighbors/dataset.hpp:147-181 | for any memory, borrowed and copied views agree with the source everywhere exactly when columns are adjacent and the row stride is positive and fits 32 bits |
| Gemm.Gemm | cpp/include/raft/linalg/gemm.hpp:74-76 | succeeds exactly for shapes that conform, names the first mismatch otherwise, and keeps the shape and layout of Z |
| Gemm.ProductIsDot | cpp/include/raft/linalg/gemm.hpp:93-108 | for a column-major Z the operands passed multiply to X Y |
| Gemm.TransposedProductIsDot | cpp/include/raft/linalg/gemm.hpp:109-125 | for a row-major Z the exchanged operands multiply to the transpose of X Y |
| Gemm.GemmIsProduct | cpp/include/raft/linalg/gemm.hpp:63-126 | in all eight layouts each element is alpha * (X Y) + beta * Z, with one for an absent alpha and zero for an absent beta |
| Gemm.ScalarsApply | cpp/include/raft/linalg/gemm.hpp:88-91 | the four ways to pass scalars, one by one |
| Gemm.LayoutsDoNotMatter | cpp/include/raft/linalg/gemm.hpp:63-126 | the same matrices in other layouts give the same result or the same error |
| Gemm.DefaultsGiveProduct | cpp/include/raft/linalg/gemm.hpp:87-91 | without scalars Z becomes X Y |
| Gemm.UnitTimesMatrix | cpp/include/raft/linalg/gemm.hpp:63-126 | with the unit matrix for X the result is alpha * Y + beta * Z |
| BatchKQuery.Query.LoadSize | cpp/include/raft/neighbors/detail/knn_brute_force_batch_k_query.cuh:58-60 | the load covers the requested batch, is twice the offset or twice the batch, whichever is more, and is cut to the ranking |
| BatchKQuery.Query.SliceBatch | cpp/include/raft/neighbors/detail/knn_brute_force_batch_k_query.cuh:70-85 | a slice is cut to the end of the ranking |
| BatchKQuery.Iterator.constructor | cpp/include/raft/neighbors/brute_force_types.hpp:223-228 | an iterator starts on the batch at its offset |
| BatchKQuery.Iterator.Advance | cpp/include/raft/neighbors/brute_force_types.hpp:257-264 | advancing moves past the current batch; every slice from the cache is that slice of the full ranking; a search is made exactly when the cache is too short |
| BatchKQuery.Iterator.PostIncrement | cpp/include/raft/neighbors/brute_force_types.hpp:240-245 | the returned copy stays on the previous batch |
| BatchKQuery.EqualsIff | cpp/include/raft/neighbors/brute_force_types.hpp:266-268 | iterators are equal exactly when they have the same part of the same ranking ahead |
| BatchKQuery.Collect | cpp/include/raft/neighbors/brute_force_types.hpp:257-285 | from begin to end, with any positive sizes, the loop ends and its batches concatenate to the ranking |
| BatchKQuery.EndReachedIff | cpp/include/raft/neighbors/brute_force_types.hpp:257-268 | the end is reached exactly when the requested sizes add up to the ranking |
| BatchKQuery.Walk | cpp/include/raft/neighbors/brute_force_types.hpp:257-264 | the iterator's offset follows that walk |
| ResourcesManager.WorkspaceIsSet | cpp/include/raft/core/device_resources_manager.hpp:188-195 | a registered workspace resource is found for its device and no other device's changes |
| ResourcesManager.Manager.GetThreadId | cpp/include/raft/core/device_resources_manager.hpp:98-103 | a thread keeps the id that it was handed first |
| ResourcesManager.Manager.GetDeviceResources | cpp/include/raft/core/device_resources_manager.hpp:271-311 | a cache miss finalizes, finds or builds the component and caches this thread's share |
| ResourcesManager.Manager.SetStreamsPerDevice | cpp/include/raft/core/device_resources_manager.hpp:314-324 | sets the count unless parameters are final |
| ResourcesManager.Manager.SetWorkspaceMemoryResource | cpp/include/raft/core/device_resources_manager.hpp:388-406 | replaces or registers the device's resource unless parameters are final |
| ResourcesManagerRuns.StepKeepsInv | cpp/include/raft/core/device_resources_manager.hpp:271-406 | every setter and getter keeps one component per device, ids 1 to the counter, and right caches |
| ResourcesManagerRuns.SettersTakeEffect | cpp/include/raft/core/device_resources_manager.hpp:314-406 | before the first get every parameter is what its setter said last, and its default without one; so is the workspace resource of each device |
| ResourcesManagerRuns.FirstGetBuilds | cpp/include/raft/core/device_resources_manager.hpp:138-199 | the first get for a device builds its streams, pools and workspace from the parameters, and a memory pool exactly when the limit is not zero and the resource of the device is the plain one |
| ResourcesManagerRuns.GetDrawsId | cpp/include/raft/core/device_resources_manager.hpp:212-229 | a thread draws an id at its first cache miss with a stream or a stream pool to choose, and at no other time |
| ResourcesManagerRuns.FrozenOnceBuilt | cpp/include/raft/core/device_resources_manager.hpp:283-300 | from the first build on no run changes the parameters or replaces a component |
| ResourcesManagerRuns.SameEveryTime | cpp/include/raft/core/device_resources_manager.hpp:271-311 | a thread always gets the same stream, pool and workspace for a device |
| ResourcesManagerRuns.ResourcesAreDetermined | cpp/include/raft/core/device_resources_manager.hpp:138-229 | they come from the device's only component, built from the frozen parameters, and the thread's id |
| ResourcesManagerRuns.StreamsAreBalanced | cpp/include/raft/core/device_resources_manager.hpp:95-103 | over all threads with an id, stream loads differ by at most one |
| ResourcesManagerRuns.OneDeviceIsBalanced | cpp/include/raft/core/device_resources_manager.hpp:212-217 | so do the loads of the streams of a single device in use |
| ResourcesManagerRuns.AlternatingLoads | cpp/include/raft/core/device_resources_manager.hpp:98-103 | for any two devices and any number of streams, a run puts both users of a device on one stream |
| ResourcesManagerRuns.BalancedIff | cpp/include/raft/core/device_resources_manager.hpp:98-103 | all runs on a set of devices end with every device's loads within one of each other exactly for at most one device or one stream |
| ResourcesManagerRuns.TwoDevicesUnbalanced | cpp/include/raft/core/device_resources_manager.hpp:98-103 | the smallest run that loses the balance: three threads, two devices, two streams |

## Left out

- `__match_any_sync`, `__match_all_sync` are not modelled.
- WarpShuffle.DownReadsHigherRank: does not model widths below the wavefront, nor distances near 2^31 whose successor wraps.
- WarpReduce.ReduceSync: assumes that all masked lanes take part in lockstep; floating-point reductions are not associative and not covered.
- WarpBinops.MinMaxFold: integers only; floating-point NaN is not modelled.
- IvfList.ResizeList: memory is a yes/no input; index types are signed; a copy past a buffer has no defined result and is a failure of the model.
- IvfSharing.EveryIndexKeepsItsRecords: a list slot is one whole record; how records are laid out is in `Codepacker` and `IvfCoverage`.
- IvfCapacity.ChosenCapacity: alignments up to 2^31; the specifications use 32 and 1024.
- Interruptible.Registry.Delete: each locked section is atomic; a temporary strong reference taken under the lock that turns out to be the last, and registry shutdown, are not modelled.
- Interruptible.Synchronize: the flags it sees and the query's answers are inputs, with a bound on how long the work stays not ready; without one the loop polls forever.
- Mdspan.StepDivides: for an extent that is cut to zero the code shifts by the whole word, which has no defined result; the model returns None there.
- MdspanViews.IsCContiguous: index types are unsigned; overflow of a signed index type has no defined result.
- MdspanViews.Reshape: the same; layouts that are not row-major are not modelled.
- Gemm.Gemm: the column-major multiply and its default scalars are a stated contract; rounding, the summation order of a library and aliasing of Z with X or Y are not modelled. The contiguity checks always pass for the layouts that the function accepts.
- BatchKQuery.Iterator.Advance: one column stands for all query rows of a rank; a search for more columns is assumed to extend the shorter result (ties included); batch sizes are not negative and int64 does not overflow.
- StridedDataset.MakeStridedDataset: allocation and device copies are plain arrays and loops that fail only for a source pitch below the row width; a copy of no rows is taken to succeed; rows * stride does not overflow the index type.
- ResourcesManager.Manager.GetDeviceResources: the check that devices exist, and device ids out of range, are not modelled; whether a memory pool can be built is an input.
- `workspace_allocation_limit` of the resources manager: the component never reads it from the parameters.
- `bitset`, COO/CSR, serializers, `comms_t`, mdarray and mdspan factories, span ordering and `vpq_dataset` are not modelled.
- Weak memory orders, streams, logging and GPU kernels.
