# Verified model of RMD's cache-way allocation

RMD divides the L3 cache ways of each socket among workloads. This project models the part of RMD
that decides who gets which ways, and proves what the decisions guarantee:

- the bitmap library (`Words`, `WaySets`, `Bitmaps`, `Ranges`, `RangeLists`, `HexText`, `Runs`, `HumanText`,
  `Search`):
  sets of positions stored as 32-bit words, with two text notations and the searches for blocks;
- the cache pools and the allocator (`CachePools`, `Allocation`, `Enforcement`, `MaskOrder`, `Platforms`,
  `Shrink`, `ShrinkRuns`): pool layout, free ways, guaranteed, best-effort and shared requests, the OS
  group, shrinking on and off, the way of the masks to the hardware;
- what the platform reports about itself (`Packing`, `Hospitality`): policy counts and scores;
- the bookkeeping around it (`ClosPools`, `WorkloadStore`, `TaskList`): class names, the workload
  database and the run-then-roll-back task list;
- the codecs at the edges (`CoreMasks`, `Schemata`, on top of `Text`).

Words are natural numbers whose bits are read by halving, so Go's `|`, `&`, `^`, `&^` and `<<` are
ordinary arithmetic. The library uses 32 of the 64 bits of a Go `int`; where the code can reach the
other 32 (`Ranges`), they are modelled as a second list of words. A bitmap is a value with the invariant the library relies on (as many words as
the length needs, no bit beyond the length) and a view as a set of positions; every operation is
proved against that view. Go map iteration is modelled by picking keys in an arbitrary order, so a
contract of such a loop holds for every order.

Whole-run theorems come in pairs: the operations as steps of a transition system over sets, with the
invariant proved for every state of every run, and the imperative object (`Platforms.Platform`,
`ClosPools.ClosPool`, `WorkloadStore.Store`) whose methods are proved to take exactly those steps.

Main results:

- `EveryRunIsRight`: in every run of Enforce and Release, shrinking or not, each class of service holds one
  contiguous block of the pool that the numbers of its request call for, of the size it is owed, on exactly the caches it wants.
  `RunExclusiveIff`: different classes never share a way in a run if and only if no best-effort workload is
  squeezed in by a shrink; `ExclusiveIff`: so over all runs if and only if shrinking is off or there is no
  best-effort pool, and `EveryRunIsExclusive` is the theorem for such platforms. `Serve` and `BootAndServe`
  show that the object over mask texts, laid out from the configuration, only takes such steps, and that
  the OS mask it writes is clear of the classes.
- `ClassNotSelected`: shrinkBEPool looks for groups by a suffix that no class name has; so on the platform a
  shrink takes ways from nobody's mask and gives away ways that a class still holds (`ClassShrinkOverlaps`,
  `ClassRunOkIff`). For group names of every kind, `PoolRunOkIff`: a run keeps the best-effort groups
  contiguous, disjoint and at or above their minimum if and only if no shrink in it selects a group that
  does not run on the cache and no group it passes over holds a way of the block it hands out; `ShrinkSafe`
  and `ShrinkSafeIff` are the single call on the groups it selects.
- `CountBlocks` and `AllocateUntilFull`: the reported policy count is the largest number of disjoint
  blocks that fit, and allocating greedily attains it.
- `GenBits`, `TextsReadBack`, `ReadableIff`, `HexRoundTrip`, `HumanRoundTrip`, `SchemataRoundTrip`, `DecodersAgree`: the fast or textual
  forms denote the simple ones.
- `EveryRunOwned`, `NeverHandedOutTwice`, `ReturnedOnce`: who holds which class name, in every run.
- `RunConsistentIff`, `IndexAgreesWithScan`, `GeneratedRunIsHarmless`: the database and its index, in
  every run in which no create takes the ID of an indexed workload, and so in every run in which IDs
  are only generated.

Where the code does not meet a property, there is an input that shows it and the exact condition
under which it does:

| property | fails on | holds if and only if |
|---|---|---|
| the OS shares no way with a class | `OsGroupOverlapsElsewhere` | the cache serves OS CPUs or no pool has ways (`OsApartIff`) |
| different classes share no way | `SqueezedRun` | shrinking is off, or no pool or cache to shrink on (`ExclusiveIff`); in one run: nobody is squeezed in (`RunExclusiveIff`) |
| a shrink keeps the groups of a pool in order | `ClassSpoiltRun`, `SpoiltRun`, `ShrinkSpoilsIdleGroup` | no group with the suffix shows the full mask, and no other group holds a way of the block (`ShrinkKeepsIff`, `PoolRunOkIff`); among class names never (`ClassRunOkIff`) |
| a refused request costs no class | `LostClass`, `RefusalsDrainClasses` | a check before the count of the groups after the commit failed already, or there was no class to take, or none was needed (`LeaksClass` in `Platform.Enforce`) |
| the mask chosen for a cache is written to it | `WrongOrderOverlaps` | the class has the same mask on all caches (`OrderSafeIff`); for one order: each entry stands at its own id or at one with the same mask (`PositionIff`) |
| a returned class is available once | `SharedReturnedTwice` | the name is held or not listed as used (`ReturnKeeps`) |
| a create keeps the index and all workloads | `TakenNumber` | its ID is free of indexed workloads (`CreateKeeps`), of any (`CreateKeepsOthers`) |
| a grant is foreseen by a positive score | `ScoreMissesGrant` | the longest run has a hundredth of max (`ScoreForeseesGrant`) |
| a span means the positions between its bounds | `DownwardSpan` | it does not wrap inside a word (`WrapsIsExact`) |

`dafny verify dfyconfig.toml` checks everything.

## Model

| member | source | states |
|---|---|---|
| Words.BitwiseBit | utils/bitmap/bitmap.go:119-119 | the word operators of the library work bit by bit, for words of any size |
| Words.BlockBit | utils/bitmap/bitmap.go:472-472 | a shifted block of ones holds exactly the bits of its span |
| Bitmaps.Bitmap.Or | utils/bitmap/bitmap.go:101-122 | union for operands of any two lengths; result as long as the longer one |
| Bitmaps.Bitmap.And | utils/bitmap/bitmap.go:125-145 | intersection for operands of any two lengths; result as long as the shorter one |
| Bitmaps.Bitmap.Xor | utils/bitmap/bitmap.go:148-169 | symmetric difference for operands of any two lengths |
| Bitmaps.Bitmap.Axor | utils/bitmap/bitmap.go:172-199 | set difference whichever operand is longer; keeps the receiver's length |
| Bitmaps.Bitmap.IsEmpty | utils/bitmap/bitmap.go:388-402 | true exactly when no position is held |
| Bitmaps.Blank | utils/bitmap/bitmap.go:443-450 | a well-formed bitmap of the given length that holds nothing |
| Bitmaps.SameView | utils/bitmap/bitmap.go:15-18 | length and positions determine the words: the representation is canonical |
| Ranges.SplitSpan | utils/bitmap/bitmap.go:555-597 | a span is cut into exactly its pieces per 32-bit word, in order; a downward one into itself or, across words, into nothing |
| Ranges.FillWordBits | utils/bitmap/bitmap.go:453-523 | one item inside a word sets or clears exactly its own positions |
| Ranges.FillItem | utils/bitmap/bitmap.go:609-628 | one item, however many words it crosses, changes exactly the positions it means, and the upper half of a word only when it wraps there |
| Ranges.GenBits | utils/bitmap/bitmap.go:526-632 | the word-splitting code, over all texts of the list, denotes the plain left-to-right fold of add and remove interval, up to the first error, in both halves of the words; errors exactly where tokenising fails |
| Ranges.FromRanges | utils/bitmap/bitmap.go:65-73 | NewBitmap on range lists; well formed exactly when nothing beyond the length stays set; the upper halves of the words beside it |
| Ranges.LastItemDecides | utils/bitmap/bitmap.go:609-628 | the order of the items counts: a position is held exactly when the last item that is about it adds it, or no item is about it and it was held before |
| Ranges.WrapsIsExact | utils/bitmap/bitmap.go:469-472 | a list of one item adds or removes exactly the positions between its bounds, whatever the words hold, if and only if the item does not wrap; for an added item that shows on an empty bitmap |
| Ranges.FillDown | utils/bitmap/bitmap.go:469-490 | a downward span inside a word: nothing, or all bits of the 64-bit mask `-1 << low`, which the model keeps as two halves |
| Ranges.WrappedMask | utils/bitmap/bitmap.go:472-472 | the mask of a span that wraps, all bits from the low end up, is the two halves the model writes |
| Ranges.NoWrapNoUpper | utils/bitmap/bitmap.go:472-472 | without such spans the upper halves of all words stay empty |
| Ranges.AddressableBound | utils/bitmap/bitmap.go:609-628 | whatever the items, no position beyond the words they write is set |
| Ranges.MaxMentioned | utils/bitmap/bitmap.go:29-48 | the length found for a range list covers every number in it and is one of them |
| RangeLists.TextsReadBack | utils/bitmap/bitmap.go:601-629 | a list of texts, each written from any non-empty list of items, is read without error as all those items one after the other |
| RangeLists.ParseConcat | utils/bitmap/bitmap.go:601-629 | texts are read one after the other, up to the first that has an error; what was read before it stays |
| RangeLists.OkOneByOne | utils/bitmap/bitmap.go:601-629 | a list is read without error if and only if each of its texts is on its own |
| RangeLists.NumbersReadBack | utils/bitmap/bitmap.go:601-629 | any number of texts of one number each stand for exactly those positions |
| RangeLists.ReadableIff | utils/bitmap/bitmap.go:601-629 | for every list of texts: read without error if and only if every text is a comma-separated list of items "5", "2-8", "^7", "^3-4" |
| RangeLists.ForeignCharacter | utils/bitmap/bitmap.go:602-606 | a text with any character but digits, comma, hyphen and caret is refused as a whole, and nothing behind it is read |
| RangeLists.ItemsAreRuns | utils/bitmap/bitmap.go:273-292 | the items of a printed bitmap stand in order with a position left out between any two, and a position alone is written alone |
| HexText.ToString | utils/bitmap/bitmap.go:202-221 | prints one part per word between commas, the highest word first without leading zeros, every other one in exactly eight digits, all in lower case and each with the value of its word; the length of the text is nine characters per word below the top one |
| HexText.String2Data | utils/bitmap/bitmap.go:651-692 | both loops, comma-separated and chunked, compute the recursive meaning of the text, with the same errors |
| HexText.FromHex | utils/bitmap/bitmap.go:74-84 | NewBitmap on hexadecimal text; with length 0 the bitmap is as long as the words the text gives, 32 positions each |
| HexText.HexRoundTrip | utils/bitmap/bitmap.go:202-221 | decoding the printed text of any well-formed bitmap gives exactly that bitmap |
| HexText.PrintInjective | utils/bitmap/bitmap.go:202-221 | comparing printed texts is comparing bitmaps |
| HexText.ChunkBits | utils/bitmap/bitmap.go:673-691 | cutting a run of digits of any length into words keeps exactly its bits |
| HexText.CommaBits | utils/bitmap/bitmap.go:656-671 | comma-separated words, the last one lowest, keep exactly the bits of their digits |
| HexText.DecodedIsValid | utils/bitmap/bitmap.go:74-84 | for every text: the hexadecimal constructor reads exactly runs of digits and comma-separated words of up to eight digits, and the bitmap is well formed if and only if the text has the right number of words and no bit beyond the length |
| HexText.PrefixIgnored | utils/bitmap/bitmap.go:654-654 | one "0x", one "0X", or "0x0X" in front of the digits changes nothing |
| HexText.PrefixRefused | utils/bitmap/bitmap.go:654-654 | the other order, or the same prefix twice, is refused |
| Text.DigitTable | utils/bitmap/bitmap.go:666-666 | hexadecimal digits are read in either case and written in lower case |
| Runs.ToBinString | utils/bitmap/bitmap.go:224-247 | the words in binary, highest first, with a comma at every 33rd character from the end and nowhere else; without the commas one character per position, exactly Len of them |
| Runs.ToBinStrings | utils/bitmap/bitmap.go:250-270 | the decomposition into maximal runs, lowest first, of exactly Len positions |
| Runs.RunsUnique | utils/bitmap/bitmap.go:250-270 | a set of positions has exactly one such decomposition, so the contract above pins the result down |
| Runs.BlockInRun | utils/bitmap/bitmap.go:250-270 | every block of members lies inside one run of ones |
| HumanText.ToHumanString | utils/bitmap/bitmap.go:273-292 | one position or low-high span per run of ones; the text is read back, without error, as exactly the positions of the bitmap; empty text for an empty bitmap |
| HumanText.ItemTextsReadBack | utils/bitmap/bitmap.go:603-629 | every list of items, removals included, passes the expression check and is tokenised back from its text |
| HumanText.DownwardSpan | utils/bitmap/bitmap.go:469-472 | every downward span is read without an error, inside a word as all positions up to the end of the word and its whole upper half, across words as nothing |
| HumanText.HumanRoundTrip | utils/bitmap/bitmap.go:273-292 | NewBitmap of the human text is the bitmap again, upper halves empty, and is accepted exactly when the bitmap is not empty |
| Search.GetConnectiveBits | utils/bitmap/bitmap.go:329-385 | the lowest (or highest) block of exactly `ways` members beyond the offset, empty exactly when there is none; the 32-bit sum of the early exit may wrap |
| Search.MaxConnectiveBits | utils/bitmap/bitmap.go:295-326 | the lowest among the longest blocks of members |
| Search.LongestFree | modules/workload/workload.go:290-300 | the length of the longest free run, 0 exactly when even `min` does not fit |
| Packing.CapacityIsBound | modules/cache/cache.go:434-441 | no set of disjoint blocks is larger than the count |
| Packing.CapacityIsAttained | modules/cache/cache.go:434-441 | some set of disjoint blocks is as large as the count |
| Packing.CountBlocks | modules/cache/cache.go:434-441 | the sum of run/ways over the free runs is the maximum number of disjoint blocks |
| Packing.TakeHighest | modules/workload/workload.go:284-284 | handing out the highest block lowers that maximum by exactly one |
| Packing.GrantNext | modules/workload/workload.go:281-285 | one grant takes one block and lowers the maximum by one; there is none exactly when the maximum is 0 |
| Packing.AllocateUntilFull | modules/workload/workload.go:281-285 | repeated allocation succeeds exactly that many times, with disjoint blocks, and then fails |
| CachePools.KindByNumbers | modules/cache/rdtpool.go:133-143 | the pool kind in the numbers max and min: guaranteed exactly for max = min > 0, best effort exactly for max > min > 0, shared exactly for max = 0, none exactly for min > max > 0 and for min = 0 < max |
| CachePools.LayoutIsDisjoint | modules/cache/cachepool.go:56-117 | accepted windows are contiguous, pairwise disjoint, disjoint from the OS ways of the cache, within the mask, and never the full mask |
| CachePools.WindowsInOrder | modules/cache/cachepool.go:56-117 | the guaranteed window lies below the best-effort one, that one below the shared one, each exactly at the positions its size and those below it give |
| CachePools.ShiftedMask | modules/cache/cachepool.go:33-38 | a shifted mask, printed and decoded, is the window it was shifted to |
| CachePools.GetReservedCache | modules/cache/cachepool.go:16-46 | one pool on every cache: the window of the configured size, moved up where the cache serves OS CPUs |
| CachePools.GetCachePoolLayout | modules/cache/cachepool.go:49-121 | refused exactly when the four numbers of ways add up to more than the mask has; else exactly the pools with ways, each on its windows |
| CachePools.GetOSGroupReserve | modules/cache/osgroup.go:39-68 | the lowest ways on caches with OS CPUs, nothing elsewhere; refused exactly when there are too few ways |
| CachePools.GetAvailableCacheSchemata | modules/cache/rdtpool.go:80-130 | for every visiting order, the pool minus all ways of the groups not ignored, skipping full masks; an error exactly when no class is left |
| Allocation.KindOfByNumbers | modules/workload/workload.go:989-993 | a request whose minimum is above its maximum is refused before the pool is looked up; the kinds in its numbers otherwise |
| Allocation.ChosenIsRight | modules/workload/workload.go:280-330 | what is chosen on a wanted cache is one block of the pool of the request's kind, of the size it is owed, never the full mask, and free unless a best-effort workload was squeezed in; elsewhere it is the full mask |
| Allocation.NewGrantByNumbers | modules/workload/workload.go:272-335 | what a new class gets on a cache, in the numbers of its request: the highest free block of max ways for max = min, the highest one as long as the longest but at most max for max > min, the whole shared pool for 0, and the full mask on a cache it does not name |
| Allocation.EnforceKeepsExclusive | modules/workload/workload.go:254-346 | one successful Enforce keeps the classes exclusive if and only if it squeezes nobody in |
| Allocation.SqueezeOverlaps | modules/workload/workload.go:301-319 | a best-effort workload that gets in by a shrink shares a way with a class that was there before |
| Allocation.EveryRunIsRight | README.md:50-54 | in every run, shrinking or not, a class uses exactly the caches it names (all if it names none, or is shared), and there holds one contiguous block of the pool that its max and min call for, of the size owed |
| Allocation.RunExclusiveIff | modules/workload/workload.go:286-326 | a run keeps the classes exclusive throughout if and only if no step of it squeezes a workload in |
| Allocation.EveryRunIsExclusive | README.md:50-54 | in every run of a platform without shrinking, or without a best-effort pool, the ways of different classes are disjoint besides |
| Allocation.ExclusiveIff | modules/workload/workload.go:302-305 | the classes are exclusive in every state of every run if and only if shrinking is off, or there is no best-effort pool or no cache |
| Allocation.SqueezedRun | modules/workload/workload.go:301-319 | on every platform with shrinking and a best-effort pool: one class takes the whole pool, the next gets its lowest way on every cache |
| Allocation.OsGroupDisjoint | modules/cache/osgroup.go:113-133 | the OS mask shares no way with a class if and only if no class uses a way reserved for the OS |
| Allocation.OsGetsMost | modules/cache/osgroup.go:121-133 | the ways left to the OS end exactly at the first one, beyond those reserved, that some class uses |
| Allocation.OsGroupSafe | modules/cache/osgroup.go:113-133 | in every run, on a cache with OS CPUs, the OS mask contains the reserved ways and is disjoint from every class |
| Allocation.OsApartIff | modules/cache/cachepool.go:33-37 | the OS mask of a cache is disjoint from every class in every run if and only if the cache serves OS CPUs or no pool has ways |
| Allocation.OsGroupOverlapsElsewhere | modules/cache/cachepool.go:33-37 | on any host with a pool, on a cache without OS CPUs, one workload already overlaps the OS mask |
| Enforcement.CandidateOn | modules/workload/workload.go:272-335 | the choice on one cache: full mask where not wanted, else the block the kind calls for, by shrinking if that is configured; refused exactly when it does not fit |
| Enforcement.BestEffortOn | modules/workload/workload.go:286-326 | best effort with the shrink branch: a free block, or else the lowest block of the pool; refused exactly when no block of min ways is free and shrinking is off or the pool itself is too small |
| Enforcement.ShrunkBlock | modules/workload/workload.go:1046-1092 | shrinkBEPool among groups without the suffix: the lowest block of the whole pool, nobody's mask changed |
| Enforcement.BestEffortBlock | modules/workload/workload.go:286-326 | grants min(longest free run, max) ways at the highest place, refused exactly when that run is shorter than min |
| Enforcement.EnforceCache | modules/workload/workload.go:254-346 | a mask for every cache, or nothing exactly when no class is left, the pool is missing, or some wanted cache lacks the ways it insists on |
| Enforcement.SatisfiableByNumbers | modules/workload/workload.go:280-330 | a request can be met if and only if every cache it names has a free block of max ways for max = min, of min ways for max > min, or a pool that long to shrink |
| Enforcement.SameText | modules/cache/rdtpool.go:122-124 | the textual test for the full mask is the test on sets |
| Enforcement.TakenIsOccupied | modules/cache/rdtpool.go:108-128 | the ways subtracted are exactly those the classes in use occupy |
| Enforcement.OthersOccupy | modules/cache/rdtpool.go:99-128 | the ways shown by the OS group "." and the infra group "COS1" count for nothing, those of every other group count unless it shows the full mask |
| Enforcement.LayoutIsGood | modules/cache/rdtpool.go:67-72 | the laid-out pools are the windows the allocator works with |
| Enforcement.OsMaskOn | modules/cache/osgroup.go:121-133 | the OS mask of one cache: the low ways up to the first one that is not free, the reserved ones included |
| Enforcement.OsMasks | modules/cache/osgroup.go:75-136 | the OS masks of all caches, maximal; an error exactly when no class is left |
| Platforms.Platform.SetOSGroup | modules/cache/osgroup.go:75-136 | rewrites only the OS group; every other mask is as it was |
| Platforms.Platform.TakeClos | modules/workload/workload.go:395-406 | a fresh class for guaranteed and best effort, the one shared class for shared; masks untouched |
| Platforms.Platform.Commit | modules/workload/workload.go:421-488 | adds the class and resets the OS group, every other mask as it was; on failure no mask has changed |
| Platforms.Platform.Enforce | modules/workload/workload.go:491-519 | succeeds exactly when the pool has the ways on every wanted cache and a class is to be had, the groups being counted again after the commit; is then the step of the transition system for this request, in the pool that its max and min call for, with every other mask as it was; a refused request changes no mask and keeps a class, the first available one, if and only if only the count after the commit failed; one with min above max, or min 0 below max, costs nothing |
| Platforms.Platform.EnforceRDT | modules/workload/workload.go:383-488 | takes a class, commits and resets the OS group; exactly when it fails, and exactly when the class taken is then lost |
| Platforms.LostClass | modules/workload/workload.go:411-415 | on any fresh platform with one class to spare the first guaranteed request is refused and costs a class |
| Platforms.RefusalsDrainClasses | modules/workload/workload.go:411-415 | repeating such a request uses up every class name with no group ever added |
| Platforms.ServeOne | modules/workload/workload.go:491-645 | one request: enforced exactly when the platform can, released exactly when the class is in use |
| Platforms.Platform.Release | modules/workload/workload.go:634-645 | is a release step; the name is available again and its group gone, every other mask but that of the OS as it was |
| Platforms.Serve | modules/workload/workload.go:491-645 | serving any sequence of requests is a run with one step per request: a success takes a class for that request, joins the shared one, or gives the class back, a refusal changes none; so the classes are right afterwards, and exclusive if nobody was squeezed in or shrinking is off; once a request has succeeded, the OS masks are the maximal ones, contain the reserved ways and, on caches with OS CPUs, are disjoint as texts from every class |
| Platforms.Boot | modules/cache/cachepool.go:49-121 | a platform with exactly the configured pools laid out, none exactly when the layout is refused |
| Platforms.BootAndServe | modules/workload/workload.go:491-645 | from the configuration through any sequence of requests: every class right, and exclusive without shrinking |
| MaskOrder.NewResAss | modules/workload/workload.go:1008-1024 | for every visiting order of the map, one entry per cache with the text of its mask |
| MaskOrder.PositionIff | utils/pqos/pqos.go:157-163 | reading the entries by position gives every socket its own mask if and only if each entry stands at its own id or at one with the same mask |
| MaskOrder.OrderSafeIff | utils/pqos/pqos.go:157-163 | that is so in every visiting order if and only if the class has the same mask on all caches |
| MaskOrder.WrongOrderOverlaps | modules/workload/workload.go:1016-1020 | on every host with two alike sockets and a guaranteed pool: two classes of one socket each, exclusive as chosen, overlap when the second is written in the order 1, 0 |
| Shrink.CutFromBelow | modules/workload/workload.go:1071-1077 | the lowest free block cuts a group that keeps its highest ways only from below |
| Shrink.GroupSafe | modules/workload/workload.go:1081-1089 | after a shrink a group is still one block with at least its minimum |
| Shrink.ShrinkSafe | modules/workload/workload.go:1046-1092 | when all selected groups run on the cache they stay contiguous, disjoint from each other and from the new block, at or above their minimum; nothing changes when no block fits |
| Shrink.ShrinkSafeIff | modules/workload/workload.go:1046-1092 | with idle groups among those selected, a successful shrink leaves every one of them idle or a disjoint block of at least its minimum if and only if none was idle |
| Shrink.IdleBlocksPool | modules/workload/workload.go:1081-1089 | with an idle group among those selected a successful shrink leaves no way of the pool free beside the new block |
| Shrink.ShrinkSpoilsIdleGroup | modules/workload/workload.go:1081-1089 | four ways, a pool of two, one idle group with the suffix: it is left with three ways and blocks the pool |
| Shrink.HasSuffix | modules/workload/workload.go:1057-1057 | the groups selected are exactly those whose name is something followed by "-besteffort" |
| Shrink.ClassNotSelected | modules/workload/workload.go:1057-1057 | no name of a class passes the suffix test that selects the groups to shrink |
| Shrink.NothingShrunk | modules/workload/workload.go:1046-1092 | without a selected group a call gives the lowest block of the whole pool and changes no mask |
| ShrinkRuns.ShrinkKeepsIff | modules/workload/workload.go:1055-1089 | a shrink, the newcomer included, keeps the groups of every name in order if and only if no selected group is idle here and no group passed over holds a way of the block |
| ShrinkRuns.EveryPoolRunOk | modules/workload/workload.go:286-326 | over every run of grants, idle arrivals, shrinks and departures: the groups stay disjoint blocks at or above their minimum as long as every shrink was harmless in that sense |
| ShrinkRuns.PoolRunOkIff | modules/workload/workload.go:272-326 | a run is safe throughout if and only if each of its shrinks is harmless |
| ShrinkRuns.ClassShrinkOverlaps | modules/workload/workload.go:1055-1077 | among class names every shrink hands out a way that a class holds and keeps |
| ShrinkRuns.ClassShrinkIff | modules/workload/workload.go:301-308 | among class names a shrink happens exactly when the minimum asked for does not fit the free ways but fits the pool |
| ShrinkRuns.ClassRunOkIff | modules/workload/workload.go:272-326 | among class names a run is safe throughout if and only if it never shrinks |
| ShrinkRuns.ClassSpoiltRun | modules/workload/workload.go:272-326 | in every pool from way 0 up: COS2 gets the pool, COS3 asks for a way and gets way 0, which COS2 keeps |
| ShrinkRuns.SpoiltRun | modules/workload/workload.go:272-326 | with names that have the suffix: in every pool of two or more ways from way 0 up, the run of three steps that ends unsafe |
| Shrink.FullMaskIsTorn | modules/workload/workload.go:1081-1089 | when the pool does not start at way 0, the spoilt mask is not even contiguous |
| Shrink.ResTable.ShrinkBEPool | modules/workload/workload.go:1046-1092 | the two loops over masks in place: the groups with the suffix, their kept minima, the lowest candidate; exactly the groups it hits are rewritten, and only on that cache; an error exactly when a selected group has no workload |
| Hospitality.ScoreOn | modules/hospitality/hospitality.go:147-173 | for the longest free run n: score * max <= 100 * n < (score + 1) * max when min <= n < max, 100 from max up, 0 below min; guaranteed requests score 100 or 0 by whether they fit; positive if and only if the longest run has min ways and a hundredth of max |
| Hospitality.LongerScoresNoLess | modules/hospitality/hospitality.go:162-173 | a longer free run never scores lower |
| Hospitality.ScoreForeseesGrant | modules/hospitality/hospitality.go:147-173 | on the same free ways the score is positive if and only if the request would be granted without shrinking and the longest run has a hundredth of max; so they agree for guaranteed requests and for best effort with max at most 100 times min |
| Hospitality.ScoreMissesGrant | modules/hospitality/hospitality.go:147-173 | one free way, max 200 and min 1: score 0 and a grant |
| Hospitality.Scores | modules/hospitality/hospitality.go:147-190 | exactly those scores of all caches, or only of the cache asked for; a cache with a longer free run scores no lower |
| Hospitality.AvailablePolicyCount | modules/cache/cache.go:396-444 | in the numbers of the policy: the quota for max = 0, else the maximum number of further blocks of max ways in the guaranteed pool for max = min, of min ways in the best-effort pool for max > min, 0 for a missing pool or any other numbers; an error exactly when no class is left |
| ClosPools.ClosPool.constructor | utils/pqos/pqos.go:99-115 | the names COS2, COS3 and so on are available in this order, none is used, none shared |
| ClosPools.ClosPool.UseAvailableCLOS | utils/pqos/pqos.go:596-606 | moves the first available name to the end of the used list, or fails on an empty list |
| ClosPools.ClosPool.ReturnClos | utils/pqos/pqos.go:609-653 | succeeds exactly for the shared name and used ones; the name goes to the end of the available list; any but the shared one is taken out of the used list, its first occurrence, the rest in order |
| ClosPools.ClosPool.GetSharedCLOS | utils/pqos/pqos.go:665-676 | reserves the shared name once and then keeps returning it |
| ClosPools.ClosPool.MarkCLOSasUsed | utils/pqos/pqos.go:686-721 | succeeds exactly for available names; the name moves from the available list, the rest in order, to the end of the used one |
| ClosPools.UseKeeps | utils/pqos/pqos.go:596-606 | a name handed out was held by nobody; refused only when every name is held |
| ClosPools.MarkKeeps | utils/pqos/pqos.go:686-721 | marking succeeds exactly for names nobody holds, and keeps ownership straight |
| ClosPools.ReturnKeeps | utils/pqos/pqos.go:609-653 | returning keeps ownership straight if and only if the name is held or not listed as used |
| ClosPools.EveryRunOwned | utils/pqos/pqos.go:596-721 | in every run the available list is duplicate-free and exactly the names nobody holds, held names are listed as used, the shared name is held |
| ClosPools.UsedIsHeld | utils/pqos/pqos.go:596-721 | in every run without a shared class the used list is duplicate-free and holds exactly the names held |
| ClosPools.ReturnedOnce | utils/pqos/pqos.go:609-653 | in such a run a name returned was held, and returning it again is an error |
| ClosPools.NeverHandedOutTwice | utils/pqos/pqos.go:596-721 | in every run, whether used, shared or marked, no name is handed out while held; each is refused exactly when all names, or the name asked for, are taken; the shared name repeats while held |
| ClosPools.SharedReturnedTwice | utils/pqos/pqos.go:616-622 | the run in which the stale used entry makes a name available twice |
| WorkloadStore.CoreBitmap | internal/db/db.go:87-90 | for every core list, over all its texts: the bitmap of the positions it means, with the length taken from the list, in both halves of the words |
| WorkloadStore.NumberedCores | utils/bitmap/bitmap.go:601-629 | cores named one by one, each in a text of its own, are exactly the cores meant |
| WorkloadStore.ValidateWorkload | internal/db/db.go:49-127 | accepts exactly complete workloads whose ID, UUID, tasks and cores clash with no stored one |
| WorkloadStore.AdmissionInFull | internal/db/db.go:49-127 | what is admitted, field by field: something is named, the ID, the UUID and the tasks are new, the cores can be read and are those of no stored workload |
| WorkloadStore.CheckCores | internal/db/db.go:86-124 | uniting bitmaps of different lengths and intersecting decides disjointness from every stored core set, in both halves of the words |
| WorkloadStore.CreateKeeps | internal/db/boltdb.go:102-138 | an admitted workload keeps index, cores and tasks consistent if and only if its ID is not that of an indexed workload |
| WorkloadStore.DeleteKeeps | internal/db/boltdb.go:141-166 | deleting a stored record keeps the database consistent |
| WorkloadStore.UpdateKeeps | internal/db/boltdb.go:169-191 | an update that keeps ID, UUID, cores and tasks keeps the database consistent |
| WorkloadStore.EveryRunConsistent | internal/db/db.go:47-127 | in every run in which no create takes the ID of an indexed workload, stored workloads have pairwise disjoint cores and tasks, and the index matches the records |
| WorkloadStore.RunConsistentIff | internal/db/boltdb.go:102-138 | a run is consistent throughout if and only if no create takes the ID of an indexed workload |
| WorkloadStore.IndexAgreesWithScan | internal/db/boltdb.go:265-291 | in every such run a lookup by UUID gives what a scan of all workloads would |
| WorkloadStore.GeneratedIsFresh | internal/db/boltdb.go:112-119 | if all stored IDs were generated the next one is not in use, and the create keeps it so |
| WorkloadStore.GeneratedRunKeeps | internal/db/boltdb.go:102-191 | over creates without an ID, updates and deletes all stored IDs stay generated ones and every state is consistent |
| WorkloadStore.GeneratedRunIsHarmless | internal/db/boltdb.go:112-136 | such a run is one to which the results above apply, and no create in it replaces a stored workload |
| WorkloadStore.TakenNumber | internal/db/boltdb.go:112-136 | the run in which the first generated ID is one a user chose: admitted, the stored workload is gone, the index broken if it was listed |
| WorkloadStore.CreateKeepsOthers | internal/db/boltdb.go:112-136 | a create leaves every stored workload in place if and only if its ID is fresh |
| WorkloadStore.Store.CreateWorkload | internal/db/boltdb.go:102-138 | writes the record under its ID or the next number, the index entry if it has a UUID, and the sequence number; all else stays |
| WorkloadStore.Store.Submit | internal/db/boltdb.go:88-138 | validate then create: accepted exactly when admission allows, and then a step of a run; nothing otherwise |
| WorkloadStore.Store.DeleteWorkload | internal/db/boltdb.go:141-166 | the record and its index entry are gone, every other record and entry and the sequence number stay |
| WorkloadStore.DeleteThenSubmit | internal/db/boltdb.go:141-166 | after a delete, a workload that clashed with nothing else is admitted and stored beside the others |
| WorkloadStore.Store.UpdateWorkload | internal/db/boltdb.go:169-191 | the record is the given one, all else stays; an error exactly without ID |
| WorkloadStore.Store.GetWorkloadByUUID | internal/db/boltdb.go:265-291 | the lookup through the index |
| CoreMasks.CoreMaskToSlice | utils/pqos/pqos.go:724-753 | lists the cores part by part, with 32 or 64 bits per part; an error exactly for an empty mask or an unreadable part |
| CoreMasks.CoresMean | utils/pqos/pqos.go:724-753 | for every mask: read if and only if it is not empty and every part is a hexadecimal number of the width taken (64 bits if the last part has more than eight digits, else 32); then the list is ascending and holds exactly the cores whose bits are set |
| CoreMasks.PartsListMeans | utils/pqos/pqos.go:738-752 | the list is strictly ascending and holds exactly the set positions |
| CoreMasks.PrintedCores | utils/pqos/pqos.go:724-753 | for every well-formed bitmap the list of its printed text is the ascending list of its members |
| CoreMasks.ParseTasksetMask | internal/openstack/util.go:44-61 | one decimal name for each set bit of the digits, in ascending order; nothing when a character is no digit |
| CoreMasks.DecodersAgree | internal/openstack/util.go:44-61 | on 1 to 16 digits both decoders list the same cores |
| CoreMasks.BitmapAgrees | utils/bitmap/bitmap.go:673-691 | on any number of digits the taskset decoder lists exactly the bits of the decoded bitmap |
| Schemata.Run | utils/resctrl/task_flow.go:144-164 | for some order of the resources, one line each, entries by cache id |
| Schemata.RowMembers | utils/resctrl/task_flow.go:152-160 | a row of up to 256 entries holds exactly the first entry of every cache id in its range |
| Schemata.RowStartsOver | utils/resctrl/task_flow.go:152-160 | cache ids are bytes: a longer row starts over |
| Schemata.ParseSchemata | utils/resctrl/resctrl.go:126-153 | the loops compute the recursive meaning of the text |
| Schemata.IndentedTextParses | utils/resctrl/resctrl.go:134-134 | whatever the number of spaces in front of each printed line, the text is parsed to the same masks |
| Schemata.KeysAreClean | utils/resctrl/resctrl.go:134-138 | no key of a parsed text holds a space, and none is empty |
| Schemata.OneLineAdds | utils/resctrl/resctrl.go:127-150 | a text without a line end adds its entries to those already there |
| Schemata.RepeatedKey | utils/resctrl/resctrl.go:127-150 | two lines with one key: the entries of both in order, and nothing from before |
| Schemata.StopsAtEmptyLine | utils/resctrl/resctrl.go:136-138 | nothing behind an empty line is read |
| Schemata.LinePanics | utils/resctrl/resctrl.go:143-148 | a line makes the code panic if and only if it lacks a colon or one of its entries an equals sign |
| Schemata.IdsAreBytes | utils/resctrl/resctrl.go:146-147 | cache ids up to 255 are read as they are, larger ones as 255, and what is no number as 0 |
| Schemata.SortedIsSame | utils/resctrl/task_flow.go:152-160 | the sorted row holds every mask under its own cache id |
| Schemata.SchemataRoundTrip | utils/resctrl/resctrl.go:126-153 | parsing the printed text gives the same masks per resource, sorted by cache id, whatever the order of resources and entries |
| TaskList.Start | utils/task/task.go:32-57 | runs in order, each task in the state the ones before it left, until one fails; then rolls back the failed one and all before it, last first; if every rollback undoes its run a failed start restores the initial state |

## Left out

- Configuration files, sysfs and procfs, libpqos and the REST, RPC, PAM, TLS and OpenStack layers: I/O or foreign code; what they deliver (CPU sets per cache, mask width, groups, workload minima) is a parameter here.
- MBA values and MBA-only workloads: branch checks that add nothing to prove.
- The PATCH path (`update`): it changes cores without database validation, so the database invariants are not meant to survive it.
- Commit errors of the platform: a commit always succeeds here; only the failure that the allocator itself computes (no class left for the OS group) is modelled.
- The order in which masks are handed to libpqos, in `Platforms`: there the mask chosen for a cache id is written to that id; `MaskOrder` says exactly when the code does so, and what happens when it does not.
- Class names that a workload brings along: a request starts without one, so returning the workload's own name after a failure returns nothing.
- Integer overflow of 64-bit numbers in `Atoi`, and text forms that Go accepts and RMD never writes (signs, underscores).
- `prepareCoreIDs`, `Maximum`, `GenerateBitMap`, `SetField`, CPU pools, plugin dispatch and policy loading: they only add easy members.
- Goroutine interleavings: each operation is atomic, as under the lock of Enforce and Release.
- Per-task rollback bodies of utils/resctrl/task_flow.go: they are best effort; `TaskList.Start` says what they would have to satisfy.
- Search.GetConnectiveBits: requires at least one way; with 0 ways the code returns one position, set or not.
- Ranges.GenBits: requires the words it writes to be allocated, like FromRanges; outside that the code panics.
- Bitmaps.Bitmap.Or: requires well-formed operands, like And, Xor and Axor; on others the code can index out of range.
- Ranges.MaxMentioned: works on the tokenised list; the code takes every run of digits of the text and panics when there is none.
- Platforms.Platform.Enforce: assumes a mask width of at most 32 bits, at least one OS way and the kernel's canonical spelling of the full mask.
- CachePools.GetOSGroupReserve: takes the number of ways of a cache to be the width of its mask; the code reads the two from different files.
- HexText.String2Data: the words already filled when an error is found are not returned.
- HexText.FromHex: on an error there is no bitmap, where the code hands out one with those words.
- CachePools.GetCachePoolLayout: the quota, name and shrink fields of a pool are left out; they are copied from the configuration.
- CachePools.GetAvailableCacheSchemata: takes the pool itself; looking it up by name and the error for an unknown name are the callers' here.
- Platforms.Platform.SetOSGroup: the CPU mask of the OS group is left out, only its ways are set.
- Platforms.Platform.Release: the release of a class whose last workload leaves; the accounting of tasks and CPUs that decides this for the shared class, and errors the code only logs, are left out.
- Schemata.Run: the MBA lines of the text are left out.
- WorkloadStore.CoreBitmap: the length is rounded up to whole words, which changes no word; a list without any digit, on which the code panics, is an unreadable one here.
