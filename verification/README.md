# Verified core of a proof-of-stake full node

This project models the parts of a Bitcoin-style node (C++, with PIVX and Sapling additions) that carry the most
state and arithmetic, and proves what they promise. Each component has a specification on values, written as
functions and datatypes with lemmas about all inputs, all runs or all interleavings, and, where the source works by
changing things in place, classes and loops proved to compute exactly that specification.

| component | source | modules |
|---|---|---|
| stack of coin caches over the coin database, with Sapling nullifiers and anchors | `src/coins.cpp`, `src/txdb.cpp`, `src/sapling/sapling_txdb.cpp` | `CoinsSpec`, `CoinsCache`, `ShieldedSpec`, `AnchorRuns`, `ShieldedCache` |
| parallel queue of script checks | `src/checkqueue.h` | `CheckQueue`, `CheckQueueRuns` |
| address manager | `src/addrman.cpp` | `AddrManSpec`, `AddrManOps`, `AddrManLaws`, `AddrManBuckets`, `AddrManClear`, `AddrMan` |
| block template assembler | `src/blockassembler.cpp` | `AssemblerSpec`, `AssemblerRuns`, `Assembler` |
| partial Merkle trees and the Merkle root | `src/merkleblock.cpp`, `src/consensus/merkle.cpp` | `MerkleSpec`, `MerkleProofs`, `MerkleSize`, `Merkle`, `MerkleRoot`, `MerkleUnique` |
| fixed-width integers and compact targets | `src/arith_uint256.cpp` | `Limbs`, `Shifts`, `Division`, `BigUint`, `CompactSpec`, `Compact` |
| block index, active chain, locators | `src/chain.cpp` | `SkipList`, `BlockTree`, `Chain` |
| cuckoo cache | `src/cuckoocache.h` | `CuckooSpec`, `Cuckoo` |
| Bech32 and Base58 | `src/bech32.cpp`, `src/base58.cpp` | `Bech32Checksum`, `Bech32Distance`, `Bech32Field`, `Bech32Bch`, `Bech32Spec`, `Bech32Strings`, `Bech32`, `Radix`, `Base58Spec`, `Base58` |
| key/value transactions and their iterator | `src/dbwrapper.h`, `src/evo/evodb.cpp` | `DbTransactionSpec`, `DbIteratorSpec`, `DbTransaction`, `DbBatch` |
| rolling Bloom filter | `src/bloom.cpp` | `BloomSpec`, `Bloom` |

`Options`, `Maps`, `Sets`, `Bytes`, `Powers` and `Arithmetic` hold what several of them use. `dafny verify
dfyconfig.toml` verifies everything.

Hash functions, random draws, the clock, fees and memory sizes are parameters, so every result holds for all of them.
Ids, hashes and outpoints are numbers; a missing table entry is an absent map key instead of -1. Threads are modelled
as a state machine whose steps are the critical sections of the code, in any interleaving, with spurious wake-ups.

Where the code and its comments differ, the model follows the code:

- the first displacement of the cuckoo cache takes the second of the eight places, not the first, because a search
  that finds nothing yields index 8 and 9 masked with 7 is 1 (`src/cuckoocache.h:406`);
- `GetCoin` can report success for a spent entry (`src/coins.cpp:84-92`), so coin views are compared by unspent coins:
  `ReportedAfterSpendIff` says exactly when, `SpentCoinIsStillReported` gives an instance;
- adding a coin without the overwrite flag is unsound over an unspent coin further down: `AddWithoutOverwriteIsSoundIff`
  gives the exact condition and `UnsoundAddOutlivesItsSpend` an instance;
- push followed by pop does not always restore the anchors: `PushThenPop` gives the exact condition and
  `PushAgainThenPopLoses` an instance;
- a flush into the database cannot drop the empty tree, and a flush can overwrite a known best anchor with the null:
  `FlushIntoDbKeepsAnchorsIff` and `FlushKeepsBestAnchorIff` give the exact conditions, `FlushBringsBackTheEmptyRoot`
  and `FlushWipesTheBestAnchor` instances;
- clearing the address manager keeps its recorded collisions: `LookupsStaySafeIff` says exactly when the collision
  lookup stays safe, and `StaleCollision` gives a run after which it asks for id -1;
- the assembler loop need not end when a shielded transaction is turned away: `IterateLowersIff` and `EndlessIff` give
  the exact conditions, `FittingRunsEnd` one on the mempool alone, and `StallIsReachable` an instance;
- nor does the block then always stay within its limits: `LimitsCanBreak` gives an instance. `IterateWithinLimits` shows
  that understated figures are the only cause, `IterateCoverIff` and `CoverThroughoutIff` say exactly when there are
  any, and `ResetRunsWithinLimits` gives conditions on the run and on the mempool;
- a partial Merkle tree can have more flag bits and take more bytes than its comment says: `BitsBoundIff` and
  `SizeAsPromisedIff` give the exact conditions, `FiveLeavesOverrun` and `LargeTreeOverruns` instances;
- not every compact target survives decoding and encoding: `ComesBackIffNormal` gives the exact condition and
  `ShiftedAwayIsLost` an instance.

## Model

| member | source | states |
|---|---|---|
| `CoinsSpec.RunRefines` | src/coins.cpp:66-330 | Main result on coins: over any depth of caches and any legal run of adds, spends, reads, uncaches, flushes and new layers, nothing throws and every layer shows exactly the unspent coins of flat maps that know of no caching |
| `CoinsSpec.StepRefines` | src/coins.cpp:66-330 | one operation of such a run: it does not throw, keeps every FRESH and DIRTY flag truthful, and changes the layers as it changes the flat maps |
| `CoinsSpec.FetchRefines` | src/coins.cpp:66-82 | filling caches on the way up changes what no layer shows |
| `CoinsSpec.FetchShowsTheSame` | src/coins.cpp:66-92 | a read through any depth of caches returns the same for every outpoint as before it |
| `CoinsSpec.FetchKeepsInv` | src/coins.cpp:66-82 | an entry fetched from below carries truthful flags |
| `CoinsSpec.AddWithoutOverwriteIsSoundIff` | src/coins.cpp:94-114 | without the overwrite flag, an add neither throws nor leaves a false FRESH flag if and only if the view shows no unspent coin there |
| `CoinsSpec.AddCoinSpec` | src/coins.cpp:94-114 | a legal add succeeds and changes the view at its outpoint only, to show the coin if and only if its script can be stored: it is empty, or at most 10000 bytes not starting with 0x6a or 0xc1 |
| `CoinsSpec.AddedIsShownIff` | src/coins.cpp:94-114 | where no unspent coin is shown, adding one never throws, and the coin is shown afterwards if and only if its script bytes are such; otherwise nothing changes |
| `CoinsSpec.AddThenSpendLeavesNoTrace` | src/coins.cpp:94-147 | a coin added where the cache has no entry and then spent leaves the whole stack exactly as it was |
| `CoinsSpec.FlushedThenSpentLeavesNoTrace` | src/coins.cpp:94-293 | nor does a coin leave an entry in the parent when it is flushed in between |
| `CoinsSpec.FlushedIsFresh` | src/coins.cpp:246-263 | a coin new to the parent and everything below it arrives there FRESH |
| `CoinsSpec.OverwrittenStaysFresh` | src/coins.cpp:264-293 | a FRESH coin of the parent stays FRESH when a child overwrites it |
| `CoinsSpec.RespentLeavesNoTrace` | src/coins.cpp:66-147 | a spent coin of the base that is read, overwritten and spent again leaves no entry |
| `CoinsSpec.SpendCoinSpec` | src/coins.cpp:133-147 | a spend removes exactly its coin from the view, whether the entry is erased or kept as a spent one |
| `CoinsSpec.UncacheSpec` | src/coins.cpp:323-330 | uncaching never changes the view; the entry goes if and only if it is neither DIRTY nor FRESH, and no other entry does |
| `CoinsSpec.MergeEntrySpec` | src/coins.cpp:246-293 | one sound child entry over one sound parent entry: the "FRESH flag misapplied" throw is unreachable, the merged flags are truthful and the child's coin is what is shown |
| `CoinsSpec.BatchWriteSpec` | src/coins.cpp:240-307 | a sound child map written over any sound view, cache or database, throws nothing and is what the view then shows |
| `CoinsSpec.FlushSpec` | src/coins.cpp:309-321 | a flush changes no coin the cache shows, and its base then shows the same coins |
| `CoinsSpec.UnsoundAddOutlivesItsSpend` | src/coins.cpp:94-147 | a concrete illegal add whose coin is still visible after it was spent, so the duty of the caller is real |
| `CoinsSpec.ReportedAfterSpendIff` | src/coins.cpp:84-147 | a spent coin is still reported by a read if and only if its entry was not FRESH or the base reports it; its view shows it as unspent if and only if a FRESH entry hid an unspent coin of the base |
| `CoinsSpec.SpentCoinIsStillReported` | src/coins.cpp:84-147 | an instance: after a coin of the database is spent, reading it succeeds with a spent coin |
| `CoinsCache.CoinsViewDb.BatchWrite` | src/txdb.cpp:76-143 | the database afterwards holds the dirty entries of the map, spent ones erased, all else as before |
| `CoinsCache.CoinsViewCache.FetchCoin` | src/coins.cpp:66-82 | the stack afterwards is the value-level fetch of the stack before, and the coins' share of every layer's memory counter stays the exact sum over its coins |
| `CoinsCache.CoinsViewCache.GetCoin` | src/coins.cpp:84-92 | reports the visible entry, which may be a spent one |
| `CoinsCache.CoinsViewCache.HaveCoin` | src/coins.cpp:161-165 | true exactly when the view shows an unspent coin |
| `CoinsCache.CoinsViewCache.AddCoin` | src/coins.cpp:94-114 | agrees with the specification of `CoinsSpec.AddCoinSpec` and `CoinsSpec.AddedIsShownIff`, throw included, and says by how much the memory counter is off after the throw |
| `CoinsCache.CoinsViewCache.SpendCoin` | src/coins.cpp:133-147 | agrees with the specification and keeps the coins' share of the memory counters exact |
| `CoinsCache.CoinsViewCache.Uncache` | src/coins.cpp:323-330 | agrees with the specification and keeps the coins' share of the memory counters exact |
| `CoinsCache.CoinsViewCache.BatchWrite` | src/coins.cpp:240-307 | merging in any order of the map gives the merged view, with the coins' share of the memory counters exact |
| `CoinsCache.CoinsViewCache.Flush` | src/coins.cpp:309-321 | cache and base afterwards are the flushed stack |
| `ShieldedSpec.NfRunRefines` | src/coins.cpp:218-238 | over any depth and any run of marking, unmarking, reading, flushing and layering, each layer reports exactly the nullifiers of a flat set |
| `ShieldedSpec.NfStepRefines` | src/coins.cpp:446-458 | one operation of such a run |
| `ShieldedSpec.SpentUntilUnmarked` | src/coins.cpp:550-559 | a nullifier spent in every layer stays spent in every layer until it is unmarked |
| `ShieldedSpec.TouchNullifierSpec` | src/coins.cpp:446-458 | caching a looked-up nullifier changes no answer |
| `ShieldedSpec.NfBatchWriteSpec` | src/coins.cpp:218-238 | a child map written over any view is what the view then reports |
| `ShieldedSpec.AgreeingMarksChangeNothing` | src/coins.cpp:218-238 | marking again what the parent has marked already, and flushing it, leaves the parent as it was, clean entries clean |
| `ShieldedSpec.AgreeingAnchorsChangeNothing` | src/coins.cpp:185-216 | dirty anchors that agree with those of the parent leave its map as it was |
| `ShieldedSpec.TouchAnchorSpec` | src/coins.cpp:422-443 | caching a looked-up anchor changes no anchor and not the best one |
| `ShieldedSpec.TouchBestSpec` | src/coins.cpp:561-565 | learning the best anchor from below changes no anchor and not the best one |
| `ShieldedSpec.PushAnchorSpec` | src/coins.cpp:460-500 | after a push the tree is found under its root, it is the best anchor, and all other anchors are as before |
| `ShieldedSpec.PopAnchorSpec` | src/coins.cpp:502-548 | a pop succeeds if and only if there is nothing to do or the current best anchor is visible, and removes exactly that anchor |
| `ShieldedSpec.PushThenPop` | src/coins.cpp:460-548 | push then pop to the previous root always succeeds and restores the best anchor; it restores the whole anchor view if and only if the tree was the best one already or its root was not visible before |
| `ShieldedSpec.AnchorMergeSpec` | src/coins.cpp:185-216 | a sound child map written over a cache is what the cache then shows |
| `ShieldedSpec.AnchorDbMergeSpec` | src/sapling/sapling_txdb.cpp:57-77 | the same over the database, which always knows the root of the empty tree |
| `ShieldedSpec.FlushIntoCacheKeepsAnchors` | src/coins.cpp:309-321 | a flush into a cache changes no anchor |
| `ShieldedSpec.FlushIntoDbKeepsAnchorsIff` | src/sapling/sapling_txdb.cpp:13-89 | a flush into the database keeps all anchors if and only if the root of the empty tree was still visible |
| `ShieldedSpec.FlushKeepsBestAnchorIff` | src/coins.cpp:303-320 | a flush keeps the best anchor if and only if the cache knows its own, or its base does not hold one that differs from what lies below |
| `AnchorRuns.RunRefines` | src/coins.cpp:185-565 | over any depth, a run of pushes, pops, reads, flushes, new and dropped caches passes every assertion if and only if each pop finds its anchor, and then each layer shows exactly the anchors and the best anchor of a flat map |
| `AnchorRuns.StepRefines` | src/coins.cpp:422-548 | one call of such a run |
| `AnchorRuns.FlushRefines` | src/coins.cpp:309-321 | a flush in such a run, into a cache or into the database |
| `AnchorRuns.PushAgainThenPopLoses` | src/coins.cpp:460-548 | an instance for every two trees: pushing the older one again and popping back hides its anchor |
| `AnchorRuns.FlushBringsBackTheEmptyRoot` | src/sapling/sapling_txdb.cpp:13-89 | an instance for every other root: once the root of the empty tree is popped, a flush into the database brings it back |
| `AnchorRuns.FlushWipesTheBestAnchor` | src/coins.cpp:303-320 | an instance for every tree but the empty one: flushing a cache that never asked for the best anchor wipes the one its base holds |
| `ShieldedCache.ShieldedViewCache.PushAnchor` | src/coins.cpp:460-500 | the object pushes as specified, in every layer it touches; the trees' share of the memory counters stays the exact sum over the cached trees when roots tell trees apart |
| `ShieldedCache.ShieldedViewCache.PopAnchor` | src/coins.cpp:502-548 | the object pops as specified, fails exactly where the specification does, and keeps the trees' share of the memory counters exact |
| `ShieldedCache.ShieldedViewCache.SetNullifiers` | src/coins.cpp:550-559 | the loop marks exactly the nullifiers of the transaction |
| `ShieldedCache.ShieldedViewCache.GetNullifier` | src/coins.cpp:446-458 | answers as specified and caches the answer in every layer asked |
| `ShieldedCache.ShieldedViewCache.GetSaplingAnchorAt` | src/coins.cpp:422-443 | answers as specified, caches the answer in every layer asked, and keeps the trees' share of every layer's memory counter exact |
| `ShieldedCache.ShieldedViewCache.GetBestAnchor` | src/coins.cpp:561-565 | answers as specified |
| `ShieldedCache.ShieldedViewCache.BatchWriteNullifiers` | src/coins.cpp:218-238 | the merging loop, in any order, gives the merged view |
| `ShieldedCache.ShieldedViewCache.BatchWriteAnchors` | src/coins.cpp:185-216 | the merging loop, in any order, gives the merged view, with the trees' share of the memory counter exact |
| `ShieldedCache.ShieldedViewCache.Flush` | src/coins.cpp:309-321 | both views afterwards are the flushed ones, and the memory counters are exact |
| `ShieldedCache.ShieldedDb.BatchWriteNullifiers` | src/sapling/sapling_txdb.cpp:37-54 | the database holds the dirty nullifiers of the map, unmarked ones erased |
| `ShieldedCache.ShieldedDb.BatchWriteAnchors` | src/sapling/sapling_txdb.cpp:57-77 | the database holds the dirty anchors of the map, popped ones erased, and never the empty tree |
| `CheckQueue.WaitReportsExactlyItsSession` | src/checkqueue.h:64-138 | in every interleaving with any number of workers and any spurious wake-ups, each Wait returns true if and only if all checks added in its session evaluate to true |
| `CheckQueue.NextKeepsInv` | src/checkqueue.h:64-122 | every step of every thread keeps the invariant: nTodo counts queued plus in-flight checks, the counters count threads, the result so far is truthful, and a sleeping master is notified exactly when nothing is left to do |
| `CheckQueue.EnterKeepsInv` | src/checkqueue.h:73-115 | the section a thread enters, with its clean-up after a batch, keeps the invariant |
| `CheckQueue.WakeKeepsInv` | src/checkqueue.h:86-100 | the section a thread resumes on waking, notified or not, keeps the invariant |
| `CheckQueue.AttemptSpec` | src/checkqueue.h:86-115 | one pass of the inner loop: what it does to queue and counters in each of its three outcomes, without losing or duplicating a check |
| `CheckQueue.Run` | src/checkqueue.h:64-122 | every interleaving from a state with the invariant ends in one |
| `CheckQueue.IdleBetweenSessions` | src/checkqueue.h:159-163 | between sessions the queue is idle whatever the workers do, so the assertion of the controller cannot fail |
| `CheckQueue.IdleIff` | src/checkqueue.h:159-163 | at any time, the queue is idle if and only if every check handed in this session is finished and none has failed |
| `CheckQueue.BatchShare` | src/checkqueue.h:101-112 | a batch is taken if and only if the queue is not empty; it is one check, or the equal share for every thread inside, every sleeper again and one more, cut to the batch size, and is the newest checks in reverse order |
| `CheckQueue.ReturnEndsTheSession` | src/checkqueue.h:86-92 | when Wait returns, the session is recorded with its true result, the queue is idle and nothing is carried over |
| `CheckQueue.SleepingMasterIsWaitedOn` | src/checkqueue.h:75-98 | a master asleep without a notification always has a worker holding a batch that is not empty |
| `CheckQueue.WaitAlwaysProgresses` | src/checkqueue.h:64-122 | a master inside Wait is never stuck, spurious wake-ups or not: some enabled step, a wake-up only of a notified thread, ends the session or lowers the work left |
| `CheckQueueRuns.WaitComesBack` | src/checkqueue.h:64-138 | on every endless run in which each thread with a batch or a notification gets its turn, a Wait the master is inside comes back, with any number of workers and any spurious wake-ups |
| `CheckQueueRuns.BatchesAreBounded` | src/checkqueue.h:64-122 | without new checks, any run finishes at most as many batches as there is effort left |
| `CheckQueue.EffortFalls` | src/checkqueue.h:64-122 | without new checks no step adds work, and finishing a batch lowers it |
| `CheckQueue.LastReversedSplits` | src/checkqueue.h:105-112 | swapping checks off the back loses and duplicates none |
| `CheckQueue.CheckQueueObject.Add` | src/checkqueue.h:141-153 | the checks are queued and counted |
| `CheckQueue.CheckQueueObject.EnterSection` | src/checkqueue.h:73-115 | the critical section of the code is the transition of the model, and the master is notified exactly when a worker retires the last check |
| `CheckQueue.CheckQueueObject.WakeSection` | src/checkqueue.h:86-115 | the section after a wait is the transition of the model |
| `CheckQueue.CheckQueueObject.TakeBatch` | src/checkqueue.h:105-112 | takes exactly the last checks of the queue |
| `CheckQueue.CheckQueueObject.IsIdleSection` | src/checkqueue.h:159-163 | true exactly in idle states, which by `CheckQueue.IdleIff` are those without unfinished or failed checks |
| `CheckQueue.EvaluateBatch` | src/checkqueue.h:117-120 | stops evaluating at the first failure; the result is the conjunction |
| `AddrManOps.RunSpec` | src/addrman.cpp:79-640 | every run of calls with positive times keeps all tables consistent, a tried slot once filled is never empty again, and recorded collisions stay sound if they were |
| `AddrManOps.StepSpec` | src/addrman.cpp:201-640 | the same for one call of any kind |
| `AddrManBuckets.RunsKeepRangesApart` | src/addrman.h:107-125 | under any hash and key, after any run of calls no address range has more than 512 of the 16384 tried places |
| `AddrManBuckets.TriedPerRange` | src/addrman.cpp:18-27 | the same for any consistent tables: a range has at most 8 of the 256 tried buckets, of 64 places each |
| `AddrManBuckets.AnnouncementsReach` | src/addrman.h:107-125 | however many addresses sources of one range announce, in any order, at most 64 of the 1024 new buckets change and no tried place does |
| `AddrManBuckets.AddReaches` | src/addrman.cpp:267-338 | one announcement changes at most the one new bucket that the ranges of address and source select |
| `AddrManBuckets.NewSlotIn` | src/addrman.cpp:29-43 | the new bucket depends on the two ranges only, and is one of the 64 of the range of the source |
| `AddrManSpec.InvPassesCheck` | src/addrman.cpp:409-483 | with consistent tables, Check_ passes if and only if the key is not null |
| `AddrManSpec.EmptyIsConsistent` | src/addrman.h:568-590 | the cleared tables are consistent |
| `AddrManSpec.SizesAgree` | src/addrman.cpp:409-483 | the random order, the id map and the two counters agree in size |
| `AddrManOps.FindSpec` | src/addrman.cpp:79-90 | lookup by address is inverse to the id map |
| `AddrManSpec.CreateSpec` | src/addrman.cpp:92-102 | a created entry is in all indices and in no table |
| `AddrManSpec.SwapRandomSpec` | src/addrman.cpp:104-122 | swapping two places keeps the random order a permutation with exact back-pointers |
| `AddrManSpec.DeleteSpec` | src/addrman.cpp:124-136 | deletion removes exactly one entry from all indices |
| `AddrManSpec.ClearNewSpec` | src/addrman.cpp:138-151 | clearing empties exactly one new slot and deletes its entry when that was the last reference |
| `AddrManSpec.TakeSpec` | src/addrman.cpp:327-330 | taking a free new slot raises the reference count to the number of slots held |
| `AddrManSpec.LeaveNewSpec` | src/addrman.cpp:155-165 | leaving all new buckets leaves no slot behind and the reference count at zero |
| `AddrManSpec.LeaveTriedSpec` | src/addrman.cpp:172-181 | the evicted entry leaves the tried table and its counter |
| `AddrManSpec.BackToNewSpec` | src/addrman.cpp:183-192 | the evicted entry ends in exactly one new slot and survives, whoever held that slot before |
| `AddrManSpec.EnterTriedSpec` | src/addrman.cpp:194-198 | the entry takes its tried slot |
| `AddrManSpec.MakeTriedSpec` | src/addrman.cpp:153-199 | the whole move: only the own tried slot changes, the evicted entry is back in one new slot, all invariants hold |
| `AddrManOps.UntriedIsInSomeBucket` | src/addrman.cpp:230-245 | the exit for "no bucket is found" is unreachable |
| `AddrManOps.GoodSpec` | src/addrman.cpp:201-265 | a success report keeps all tables consistent |
| `AddrManOps.GoodAchieves` | src/addrman.cpp:201-265 | a success report makes a known entry tried, unless it collides and was to be examined first: then the tables stay and the collision is noted if there is room |
| `AddrManOps.PlaceSpec` | src/addrman.cpp:316-336 | placing an announced entry keeps the tables consistent |
| `AddrManOps.PlaceAchieves` | src/addrman.cpp:316-336 | the entry gets its slot if and only if it may, and disappears if and only if it has no slot left |
| `AddrManLaws.PlacedIff` | src/addrman.cpp:316-336 | the slot its source selects is filled if and only if it is free, its own already, held by a terrible entry, or held by an entry with other slots while the newcomer has none |
| `AddrManLaws.KnownAchieves` | src/addrman.cpp:275-336 | a known address gets a further slot, if it may have it, exactly when the announced time is newer than the stored one, it is untried with less than eight slots, and a draw among two to the number of its slots is zero; besides time and services no statistics change, of any entry |
| `AddrManLaws.UnknownAchieves` | src/addrman.cpp:304-336 | an unknown address becomes an entry with cleared statistics, aged by the penalty, if and only if it may have the slot its source selects; no other entry changes its statistics |
| `AddrManLaws.AddAchieves` | src/addrman.cpp:267-338 | an unroutable address changes nothing, and an address that announces itself bears no penalty |
| `AddrManLaws.ReannouncedTime` | src/addrman.cpp:281-288 | the stored time never goes back, lags the announced one by at most the penalty and an hour, or a day for old announcements, and takes no other value than the announced time less the penalty |
| `AddrManLaws.TerribleIff` | src/addrman.cpp:44-64 | the exact condition, in seconds and counts, under which an entry is worth keeping |
| `AddrManOps.AddSpec` | src/addrman.cpp:267-338 | adding keeps the tables consistent and reports true if and only if the address is routable and was unknown |
| `AddrManOps.OnEntrySpec` | src/addrman.cpp:340-360 | changing times, attempts or services of one entry keeps the tables consistent |
| `AddrManLaws.AttemptAchieves` | src/addrman.cpp:340-360 | an attempt is timed in the entry for exactly this service, and counted as a failure if and only if that is asked for and none was counted since the last success of any entry |
| `AddrManLaws.CountedOnce` | src/addrman.cpp:340-360 | any two attempts since the last success add at most one failure |
| `AddrManLaws.ConnectedAchieves` | src/addrman.cpp:518-536 | a connection changes the time of the entry for exactly this service if and only if it is over 1200 seconds newer |
| `AddrManLaws.SetServicesAchieves` | src/addrman.cpp:538-553 | the services of the entry for exactly this service are replaced |
| `AddrManOps.ResolveOneSpec` | src/addrman.cpp:556-613 | resolving one collision, which does what `AddrManLaws.ResolveOneAchieves` says, keeps the tables consistent |
| `AddrManLaws.ResolveOneAchieves` | src/addrman.cpp:556-613 | exactly how one collision is resolved: a vanished or invalid newcomer is forgotten; a free slot is taken; an entry that succeeded within 14400 seconds stays and the collision is forgotten; one tried within 14400 seconds gives way if and only if that was over 60 seconds ago; any other gives way if and only if the newcomer last succeeded over 2400 seconds ago; else all waits |
| `AddrManLaws.AllResolved` | src/addrman.cpp:556-613 | when every entry was last tried over a minute and last reached over 40 minutes ago, going through any list of collisions resolves every one of them |
| `AddrManLaws.GoodTouches` | src/addrman.cpp:201-265 | a success report changes the statistics of the entry for exactly this service and of no other |
| `AddrManLaws.GoodEvicts` | src/addrman.cpp:153-199 | the entry evicted by a success report is back in exactly one new slot, and the number of tried entries is as before |
| `AddrManOps.ResolveAllSpec` | src/addrman.cpp:556-613 | resolving all of them keeps the tables consistent |
| `AddrManOps.CollectSpec` | src/addrman.cpp:486-516 | a listing returns distinct eligible entries, exactly as many as there are up to the limit, whatever the random draws |
| `AddrManLaws.ListedMeans` | src/addrman.cpp:486-516 | a listing holds no entry twice, only wanted ones that are not terrible, and all of those when it is shorter than the limit |
| `AddrManLaws.NodeLimitIsLargest` | src/addrman.cpp:488-493 | the limit of a listing is the largest number within the share and the maximum asked for, zero meaning no bound |
| `AddrManOps.CollisionLookupIsSafe` | src/addrman.cpp:615-640 | after any run from Clear, every recorded collision that still exists has an occupied tried slot with an existing entry, so no lookup of id -1 happens |
| `AddrManClear.TablesSurviveClears` | src/addrman.h:568-590 | all tables stay consistent through any run of calls and safe collision lookups, with any number of clears and new keys in between |
| `AddrManClear.QuietRunsAreSafe` | src/addrman.cpp:615-640 | a run that clears only while no collision is recorded makes safe lookups only, and keeps the whole invariant |
| `AddrManClear.LookupsStaySafeIff` | src/addrman.cpp:615-640 | whatever the new key, every run from a clear to the next makes safe collision lookups only if and only if no collision was recorded at the clear |
| `AddrManClear.StaleCollisionShows` | src/addrman.cpp:615-640 | for any recorded collision and any key, a run after the clear whose last lookup finds the id again with its tried slot empty |
| `AddrManClear.StaleJoins` | src/addrman.cpp:316-336 | an address announced without a time is let in over any table of such entries, under any hash |
| `AddrManClear.ClearKeepsInvIff` | src/addrman.h:568-590 | a clear leaves all tables consistent, and keeps the whole invariant if and only if no collision is recorded |
| `AddrManClear.CollisionIsNoted` | src/addrman.cpp:201-265 | for any two services that share a tried slot, a run from the cleared tables that records a collision |
| `AddrManClear.StaleCollision` | src/addrman.cpp:615-640 | clearing after that and adding any service reuses the colliding id with its tried slot empty, so the next lookup asks for id -1 |
| `AddrMan.AddrManager.SwapRandom` | src/addrman.cpp:104-122 | swaps places and back-pointers as specified |
| `AddrMan.AddrManager.Delete` | src/addrman.cpp:124-136 | deletes as specified |
| `AddrMan.AddrManager.ClearNew` | src/addrman.cpp:138-151 | clears as specified |
| `AddrMan.AddrManager.LeaveAllBuckets` | src/addrman.cpp:155-165 | the loop over buckets takes the entry out of all its slots |
| `AddrMan.AddrManager.EvictedGoesBack` | src/addrman.cpp:183-192 | re-enters the evicted entry as specified |
| `AddrMan.AddrManager.MakeTried` | src/addrman.cpp:153-199 | moves the entry as specified |
| `AddrMan.AddrManager.Good` | src/addrman.cpp:201-265 | agrees with the specification and keeps all tables consistent, whatever bucket the scan starts at |
| `AddrMan.AddrManager.Place` | src/addrman.cpp:316-336 | agrees with the specification |
| `AddrMan.AddrManager.Add` | src/addrman.cpp:267-338 | agrees with the specification and keeps all tables consistent |
| `AddrMan.AddrManager.Attempt` | src/addrman.cpp:340-360 | agrees with the specification and keeps all tables consistent |
| `AddrMan.AddrManager.Connected` | src/addrman.cpp:518-536 | agrees with the specification and keeps all tables consistent |
| `AddrMan.AddrManager.GetAddr` | src/addrman.cpp:486-516 | computes the bound from share and maximum and lists distinct eligible entries, exactly as many as possible |
| `AddrMan.AddrManager.ResolveCollisions` | src/addrman.cpp:556-613 | goes through all recorded collisions in ascending order and does to each what `AddrManLaws.ResolveOneAchieves` says |
| `AddrMan.AddrManager.SelectTriedCollision` | src/addrman.cpp:615-640 | finds the tried entry in the slot of a collision, and drops a collision whose entry is gone |
| `AssemblerRuns.RunKeepsInv` | src/blockassembler.cpp:359-480 | after any number of iterations, with packages cut short at shielded transactions or not, each transaction is in the block once and after all its in-mempool ancestors, and no modified entry is for a transaction in the block |
| `AssemblerSpec.IterateKeepsInv` | src/blockassembler.cpp:359-480 | the same for one iteration under any choice of fees and order; the block only grows at its end |
| `AssemblerSpec.IterateAddsIff` | src/blockassembler.cpp:359-480 | an iteration adds nothing when its entry is skipped, when size or signature operations would reach the limit or 40000, or when the package holds a transaction that is not final; otherwise it adds no other transactions than the package, and all of it if and only if it has no shielded ones, or there is no maintenance and they have room within 750000 bytes |
| `AssemblerRuns.ResetRunsAreFinal` | src/blockassembler.cpp:267-276 | from a reset block, in every mempool and run, every transaction listed in the block is a final one of the mempool |
| `AssemblerRuns.RunKeepsFinal` | src/blockassembler.cpp:267-276 | the same from any state whose block is final |
| `AssemblerRuns.RunCountsSizes` | src/blockassembler.cpp:278-295 | in every mempool and run, the size counted is 1000 plus that of the transactions in the block, and the signature operations 100 plus theirs |
| `AssemblerRuns.ResetRunsFit` | src/blockassembler.cpp:258-265 | so the transactions of a block stay 1000 bytes below the size limit and below 39900 signature operations, on every covered or tidy run and whenever all shielded transactions fit |
| `AssemblerRuns.FittingRunsAreExact` | src/blockassembler.cpp:297-319 | when all shielded transactions fit, the figures of every entry not given up on are exactly those of its package, in every run |
| `AssemblerSpec.IterateKeepsExact` | src/blockassembler.cpp:297-319 | the same for one iteration that leaves nothing out |
| `AssemblerSpec.TargetIsOutside` | src/blockassembler.cpp:373-410 | the chosen entry is never in the block, so the assertion on it cannot fail |
| `AssemblerSpec.SortedIsAddable` | src/blockassembler.cpp:338-347 | ordering by ancestor count puts every package member after its ancestors |
| `AssemblerSpec.AddSortedSpec` | src/blockassembler.cpp:458-475 | adding a package, in part or whole, keeps the order and moves exactly the added entries out of the modified table |
| `AssemblerSpec.UpdateKeepsModified` | src/blockassembler.cpp:297-319 | the update for descendants never brings a transaction of the block into the modified table |
| `AssemblerSpec.IncludePackageSpec` | src/blockassembler.cpp:437-478 | including a package keeps block and modified table sound |
| `AssemblerRuns.RunWithinLimits` | src/blockassembler.cpp:258-265 | in every mempool, any run in which every charge is covered keeps size and signature operations at their initial values or strictly below the limits |
| `AssemblerRuns.CoverThroughoutIff` | src/blockassembler.cpp:297-319 | in every mempool, no figure in the modified table understates its package anywhere along a run if and only if every charge made in it is covered |
| `AssemblerRuns.TidyRunsAreCovered` | src/blockassembler.cpp:458-478 | every charge is covered in a run in which nothing outside a package descends from a transaction left out of it |
| `AssemblerRuns.ResetRunsWithinLimits` | src/blockassembler.cpp:359-480 | from a reset block, every covered run, every tidy run, and every run at all when the shielded transactions of the mempool fit, ends within the limits |
| `AssemblerRuns.FittingRunsAreTidy` | src/blockassembler.cpp:462-475 | when all shielded transactions of the mempool fit, nothing is left out of any package in any run |
| `AssemblerRuns.RunCounts` | src/blockassembler.cpp:462-475 | in every mempool and run, the shielded space counted is what the block holds |
| `AssemblerSpec.IterateWithinLimits` | src/blockassembler.cpp:359-480 | in every mempool, an iteration from a state within limits whose figures do not understate ends within limits, its package cut short or not |
| `AssemblerSpec.UpdateKeepsCoverIff` | src/blockassembler.cpp:297-319 | the update after a package, whole or cut short, leaves no figure understated if and only if each descendant could be charged for its left-out ancestors too; also when a failed entry is created again |
| `AssemblerSpec.IterateCoverIff` | src/blockassembler.cpp:359-480 | in every mempool, an iteration leaves no figure understated if and only if it accepts no package or its descendants can be charged for what is left out |
| `AssemblerSpec.IncludeWithinLimits` | src/blockassembler.cpp:258-265 | a package whose figures are not understated and pass the size condition leaves the block within limits, whole or cut short |
| `AssemblerSpec.AddSortedCounts` | src/blockassembler.cpp:458-475 | size, signature operations and shielded space grow by exactly what goes in, whole or cut short |
| `AssemblerSpec.AddSortedWholeIff` | src/blockassembler.cpp:462-475 | a sorted package goes in whole if and only if it has no shielded transaction, or there is no maintenance and all of them have room |
| `AssemblerRuns.EndlessIff` | src/blockassembler.cpp:359-480 | in every mempool, the loop has runs of any length if and only if some run leads to an iteration that accepts the package of a modified entry whose first transaction is turned away |
| `AssemblerSpec.IterateLowersIff` | src/blockassembler.cpp:359-480 | in every mempool, an iteration that goes on lowers (transactions outside, entries left to walk, modified entries) if and only if it is not such a stuck one |
| `AssemblerRuns.FittingRunsEnd` | src/blockassembler.cpp:359-480 | when all shielded transactions fit, no run gets stuck and the number of iterations is bounded |
| `AssemblerRuns.UnstuckRunsAreShort` | src/blockassembler.cpp:359-480 | a run that cannot get stuck has a bounded number of iterations |
| `AssemblerRuns.TrappedStays` | src/blockassembler.cpp:458-478 | a stuck package is stuck again in the next iteration, whatever the update for its descendants does |
| `AssemblerSpec.NeverStuck` | src/blockassembler.cpp:458-475 | when all shielded transactions fit, no iteration is stuck |
| `AssemblerSpec.IterateCounts` | src/blockassembler.cpp:462-475 | in every mempool, an iteration keeps the shielded space counted equal to what the block holds |
| `AssemblerSpec.FittingLeavesNothingOut` | src/blockassembler.cpp:462-475 | when all shielded transactions of the mempool fit, nothing is left out of an accepted package |
| `AssemblerRuns.LimitsCanBreak` | src/blockassembler.cpp:458-478 | a concrete mempool and run, during maintenance, that carry the block over its size limit, because what descends from a package cut short is charged as though it had gone in whole |
| `AssemblerRuns.BlockedPackageStalls` | src/blockassembler.cpp:458-478 | with a blocked shielded transaction first in its package, an accepting iteration changes nothing |
| `AssemblerRuns.StallIsReachable` | src/blockassembler.cpp:359-480 | a concrete mempool on which the loop reaches, from a reset block, a state it never leaves while Sapling is under maintenance |
| `Assembler.BlockAssembler.OnlyUnconfirmed` | src/blockassembler.cpp:245-256 | removes exactly the transactions in the block |
| `Assembler.BlockAssembler.AddToBlock` | src/blockassembler.cpp:278-295 | adds one transaction with its size and signature operations |
| `Assembler.BlockAssembler.AddSortedPackage` | src/blockassembler.cpp:458-475 | adds a sorted package up to the first transaction that may not go in |
| `Assembler.BlockAssembler.SortForBlock` | src/blockassembler.cpp:338-347 | lists exactly the package, by ancestor count |
| `Assembler.BlockAssembler.Step` | src/blockassembler.cpp:359-480 | one iteration of the loop is one iteration of the specification, with what `AssemblerSpec.IterateAddsIff` says of it |
| `Assembler.BlockAssembler.AddPackageTxs` | src/blockassembler.cpp:359-480 | where it cannot get stuck, the loop ends at a state the specification reaches and stops in, with each transaction final, once and after its ancestors; within limits when the charges of the run are covered, so also when the run is tidy or all shielded transactions fit |
| `Assembler.UpdatePackagesForAdded` | src/blockassembler.cpp:297-319 | the nested loops, in any order, charge each descendant once for every added ancestor |
| `Assembler.ChargeDescendants` | src/blockassembler.h:118-130 | each descendant of one added transaction is charged once |
| `MerkleSpec.RoundTrip` | src/merkleblock.cpp:56-172 | what is built from any transactions and any mask, through padded bytes, is accepted and gives the root and exactly the selected transactions in order; at most one hash per transaction and at most 1 + matched * height are stored |
| `MerkleSpec.OnlyRealMatches` | src/merkleblock.cpp:93-172 | with a collision-free node hash, any bits and hashes at all that extract to the true non-zero root give only transactions of the block, at strictly increasing positions |
| `MerkleSpec.OnlyRealBelow` | src/merkleblock.cpp:93-122 | the same for any subtree |
| `MerkleProofs.AcceptedIff` | src/merkleblock.cpp:141-172 | what is accepted, told without the traversal: for 1 to 33333 transactions, bits and hashes give the root and picks of a tree of stored hashes and flagged leaves if they spell one out, to the last hash and the last byte of bits; in every other case, with hashes or bytes missing or left over, the result is the null hash |
| `MerkleProofs.EncodingAccepted` | src/merkleblock.cpp:141-172 | every such spelling is accepted with exactly the root and the picks of its tree |
| `MerkleProofs.ReadIsProof` | src/merkleblock.cpp:93-122 | whatever is read without running out of bits or hashes spells out such a tree |
| `MerkleProofs.ReadsProof` | src/merkleblock.cpp:93-122 | reading a tree that is spelled out ends just past it |
| `MerkleProofs.EncodesOne` | src/merkleblock.cpp:93-122 | bits and hashes spell out at most one tree |
| `MerkleSpec.ExtractBuilt` | src/merkleblock.cpp:74-122 | extraction of a built subtree consumes exactly what was stored for it |
| `MerkleSpec.StoredCounts` | src/merkleblock.h:39-45 | the bounds on stored hashes for any subtree, and at least one bit per hash |
| `MerkleSize.BitsBoundIff` | src/merkleblock.h:52-52 | the number of flag bits is 2N - 1 plus the number of single children on the right edge above a match; so it is at most 2N - 1 if and only if no level of odd width ends below the parent of a match |
| `MerkleSize.SizeAsPromisedIff` | src/merkleblock.h:36-53 | the serialized size is at most 10 + ceil(32.25 N) if and only if the single children number at most 1 + 2 (-N mod 4) plus 8 for each byte that the two counts leave of six, all in terms of the leaves and the mask |
| `MerkleSize.StoredIsHashes` | src/merkleblock.h:41-46 | the number of hashes stored is the number of visited nodes that are leaves or hold no match |
| `MerkleSize.SmallIsAsPromised` | src/merkleblock.h:36-53 | for up to as many transactions as a block holds, the size is as promised whenever one of the two counts takes a single byte |
| `MerkleSize.FiveLeavesOverrun` | src/merkleblock.h:52-52 | five transactions, the last selected: two hashes but five flag bits |
| `MerkleSize.LargeTreeOverruns` | src/merkleblock.h:36-39 | 2049 transactions, all selected: 66092 bytes, one more than promised |
| `MerkleSpec.LevelIsCalcHash` | src/merkleblock.cpp:56-72 | the recursive hash of a node is the entry of the tree built level by level |
| `MerkleSpec.WidthHalves` | src/merkleblock.h:70-74 | each level has half the nodes of the one below, rounded up |
| `MerkleSpec.BadStays` | src/merkleblock.cpp:93-122 | a failure during extraction is never forgotten |
| `Merkle.BitsToBytes` | src/merkleblock.cpp:15-22 | bit p of the bytes is flag p, and the rest is zero |
| `Merkle.BytesToBits` | src/merkleblock.cpp:24-31 | flag p is bit p of the bytes |
| `Merkle.PackedBitsArePadded` | src/merkleblock.h:90-98 | bits written and read back are the bits followed by zeros to a whole byte |
| `Merkle.TreeHeight` | src/merkleblock.cpp:130-133 | the least height with a single node |
| `Merkle.PartialMerkleTree.Build` | src/merkleblock.cpp:124-137 | a tree object holds exactly the specified bits and hashes |
| `Merkle.PartialMerkleTree.Read` | src/merkleblock.h:90-98 | a tree read from bytes holds their bits |
| `Merkle.PartialMerkleTree.CalculateHash` | src/merkleblock.cpp:56-72 | the recursion computes the specified node hash |
| `Merkle.PartialMerkleTree.TraverseAndBuild` | src/merkleblock.cpp:74-91 | appends exactly the bits and hashes of the subtree |
| `Merkle.PartialMerkleTree.TraverseAndExtract` | src/merkleblock.cpp:93-122 | consumes bits and hashes as specified, failures included |
| `Merkle.PartialMerkleTree.ExtractAll` | src/merkleblock.cpp:141-172 | rejects and returns exactly as specified |
| `Merkle.SendSelected` | src/merkleblock.cpp:15-172 | end to end: the selected transactions of a block arrive complete, in order and under the root of the level-by-level tree |
| `MerkleRoot.ComputeMerkleRoot` | src/consensus/merkle.cpp:42-133 | the constant-space pass and sweep give the root of the recursive definition for up to 2^31 leaves without the 32-bit count wrapping, and the mutation flag is raised if and only if two complete siblings are equal |
| `MerkleRoot.AddLeaf` | src/consensus/merkle.cpp:61-86 | after each leaf there is one finished subtree for each bit of the count |
| `MerkleRoot.SweepPairs` | src/consensus/merkle.cpp:111-122 | completing the right edge combines the finished subtree of each level |
| `MerkleRoot.Combine` | src/consensus/merkle.cpp:69-80 | two finished siblings make the finished node above them |
| `MerkleRoot.TwinsNext` | src/consensus/merkle.cpp:69-80 | the pairs compared while adding a leaf are exactly the complete pairs that end there |
| `MerkleUnique.UnflaggedRootIsUnique` | src/consensus/merkle.cpp:9-39 | with a collision-free hash, two lists of the same height that raise no mutation flag have the same root if and only if they are the same list |
| `MerkleUnique.EqualNodes` | src/consensus/merkle.cpp:9-39 | in such lists, equal nodes of any height stand for equal leaves |
| `MerkleUnique.RepeatedEndKeepsRoot` | src/consensus/merkle.cpp:9-39 | whatever the hash, repeating the last complete subtree of an odd number of them keeps height and root, and raises the flag |
| `BigUint.Uint.AddAssign` | src/arith_uint256.h:137-147 | the sum modulo 2 to the width, also when both operands are the same object |
| `BigUint.Uint.SubAssign` | src/arith_uint256.h:149-153 | the difference, wrapped modulo 2 to the width when negative |
| `BigUint.Uint.Negated` | src/arith_uint256.h:79-86 | the two's complement |
| `BigUint.Uint.Increment` | src/arith_uint256.h:175-182 | plus one, wrapping at the top |
| `BigUint.Uint.Decrement` | src/arith_uint256.h:192-199 | minus one, wrapping at zero |
| `BigUint.Uint.MulAssign32` | src/arith_uint256.cpp:63-73 | the product with a limb modulo 2 to the width; the 64-bit sum never overflows |
| `BigUint.Uint.MulAssign` | src/arith_uint256.cpp:75-89 | the product modulo 2 to the width; the 64-bit sum never overflows, also when squaring |
| `BigUint.Uint.AddRow` | src/arith_uint256.cpp:79-86 | one row of the long multiplication, up to a multiple of the modulus |
| `BigUint.Uint.ShiftLeftAssign` | src/arith_uint256.cpp:29-44 | multiplication by a power of two modulo 2 to the width, for any shift |
| `BigUint.Uint.ShiftRightAssign` | src/arith_uint256.cpp:46-61 | division by a power of two, for any shift |
| `BigUint.Uint.DivAssign` | src/arith_uint256.cpp:91-115 | floor division leaving the remainder; fails exactly for a zero divisor, with the number already cleared |
| `BigUint.Uint.DivideStep` | src/arith_uint256.cpp:104-112 | one bit of the quotient, keeping number = rest + quotient * divisor |
| `BigUint.Uint.CompareTo` | src/arith_uint256.cpp:117-127 | the order of the numbers |
| `BigUint.Uint.BitLength` | src/arith_uint256.cpp:214-227 | the position of the highest bit plus one, zero for zero |
| `BigUint.ProductFits` | src/arith_uint256.cpp:79-84 | a product of two limbs plus two limbs fits 64 bits and its high half is a limb |
| `Shifts.LeftDone` | src/arith_uint256.cpp:29-44 | the limbs of a finished left shift, as a number |
| `Shifts.RightDone` | src/arith_uint256.cpp:46-61 | the limbs of a finished right shift, as a number |
| `Division.SetBit` | src/arith_uint256.cpp:107-109 | setting a bit of the quotient by bitwise or adds its weight |
| `Division.Align` | src/arith_uint256.cpp:99-103 | aligning the divisor does not overflow, and its double exceeds the number |
| `CompactSpec.OverflowIsExact` | src/arith_uint256.cpp:286-289 | the overflow flag is raised if and only if mantissa * 256^(size - 3) is at least 2^256 |
| `CompactSpec.MeantIs` | src/arith_uint256.cpp:274-289 | the number meant, read off the 32 bits: mantissa * 256^(size - 3), rounded down for sizes below three; negative if and only if it is not zero and bit 23 is set |
| `CompactSpec.DecodeEncoded` | src/arith_uint256.cpp:274-315 | decoding an encoding gives the number cut to its leading bytes, the sign asked for unless zero, and no overflow |
| `CompactSpec.KeptIsClose` | src/arith_uint256.cpp:294-315 | what is cut off is less than one unit of the last byte kept |
| `CompactSpec.LossIsSmall` | src/arith_uint256.cpp:274-315 | encoding and decoding loses less than one part in 2^15 |
| `CompactSpec.ComesBackIffNormal` | src/arith_uint256.cpp:274-315 | a compact form survives decoding and encoding if and only if it does not overflow and is normal: no sign, leading mantissa byte in use, nothing cut off |
| `CompactSpec.ShiftedAwayIsLost` | src/arith_uint256.cpp:274-315 | an instance: 0x01003456 decodes to zero and comes back as zero |
| `CompactSpec.EncodedIsNormal` | src/arith_uint256.cpp:294-315 | encodings are normal |
| `CompactSpec.NormalComesBack` | src/arith_uint256.cpp:274-315 | normal forms come back |
| `Compact.SetCompact` | src/arith_uint256.cpp:274-292 | on limbs: value and both flags as specified |
| `Compact.GetCompact` | src/arith_uint256.cpp:294-315 | on limbs: the specified encoding, which fits 32 bits |
| `SkipList.LookupBound` | src/chain.cpp:77-111 | going back up to 2^18 blocks from any height takes at most 110 steps, the figure the code gives from simulations; from below height 2^k any lookup takes at most (k^2 + 9k + 8) / 4 |
| `SkipList.StepsAcross` | src/chain.cpp:77-111 | the same for going back from one aligned block of 2^18 heights into the one before it |
| `SkipList.TopCost` | src/chain.cpp:77-111 | how long a lookup from the top of any aligned block of 2^k heights takes at most |
| `SkipList.TopCostAbove` | src/chain.cpp:77-111 | how much less it takes for targets away from the bottom of the block |
| `SkipList.CrossingCost` | src/chain.cpp:77-111 | how long a lookup from any height of the upper half of a block takes to come below its middle |
| `SkipList.BlockCost` | src/chain.cpp:77-111 | the same from any height of the block |
| `SkipList.OddSkip` | src/chain.cpp:77-111 | where a lookup goes from an odd height, by how many bits are left to clear |
| `BlockTree.BlockIndex.GetAncestor` | src/chain.cpp:88-116 | the lookup by skip links ends, in at most 110 steps when it goes back up to 2^18 blocks, and returns the block of the plain parent walk; null exactly for heights that do not exist |
| `BlockTree.BlockIndex.constructor` | src/chain.cpp:118-122 | a block linked to its parent with its skip link built keeps the whole tree sound |
| `SkipList.SkipGoesBack` | src/chain.cpp:74-86 | a skip height is always strictly lower |
| `SkipList.InvertLowestOneIs` | src/chain.cpp:74-75 | exactly the lowest one bit is cleared |
| `BlockTree.BlockIndex.WalkOn` | src/chain.cpp:88-111 | walking on from an ancestor is walking from the block |
| `BlockTree.LastCommonAncestor` | src/chain.cpp:335-353 | the highest block on both branches, null exactly when they share none |
| `Chain.ActiveChain.SetTip` | src/chain.cpp:14-25 | from any earlier chain to any tip: every height holds the ancestor of the new tip, although replacement stops at the first block already there |
| `Chain.ActiveChain.FindFork` | src/chain.cpp:56-65 | the highest block of the chain that is the given block or an ancestor of it, null exactly when there is none |
| `Chain.ActiveChain.GetLocator` | src/chain.cpp:27-54 | ancestors of the block with heights going down in the specified steps to the first block, at most 42 entries for 32-bit heights, below the limit a peer accepts |
| `Chain.HeightsAre` | src/chain.cpp:27-54 | entry i of a locator is i blocks back for i up to 11, and 9 + 2^(i - 10) blocks back after that, or the first block |
| `Chain.StepsDescend` | src/chain.cpp:27-54 | the heights of a locator strictly descend |
| `Chain.TravelledBound` | src/net.h:51-51 | the doubling steps reach the first block within 40 entries |
| `Chain.ActiveChain.ContainsIffAncestorOfTip` | src/chain.h:435-439 | the chain contains exactly the ancestors of its tip |
| `Chain.ActiveChain.NextIsChild` | src/chain.h:441-448 | the successor is the child on the chain, and only the tip has none |
| `CuckooSpec.RunKeepsInv` | src/cuckoocache.h:264-453 | over any run of inserts and erasures of non-default elements, lookup is table membership and live entries of the current epoch never exceed epoch_size + max(1, epoch_size / 16) |
| `CuckooSpec.InsertSpec` | src/cuckoocache.h:368-416 | after the epoch check, everything kept and the new element are kept, except at most one; likewise everything that the next aging would keep, so the new element belongs to the current epoch; nothing is lost when the element is there or has a free place |
| `CuckooSpec.DisplaceSpec` | src/cuckoocache.h:382-415 | displacement up to the depth limit loses at most the element last in hand |
| `CuckooSpec.LookupIsMembership` | src/cuckoocache.h:443-453 | the eight places decide membership in the whole table |
| `CuckooSpec.EpochCheckSpec` | src/cuckoocache.h:264-296 | the cache ages if and only if a scan is due and finds the epoch full; then it keeps exactly the elements of that epoch, and the next scan is due after a whole epoch; otherwise nothing changes and the next scan is due no sooner than the epoch can be full; there is room for one more entry, and the table is never touched |
| `CuckooSpec.KeptForAnEpoch` | src/cuckoocache.h:264-296 | an element of the current epoch is kept through the next epoch_size + 1 insertions, whatever is erased and inserted besides, unless it is pushed out or erased itself |
| `CuckooSpec.KeptWhileCounting` | src/cuckoocache.h:264-296 | any kept element is kept for as many insertions as are left to the next scan, with the same exception |
| `CuckooSpec.AgeKeepsRecent` | src/cuckoocache.h:280-286 | aging keeps exactly the live elements of the current epoch |
| `CuckooSpec.AllowEraseSpec` | src/cuckoocache.h:443-453 | erasing marks exactly one element as garbage, for now and for the next aging, and it can still be found |
| `CuckooSpec.FreshInv` | src/cuckoocache.h:315-329 | a cache just set up keeps nothing, is sound, and has 45 percent of its size for an epoch, or one |
| `Cuckoo.BitPackedFlags.constructor` | src/cuckoocache.h:61-68 | all flags start set |
| `Cuckoo.BitPackedFlags.BitSet` | src/cuckoocache.h:92-95 | sets one flag and no other |
| `Cuckoo.BitPackedFlags.BitUnset` | src/cuckoocache.h:103-106 | clears one flag and no other |
| `Cuckoo.CuckooCache.EpochChecked` | src/cuckoocache.h:264-296 | counting and aging loops agree with the specification |
| `Cuckoo.CuckooCache.InsertElement` | src/cuckoocache.h:368-416 | agrees with the specification, so keeps and marks what `CuckooSpec.InsertSpec` says |
| `Cuckoo.CuckooCache.DisplaceFrom` | src/cuckoocache.h:382-415 | the displacement loop agrees with the specification |
| `Cuckoo.CuckooCache.ContainsElement` | src/cuckoocache.h:443-453 | agrees with the specification, with or without erasing |
| `Bech32Checksum.PolyXor` | src/bech32.cpp:33-90 | the checksum of an exclusive or is the exclusive or of the checksums |
| `Bech32Checksum.ChecksumUnique` | src/bech32.cpp:114-135 | six symbols make a list valid if and only if they are its checksum |
| `Bech32Checksum.BurstDetected` | src/bech32.cpp:33-90 | lists that differ only within six consecutive symbols, a single changed symbol among them, never have the same checksum |
| `Bech32Distance.TwoDetected` | src/bech32.cpp:33-90 | lists that differ in two symbols up to 1022 places apart never have the same checksum |
| `Bech32Bch.ThreeDetected` | src/bech32.cpp:43-45 | lists that differ in three symbols, the outer ones up to 1022 places apart, never have the same checksum |
| `Bech32Bch.StepAt` | src/bech32.cpp:41-45 | the generator vanishes at three consecutive powers of an element of the field of 1024 elements: there, a step multiplies by the root and adds the symbol |
| `Bech32Bch.Eliminate` | src/bech32.cpp:41-45 | three terms that vanish at three consecutive powers are zero in the middle |
| `Bech32Field.Free` | src/bech32.cpp:41-45 | only zero is fixed by a power of that element below the 1023rd |
| `Bech32Distance.ConstantsStayAway` | src/bech32.cpp:33-90 | no constant polynomial times x^n is a constant again modulo the generator, for n from 1 to 1022 |
| `Bech32Distance.ComesBackAt1023` | src/bech32.cpp:168-168 | x^1023 is 1, so the length limit of 1023 is as far as any two errors are seen |
| `Bech32Distance.DoubleShifts` | src/bech32.cpp:33-90 | multiplying by x commutes with multiplying every symbol in the field |
| `Bech32Checksum.ReductionWords` | src/bech32.cpp:82-87 | the five reduction words are the generator of BIP 173 times 1, 2, 4, 8 and 16 in the field of 32 elements |
| `Bech32Checksum.StepKeepsNonZero` | src/bech32.cpp:33-90 | a remainder that is not zero stays so: the generator has a constant term |
| `Bech32Spec.ValidIffChecksum` | src/bech32.cpp:114-135 | a list of values verifies if and only if its last six are the checksum created for the rest |
| `Bech32Spec.DecodeEncode` | src/bech32.cpp:143-188 | decoding an encoding returns both parts, for every valid lower-case prefix and total length up to 1023 |
| `Bech32Spec.EncodeDecode` | src/bech32.cpp:143-188 | encoding what any accepted string decodes to gives the string in lower case |
| `Bech32Spec.BurstRejected` | src/bech32.cpp:158-188 | an accepted string with one data symbol, or several within six consecutive ones, changed to other symbols is rejected |
| `Bech32Spec.TwoRejected` | src/bech32.cpp:158-188 | an accepted string with any two data characters changed to other symbols is rejected |
| `Bech32Spec.ThreeRejected` | src/bech32.cpp:158-188 | an accepted string with any three data characters changed to other symbols is rejected |
| `Bech32Strings.DecodesIff` | src/bech32.cpp:157-188 | exactly what is accepted, and as what: a string of at most 1023 characters, not in mixed case, that folded to lower case is the encoding of a part in visible ASCII without upper case and a list of symbols |
| `Bech32Strings.HrpCharRejected` | src/bech32.cpp:157-188 | an accepted string with any one character before the separator changed, other than in case, is rejected |
| `Bech32Strings.CaseIsFolded` | src/bech32.cpp:157-188 | a string in upper case is read as its lower-case form |
| `Bech32Strings.ExpandedIs` | src/bech32.cpp:98-111 | high bits, a zero, low bits: the pieces of each byte give it back |
| `Bech32Strings.CharsetIs` | src/bech32.cpp:16-16 | the characters of the symbols, in the order of BIP 173 |
| `Bech32Strings.ShortestString` | src/test/bech32_tests.cpp:27-29 | the shortest test strings of BIP 173, in both cases, are accepted as they should be |
| `Bech32Spec.CharOfSymbol` | src/bech32.cpp:16-30 | every symbol comes back from its character, which is printable, lower case and not the separator |
| `Bech32Spec.SymbolOfChar` | src/bech32.cpp:18-30 | every accepted character, in lower case, comes back from its symbol |
| `Bech32.PolyModLoop` | src/bech32.cpp:33-90 | the loop folds every symbol into the remainder as specified |
| `Bech32.ExpandHRPLoop` | src/bech32.cpp:99-111 | high bits, zero, low bits |
| `Bech32.CreateChecksumLoop` | src/bech32.cpp:124-135 | the loop gives the checksum that makes the list valid |
| `Bech32.EncodeLoop` | src/bech32.cpp:143-155 | prints as specified, or the empty string for a value over five bits |
| `Bech32.DecodeLoop` | src/bech32.cpp:158-188 | accepts and rejects exactly as specified |
| `Base58Spec.DecodeEncode` | src/base58.cpp:23-111 | decoding an encoding succeeds if and only if the bytes are within the length limit, and gives back all of them, leading zeros included |
| `Base58Spec.EncodeDecode` | src/base58.cpp:23-111 | encoding what any accepted string without surrounding spaces decodes to gives back the string |
| `Base58Spec.DecodesIff` | src/base58.cpp:23-74 | exactly what is accepted, and as what: the encoding of bytes within the length limit, with nothing around it but blanks, tabs, line feeds, vertical tabs, form feeds and carriage returns |
| `Base58Spec.SpacesAround` | src/base58.cpp:25-66 | spaces before and after any string, accepted or not, change nothing |
| `Base58Spec.AlphabetIs` | src/base58.cpp:20-21 | the alphabet is the ASCII digits and letters but for 0, I, O and l, in ASCII order |
| `Base58.EncodeRoom` | src/base58.cpp:82-84 | n * 138 / 100 + 1 digits of base 58 hold any n bytes |
| `Base58.DecodeRoom` | src/base58.cpp:36-38 | n * 733 / 1000 + 1 bytes hold any n digits of base 58 |
| `Base58.MulAdd` | src/base58.cpp:45-54 | one round of the carry loop multiplies the buffer and adds the digit; no carry is left, and the count of digits is the length of the number |
| `Base58.OneDigit` | src/base58.cpp:48-52 | one digit of such a round |
| `Base58.EncodeBase58` | src/base58.cpp:73-111 | the in-place conversion gives the specified string |
| `Base58.ReadWord` | src/base58.cpp:39-57 | reads the word as one number, up to a foreign character or one byte too many |
| `Base58.DecodeBase58` | src/base58.cpp:23-71 | the in-place conversion accepts exactly as specified and gives the specified bytes |
| `Radix.BufferIs` | src/base58.cpp:63-69 | a buffer with a known length holds the digits of its number and zeros |
| `DbTransactionSpec.RunRefines` | src/dbwrapper.h:598-702 | over any nesting and any run of writes, erases, roll-backs and commits at any depth, every layer shows what plain maps would, writes and deletes stay disjoint and every memory counter is exact |
| `DbTransactionSpec.StepRefines` | src/dbwrapper.h:598-702 | one operation of such a run |
| `DbTransactionSpec.ReadIsView` | src/dbwrapper.h:629-666 | reading and existence agree with the parent overlaid by writes and deletes |
| `DbTransactionSpec.WriteSpec` | src/dbwrapper.h:607-621 | a write changes the view at one key, with the memory counter exact |
| `DbTransactionSpec.EraseSpec` | src/dbwrapper.h:674-684 | an erase removes one key from the view, with the memory counter exact |
| `DbTransactionSpec.CommitSpec` | src/dbwrapper.h:693-702 | after a commit the parent shows what the transaction showed, which still shows it |
| `DbTransactionSpec.CommitAtSpec` | src/dbwrapper.h:693-702 | a commit further down changes only what the layer below it shows |
| `DbBatch.CommitIntoSpec` | src/dbwrapper.h:693-702 | a commit into any target leaves it with its own contents less the deletes and overlaid with the writes, counters exact |
| `DbBatch.BatchIsCommit` | src/evo/evodb.cpp:55-62 | a commit into an empty batch that is then applied is the commit into the database; in between the transaction shows the database alone |
| `DbBatch.RootCommitted` | src/evo/evodb.cpp:55-62 | under an empty inner transaction, that is the commit one layer down, and no reader sees a difference |
| `DbBatch.EvoDb.constructor` | src/evo/evodb.cpp:35-41 | both transactions start empty and show the database |
| `DbBatch.EvoDb.CommitCurTransaction` | src/evo/evodb.cpp:43-47 | the inner transaction goes into the outer one and what is shown stays |
| `DbBatch.EvoDb.RollbackCurTransaction` | src/evo/evodb.cpp:49-53 | what is shown goes back to what the outer transaction shows |
| `DbBatch.EvoDb.CommitIntoBatch` | src/dbwrapper.h:693-702 | the loops, in any order of keys, append changes that amount to the deletes and the writes |
| `DbBatch.EvoDb.CommitRootTransaction` | src/evo/evodb.cpp:55-62 | the database then holds exactly what was shown, and the same is shown |
| `DbBatch.WriteBatch` | src/dbwrapper.cpp:93-98 | the changes of a batch take effect in their order |
| `DbTransaction.Transaction.WriteKey` | src/dbwrapper.h:607-621 | agrees with the specification, memory counter included |
| `DbTransaction.Transaction.ReadKey` | src/dbwrapper.h:629-647 | agrees with the specification at any nesting |
| `DbTransaction.Transaction.ExistsKey` | src/dbwrapper.h:655-666 | agrees with the specification at any nesting |
| `DbTransaction.Transaction.EraseKey` | src/dbwrapper.h:674-684 | agrees with the specification, memory counter included |
| `DbTransaction.Transaction.CommitAll` | src/dbwrapper.h:693-702 | the loops, in any order of keys, give the committed stack |
| `DbIteratorSpec.CurrentIsLeast` | src/dbwrapper.h:527-540 | the current key is the least of those to come |
| `DbIteratorSpec.AdvanceRemoves` | src/dbwrapper.h:441-455 | moving on takes away the current key and no other |
| `DbIteratorSpec.StartCoversOverlay` | src/dbwrapper.h:414-420 | from the start all keys of the overlay are to come |
| `DbIteratorSpec.SeekCoversRest` | src/dbwrapper.h:428-434 | after a seek exactly the keys of the overlay from there on are to come |
| `DbIteratorSpec.LessTransitive` | src/dbwrapper.h:552-560 | the byte order of keys is transitive |
| `DbIteratorSpec.LessTotal` | src/dbwrapper.h:552-560 | the byte order of keys is total |
| `DbIteratorSpec.LessIff` | src/dbwrapper.h:552-560 | the first difference decides: the key that ends there or has the smaller byte there comes first |
| `DbTransaction.TransactionIterator.SeekToFirst` | src/dbwrapper.h:414-420 | all keys of the overlay are to come |
| `DbTransaction.TransactionIterator.Seek` | src/dbwrapper.h:428-434 | the keys from the given one on are to come |
| `DbTransaction.TransactionIterator.Next` | src/dbwrapper.h:441-455 | exactly the current key is taken away |
| `DbTransaction.TransactionIterator.GetKey` | src/dbwrapper.h:478-488 | the least key to come, none exactly when none is left |
| `DbTransaction.VisitAll` | src/dbwrapper.h:388-541 | the iterator visits each key of the overlay exactly once, in ascending byte order, with the value a read gives |
| `DbTransaction.OverlayKeys` | src/dbwrapper.h:388-541 | the same at any nesting of transactions |
| `BloomSpec.LastElementsFound` | src/bloom.cpp:235-301 | after any run of inserts without a reset, each of the last nElements keys is found |
| `BloomSpec.RecentGenerationsFound` | src/bloom.h:104-105 | every key of the current generation and of the two before it is found |
| `BloomSpec.RunSpec` | src/bloom.cpp:263-284 | after any run the counters follow the number of inserts, cells written in the last three generations carry the label of the last to write them, and all others are clear |
| `BloomSpec.MarkedIffRecent` | src/bloom.cpp:263-284 | after any run a cell is marked if and only if some hash of some key of the last three generations selects it |
| `BloomSpec.FoundIffRecent` | src/bloom.cpp:292-301 | after any run a key is found if and only if each of its cells was written in the last three generations |
| `BloomSpec.ForgottenAfterThree` | src/bloom.cpp:263-301 | a key with a cell that no key of the last three generations shares is forgotten, though it was inserted before |
| `BloomSpec.FreshFindsNothing` | src/bloom.cpp:309-317 | a new filter finds nothing |
| `BloomSpec.WipeKeeps` | src/bloom.cpp:271-277 | wiping a label that comes into use again leaves the two most recent generations alone |
| `Bloom.CellOfWith` | src/bloom.h:135-142 | writing a two-bit cell changes that cell alone |
| `Bloom.RollingBloomFilter.Put` | src/bloom.h:139-142 | the packed words act as an array of independent cells |
| `Bloom.RollingBloomFilter.InsertKey` | src/bloom.cpp:263-284 | the wiping and marking loops agree with the specification, so leave marked what `BloomSpec.MarkedIffRecent` says and nothing else |
| `Bloom.RollingBloomFilter.ContainsKey` | src/bloom.cpp:292-301 | found exactly when all its cells are marked |
| `Bloom.RollingBloomFilter.Reset` | src/bloom.cpp:309-317 | the filter is as new under the new hash function |

## Left out

- Assembler.BlockAssembler.AddPackageTxs: only for mempools on which the loop cannot get stuck, which by `AssemblerRuns.EndlessIff` are those on which it has no endless run; what holds in every mempool is proved of every finite number of iterations in `AssemblerRuns.RunKeepsInv`.
- AssemblerRuns.RunKeepsInv: says nothing about fees; which entry is best and when a package pays too little are left open, so fee order and modified-fee tracking are not claimed.
- ShieldedSpec.FlushKeepsBestAnchorIff: the best block hash across a flush, which is written down the same way, is not modelled.
- AddrManClear.TablesSurviveClears: a lookup of id -1, which makes up an entry, is not modelled, so runs with one are excluded.
- AddrManOps.RunSpec: serialization of the address manager, which restores one bucket per new entry, and the random loops of `Select_` are not modelled.
- MerkleRoot.ComputeMerkleRoot: the root and the mutation flag; the branch for one position is not computed, and more than 2^31 leaves are excluded because the 32-bit count would wrap.
- SkipList.LookupBound: the code elsewhere calls the lookup O(log n); the general bound proved is quadratic in the number of bits.
- Chain.ActiveChain.GetLocator: the step is an unbounded number; in the source its last doubling can leave the 32-bit range for heights above 2^30, after which it is not used again. Entries are blocks instead of their hashes.
- BlockTree.BlockIndex.constructor: parent, height and skip link are fixed when the entry is made, in one step; a tree whose links are assigned later is not modelled.
- CuckooSpec.RunKeepsInv: the table size is a parameter; rounding in the floating-point logarithm of `setup` and the width of `45 * size` are not modelled, nor is inserting the default element.
- BloomSpec.LastElementsFound: sizing by floating point and false-positive rates are not modelled, nor is a filter for zero elements; `CBloomFilter` itself is left out.
- DbTransaction.Transaction.CommitAll: the commit target is the parent; the one other target of the source, a batch, is `DbBatch.EvoDb.CommitIntoBatch`. Errors of the database itself are not modelled. Reading a value under another type than it was written with, which throws, is not modelled.
- DbTransaction.TransactionIterator.Seek: ordered containers are taken as given lists of their keys in byte order.
- Base58Spec.DecodeEncode: the checked variants with a four-byte hash are left out.
- Bech32Bch.ThreeDetected: the further remark on four errors within 89 characters (`src/bech32.cpp:44-45`) rests on an exhaustive search among the codes of this kind, not on their structure, and is not claimed.
- CheckQueue.WaitReportsExactlyItsSession: interruption of a waiting thread and exceptions from a check are not modelled.
- CoinsCache.CoinsViewCache.AddCoin: the one memory counter of the code is the sum of two here, for coins and for the trees of anchors (`ShieldedCache`); sizes of coins are an arbitrary function in which the empty coin counts zero; sizes of the containers themselves are not modelled.
- Integers are unbounded except where a row says otherwise: limbs, compact targets, the count of the Merkle pass and the words of the Bloom filter.
- Hexadecimal printing and parsing of integers, elliptic curves, ciphers, proofs and hash internals, network, wallet, RPC, file system, configuration and the size-limited map are left out.
