# Verified model of the monitoring node

This project models, in Dafny 4.11, the parts of the Everscale monitoring node that keep state or do
arithmetic, and proves what they are for.

| file | what it models |
|---|---|
| `Words.dfy` | 32- and 64-bit words as integers, powers of two |
| `Spiral.dfy` | the numbering of cells around a coordinate |
| `FloatKey.dfy` | the canonical map key of a 64-bit float |
| `LocationCache.dfy` | the cache that moves co-located peers apart |
| `GeoTable.dfy`, `GeoResolver.dfy` | importing address tables and looking addresses up |
| `PackedAverage.dfy` | the average packed into one atomic word |
| `GasWindow.dfy` | the gas statistics of a scrape interval |
| `ShortName.dfy` | shard labels |
| `ShardState.dfy` | one shard's exported entry and the atomic steps of an update |
| `ShardTags.dfy`, `ShardRegistry.dfy`, `ShardCoverage.dfy`, `ShardTree.dfy` | the map of shards under splits and merges |
| `RwLock.dfy`, `ShardRace.dfy` | one shard's entry under concurrent updates, removals and scrapes |
| `SoftwareVersions.dfy` | the per-version block counters under concurrent calls and scrapes |
| `ScrapeOrder.dfy` | the masterchain registers, written and read in opposite orders |
| `ConfigMetrics.dfy` | the exported network configuration |
| `ValidatorResolver.dfy` | the resolver of validator addresses, epoch by epoch |
| `BlockFold.dfy` | the fold over a block's accounts and transactions |

How to read it. Where the program updates fields or loops, the model is a class or a method with
loop invariants, proved against a function of the old state; the lemmas are about those functions.
Where several threads meet, the model is a state machine: a `State`, the `Action`s that are `Enabled`
in it, `Next`, and runs of any number of threads in any order. Histories (`Log`, `calls`, stamps,
ghost `rows`) only record what happened, so that the laws can be stated. The fields of the program's
one `MetricsState` are modelled by concern, so several modules have a class or a machine for some of
them.

Results that are not what one would expect:

- `FloatKey.KeyIsCanonical`: outside coordinates two distinct numbers can share a key, and exactly
  which is stated: subnormals that differ in the top fraction bit only, zero with -2^52, and the
  NaNs, which share one key among themselves, with -1.5 * 2^51. What this does to the cache is
  stated too: the j-th call for a coordinate gets cell j exactly if no call for an alias came before
  it (`LocationCaches.JthCallGetsJthCell`).
- `ShardTrees.ExactExactlyIfPrompt`: a reported parent stays in the map if, when the second half of
  its split first reports, the first half is no longer there because it has split in the meantime.
  Over every run the map is exact throughout exactly if this never happens: an early split alone
  does no harm. `EarlySplitLeavesParent` and `EarlySplitMayBeHarmless` are the same five blocks in
  two orders. No run ever loses a shard (`NoShardLost`), and coverage is kept in any case
  (`ShardCoverage.CoverageOfRun`).
- `GeoTables.GapAnswersRowBelow`: an address in a gap of a table is answered with the row below it.
- `ConfigMetrics.NumberMatchesValues`: a key block whose configuration cannot be read moves the
  exported block number on, while the values stay those of an older block; one without workchain 0
  moves number and values on, while the split bounds stay. All three belong to one block exactly if
  the newest block can be read and has workchain 0 (`BlocksMix` shows both ways to fail).
- `GasWindows.AverageBounds`: the average falls below the minimum exactly if the minimum times the
  number of samples exceeds the saturation limit.

## Model

| member | source | states |
|---|---|---|
| SpiralPlacement.Spiral | geoip-resolver/src/geo_data.rs:299-322 | the closed form lands on the n-th cell of a walk defined by one turn rule; number 0 gives (0, -1) |
| SpiralPlacement.RingUnique | geoip-resolver/src/geo_data.rs:300-302 | the computed k is the one radius whose ring of numbers ((2k-1)^2, (2k+1)^2] holds n |
| SpiralPlacement.IndexOfWalk | geoip-resolver/src/geo_data.rs:299-322 | numbering the n-th cell by the explicit inverse gives n back, for every n >= 1 |
| SpiralPlacement.WalkOfIndex | geoip-resolver/src/geo_data.rs:299-322 | every integer cell is reached, at its own number: with IndexOfWalk, a bijection |
| SpiralPlacement.WalkRadius | geoip-resolver/src/geo_data.rs:299-322 | the cells with max(abs x, abs y) == k are exactly the numbers of ring k |
| SpiralPlacement.WalkConnected | geoip-resolver/src/geo_data.rs:305-321 | consecutive numbers are 4-neighbours, across sides and rings |
| SpiralPlacement.ZeroIsNotACell | geoip-resolver/src/geo_data.rs:288-290 | number 0 would coincide with cell 8, which is why the counter is bumped first |
| SpiralPlacement.OptimalPacking | geoip-resolver/src/geo_data.rs:283-322 | c calls use c distinct cells inside the least square that can hold any c cells; it is full exactly when c is its area |
| SpiralPlacement.InnerSquareCovered | geoip-resolver/src/geo_data.rs:299-322 | the next smaller square is always covered completely |
| FloatKey.SameValue | geoip-resolver/src/geo_data.rs:363-371 | two floats are one number exactly if bit-equal or both zero |
| FloatKey.KeyFields | geoip-resolver/src/geo_data.rs:365-382 | the three fields of a non-zero float's key, after the 16-bit exponent arithmetic and the masks |
| FloatKey.KeyIsCanonical | geoip-resolver/src/geo_data.rs:351-383 | for all pairs of floats, NaNs included: equal keys mean one number, except exactly for the aliased pairs |
| FloatKey.NaNKey | geoip-resolver/src/geo_data.rs:359-361 | exactly the NaNs, and one number, have the NaN key |
| FloatKey.CoordinateRange | geoip-resolver/src/geo_data.rs:240-241 | the bit-level bound is magnitude at most 180 |
| FloatKey.CoordinatesUnaliased | geoip-resolver/src/geo_data.rs:351-383 | no two zeros or normal floats of magnitude at most 180 are aliased |
| FloatKey.CoordinateKeys | geoip-resolver/src/geo_data.rs:351-383 | so there equal keys are exactly equal numbers |
| LocationCaches.LocationCache.constructor | geoip-resolver/src/geo_data.rs:279-280 | an empty cache, after no calls |
| LocationCaches.LocationCache.Adjust | geoip-resolver/src/geo_data.rs:283-296 | the counters stay those of the whole call history, and the offset is the cell of the bumped counter |
| LocationCaches.KeysShared | geoip-resolver/src/geo_data.rs:284-286 | two calls share a counter exactly if they are for one coordinate or for aliases |
| LocationCaches.CounterIsVisits | geoip-resolver/src/geo_data.rs:284-288 | after any calls, a coordinate's counter is the number of calls for it and for its aliases |
| LocationCaches.JthCallGetsJthCell | geoip-resolver/src/geo_data.rs:283-296 | for any calls, the j-th one for a coordinate gets cell j exactly if no call for an alias came before it |
| LocationCaches.FirstCallStays | geoip-resolver/src/geo_data.rs:283-296 | a call is answered with its own coordinate exactly if no call for it or for an alias came before |
| LocationCaches.PlacedBySteps | geoip-resolver/src/geo_data.rs:290-295 | the latitude is moved by the first offset, the longitude by the second, each times the step |
| LocationCaches.OffsetsDistinct | geoip-resolver/src/geo_data.rs:283-296 | two calls for equal coordinates never get one offset, whatever they are and whatever stands between them |
| LocationCaches.PlacementsDistinct | geoip-resolver/src/geo_data.rs:292-295 | so for finite coordinates the resulting points differ, in exact arithmetic, for every non-zero step |
| LocationCaches.OffsetsAreThePlacedCells | geoip-resolver/src/geo_data.rs:283-296 | over any run the offsets around a coordinate are the first cells, as many as its calls, exactly if no alias came before one of them |
| LocationCaches.LastCounterExact | geoip-resolver/src/geo_data.rs:284-288 | the last counter used at a coordinate is the number of its calls under the same condition, and only then |
| LocationCaches.OffsetsFit | geoip-resolver/src/geo_data.rs:283-322 | over any run the offsets are as many as the calls, and fit a square exactly if the last counter does |
| LocationCaches.RunsPackOptimally | geoip-resolver/src/geo_data.rs:283-322 | no choice of as many offsets fits a square smaller than the least; those given fit it exactly if the last counter does, so whenever no alias interferes, and then are full exactly at its area |
| LocationCaches.SpotsUndisturbed | geoip-resolver/src/geo_data.rs:283-296 | among coordinates in range no alias interferes |
| GeoTables.ByteOrderIsNumericOrder | geoip-resolver/src/geo_data.rs:53 | byte order of the big-endian keys is the order of the addresses |
| GeoTables.KeysDistinct | geoip-resolver/src/geo_data.rs:89 | distinct first addresses have distinct keys |
| GeoTables.Table.Import | geoip-resolver/src/geo_data.rs:30-61 | the table holds the rows of the lines before the first malformed one, in order, and nothing older; fails exactly if there is such a line (import_locations likewise) |
| GeoTables.ReadableByPosition | geoip-resolver/src/geo_data.rs:42-58 | by position: row i is that of line i, for every line up to the end or the first malformed one |
| GeoTables.Table.SeekForPrev | geoip-resolver/src/geo_data.rs:151-152 | the cursor lands on the greatest key not above the target, or nowhere if all are above |
| GeoTables.Table.Lookup | geoip-resolver/src/geo_data.rs:149-161 | looking an address up in the byte-ordered store answers as a plain scan of the imported rows |
| GeoTables.ScanIsFloor | geoip-resolver/src/geo_data.rs:148-161 | the scan's row sits under the floor key, with its own payload although later rows overwrite earlier ones |
| GeoTables.ScanPicksLastGreatest | geoip-resolver/src/geo_data.rs:51-55 | the scan's answer by position: greatest start not above the address, last imported among equals; None exactly if all start above |
| GeoTables.CoveredAddressIsFound | geoip-resolver/src/geo_data.rs:148-161 | where rows do not overlap, an address inside a row is answered with that row though the end address is not stored |
| GeoTables.TilingIsAnsweredExactly | geoip-resolver/src/geo_data.rs:148-161 | the answer is then the one row that contains the address |
| GeoTables.GapAnswersRowBelow | geoip-resolver/src/geo_data.rs:148-161 | an address in no row gets the row below, None only if no row starts below |
| GeoResolvers.Resolver.constructor | geoip-resolver/src/geo_data.rs:133-137 | a resolver starts with an empty cache |
| GeoResolvers.Resolver.Find | geoip-resolver/src/geo_data.rs:148-174 | both answers are those of a scan; exactly located addresses take the next cell around their location |
| GeoResolvers.Resolver.FindAll | geoip-resolver/src/main.rs:105-111 | over a list, each entry is the whole answer for its address: both table answers, and the placement that the history of calls up to it gives |
| GeoResolvers.ListedAddressesApart | geoip-resolver/src/geo_data.rs:163-172 | two addresses of a list located at one finite coordinate are placed at distinct points |
| PackedAverages.AverageValueCounter.constructor | src/utils/mod.rs:3-4 | the default word is that of an empty window |
| PackedAverages.AverageValueCounter.WithValue | src/utils/mod.rs:7-9 | a counter made with a value holds the window of that one sample |
| PackedAverages.AverageValueCounter.Push | src/utils/mod.rs:11-14 | one wrapping addition keeps the word that of the window, now longer by the value |
| PackedAverages.AverageValueCounter.Reset | src/utils/mod.rs:16-26 | empties the window and reports its true average exactly if neither sum nor count overflowed |
| PackedAverages.WordHoldsSumAndCount | src/utils/mod.rs:11-14 | after any pushes the word is sum * 2^32 + count modulo 2^64 |
| PackedAverages.WordHalves | src/utils/mod.rs:16-19 | what each half holds, with the count's carry into the sum |
| PackedAverages.UpperHalf | src/utils/mod.rs:17-19 | below 2^32 samples the upper half is the sum modulo 2^32 |
| PackedAverages.DrainIsExact | src/utils/mod.rs:16-26 | a drain reports the true sum and count exactly if both are below 2^32 |
| PackedAverages.NoneMeansEmpty | src/utils/mod.rs:21-25 | below 2^32 samples, None is reported exactly for an empty window |
| PackedAverages.DrainsReportWindows | src/utils/mod.rs:6-27 | on every run the i-th drain reports the i-th window, exactly if that one does not overflow |
| PackedAverages.WindowsPartitionPushes | src/utils/mod.rs:11-17 | the drained windows and the open one are all pushes, each once, in order |
| PackedAverages.WithValueIsPush | src/utils/mod.rs:7-14 | starting with a value is starting empty and pushing it, on every later run |
| GasWindows.RecordDescribes | src/engine/metrics.rs:761-791 | each update keeps the window the true count, minimum, maximum, saturated sum and greatest message ratios of its samples |
| GasWindows.OrderIrrelevant | src/engine/metrics.rs:761-791 | windows of the same samples in any order are equal |
| GasWindows.AverageBounds | src/engine/metrics.rs:352-354 | the division is defined and is that of the total by the samples, rounded down; the average never exceeds the maximum, and is below the minimum exactly if minimum * samples exceeds u64::MAX |
| ShortNames.NameRoundTrip | src/engine/metrics.rs:860-862 | padding a name to 16 digits and parsing it gives the id back, for every u64 |
| ShortNames.NamesDistinct | src/engine/metrics.rs:860-862 | distinct ids have distinct labels |
| ShortNames.IdRoundTrip | src/engine/metrics.rs:860-862 | every trimmed hex name of at most 16 digits is the name of an id |
| ShardStates.RegisterRoundTrip | src/engine/metrics.rs:718-749 | a stored pair is loaded once, its time modulo 2^31, and not again until the next store; exact iff the time is below 2^31 |
| ShardStates.ShardState.constructor | src/engine/metrics.rs:721-743 | the whole entry made from one block, under the shard's short name |
| ShardStates.ShardState.Update | src/engine/metrics.rs:745-792 | the undisturbed update is the composition of the seven atomic steps used by the concurrent model |
| ShardStates.ShardState.LoadTempState | src/engine/metrics.rs:794-796 | takes the window and leaves the rest |
| ShardStates.ShardState.LoadSeqnoAndUtime | src/engine/metrics.rs:798-808 | reads the register, clears the flag, leaves the rest |
| ShardStates.NewEntryIsFirstUpdate | src/engine/metrics.rs:721-792 | an entry made from a block is an empty entry updated with it |
| ShardStates.NewEntryTells | src/engine/metrics.rs:721-743 | a new entry tells of its one block: totals, average, number and time, gas window |
| ShardStates.UpdateTells | src/engine/metrics.rs:745-792 | an update adds its block to what an entry tells: totals are sums modulo 2^32, the average is over all counts, the register holds the last pair, the gas window describes all samples |
| ShardTags.HalvesPartition | src/engine/metrics.rs:232-234 | the halves of a shard are distinct, one level down, and cut its prefix interval in two |
| ShardRegistry.MetricsState.constructor | src/engine/metrics.rs:108 | no shards, after no calls |
| ShardRegistry.MetricsState.UpdateShardChainStats | src/engine/metrics.rs:199-212 | updates one entry or inserts a new one under its own short name; the entries stay those of the whole history of calls |
| ShardRegistry.MetricsState.ForceUpdateShardChainStats | src/engine/metrics.rs:214-246 | then removes exactly the outdated keys; the entries stay those of the whole history of calls |
| ShardRegistry.EntryTellsItsBlocks | src/engine/metrics.rs:199-226 | over any calls, while a shard is not removed its entry is there exactly if it had a block, and tells of all its blocks in order |
| ShardRegistry.EveryEntryTells | src/engine/metrics.rs:199-246 | so after any calls every entry tells of exactly its shard's blocks since the shard was last not in the map |
| ShardRegistry.OthersUntouched | src/engine/metrics.rs:199-246 | a call leaves the other entries as they are; only a forced one may remove them |
| ShardRegistry.MetricsState.RemoveOutdated | src/engine/metrics.rs:228-245 | a single predecessor goes only if both its halves are in the map, several go unconditionally |
| ShardRegistry.MetricsState.RemoveAll | src/engine/metrics.rs:240-244 | exactly the listed keys go |
| ShardCoverage.EventsAreUpdates | src/engine/metrics.rs:199-246 | the event view moves the keys as the methods do |
| ShardCoverage.CoverageAfter | src/engine/metrics.rs:214-246 | a block adds exactly its own shard's prefixes to the covered ones, in any state of the map |
| ShardCoverage.CoverageOfRun | src/engine/metrics.rs:199-246 | on every run, in any order, the covered prefixes are those covered before or by some block: coverage never shrinks |
| ShardCoverage.CoverageKeptExactlyWithin | src/engine/metrics.rs:240-244 | removal of several predecessors keeps coverage of every map exactly if each lies within the block's shard and is not it |
| ShardTrees.Step | src/engine/metrics.rs:199-246 | each split, first block, next block and merge keeps the tree a tree, and keeps the map's keys equal to the reported and waiting shards exactly if, at the first block of the second half of a reported shard, the first half is in the map |
| ShardTrees.ExactExactlyIfPrompt | src/engine/metrics.rs:199-246 | over every run, early splits and merges included, the map is exact throughout exactly if that condition holds at every such block |
| ShardTrees.NoShardLost | src/engine/metrics.rs:228-245 | over every run no reported leaf and no reported parent still waiting is missing from the map |
| ShardTrees.OrderlyIsPrompt | src/engine/metrics.rs:228-245 | runs on which no half splits before its sibling has reported meet the condition |
| ShardTrees.ExactRegistry | src/engine/metrics.rs:199-246 | so on them the map is exact throughout; its keys are disjoint if no split waits |
| ShardTrees.ExactRegistryFromEmpty | src/engine/metrics.rs:199-246 | the same from an empty map, whatever tree the blocks come from, splits under way included |
| ShardTrees.EarlySplitLeavesParent | src/engine/metrics.rs:230-238 | a concrete run that breaks the condition: the parent stays beside its replacements |
| ShardTrees.EarlySplitMayBeHarmless | src/engine/metrics.rs:230-238 | the same blocks in another order, with an early split that leaves the map exact |
| RwLocks.MoveKeepsLock | src/engine/metrics.rs:108 | granted moves keep the lock's record and exclusion |
| RwLocks.GrantedIfPossible | src/engine/metrics.rs:108 | a thread that holds nothing is granted the lock exactly if exclusion allows it |
| RwLocks.Exclusion | src/engine/metrics.rs:108 | beside a writer nobody holds the lock, beside a reader nobody writes |
| ShardRace.InvStep | src/engine/metrics.rs:199-246 | every atomic step of every thread keeps lock, entry, windows and flow of samples consistent |
| ShardRace.SamplesConserved | src/engine/metrics.rs:365-392 | under every interleaving, drained plus packed equals the transaction total modulo 2^32 whenever no thread is between push and addition; true sums if no window overflows |
| ShardRace.EachSampleInOneEntry | src/engine/metrics.rs:199-212 | under every interleaving, for the register stores and each of the five counters an update feeds: when nothing is owed to it, what the updates begun brought is in the live entry or in removed ones, each once |
| ShardRace.EachGasSampleOnce | src/engine/metrics.rs:761-796 | under every interleaving, when no thread owes one, the gas samples of all updates begun are in the windows taken, in the open one or in those dropped with an entry, each exactly once |
| ShardRace.ScrapesAreWhole | src/engine/metrics.rs:343-393 | under every interleaving, with no scrape under way, each window taken was followed by a load, and each load after a store, and no other, by a drain of the average |
| ShardRace.EntryTellsTheTruth | src/engine/metrics.rs:745-808 | under every interleaving the totals are what was booked modulo 2^32, a load reports a pair iff one was stored since the last load, and then the last, and a gas window holds exactly the samples since the last take |
| ShardRace.EntryNeverReplaced | src/engine/metrics.rs:200-211 | a racing insert never replaces an entry, and no entry is removed while a thread updates or reads it |
| SoftwareVersions.MetricsState.HandleSoftwareVersion | src/engine/metrics.rs:140-161 | each version's count stays the number of calls for its chain since the last scrape, modulo 2^32; the other chain's map is untouched |
| SoftwareVersions.BumpCounts | src/engine/metrics.rs:147-160 | one increment or insertion counts one call for its version |
| SoftwareVersions.MetricsState.DrainMasterchain | src/engine/metrics.rs:431-438 | reports for each version the calls since the last scrape, modulo 2^32, leaves out zeros, and zeroes all counts, keeping the keys |
| SoftwareVersions.CounterNeverReplaced | src/engine/metrics.rs:147-160 | no step removes a counter or changes it but by one increment or a drain |
| SoftwareVersions.NoLostIncrement | src/engine/metrics.rs:140-161 | under every interleaving, drained plus counted plus under way equals the calls, modulo 2^32; exactly below 2^32 calls |
| SoftwareVersions.SweepsAreComplete | src/engine/metrics.rs:431-438 | under every interleaving a scrape ends only when it has drained every counter in the map |
| ScrapeOrder.InvStep | src/engine/metrics.rs:180-184 | each write and each read keeps the registers ordered and the reads truthful |
| ScrapeOrder.ScrapeNotBehindItsTime | src/engine/metrics.rs:308-337 | a scrape that reports update i's time reports number and count of updates no earlier than i, never defaults |
| ScrapeOrder.ReadyIffTimeSet | src/engine/metrics.rs:308-317 | under every interleaving a scrape reports ready exactly if the time it read is positive, and that time is an update's or the default |
| ScrapeOrder.UndisturbedScrape | src/engine/metrics.rs:308-337 | a scrape that no update overlaps reports the last update whole, or not ready if its time is 0 |
| ConfigMetrics.ConfigState.UpdateConfigMetrics | src/engine/metrics.rs:275-288 | newer blocks are taken, older ones ignored; fails exactly on a newer block that cannot be read |
| ConfigMetrics.ShownIsNewest | src/engine/metrics.rs:282-283 | the exported number is the greatest seen |
| ConfigMetrics.OriginIsLast | src/engine/metrics.rs:282-287 | the origin of a part is the last newer-than-all block that brings it |
| ConfigMetrics.ValuesAreLastReadable | src/engine/metrics.rs:594-625 | in any order of calls, the number is that of the newest block, the values those of the newest that could be read, the split bounds those of the newest that could be read and had workchain 0; defaults where there is none |
| ConfigMetrics.NumberMatchesValues | src/engine/metrics.rs:282-287 | number, values and split bounds come from one block iff the newest block could be read and had workchain 0; number and values iff it could be read |
| ConfigMetrics.BlocksMix | src/engine/metrics.rs:603-606 | concrete calls for both ways of mixing blocks |
| ValidatorResolver.StartRound | src/engine/ton_subscriber.rs:422-455 | the loop that starts a round drops members without an ADNL address and starts lookups for the rest |
| ValidatorResolver.BuildRemaining | src/engine/ton_subscriber.rs:423-435 | a key stays remaining exactly if it was and is not listed without an ADNL address |
| ValidatorResolver.BuildLookups | src/engine/ton_subscriber.rs:429-454 | every lookup is for a remaining member, under its ADNL address, and holds no permit yet |
| ValidatorResolver.RoundAsksEveryone | src/engine/ton_subscriber.rs:423-454 | conversely, every member with an ADNL address that remains is looked up under it |
| ValidatorResolver.LookupsMatchListings | src/engine/ton_subscriber.rs:423-454 | how many lookups a round starts for a key and ADNL address: as many as the set lists them before listing the key without an address |
| ValidatorResolver.RoundKeepsEveryMember | src/engine/ton_subscriber.rs:416-435 | a first round drops no member with an ADNL address, exactly if no key is listed both with and without one |
| ValidatorResolver.DistinctIsConsistent | src/engine/ton_subscriber.rs:416-418 | sets with distinct public keys meet that condition |
| ValidatorResolver.InvStep | src/engine/ton_subscriber.rs:411-486 | every step of the resolver, the channel and the network keeps the epoch invariants |
| ValidatorResolver.RemainingShrinks | src/engine/ton_subscriber.rs:415-461 | only the fill at the start of an epoch adds to the remaining keys |
| ValidatorResolver.EpochsAreClean | src/engine/ton_subscriber.rs:410-486 | over all epochs and cancellations: after the clear only current members' addresses, no lookup of an older set, every member accounted for, and completion only when each ADNL member is recorded |
| ValidatorResolver.RecordedIsLastFound | src/engine/ton_subscriber.rs:413-443 | over all epochs and cancellations, exactly the last address found for a key since the last clear is recorded for it, by its position in the run |
| ValidatorResolver.RemainingIsDue | src/engine/ton_subscriber.rs:457-465 | between rounds and at the end, what remains is exactly the keys listed only with ADNL addresses of which none is recorded; the resolver sleeps only if there is one and is done only if there is none |
| ValidatorResolver.SleepsOnlyAfterAsking | src/engine/ton_subscriber.rs:422-465 | the resolver sleeps only when every remaining member with an ADNL address was asked for in this round, and failed |
| ValidatorResolver.PermitsConserved | src/engine/ton_subscriber.rs:408-454 | held and free permits are always 50; dropping a resolution returns all of its own |
| ValidatorResolver.NeverRestsOnOldSet | src/engine/ton_subscriber.rs:470-486 | a resolver that awaits a change holds the last set sent, or its wake-up is due; it stops only when the sender is gone and with the last set sent in hand; a gone sender ends any wait |
| ValidatorResolver.DroppedOnlyForNewer | src/engine/ton_subscriber.rs:411-480 | a resolution is dropped only for a set sent since the one in hand was taken |
| BlockFold.FoldBlock | src/engine/ton_subscriber.rs:148-194 | the nested loops compute the fold that the laws are about, and all six totals are the sums of what they count |
| BlockFold.BlockCounts | src/engine/ton_subscriber.rs:155-194 | account blocks, transactions, messages (sent, and external inbound), deployments, destructions and gas, each summed over all accounts and all their transactions |
| BlockFold.DeploymentsBalance | src/engine/ton_subscriber.rs:155-194 | for every block, deployments less destructions equal active at end less active at start iff the gaps between transactions cancel |
| BlockFold.ChainedBlockBalances | src/engine/ton_subscriber.rs:155-194 | they do for blocks whose accounts' transactions are chained |
| BlockFold.TurnsAlternate | src/engine/ton_subscriber.rs:163-167 | on a chained account deployments and destructions strictly alternate, first and last fixed by its activity |
| BlockFold.TurnsAreCounted | src/engine/ton_subscriber.rs:166-167 | the alternating turns are what the fold counts |

## Left out

- SpiralPlacement.Spiral: the square root is exact here; in the program it is a 64-bit float, so the ring can be off for counters beyond the float's precision. The counter is not bounded.
- LocationCaches.PlacementsDistinct: points are exact reals; the rounding of `latitude + offset * step` is not modelled.
- GeoResolvers.Resolver.Find: the error on a stored value that cannot be decoded, and the port of an address, are not modelled; payloads are kept as values.
- GeoTables.Table.SeekForPrev: RocksDB is not part of this model; the method stands for its cursor on a byte-ordered map. Serialization of payloads, progress bars and the "-" to None conversion of text fields are left out.
- PackedAverages.AverageValueCounter.Reset: the average is the exact fraction, not its float.
- ShardRegistry.EveryEntryTells: scrapes are not among the calls; an entry under scrapes is the subject of ShardRace.
- ShardTags.Split: the depth at which the block library refuses to split is a parameter; `ton_block` is not part of this model. One workchain is assumed, as keys carry only the shard tag.
- ShardStates.ShardState.Update: the embedded average is kept as its word, with the same word functions as the counter class; the message ratios are reals, as only their maximum is taken; the sample count of a gas window is not bounded to 64 bits.
- ShardRace.SamplesConserved: one tag of the map is followed. Memory is sequentially consistent, and writing a metric out never fails.
- ShardTrees.ExactExactlyIfPrompt: the blocks of one shard arrive in chain order, and a shard reports before it splits or merges; of any other order only coverage is stated.
- SoftwareVersions.NoLostIncrement: one of the two maps is followed; they do not interact.
- ScrapeOrder.ScrapeNotBehindItsTime: masterchain updates come one at a time; the block and message totals and the average are not part of the machine.
- ConfigMetrics.ConfigState.UpdateConfigMetrics: the parameters copied from a block are one value; parsing is left out.
- ValidatorResolver.EpochsAreClean: that lookups answer and sleeps end is not assumed, so completion is a safety statement only. Members are accounted for if no public key is listed both with and without an ADNL address.
- BlockFold.FoldBlock: the 32-bit counters are unbounded here; no block holds 2^32 transactions. Inbound messages are reduced to whether there is an external one; a message that cannot be read, which fails the whole block before anything is counted, the two message ratios and the elector trigger are left out.
- Elections state, validator lists, private overlays, session hashes, persistent state, venom collators and the text format of the metrics.
- DHT and overlay search, the HTTP exporter, the command line, configuration defaults and scripts.
