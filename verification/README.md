# sentio-core: chain replication, concurrency kernels, Move patterns and traces, verified

This project models the parts of sentio-core that have to be right over unbounded inputs and
arbitrary schedules, and proves what they promise:

- **Slot ranges** (`Ranges`, `RangeSets`, `Spans`): intervals with an optional end, and sets of slot
  numbers kept as one covering range with holes.
- **The latest-slot cache** (`Slots`, `LatestSlotCache`, `CacheInterleaving`, `QueryRange`): a
  sliding window of hash-linked slots that grows against a source that may reorganise, while
  repairs and second-level loads run beside it; and range queries answered from the cache, a
  primary and a fallback store.
- **Dimensions** (`SimpleDimension`, `DimensionProtocol`, `FlushAccounting`, `CheckMissing`,
  `ForkSync`): a store with a recorded range, saved and deleted step by step with failures
  anywhere; the accounting of flushed rows; the search for missing slots; and the
  synchronisation of a destination with a source that forks.
- **Concurrency kernels** (`ResourcePool`, `ResourceManager`, `ResourceProtocol`, `MapO2M`,
  `ResourceWaiter`, `StatusWaiter`): a priority allocator on a binary heap, an order-preserving parallel map, and
  two waiters with coalesced wakeups.
- **Move type patterns** (`MoveStrings`, `MoveTypes`, `MoveRoundTrip`, `MoveCanonical`,
  `MoveGrammar`, `MoveNormal`, `MoveInclude`, `AptosFilters`): parser and printer, inclusion, merging
  of pattern sets and of the Aptos filters built on them.
- **Call traces** (`Traces`, `TraceRoundTrip`, `TraceAddresses`, `TraceEntries`): call trees flattened
  to addressed lists and rebuilt.
- **Client pool head and state search** (`PoolHead`, `StateSearch`): the head of a pool of
  clients with its rate queue, and the search for the first block with state.

Code that updates state in place is a class or a method with loops, proved against functions
and predicates on values; locked sections of concurrent code are methods, and the protocols
around them are transition systems whose invariants are proved over every state of every run.

## How the model relates to the code

- Hashes commit to parent hashes: equal hashes have equal parent hashes (`Slots.Rooted`). A source
  is a function from numbers to slots that is linked in this sense.
- Calls into databases, nodes and other processes are parameters: function values that give the
  answer or its failure, or steps of a transition system that may happen at any time.
- Slot numbers are unbounded naturals with the source's wrap-around written out where it decides
  the outcome (`StateSearch`); elsewhere numbers stay below 2^64 - 1.
- Lock sections are atomic; everything between two of them may interleave.

Some expectations turn out false of the code. For each there is a lemma that shows the failure and
one that states exactly when the property holds:

- The resource manager does not refuse negative requests; its bounds hold over all runs if and only
  if no request is negative (`ResourceProtocol.BoundsNeedNonNegativeRequests`).
- A growth round whose source end is not ahead loads and checks nothing, so a stale fork stays
  cached (`LatestSlotCache.StaleForkStays`). A successful growth guarantees agreement with the
  source if and only if the source's end is ahead (`LatestSlotCache.GrowthAgreesIff`).
- A save into an empty dimension is refused if and only if the first slot of the interval is not
  among those reported so far: looking up the missing seed yields an unbounded range, which the
  range store rejects (`DimensionProtocol.RefusedIff`, with a run in `DimensionProtocol.RefusedRun`).
- A store clears the interval before it saves; that is safe if and only if the interval is disjoint
  from the recorded range (`DimensionProtocol.ClearIsSafeIffDisjoint`).
- A report of flushed slots that is cut short by a cancellation leaves its slots unsettled, and the
  next worker to finish reports them again (`FlushAccounting.ReportedTwice`). A finishing worker's
  report overlaps an earlier one if and only if that one was cut short, some of it got out, and no
  worker finished in between (`FlushAccounting.OverlapIff`).
- A synchronised record is cut to its target length, but the length is measured from the start the
  record had before the round, so the first copy into an empty record is not cut. The measure tells
  whether the record is too long if and only if the record was not empty or the source is not longer
  than the target (`ForkSync.MeasuredIff`).
- A type read from a text survives printing if and only if none of its addresses or modules ends in
  a colon (`MoveCanonical.ParsedRoundTripIff`). Filters are compared by printed text, and different
  names print alike exactly when colons moved across a separator (`AptosFilters.PrintAlikeIff`), so
  a merge can drop a filter for a different one (`AptosFilters.AlikeNamesLose`). It loses nothing if
  and only if each filter of the right input that has a twin on the left is covered by a filter of
  the left, or by one of the right without a twin (`AptosFilters.MergeLosesNothingIff`).
- Normalising the text of a type twice may change it again. It does not if and only if every colon
  that ends an address or a module can be cut off without changing what is printed, a condition on
  the characters around it (`MoveNormal.TrimTypeStringTwiceIff`).
- A merged change filter may accept what none of its inputs accepts, because the address and the
  type may be accepted by different inputs (`AptosFilters.PartsOfDifferentFilters`). It accepts only
  what some input accepts if and only if every pattern is included wherever the merge applies it:
  by an input without addresses if there is one, and otherwise at every address of any input
  (`AptosFilters.MergeAcceptsOnlyIff`).
- The doubling of the state search ends if and only if the latest block is at most 2^63, and its
  midpoints stay in range if and only if it is below 2^63 (`StateSearch.DoublingEndsIff`,
  `StateSearch.MidpointInsideIff`).
- A known average block interval is negative if and only if the configured duration is
  (`PoolHead.AverageNegativeIff`).

## Model

| member | source | states |
|---|---|---|
| Ranges.Range.Remove | common/range/range.go:140-174 | the result is a valid range set holding exactly the numbers of the range outside the other |
| Ranges.Range.Intersection | common/range/range.go:130-138 | the result holds exactly the numbers in both |
| Ranges.Range.Cover | common/range/range.go:176-187 | the result is the least range that includes both |
| Ranges.Range.GetDistance | common/range/range.go:96-107 | a positive distance means that no number of one is in or next to the other |
| Ranges.DistanceIsGap | common/range/range.go:96-107 | the distance of two ranges, one right of the other, is the size of the range of numbers between them, from either side |
| Ranges.IncludeIsSubset | common/range/range.go:75-94 | Include is the subset order on the numbers held, so Equal is equality of members |
| Ranges.NewRangeByEndAndSize | common/range/range.go:34-47 | ends at the end and has the size asked for, cut at zero |
| Ranges.RangeSet.First | common/range/set.go:97-108 | the maximal run at the bottom of the set, empty for the empty set |
| Ranges.RangeSet.Last | common/range/set.go:110-121 | the maximal run at the top of the set, empty for the empty set |
| RangeSets.PiecesAreRuns | common/range/set.go:489-501 | the pieces between holes are non-empty, ascending, never adjacent, and together exactly the set |
| RangeSets.GetRanges | common/range/set.go:489-501 | returns those pieces |
| RangeSets.FindContains | common/range/set.go:468-487 | finds the piece that includes the range if there is one; otherwise reports failure with the zero range, which is every number from 0 on |
| RangeSets.Union | common/range/set.go:334-424 | the result is valid and holds exactly the numbers of either |
| RangeSets.Remove | common/range/set.go:199-332 | the result is valid and holds exactly the numbers of the set outside the range |
| Slots.CheckLinksMismatch | chain/chain/slot.go:23-37 | reports a mismatch exactly when the slots are not consecutively linked |
| Slots.LinkMismatchIff | chain/chain/slot.go:23-28 | a pair mismatches exactly when both are there, their numbers follow on each other and they are not linked |
| LatestSlotCache.CommitGrowthKeepsValid | chain/chain/cache_latest_slot.go:321-338 | committing a tail that fits keeps the cached numbers exactly the recorded range and neighbours hash-linked |
| LatestSlotCache.CommitL2KeepsValid | chain/chain/cache_latest_slot.go:205-212 | so does filling from linked second-level slots |
| LatestSlotCache.CommitRepairKeepsValid | chain/chain/cache_latest_slot.go:491-498 | so does a repair, which changes no hash and no number |
| LatestSlotCache.StdLatestSlotCache.TryLoadL2Cache | chain/chain/cache_latest_slot.go:173-213 | fills only an empty cache, with exactly the second-level slots among the last memCacheSize numbers up to the source's end, keeps it valid and as ready as it was; otherwise changes nothing |
| LatestSlotCache.WindowIsLast | chain/chain/cache_latest_slot.go:234-239 | the window is the source's last minSize numbers for an empty cache, and for another one those of its last maxSize that are not left of the cached range |
| LatestSlotCache.TailFits | chain/chain/cache_latest_slot.go:264-279 | the link check suffices: whatever a load returned, slots that pass it fit the cache |
| LatestSlotCache.StdLatestSlotCache.LoadTail | chain/chain/cache_latest_slot.go:248-279 | reports a mismatch exactly when the loaded slots behind the cached one left of them are not linked; a tail that passes fits, also when the source changed meanwhile |
| LatestSlotCache.StdLatestSlotCache.LoadChainTail | chain/chain/cache_latest_slot.go:248-279 | on one chain a mismatch proves the cached slot left of the tail off it; no mismatch means that slot is on it |
| LatestSlotCache.StdLatestSlotCache.ReloadUntilLinked | chain/chain/cache_latest_slot.go:246-289 | the reload loop ends, with at most logarithmically many reloads in the depth of the fork: after k reloads the cached slot 2^(k-1) below the first tail is off the source's chain |
| LatestSlotCache.StdLatestSlotCache.LoadFromPersistent | chain/chain/cache_latest_slot.go:215-289 | with the source's end ahead the new range is that window, and what is loaded fits the cache and comes from the source; otherwise nothing is loaded or checked; it fails only if a load does |
| LatestSlotCache.StdLatestSlotCache.Commit | chain/chain/cache_latest_slot.go:321-338 | the write section computes the committed cache |
| LatestSlotCache.StdLatestSlotCache.Growth | chain/chain/cache_latest_slot.go:291-338 | after a growth with the source's end ahead the cached range is the window and every cached slot, also those kept from before a reorganisation, has the source's hash; otherwise nothing changes, also not what was just filled from the second level; a failed one keeps the cache as filled, and none fails unless a load does |
| LatestSlotCache.StdLatestSlotCache.Repair | chain/chain/cache_latest_slot.go:491-498 | the cached numbers stay, and each slot but the one with the number and the hash of the fixed one |
| LatestSlotCache.StdLatestSlotCache.Traverse | chain/chain/cache_latest_slot.go:116-133 | visits exactly the cached slots of the interval, in ascending order |
| LatestSlotCache.AgreesDownward | chain/chain/cache_latest_slot.go:264-279 | equal hashes at a number mean equal hashes at every cached number below it |
| LatestSlotCache.GrowthCommits | chain/chain/cache_latest_slot.go:321-338 | a committed source tail makes the whole cache agree with the source |
| LatestSlotCache.UnmovedGrowthChecksNothing | chain/chain/cache_latest_slot.go:224-231 | committing an unmoved window changes nothing |
| LatestSlotCache.StaleForkStays | chain/chain/cache_latest_slot.go:224-231 | for every range not behind the source's end there is a valid cache of a stale fork that a growth leaves as it is |
| LatestSlotCache.GrowthAgreesIff | chain/chain/cache_latest_slot.go:215-289 | a successful growth guarantees agreement for every valid linked cache of a range if and only if the source's end is ahead |
| CacheInterleaving.PassedFits | chain/chain/cache_latest_slot.go:215-289 | the window and tail growth computes and the link check it passes make the loaded slots fit, with no assumption on the source across rounds |
| CacheInterleaving.RunKeepsCacheValid | chain/chain/cache_latest_slot.go:173-213 | in every state of every interleaving of loads, growth commits and repairs the cache is valid |
| QueryRange.CheckRange | chain/chain/util.go:106-121 | answers with the per-slot query over the range, if and only if the store holds the range |
| QueryRange.CheckRangeWithFallback | chain/chain/util.go:136-193 | answers with the per-slot query over the whole range, older history from the fallback; refuses exactly ranges beyond the store's end, or unbounded ones when it is empty |
| QueryRange.ProcessCached | chain/chain/util.go:71-86 | the elements of the cached slots of the interval, in ascending order |
| QueryRange.QueryRangeWithCache | chain/chain/util.go:61-104 | answers with the per-slot query in ascending order, each slot once, over the interval cut at the cached head; and succeeds exactly when the part below the cache is accepted by the stores |
| QueryRange.OverParts | chain/chain/util.go:103-103 | the per-slot query over a range is the concatenation of its parts |
| SimpleDimension.PieceIsRun | chain/chain/dimension_simple.go:117-117 | a piece found around the seed is the maximal run of completed slots around it |
| SimpleDimension.OnReport | chain/chain/dimension_simple.go:115-136 | one report extends the record over exactly the maximal run around the seed, or is refused when there is none |
| SimpleDimension.RunIsUnique | chain/chain/dimension_simple.go:117-117 | there is only one maximal run around a seed |
| SimpleDimension.AdvanceHoldsRun | chain/chain/dimension_simple.go:115-136 | a report with a run around the seed is never refused; afterwards the record holds what it held, the updater's copy holds the run, and both are the same unless the run was the copy |
| DimensionProtocol.RunStaysStored | chain/chain/dimension_simple.go:28-162 | in every state of every run of saves, also two growing the record at both ends, deletes and the cleaning up when a dimension is opened, with failures between any two steps, every recorded slot has its data stored |
| DimensionProtocol.CompleteSaveIsRecorded | chain/chain/dimension_simple.go:109-136 | a save whose slots were all reported has its whole interval recorded |
| DimensionProtocol.RefusedIff | chain/chain/dimension_simple.go:115-131 | a report is refused exactly when nothing is recorded and the first slot of the interval is not complete |
| DimensionProtocol.RefusedRun | chain/chain/dimension_simple.go:105-136 | a run from an empty record in which the second slot is reported first and the save is refused |
| DimensionProtocol.ClearIsSafeIffDisjoint | chain/clickhouse/simple_slot_store.go:263-268 | clearing the interval keeps recorded slots stored exactly when it is disjoint from the record |
| Spans.SpanIsSize | common/range/range.go:64-73 | the span of a set of numbers is the size a range set of them reports, that of its covering range |
| FlushAccounting.Accounting.TaskDone | chain/clickhouse/simple_slot_store.go:321-351 | the locked section of a worker reports all slots now in every table, or none exactly when there are none or they span less than a batch and do not complete the interval; it settles what it reports and takes that out of every table's account |
| FlushAccounting.UncutRunHoldsLittle | chain/clickhouse/simple_slot_store.go:326-335 | in every state of every run without a cut report the slots in every table that are not reported are none, or span less than a batch and do not complete the interval |
| FlushAccounting.IntersectAll | common/range/set.go:518-529 | the slots flushed to every table |
| FlushAccounting.RunReportsStoredOnce | chain/clickhouse/simple_slot_store.go:291-351 | for every completion order a slot is reported only after its rows are in every table, and at most once unless a report was cut short |
| FlushAccounting.CutOffIff | chain/clickhouse/simple_slot_store.go:336-345 | a report is cut short exactly after some, but not all, of the ranges it is sent in |
| FlushAccounting.CutFate | chain/clickhouse/simple_slot_store.go:337-350 | what got out of a report cut short stays due until the next worker finishes, and is settled from then on |
| FlushAccounting.OverlapIff | chain/clickhouse/simple_slot_store.go:326-351 | in every run two reports overlap only if the earlier was cut short and no worker finished between them; for a finishing worker that is exact, and it reports all that got out |
| FlushAccounting.ReportedTwice | chain/clickhouse/simple_slot_store.go:291-351 | a run in which a slot is reported twice: a report of two ranges is cut short after the first, and the next worker to finish reports both |
| FlushAccounting.SuccessReportsAll | chain/clickhouse/simple_slot_store.go:327-351 | a successful save that was fed its interval has reported exactly the interval |
| CheckMissing.FullCountIff | chain/clickhouse/simple_slot_store.go:180-193 | as many distinct numbers as the interval is long means that none is missing, and conversely |
| CheckMissing.MissingOf | chain/clickhouse/simple_slot_store.go:210-227 | a leaf yields non-empty, ascending, disjoint ranges that hold exactly the missing numbers |
| CheckMissing.CheckMissing | chain/clickhouse/simple_slot_store.go:163-235 | the ranges emitted are non-empty, ascending and disjoint, and their union is exactly the interval without the stored numbers; after a failure they are still right |
| ForkSync.TraceForkPoint | chain/chain/util.go:32-59 | everything right of the point found differs; and at the point both differ while the slots below agree or are not there |
| ForkSync.TraceLinkedFork | chain/chain/util.go:32-59 | on two linked chains hashes are equal below the point and different from it on |
| ForkSync.Destination.FindFork | chain/chain/operation.go:213-218 | the point found splits the record exactly into the slots that agree with the source and those that do not |
| ForkSync.Destination.RollBack | chain/chain/operation.go:213-223 | the slots cut off are exactly those off the source's chain |
| ForkSync.Destination.SaveTail | chain/chain/dimension_simple.go:79-104 | a mismatch at the joint changes nothing and proves a fork; a save that passes it makes the whole record agree with the source |
| ForkSync.Destination.Delete | chain/chain/dimension_simple.go:142-162 | the record shrinks first; what is still recorded is untouched |
| ForkSync.Destination.Round | chain/chain/operation.go:148-223 | after a copy or a rollback everything recorded agrees with the source; a copy leaves the old record extended to the source's end and cut to the target; a round is skipped exactly when the source is empty, not adjacent or not ahead, and fails only if a save or a delete does; a record that agrees is never rolled back |
| ForkSync.MeasuredIff | chain/chain/operation.go:180-181 | the length measured exceeds the target exactly when that of the copied record does, if and only if the record was not empty or the source is not longer than the target |
| ForkSync.TrimmedKeepsTarget | chain/chain/operation.go:180-198 | a record not longer than the target stays whole; of a longer one the end with the target length is left, and less than the alignment more |
| ForkSync.Destination.CutHead | chain/chain/operation.go:180-201 | nothing is cut without a target, up to the target length or when the delete fails; otherwise exactly what lies below a start that is a multiple of the alignment and leaves the target length and less than the alignment more |
| ForkSync.TrimmedHolds | chain/chain/operation.go:196-198 | cutting the head keeps exactly the recorded numbers from the start on |
| ForkSync.CutStartKeeps | chain/chain/operation.go:181-189 | the start is a multiple of the alignment and leaves at least the target length, and less than the alignment more |
| ResourceManager.RootLeads | common/concurrency/resource_manager.go:17-22 | nobody queued is in front of the root of the heap |
| ResourcePool.LeaderIff | common/concurrency/resource_manager.go:17-22 | nobody is in front of a waiter exactly when it has the smallest priority, and of those the smallest index |
| ResourceManager.RootIsLeader | common/concurrency/resource_manager.go:17-22 | the root of the heap is that waiter |
| ResourcePool.GrantMeans | common/concurrency/resource_manager.go:55-70 | a grant takes that waiter out and its resources from the free ones if there are enough, and otherwise changes nothing |
| ResourceManager.Manager.SiftUp | common/concurrency/resource_manager.go:124-137 | restores the heap order and keeps the waiters |
| ResourceManager.Manager.SiftDown | common/concurrency/resource_manager.go:139-160 | restores the heap order or leaves everything as it was, and keeps the waiters |
| ResourceManager.Manager.RemoveWaiterAt | common/concurrency/resource_manager.go:107-122 | takes exactly that one waiter out and keeps the heap |
| ResourceManager.Manager.AddWaiter | common/concurrency/resource_manager.go:72-83 | adds exactly one waiter with a new index and keeps the heap |
| ResourceManager.Manager.GrantLocked | common/concurrency/resource_manager.go:55-70 | grants to the least waiter by priority and arrival, if it fits, and to no other |
| ResourceManager.Manager.ReleaseLocked | common/concurrency/resource_manager.go:48-53 | gives the resources back and then grants |
| ResourceManager.Manager.CancelWaiter | common/concurrency/resource_manager.go:89-103 | a queued waiter leaves the queue; one granted meanwhile gives its resources back |
| ResourceManager.Manager.ApplyLocked | common/concurrency/resource_manager.go:177-200 | refuses too large a request, serves at once what fits, and queues the rest |
| ResourceProtocol.RunConserves | common/concurrency/resource_manager.go:177-222 | in every state of every interleaving free plus granted is the maximum |
| ResourceProtocol.RunBounded | common/concurrency/resource_manager.go:177-222 | without negative requests the free count stays within 0 and the maximum, and a non-empty queue implies an outstanding grant |
| ResourceProtocol.GrantedInTurn | common/concurrency/resource_manager.go:55-70 | in every run whoever is granted from the queue has no larger a priority than anyone left in it, and of those with its priority came first |
| ResourceProtocol.BoundsNeedNonNegativeRequests | common/concurrency/resource_manager.go:184-194 | the bounds hold over all runs if and only if no allowed request is negative |
| ResourceProtocol.RetirementDrains | common/concurrency/resource_manager.go:40-53 | every release and every locked cancel finishes exactly one request |
| ResourceProtocol.DrainedQueueIsEmpty | common/concurrency/resource_manager.go:55-70 | with no request unfinished nobody is queued |
| MapO2M.RunKeepsInv | common/concurrency/map.go:10-121 | the protocol's invariant in every state of every run |
| MapO2M.OutputIsOrderedPrefixes | common/concurrency/map.go:34-46 | in every interleaving the output is a concatenation, in input order, of a prefix of each task's output |
| MapO2M.CleanRunIsComplete | common/concurrency/map.go:81-121 | a finished run without failure or cancellation has put out everything, in order |
| MapO2M.AtMostConcurrencyMappers | common/concurrency/map.go:20-20 | never more than `concurrency` mappers are at work |
| MapO2M.CleanRunLength | common/concurrency/map.go:81-121 | all finished clean runs take the same number of steps, and no clean run takes more |
| MapO2M.CleanRunNeverSticks | common/concurrency/map.go:81-121 | a clean run that has not finished can always take a step |
| ResourceWaiter.Waiters.WakeMatching | common/concurrency/resource_waiter.go:43-49 | sets the signal of exactly the waiters that pick the resource |
| ResourceWaiter.Waiters.NewResource | common/concurrency/resource_waiter.go:51-59 | adds the resource, and wakes only if it was new |
| ResourceWaiter.Waiters.ResourceReady | common/concurrency/resource_waiter.go:61-69 | removes the resource and wakes, or fails for an unknown one |
| ResourceWaiter.Waiters.CountMissing | common/concurrency/resource_waiter.go:72-80 | counts the missing resources the selector picks |
| ResourceWaiter.Waiters.Register | common/concurrency/resource_waiter.go:84-94 | registers under a new index and counts in the same section |
| ResourceWaiter.RunKeepsInv | common/concurrency/resource_waiter.go:36-112 | in every state of every run a waiting call knows the true missing count or has its signal set |
| ResourceWaiter.NilAfterZero | common/concurrency/resource_waiter.go:102-111 | nil is returned only after a count of zero taken under the lock by this call, when it registered or later |
| ResourceWaiter.CanReturn | common/concurrency/resource_waiter.go:102-111 | once nothing is missing a call can return by its own steps alone |
| StatusWaiter.Waiters.NewStatus | common/concurrency/status_waiter.go:34-44 | publishes the status and signals exactly the waiters it satisfies, with it as their result |
| StatusWaiter.Waiters.Begin | common/concurrency/status_waiter.go:58-72 | returns the current status if it satisfies, else registers, in one section |
| StatusWaiter.RunKeepsInv | common/concurrency/status_waiter.go:34-92 | in every state of every run a sleeping call without signal is not satisfied, and what was returned satisfies its checker |
| StatusWaiter.NoLostWakeup | common/concurrency/status_waiter.go:34-44 | once a satisfying status was published a registered call has its signal set or has taken it, whatever follows |
| StatusWaiter.ReturnedWasCurrent | common/concurrency/status_waiter.go:58-91 | what is returned satisfies the checker and was current during the call, no later than the step that returned it |
| MoveStrings.CutExact | chain/move/types.go:190-191 | cutting at the first separator gives the head back exactly when it holds none and does not end in a colon |
| MoveStrings.ShortAddressTwice | chain/move/utils.go:5-13 | shortening an address is idempotent |
| MoveStrings.ShortAddressMeans | chain/move/utils.go:5-13 | an address with the prefix "0x" loses exactly the zeros behind it, up to the last one if there is nothing else; any other stays |
| MoveStrings.SpaceIff | chain/move/types.go:182-195 | what is trimmed are the characters with the Unicode property White_Space, by code point |
| MoveTypes.SplitMeans | chain/move/types.go:278-301 | splitting from any point succeeds exactly when the rest closes every bracket, and yields balanced pieces without outer commas that commas join to the text |
| MoveTypes.SplitArgs | chain/move/types.go:278-301 | the loop succeeds exactly for balanced texts, misses an opening bracket exactly when one is closed too many, and its pieces are balanced, hold no comma outside brackets and are joined by commas to the text |
| MoveRoundTrip.SplitJoined | chain/move/types.go:228-233 | splitting the joined arguments gives the printed arguments back |
| MoveRoundTrip.BuildRereads | chain/move/types.go:179-213 | reading a printed type rereads each main part and changes nothing else |
| MoveRoundTrip.SpelledIsRead | chain/move/types.go:179-309 | a text made of main parts, arguments in nested brackets and spaces behind these is read as the type it spells |
| MoveGrammar.WrappedPieces | chain/move/types.go:267-301 | a list that yields pieces is these joined by commas, in brackets with only spaces around them |
| MoveGrammar.BuildTypeIff | chain/move/types.go:179-309 | a text is read as a type if and only if it spells that type so; every other text is refused |
| MoveCanonical.MainRereadsIff | chain/move/types.go:190-212 | a main part is read back as it was exactly when it is clean and no segment before a separator ends in a colon |
| MoveCanonical.RoundTripIff | chain/move/types.go:91-93 | a type is read back from its printed form exactly when all its parts are |
| MoveCanonical.ParsedIsClean | chain/move/types.go:179-309 | every type the parser yields is clean and printable |
| MoveCanonical.ParsedRoundTripIff | chain/move/types.go:179-213 | a parsed type survives printing exactly when no address or module ends in a colon |
| MoveNormal.ReprintIff | chain/move/types.go:190-206 | a text with two separators is printed as it was read exactly when each of its segments is trimmed and not empty, and the address short |
| MoveNormal.NameSettlesIff | chain/move/types.go:28-48 | the printed form of a clean name is its own normal form exactly when a colon that ends its address or module follows a character that is no space, and for the address leaves no bare "0x" and is not followed by a module that starts with a colon |
| MoveNormal.TrimTypeStringTwiceIff | chain/move/utils.go:15-21 | normalising is idempotent exactly for texts that do not parse and types whose names all settle so; it keeps the type exactly when no address or module ends in a colon |
| MoveInclude.IncludeReflexive | chain/move/types.go:135-160 | every type includes itself |
| MoveInclude.IncludeTransitive | chain/move/types.go:135-160 | inclusion is transitive |
| MoveInclude.IncludeIff | chain/move/types.go:135-160 | a pattern includes exactly the types made of it by replacing wildcards: the main part, segments of a name, and absent arguments |
| MoveInclude.IncludeTextIff | chain/move/types.go:117-129 | it matches exactly the texts of those types; one that is absent or malformed is matched by the full wildcard alone |
| MoveInclude.WidenedIncludes | chain/move/types.go:135-160 | putting wildcards in a type gives a pattern that includes it |
| MoveInclude.IncludeTextUpward | chain/move/types.go:117-129 | a wider pattern matches every text, also the absent one, that a narrower one matches |
| MoveInclude.MergeIncludes | chain/move/types.go:339-347 | a merged set includes a type exactly when one of the two sets does |
| MoveInclude.MergeHolds | chain/move/types.go:339-347 | a merged set holds exactly the right patterns that no left one includes, and the left ones that none of these includes |
| MoveInclude.MergeIncludesText | chain/move/types.go:333-347 | it matches a text, or its absence, exactly when one of them does |
| AptosFilters.MergeAcceptsOnlyIff | chain/aptos/types.go:489-515 | the merge accepts only what some input accepts if and only if each pattern is included by an input without addresses if there is one, and otherwise at every address of any input |
| AptosFilters.MergeChangeFilters | chain/aptos/types.go:498-515 | the merge accepts a change exactly when some filter accepts its address and some filter its type, hence all that any accepts |
| AptosFilters.PartsOfDifferentFilters | chain/aptos/types.go:489-515 | the merge may accept a change that no input accepts |
| AptosFilters.MergeTransactionFilters | chain/aptos/types.go:656-675 | the merge holds the left filters, the right ones without a twin, and the weaker conditions |
| AptosFilters.MergeAccepts | chain/aptos/types.go:686-698 | when equal filters are the same, the merge accepts exactly what a filter of either side matches under the weaker conditions, hence all that either accepts |
| AptosFilters.ColonFreeTwinsAgree | chain/aptos/types.go:555-629 | filters without colon-ended segments that compare equal are the same |
| AptosFilters.MergeLosesNothingIff | chain/aptos/types.go:656-698 | the merge accepts every transaction its right input accepts if and only if each filter of that input with a twin on the left is covered by one of the left or one of the right without a twin, an event filter also by an empty function filter; it accepts all that its left input accepts |
| AptosFilters.EqualIncludesIffSame | chain/move/types.go:95-103 | of two clean types that print alike neither includes the other unless they are the same |
| AptosFilters.AcceptsAllIff | chain/aptos/types.go:686-698 | a transaction filter with no stricter conditions accepts all that another accepts if and only if it covers each of that one's filters |
| AptosFilters.TwinLost | chain/aptos/types.go:656-664 | an event filter of any inputs that only twins of it could cover is lost unless it is itself on the left |
| AptosFilters.FunctionTwinLost | chain/aptos/types.go:665-672 | so is such a function filter |
| AptosFilters.AlikeNamesLose | chain/aptos/types.go:656-698 | any two different clean names that print alike make two filters whose merge rejects a transaction the right one accepts |
| AptosFilters.PaddedRead | chain/move/types.go:190-206 | with a space before each separator a text spells every clean name, also one with a colon before a separator |
| AptosFilters.PrintAlikeIff | chain/move/types.go:28-48 | two clean names print alike exactly when they are the same up to colons moved from the end of the address to the start of the module, or from the end of the module to the start of the name |
| Traces.SurvivorIsCall | chain/evm/trace_types.go:123-132 | every kept call is one of the calls and not precompiled |
| Traces.CallSurvives | chain/evm/trace_types.go:123-132 | every call that is not precompiled is kept, in order |
| Traces.FilterPrecompileCalls | chain/evm/trace_types.go:123-132 | the loop computes the kept calls |
| Traces.GethToParityTrace | chain/evm/trace_types.go:141-255 | the recursive loop computes the flattened list |
| Traces.ParityToGethTrace | chain/evm/trace_types.go:320-340 | the loop computes the rebuilt tree, or the first error |
| TraceRoundTrip.HeadConverts | chain/evm/trace_types.go:257-315 | the entry of a node always converts back, to a node whose every field is given in terms of the node it came from |
| TraceRoundTrip.RebuildSubtree | chain/evm/trace_types.go:320-340 | the entries of a subtree rebuild it in its place, whatever follows |
| TraceRoundTrip.RebuildFlattened | chain/evm/trace_types.go:141-340 | rebuilding a flattened tree never fails and gives the shape of the recursively filtered tree with every field of every node as given there |
| TraceEntries.EntriesDescribe | chain/evm/trace_types.go:141-255 | each entry of a flattened tree describes, field by field, the node its address leads to |
| TraceEntries.ChildIs | chain/evm/trace_types.go:245-253 | the i-th node below another is its i-th call that is not to a precompiled contract, a delegate call with the value of the node above |
| TraceEntries.ChildrenCounted | chain/evm/trace_types.go:123-132 | there are exactly as many nodes below a node as it has such calls |
| TraceEntries.PrecompiledIff | chain/evm/trace_types.go:123-132 | a call is dropped exactly when its target starts with "0x" and 36 zeros and it carries no value |
| TraceEntries.ConvertIff | chain/evm/trace_types.go:257-315 | an entry converts exactly when it has what its kind needs, to the node that reflects it field by field |
| TraceEntries.RebuiltReflects | chain/evm/trace_types.go:320-340 | whatever list is rebuilt, the node at an entry's address reflects that entry and has as many calls as it counts, unless a later entry stands for it or a node above it |
| TraceAddresses.AddressesLead | chain/evm/trace_types.go:248-253 | an address occurs exactly when it leads to a kept node |
| TraceAddresses.FlattenedAddresses | chain/evm/trace_types.go:141-255 | addresses are distinct, in preorder and prefix-closed, and an entry counts exactly its direct children |
| PoolHead.PushedKeeps | chain/clientpool/utils.go:10-36 | pushing keeps numbers strictly increasing and times non-decreasing, puts the block at the back, and bounds the span unless two blocks are left |
| PoolHead.PushedHolds | chain/clientpool/utils.go:10-36 | after a push the queue holds exactly the block pushed and, of those that may stand before it, the ones not older than the duration and the last one |
| PoolHead.AverageInRange | chain/clientpool/utils.go:37-43 | the average interval lies between 0 and the duration |
| PoolHead.AverageIsTimePerBlock | chain/clientpool/utils.go:37-43 | the average is the time per block from the first block of the queue to the last, rounded down, but at most the duration; 0 when no time or no block passed |
| PoolHead.AverageNegativeIff | chain/clientpool/utils.go:37-43 | it is negative exactly when the duration is and an average is known |
| PoolHead.PoolStatus.PushLatestQueue | chain/clientpool/utils.go:10-44 | the two loops compute the pushed queue, and the average is its time per block |
| PoolHead.PoolStatus.Rebuild | chain/clientpool/client_pool.go:250-295 | for every order of the entries the new head is a candidate's block, at or below every candidate not fallen behind the highest |
| PoolHead.EntryStatus.InitFailed | chain/clientpool/client_pool.go:382-392 | a failed init takes the entry out of rotation and keeps its known block |
| PoolHead.EntryStatus.InitDone | chain/clientpool/client_pool.go:401-411 | the entry is initialized, its block number never decreases and reaches the answer's, and its block is the known one or the answer, the answer on a tie |
| PoolHead.EntryStatus.Report | chain/clientpool/client_pool.go:446-459 | the same of a reported block, which leaves the entry as initialized as it was |
| PoolHead.StepKeeps | chain/clientpool/client_pool.go:250-461 | every step keeps the pool's invariant, the head's number and every entry's number from decreasing |
| PoolHead.RunKeepsInv | chain/clientpool/client_pool.go:250-295 | over every run the queue keeps order, back and span, the interval its bounds, and the head's number never decreases |
| PoolHead.EvenBlocksGiveInterval | chain/clientpool/utils.go:37-43 | over every run, when the blocks of the queue are evenly apart, at most the duration, the interval is exactly that distance |
| PoolHead.RebuiltHeadIsLow | chain/clientpool/client_pool.go:254-286 | whenever it is rebuilt from some entry that is enabled, initialized and not behind the head, there is one highest block among those entries such that the head is the block of one whose time is not too far behind it, at or below that of every other such one |
| PoolHead.RebuiltWithoutEntries | chain/clientpool/client_pool.go:254-268 | without such an entry a rebuild changes nothing |
| StateSearch.DoublingEndsIff | chain/evm/node_utils.go:47-49 | the doubling of the step ends if and only if the latest block is at most 2^63 |
| StateSearch.GetMissStateBlock | chain/evm/node_utils.go:40-62 | finds the first of the samples, the latest block, those at doubling distances below it and block 0, that misses state or whose probe fails; otherwise all have state |
| StateSearch.MidpointInsideIff | chain/evm/client.go:211-217 | midpoints lie in the upper part of the interval if and only if the latest block is below 2^63 |
| StateSearch.StateCount | chain/evm/client.go:228-230 | the number of blocks with state |
| StateSearch.DetectStateDataFrom | chain/evm/client.go:189-239 | the first block with state; 0 exactly when none misses it, the maximum exactly when block 0 misses it and fewer than 10000 blocks have it |

## Left out

- Network clients, servers, ClickHouse, Redis and Postgres access, configuration and JSON: input and output over libraries.
- Logging, statistics, snapshots and metrics.
- Real time and goroutine scheduling beyond a free choice of the next step; fairness and progress beyond the steps named.
- chain/chain/operation.go Repair and Copy's choice of target ranges: each piece they save is a save of the dimension protocol.
- The dump of the cache to the second level, which does not change the cache.
- The range store's own cache of the recorded range: an update is one atomic read-modify-write.
- common/range set operations that no modelled code needs, such as cutting by fixed size, and building a set from overlapping ranges.
- MapO2M with a concurrency of 1, which runs the mapper in the caller's place, and of 0, which panics.
- The retries inside a state probe, the priority cursor, bans and tags of the client pool, and the chain's version checks.
- Traces.ParityToGethTrace: places nodes in a tree that is a value, so writing through a reference into it is not captured; a missing result, where the source panics, is an error.
- Traces.GethToParityTrace: requires a decodable value at kept self-destructs, where the source panics.
- ForkSync.Destination.SaveTail: takes a save as one step that records a prefix of the tail; its inner steps are in the dimension protocol.
- FlushAccounting.Accounting.TaskDone: works on sets of slot numbers with the sizes of their covering ranges, so the range-set form of the accounts is not captured; a report of several ranges is one step, or a cut one that got out the ranges before the one being sent.
- Slot numbers at 2^64 - 1, where the end of a range plus one wraps, and the midpoint of checkMissing, whose sum may wrap from 2^63 on.
- Timestamps are unbounded, so the saturation of very long durations is not captured.
