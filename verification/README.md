# Proofs about the distributed cache

Models of the stateful components of the cache platform, and proofs of what they promise. Code that updates state in
place is modelled by classes; each method is proved against a function of the old state, and the laws are proved about
those functions, over all inputs, all runs and all interleavings.

| files | component |
|---|---|
| `HashRing.dfy`, `RingTheorems.dfy`, `RingNames.dfy` | consistent hash ring |
| `LruList.dfy`, `LruTheorems.dfy`, `LruRecency.dfy`, `L1Cache.dfy`, `L1Interleaving.dfy` | L1 cache: LRU order, expiry, concurrent Get |
| `TwoLevel.dfy`, `ClockLag.dfy`, `StaleReads.dfy`, `ServedFromL1.dfy`, `Invalidation.dfy` | cache service over L1 and L2, late clock readings, disagreeing levels, what L1 goes on serving, invalidation events |
| `Coalescer.dfy` | request coalescer |
| `TokenBucket.dfy`, `RateBounds.dfy` | token-bucket rate limiter |
| `Warming.dfy`, `WarmingCalls.dfy` | warming workers: emergency stop, retries, deduplicated calls |
| `Glob.dfy`, `Patterns.dfy` | glob compilation and the fast paths beside it |
| `RollingStats.dfy`, `RollingRuns.dfy`, `LatencySummary.dfy` | rolling statistics, latency summaries |
| `Collections.dfy`, `Numbers.dfy`, `Sorting.dfy` | shared helpers |

## How the models are built

- Time is an integer (nanoseconds) that every operation is given once; `ClockLag.dfy` says what a second, later reading
  changes. Floating-point numbers are reals; conversions
  to integers truncate toward zero as Go's do.
- Concurrency is a state machine: each critical section or atomic access is one step, and a theorem about every
  interleaving is a theorem about every sequence of steps.
- The hash of a string is an arbitrary function into the 2^64 ring positions. What the origin returns, whether an L2
  call fails, what the rate limiter and the latency test decide, and how an expression outside the glob fragment
  matches are parameters.
- The reference definitions share nothing with the code they judge: routing is the owner of the nearest position
  clockwise (no sorting, no search, no `seen` set), the cache is a plain map with deadlines, a glob is a recursive
  matching relation, statistics are sums over the samples.

## What the proofs found

Places where the code does less than its comments say. Each has the exact condition under which it does what is said,
over all runs where runs matter.

- Re-adding a ring node with a lower weight leaves positions behind, and removing the node then leaves it serving
  keys ("Update or insert node", `pkg/utils/hash.go:85`): `RingTheorems.ReAddIsExactIffWeightNotLowered`,
  `RingTheorems.RemovedNodeIsGoneIffWeightNotLowered`.
- A Get that found an expired entry deletes by key, so it can delete an entry that is live again. What it deletes had
  expired if and only if the key was not Set since the Get began, or its last Set gave a deadline before the test:
  `L1Interleaving.ExpiredDeleteIsRightIff`.
- "L1 is authoritative" (`cache-manager/service.go:352`) lasts until the L1 copy goes. A failed L2 write does no harm,
  whatever follows, if and only if L2 held no live item of the key before, or the same one:
  `StaleReads.FailedWriteIsHarmlessIff`; likewise for an invalidation whose L2 deletes fail:
  `StaleReads.FailedInvalidateIsFinalIff`.
- A background write that lands late can undo what came after it. From an origin fill on, its landing does no harm if
  and only if it has expired by then or nothing has replaced the fetched item: `StaleReads.FillLandingIsHarmlessIff`,
  and in any state `StaleReads.LateFlushIsHarmlessIff`.
- A request reads the clock twice, so L1 deadlines are late by the time between: answers are exactly those of an
  expiring map if and only if there is no lag, and late by at most the lag otherwise: `ClockLag.ExactIffNoLag`,
  `ClockLag.LagExtendsLifetimesByAtMostLag`.
- An invalidation is announced only if one of its targets is in the local L1, so another instance is clean afterwards
  if and only if this one held a target or the other one held none: `InvalidationEvents.OtherInstanceIsCleanIff`.
- The service is one expiring map if and only if L2 is configured: `TwoLevelTheorems.TransparentIffL2Enabled`.
- The L1 cache and the invalidation service read `*suffix` and `a*b` differently: `InvalidationPatterns.L1AgreesIff`.
- In the prefix fast path `?` is a literal, and compiled wildcards do not match newlines:
  `PatternUtils.WildcardIsExactIff`, `InvalidationPatterns.WildcardIsExactIff`.
- The rolling mean is the mean of the buffer in every run, and the tracked sum of squares non-negative in every run, if
  and only if the tracker has one slot: `RollingRuns.MeanIsExactIffSingleSlot`,
  `RollingRuns.SpreadIsNonNegativeIffSingleSlot`. The mean's error stays bounded: `RollingStats.DriftIsBounded`.
- A latency update does not touch the percentiles, so a summary built by updates has them in order if and only if some
  sample is at most zero and some at least zero: `LatencySummaries.UpdatedFromZeroIsOrderedIff`.
- `Forget` and `Clear` keep single flight in every later run without `Forget` and `Clear` if and only if the key, or
  every key, is not in flight:
  `Coalescing.ForgetKeepsSingleFlightIff`, `Coalescing.ClearKeepsSingleFlightIff`.
- Evicting stale buckets keeps every key within the rate bound if and only if a bucket fills up in the stale duration
  and one nanosecond more: `RateBounds.EveryKeyKeepsBoundIff`.
- A retry panics if and only if the backoff base is -1, 0 or 1 ns, and a failing task without retries publishes no
  failure: `WorkerPool.WorkerPool.RunNextTask`.

## Model

| member | source | states |
|---|---|---|
| HashRing.Search | pkg/utils/hash.go:153-155 | binary search finds the first position at or past the hash, or one past the end when there is none |
| HashRing.HashRing.constructor | pkg/utils/hash.go:57-67 | a new ring is empty; a replica count of zero or less means 150 |
| HashRing.HashRing.AddNode | pkg/utils/hash.go:74-102 | the new state is exactly the old one with the node's virtual positions assigned to it; the empty name is refused without effect; keys stay the sorted positions of the ring |
| HashRing.HashRing.RemoveNode | pkg/utils/hash.go:108-136 | the new state is exactly the old one less the node's positions; an unknown node is refused without effect |
| HashRing.HashRing.GetNode | pkg/utils/hash.go:142-163 | the answer is the owner of the position nearest clockwise to the key's hash, wrap-around included; "" on an empty ring |
| HashRing.HashRing.GetNNodes | pkg/utils/hash.go:170-207 | the answer is the first n nodes of the clockwise preference order, a definition by repeated nearest node that mentions neither keys nor a seen set |
| RingState.AddKeepsValid | pkg/utils/hash.go:88-99 | after any AddNode, collisions and re-adds included, keys are sorted and list exactly the positions of the ring |
| RingState.RemoveKeepsValid | pkg/utils/hash.go:117-134 | the same after any RemoveNode |
| RingState.StartIsNearest | pkg/utils/hash.go:153-162 | first position not below the hash, else index 0, is the clockwise nearest position |
| RingState.NextUnseen | pkg/utils/hash.go:196-204 | on the replica walk the first position of an unseen node is the nearest one among all unseen nodes |
| RingGeometry.RankListsEachNodeOnce | pkg/utils/hash.go:165-168 | the preference order holds each node of the ring exactly once, so GetNNodes returns distinct nodes and all of them when n is large |
| RingGeometry.RankWithout | pkg/utils/hash.go:170-207 | taking a node off the ring deletes it from every key's preference order and disturbs nothing else |
| RingGeometry.TakeIsReplicaSet | pkg/utils/hash.go:165-204 | the n-node answer is n different nodes of the ring, or all of them when there are fewer |
| RingTheorems.MembershipDeterminesRing | pkg/utils/hash.go:74-136 | two add/remove histories ending in the same nodes and weights end in the same ring, keys and lookups, when positions do not collide and each add names an absent node |
| RingTheorems.AddThenRemoveIsUndo | pkg/utils/hash.go:74-136 | removing a node just added restores the previous ring exactly |
| RingTheorems.AddMovesKeysOnlyToAddedNode | pkg/utils/hash.go:86-99 | after any AddNode at all, a key stays where it was or moves to the added node |
| RingTheorems.RemoveStrikesFromRankings | pkg/utils/hash.go:112-134 | removing a node that shares no position deletes it from every preference order and changes nothing else |
| RingTheorems.RemoveMovesOnlyItsKeys | pkg/utils/hash.go:112-134 | only the removed node's keys move, each to the second node of its old preference order |
| RingTheorems.RemoveAfterHistoryMovesOnlyItsKeys | pkg/utils/hash.go:74-136 | so for every member after every history whose adds name absent nodes and keep positions distinct |
| RingTheorems.AddChangesReplicasMinimally | pkg/utils/hash.go:170-207 | after adding a node not yet on the ring at positions nobody holds, its replica set less that node is a prefix of the old replica set, shorter by at most one, and the same if the node is not in it, for every key and n; the other members may collide or have been re-added |
| RingTheorems.AddToMembersChangesReplicasMinimally | pkg/utils/hash.go:74-136 | so after every history whose adds name absent nodes and keep positions distinct |
| RingTheorems.ReAddIsExactIffWeightNotLowered | pkg/utils/hash.go:85-94 | re-adding a present node gives the layout of the new weight if and only if the weight is not lowered |
| RingTheorems.RemovedNodeIsGoneIffWeightNotLowered | pkg/utils/hash.go:117-122 | a node re-added and then removed is off the ring if and only if its weight was not lowered |
| RingNames.DecimalReadsBack | pkg/utils/hash.go:91 | the numeral in a virtual node's name has digits only, no leading zero, and reads back as its number |
| RingNames.NameDetermines | pkg/utils/hash.go:91 | two virtual nodes with the same name are the same one of the same node, colons in node names notwithstanding |
| RingNames.CollisionFreeIff | pkg/utils/hash.go:91-93 | members share no position if and only if the hash tells the names of their virtual nodes apart |
| RingNames.AsManyPositions | pkg/utils/hash.go:88-94 | a node with n virtual nodes has exactly n positions when the hash tells their names apart |
| RingNames.AddedNodeOwnsItsShare | pkg/utils/hash.go:78-94 | an added node owns exactly replicas times weight positions, a weight of zero or less counting as one, whoever held them before |
| RingNames.CollisionFreeIsPossibleIff | pkg/utils/hash.go:88-94 | some hash keeps the members collision-free if and only if they have at most 2^64 virtual nodes, so the laws over collision-free members speak of something |
| RingNames.NewMemberNames | pkg/utils/hash.go:88-91 | a new member brings in replicas times weight names, none used before |
| RingNames.OrderlyWhenApart | pkg/utils/hash.go:74-136 | every history whose adds name absent nodes is one the laws over histories are about, if the hash tells apart the names it brings in |
| LruList.GetHitsIff | cache-manager/cache.go:49-76 | a Get hits exactly when an unexpired entry of the key is cached, and returns that entry |
| LruList.GetKeepsShape | cache-manager/cache.go:58-68 | a Get costs no other key and keeps the order of the others; a hit comes to the front, an expired entry goes |
| LruList.SetKeepsShape | cache-manager/cache.go:80-104 | a Set puts the entry in front and costs another key only when the key is new and the cache full, and then the last one |
| LruList.PatternWithoutFinalStarDeletesItsKey | cache-manager/cache.go:128-158 | a pattern that does not end in a star deletes the key it spells and no other |
| LruList.CleanupLeavesLive | cache-manager/cache.go:162-183 | a cleanup leaves exactly the entries that are live |
| LruList.FinalStarDeletesPrefix | cache-manager/cache.go:128-158 | a pattern that ends in a star deletes exactly the entries whose key begins with the rest, stars in the rest being literal |
| LruTheorems.LargerCacheIncludesSmaller | cache-manager/cache.go:49-198 | no Belady anomaly: on the same run the larger cache holds the smaller one's entries in the same order, is ahead by at most the capacity difference, and hits with the same entry wherever the smaller hits |
| LruTheorems.ReachableIsBounded | cache-manager/cache.go:93-95 | in every reachable state keys are distinct and the capacity is respected |
| LruRecency.ReachableIsOrderedByLastUse | cache-manager/cache.go:66-68 | in every reachable state the list is ordered by each key's last Set or Get hit |
| LruRecency.UsedEntryIsRetained | cache-manager/cache.go:187-198 | a key just used stays cached, however long the run, while fewer other keys than the capacity are used and it is not deleted or expired |
| L1Cache.L1Cache.Get | cache-manager/cache.go:49-76 | on the map and the list of entry objects, Get has exactly the effect and answer of the recency-list Get, map and list staying in agreement |
| L1Cache.L1Cache.Set | cache-manager/cache.go:80-104 | Set overwrites an entry object in place or inserts one, evicting when full, with exactly the recency-list effect |
| L1Cache.L1Cache.DeleteUnsafe | cache-manager/cache.go:115-124 | the key leaves map and list together; the answer says whether it was there |
| L1Cache.L1Cache.DeletePattern | cache-manager/cache.go:128-150 | exactly the matching keys go and their number is returned |
| L1Cache.L1Cache.CleanupExpired | cache-manager/cache.go:162-183 | exactly the expired keys go and their number is returned |
| L1Cache.L1Cache.EvictLru | cache-manager/cache.go:187-198 | the last list entry leaves list and map; nothing happens when empty |
| L1Cache.L1Cache.Size | cache-manager/cache.go:201-205 | the size of the map is the length of the list |
| L1Cache.L1Cache.Clear | cache-manager/cache.go:208-213 | nothing is left in map or list |
| L1Cache.LookupAgrees | cache-manager/cache.go:51 | a map lookup finds what a search of the list finds |
| L1Interleaving.NextKeepsInv | cache-manager/cache.go:49-76 | with Get split into lookup, deadline test and locked action, every interleaving keeps map and list in bijection |
| L1Interleaving.NextRefines | cache-manager/cache.go:49-213 | each step of each interleaving is one atomic recency-list operation or none; the last step of a Get hit is a sequential Get at a time at which the entry is live, not necessarily the present |
| L1Interleaving.GetAnswersCachedEntry | cache-manager/cache.go:50-75 | linearizability of the answer: in every interleaving, the entry a Get tests or returns, as it is at that moment, was cached under its key at some moment since its lookup |
| L1Interleaving.UninterruptedGetIsGet | cache-manager/cache.go:49-76 | the three steps of a Get with nothing between them have the answer and the effect of the sequential Get, deadline test included |
| L1Interleaving.TouchIsGet | cache-manager/cache.go:66-68 | moving an entry to the front is a sequential Get hit for every clock reading up to its deadline |
| L1Interleaving.DeadlineIsLastSet | cache-manager/cache.go:84-91 | in every interleaving a cached key has the deadline its last Set gave it |
| L1Interleaving.AbsentUntilSet | cache-manager/cache.go:66-68 | no interleaving brings a removed key back before it is Set again, though a Get may still hold its entry |
| L1Interleaving.RunKeepsBound | cache-manager/cache.go:93-95 | the capacity holds in every interleaving |
| L1Interleaving.ExpiredDeleteIsRightIff | cache-manager/cache.go:50-63 | in any interleaving, what a Get deletes as expired had expired when tested if and only if the key was not Set since the Get began or its last Set gave a deadline before the test |
| L1Interleaving.RenewedEntryIsDeleted | cache-manager/cache.go:59-63 | a Set after the test: the Get deletes the renewed entry, which is unexpired whenever its new deadline is not before the test |
| L1Interleaving.ReplacedEntryIsDeleted | cache-manager/cache.go:50-63 | a delete and a Set before the test: the Get tests the removed entry and deletes the new one, unexpired likewise |
| TwoLevelTheorems.TwoLevelsAreAPlainMap | cache-manager/service.go:207-413 | over an L2 that never fails, without origin fills and with one clock reading per request, every run of Get, Set, Invalidate, cleanup and L2 expiry answers with the values and deadlines of a plain expiring map |
| ClockLag.LagExtendsLifetimesByAtMostLag | cache-manager/service.go:258 | when a request's second clock reading is at most d late, every answer of every run is the plain map's value, its deadline and the answer itself late by at most d, however often it is promoted |
| ClockLag.ExactIffNoLag | cache-manager/service.go:333-336 | all runs answer exactly as the plain map if and only if d is 0 |
| ClockLag.WritesAreLateByLag | cache-manager/service.go:258 | a Set or a promotion puts the entry into L1 with a deadline late by exactly the lag; L2 gets the right one |
| TwoLevelTheorems.EvictionIsUnobservable | cache-manager/service.go:250-262 | two services that differ only in L1 capacity answer every run alike |
| TwoLevelTheorems.TransparentIffL2Enabled | cache-manager/service.go:253 | the service is a plain expiring map in all runs if and only if L2 is configured, for every L1 capacity |
| StaleReads.LevelsDecideAnswer | cache-manager/service.go:207-307 | however L1 and L2 came to disagree about a key, through every run of requests with failing or working L2, events, cleanups, L2 expiry and background writes that writes nothing for the key, L2 keeps its item while live and a Get answers L1's first item while L1 has it live, else L2's while live |
| StaleReads.StaleItemIsHiddenIff | cache-manager/service.go:254-262 | in all such runs only the key's latest item is answered if and only if what each level holds now has expired or is that item; otherwise a run shows a stale one, for every L1 capacity |
| StaleReads.FailedWriteLastsWithL1Copy | cache-manager/service.go:350-353 | through every run after a Set whose L2 write failed, L2 keeps the item it had and a Get answers the new item while L1 has it live, else the old one while live |
| StaleReads.FailedWriteIsHarmlessIff | cache-manager/service.go:350-353 | no run after a failed L2 write answers an old item if and only if L2 held no live item of the key at the time of the Set, or the same one |
| TwoLevelTheorems.FailedWriteCanBringBackOldValue | cache-manager/service.go:350-353 | a run of three Sets in which a Get returns a value that was overwritten |
| StaleReads.LateFlushUndoesSet | cache-manager/service.go:298-304 | a background origin write pending at a Set and landing any time later puts its item in L2; from then on a Get answers the value Set while L1 has it live, else the origin's |
| StaleReads.LateFlushRevivesDeletedKey | cache-manager/service.go:298-304 | one pending at an Invalidate brings the key back: Gets answer nothing before it lands and its item, while live, after |
| StaleReads.LateFlushIsHarmlessIff | cache-manager/service.go:298-304 | in any state in which nothing stale can show, a landing background write keeps it so if and only if its item has expired by then or is the key's latest |
| StaleReads.FillLandingIsHarmlessIff | cache-manager/service.go:275-304 | from an origin fill through every run whose own writes of the key reach both levels, the landing of its background write never makes a Get answer a replaced or deleted item if and only if it has expired by then or the fetched item is still the latest |
| StaleReads.RunStaysUpToDate | cache-manager/service.go:207-413 | through every such run neither level holds anything live but the latest item |
| StaleReads.WriteStaysPending | cache-manager/service.go:300-303 | a background write stays pending through every run that does not carry it out |
| StaleReads.FailedInvalidateIsFinalIff | cache-manager/service.go:381-393 | after an Invalidate whose L2 deletes failed no run answers the key if and only if L2 held no live item of it |
| ServedFromL1.AnswerComesFrom | cache-manager/service.go:207-307 | the response of every Get: L1's item while live, else a working L2's while live, else the origin's with the default lifetime, else a miss; an error exactly for the empty key |
| ServedFromL1.OnlyFillsStartWrites | cache-manager/service.go:298-304 | a Get starts one background L2 write when the origin answered and L2 is configured, and otherwise none, and never writes L2 itself |
| ServedFromL1.AnswerIsCached | cache-manager/service.go:253-289 | whatever level answered a Get, L1 by a hit, L2 by promotion or the origin by a fill, the item is then the most recent of L1 |
| ServedFromL1.SetIsCached | cache-manager/service.go:320-338 | a Set puts the item in front of L1 with the lifetime in seconds or, for zero or less, the default; for an empty key or value it changes nothing |
| ServedFromL1.AnsweredItemIsServed | cache-manager/service.go:214-289 | from then on, through every run that neither writes nor deletes the key and uses fewer other keys than the capacity, the item is served from L1 up to its deadline, whether or not L2 and the origin work |
| ServedFromL1.FillIsServed | cache-manager/service.go:285-289 | so a value fetched from the origin is served from L1 for the default lifetime and the origin is not asked again |
| ServedFromL1.SetIsServed | cache-manager/service.go:320-338 | and a value Set is served from L1 for its lifetime |
| TwoLevelTheorems.PublishedIffCachedHere | cache-manager/service.go:397-407 | an invalidation event is published if and only if some target is in this instance's L1 |
| TwoLevelTheorems.InvalidationCanMissOtherInstances | cache-manager/service.go:397-407 | a concrete pair of instances of which the other goes on serving what was invalidated here |
| InvalidationEvents.OtherInstanceIsCleanIff | cache-manager/service.go:397-407 | for any two instances, after an Invalidate here whose event is delivered if published, the other holds no target if and only if this one held one or the other held none |
| CacheService.Service.Get | cache-manager/service.go:207-248 | one request against L1, L2 and the origin has the effect and response of the two-level Get; for a non-empty key exactly one of the hit, L2-hit and miss counters moves unless the origin served it |
| CacheService.CountersTellSource | cache-manager/service.go:215-267 | after a Get each counter has moved exactly when what it counts happened: a hit of L1, a hit of L2, a miss, an L2 error, an L2 miss |
| CacheService.Service.FetchWithFallback | cache-manager/service.go:251-307 | L2 first, promoting with the remaining lifetime, then the origin with the default lifetime and a background L2 write; an L2 error is counted as error, an absent entry as miss, an undecodable one not at all, and all fall through |
| CacheService.Service.FetchFromOrigin | cache-manager/service.go:270-306 | without an origin or with a failing one nothing changes; a fetched value goes to L1 with the default lifetime and starts a background L2 write of the same item |
| CacheService.Service.Set | cache-manager/service.go:320-360 | refused for an empty key or value; otherwise written to L1 and to L2 with the same deadline, which is answered; a failing L2 write is only counted, an entry that cannot be encoded is an error that leaves L1 written |
| CacheService.Service.Invalidate | cache-manager/service.go:373-413 | exactly the named and matching keys leave L1 and L2; the count is the number of distinct L1 entries removed; the event is sent iff that is positive |
| CacheService.DeletesCounted | cache-manager/service.go:376-395 | the delete counter goes up by every key asked for and by each other cached key that the pattern matches |
| CacheService.Service.DeleteKeys | cache-manager/service.go:376-385 | the named keys leave L1 and, unless it fails, L2; the count is the number of distinct ones that were in L1 |
| CacheService.DeletingOneByOne | cache-manager/service.go:377-385 | the key loop, repeated names included, deletes the set of keys and counts each cached key once |
| CacheService.SplitTargets | cache-manager/service.go:388-395 | keys first and pattern second removes the union of targets, none counted twice |
| CacheService.Service.HandleInvalidateEvent | cache-manager/subscriptions.go:42-60 | an event removes exactly its targets from L1, leaves L2 alone, and counts a delete for every named key |
| CacheService.Service.HandleRefreshEvent | cache-manager/subscriptions.go:73-95 | a refresh is an L1 Set and touches nothing else; lifetime zero means the default |
| InvalidationEvents.DeliverDropsTargets | cache-manager/subscriptions.go:42-60 | any sequence of events leaves the initial entries less the union of targets, survivors in their order |
| InvalidationEvents.DeliveryConverges | cache-manager/subscriptions.go:42-60 | two instances with equal contents that receive the same events in any order and any number of times end equal |
| Coalescing.NextKeepsInv | cache-manager/singleflight.go:42-86 | in every interleaving, Forget and Clear included, a call that is not done has its leader at work, results sit in the right call and every returned value is its call's |
| Coalescing.FollowerGetsItsCallsResult | cache-manager/singleflight.go:45-49 | in every interleaving, Forget and Clear included, what a follower returns is the outcome of an earlier Finish action of the leader of the call it joined |
| Coalescing.OutcomeIsWrittenOnce | cache-manager/singleflight.go:56 | once stored, a call's result never changes |
| Coalescing.WaitingIsNeverStuck | cache-manager/singleflight.go:47-61 | while a follower waits, it can wake or the leader of its call can still move |
| Coalescing.SingleFlight | cache-manager/singleflight.go:42-64 | without Forget and Clear, at most one execution per key is in flight and InFlight is the number of leaders between insert and delete |
| Coalescing.ForgetKeepsSingleFlightIff | cache-manager/singleflight.go:68-72 | after Forget, at most one goroutine per key is in flight in every later run without Forget and Clear if and only if the key was not in flight |
| Coalescing.ClearKeepsSingleFlightIff | cache-manager/singleflight.go:74-78 | after Clear, the same if and only if nothing was in flight |
| Coalescing.ForgetAllowsSecondFlight | cache-manager/singleflight.go:58-60 | a run in which a forgotten key is executed twice at once and the first leader's delete removes the second call |
| RequestCoalescer.RequestCoalescer.Join | cache-manager/singleflight.go:43-54 | the first critical section is the protocol's Enter step and says who leads |
| RequestCoalescer.RequestCoalescer.Store | cache-manager/singleflight.go:56 | storing the result is the Finish step |
| RequestCoalescer.RequestCoalescer.DeleteCall | cache-manager/singleflight.go:58-60 | the second critical section is the Delete step: by key, whichever call is there |
| RequestCoalescer.RequestCoalescer.Done | cache-manager/singleflight.go:61-63 | releasing the wait group is the Signal step, and the leader returns the stored result |
| RequestCoalescer.RequestCoalescer.Collect | cache-manager/singleflight.go:47-48 | a released follower reads the result of the call it joined |
| RequestCoalescer.RequestCoalescer.InFlight | cache-manager/singleflight.go:80-86 | while map and leaders are in step, the number of goroutines between inserting and deleting their call; zero exactly when no call is listed |
| TokenBuckets.RateBound | pkg/middleware/ratelimit.go:174-206 | over any run with a nondecreasing clock, the tokens granted in any window (s, t] are at most size + rate * (t - s) / 10^9 |
| TokenBuckets.GrantedAfterWaiting | pkg/middleware/ratelimit.go:183-195 | a request of n within the bucket size is granted once rate times the seconds since the last grant is n, truncation notwithstanding |
| TokenBuckets.RefusalsDoNotDelay | pkg/middleware/ratelimit.go:192-201 | however many requests are refused in between, one is granted as soon as rate times the seconds since the last grant reaches it |
| TokenBuckets.GrantedIff | pkg/middleware/ratelimit.go:174-195 | n tokens are granted if and only if the bucket is that large and the missing tokens are at most rate times the seconds since the last grant; with a clock that went back, whole tokens are taken off |
| TokenBuckets.GrantLeaves | pkg/middleware/ratelimit.go:182-200 | a grant leaves tokens and accrual less n, losing less than one token to truncation, or the full bucket less n |
| TokenBuckets.AllowedIff | pkg/middleware/ratelimit.go:141-168 | AllowN answers yes if and only if the key is not empty, n is positive and within the size, and the key is new or its missing tokens have accrued |
| TokenBuckets.AllowedTouchesItsKey | pkg/middleware/ratelimit.go:141-168 | no other key's bucket changes, a refused request changes no bucket, and a new key's bucket starts full |
| TokenBuckets.ConsumeKeepsValid | pkg/middleware/ratelimit.go:187-198 | tokens stay between zero and the bucket size, and nothing larger than the bucket is ever granted |
| TokenBuckets.EvictionsDoNotShow | pkg/middleware/ratelimit.go:329-346 | with a long enough stale duration, inserting evictions anywhere in a run changes no answer for any key |
| TokenBuckets.EvictionIsUnobservableIff | pkg/middleware/ratelimit.go:329-346 | evictions never show in any run if and only if a bucket fills in the stale duration and one nanosecond more |
| RateBounds.EveryKeyKeepsBoundIff | pkg/middleware/ratelimit.go:141-206 | over all runs with evictions, every key is granted at most size + rate * (t - s) / 10^9 in every window if and only if a bucket fills in the stale duration and one nanosecond more; otherwise spending and evicting in turn exceeds it |
| RateBounds.EvictionsKeepGrants | pkg/middleware/ratelimit.go:329-346 | with a long enough stale duration, evictions change what no key is granted in any window |
| RateLimiter.BucketCell.TryConsume | pkg/middleware/ratelimit.go:174-206 | a refused call writes nothing; a granted one stores the capped, refilled count less n and the time |
| RateLimiter.TokenBucket.GetOrCreateBucket | pkg/middleware/ratelimit.go:151-168 | a missing key gets a full bucket as of now; every other bucket stays the same object |
| RateLimiter.TokenBucket.AllowN | pkg/middleware/ratelimit.go:141-148 | only the named key's bucket changes; an empty key or non-positive n is refused without creating one |
| RateLimiter.TokenBucket.Allow | pkg/middleware/ratelimit.go:119-129 | Allow is AllowN of one token |
| RateLimiter.TokenBucket.AllowGlobal | pkg/middleware/ratelimit.go:135-137 | draws on the global bucket and leaves every key's bucket alone |
| RateLimiter.TokenBucket.EvictStaleKeys | pkg/middleware/ratelimit.go:329-346 | exactly the buckets last refilled before the threshold go, and their number is returned |
| EmergencyStop.LateFetchesAreBounded | warming/service.go:569-647 | in any interleaving of W workers, followers and retries included, at most W - 1 origin fetches are issued after the emergency flag is set |
| EmergencyStop.LateFetchesAttainBound | warming/service.go:572-631 | W - 1 is the best possible bound: for every W some interleaving issues that many |
| EmergencyStop.StopIsPermanent | warming/service.go:627-631 | once set, the flag is set for ever |
| EmergencyStop.NextKeepsInv | warming/service.go:572-579 | after the stop, late fetches so far plus workers that may still fetch never exceed W - 1 |
| EmergencyStop.TasksAreTakenInOrder | warming/worker_pool.go:55-79 | over any run, the keys queued are those taken, in the same order, followed by those still queued |
| WarmingCalls.AttemptEnds | warming/worker_pool.go:86-115 | an attempt goes on until it ends; a failed one is followed by the next, up to the number of retries, and no other worker is touched |
| WarmingCalls.NextKeepsCalls | warming/service.go:572-579 | every step keeps one leader per key and listed call, no result before its call ends, and followers on calls that are listed or have ended |
| WarmingCalls.WarmingIsDeduplicated | warming/service.go:577-579 | in any interleaving at most one worker executes a call for a key, no attempt number exceeds the retries, and a follower can wake or its call has a leader at work |
| WarmingCalls.FollowerConcludesWithItsCall | warming/service.go:577-585 | a follower concludes its attempt with the outcome with which the leader of the call it joined ended that call, earlier in the run |
| WorkerPool.WorkerPool.QueueTasks | warming/worker_pool.go:55-67 | tasks enter in order and the count says how many; one is skipped only when the queue of 1000 is full |
| WorkerPool.WorkerPool.RunNextTask | warming/worker_pool.go:79-95 | a dequeued task runs between 1 and 1 + R times and succeeds at most once, in its last run; a failure is published iff R >= 1 and all runs fail; worker and active count are restored |
| WorkerPool.WorkerPool.RetryTask | warming/worker_pool.go:100-123 | the same for the retry loop, with the sleep of every retry accounted for, none for a negative base, and a panic exactly when half the base truncates to zero |
| WorkerPool.TotalSleepWhenRetriesRunOut | warming/worker_pool.go:104-108 | if every retry is used the total sleep is at least base(2^R - 1) and less than 1.5 times that; nothing with a negative base |
| WorkerPool.BackoffIsExponential | warming/worker_pool.go:106 | the k-th sleep without jitter is base times 2^k |
| Numbers.TruncateTowardZero | pkg/middleware/ratelimit.go:184 | a float becomes an integer by dropping less than one, toward zero for either sign |
| Numbers.HalfTowardZero | warming/worker_pool.go:107 | integer halving truncates toward zero for either sign |
| Regexes.GlobToRegexParses | pkg/utils/pattern.go:169-190 | the emitted string, read under regular-expression syntax, denotes one item per glob character |
| Regexes.WildcardBodyParses | invalidation/patterns.go:150-159 | so does the string left by the escape-then-replace passes, with `?` for itself |
| Regexes.GlobCompilationPreservesMeaning | pkg/utils/pattern.go:169-190 | the compiled glob matches exactly the newline-free keys the glob matches |
| Regexes.WildcardCompilationPreservesMeaning | invalidation/patterns.go:150-159 | the compiled wildcard matches exactly the newline-free keys the wildcard matches |
| Regexes.TranslationIsExactIffLiteral | pkg/utils/pattern.go:175-179 | on keys that may contain newlines the two agree if and only if the pattern has no wildcard |
| Regexes.TranslationsCoincideIff | invalidation/patterns.go:150-159 | the two translators emit the same string if and only if the pattern has no `?` |
| Regexes.PlainTextMatchesItself | pkg/utils/pattern.go:169-190 | a text without syntax, compiled, matches itself and nothing else |
| Globs.PrefixGlob | pkg/utils/pattern.go:70-75 | comparing a prefix is matching the glob, when the prefix is literal |
| Globs.SuffixGlob | invalidation/patterns.go:94-101 | comparing a suffix is matching the glob, when the suffix is literal |
| Globs.ContainsGlob | invalidation/patterns.go:86-93 | searching the trimmed text is matching the glob, however many stars surround it |
| PatternUtils.Matcher.EmitRegex | pkg/utils/pattern.go:169-190 | the loop over the pattern emits the translation |
| PatternUtils.Matcher.Match | pkg/utils/pattern.go:60-105 | the compile cache never changes an answer or hides an error; what the answer is, the three rows on wildcard-free patterns and the two on wildcards say |
| PatternUtils.Matcher.FilterKeys | pkg/utils/pattern.go:115-153 | both scans select, in order, exactly the keys MatchPattern accepts, and fail exactly when the pattern is empty or rejected for some key |
| PatternUtils.Matcher.FilterByPrefix | pkg/utils/pattern.go:127-138 | the prefix scan selects what MatchPattern accepts, which never fails on a prefix pattern |
| PatternUtils.WildcardMatchesAsGlob | pkg/utils/pattern.go:82-104 | off the prefix path a wildcard pattern answers as the glob on newline-free keys |
| PatternUtils.WildcardIsExactIff | pkg/utils/pattern.go:72-75 | a wildcard pattern answers as the glob on all keys if and only if it is a single final star after text without `?` |
| PatternUtils.PlainPatternMatchesItself | pkg/utils/pattern.go:66-104 | a non-empty pattern without wildcards and metacharacters answers whether the key equals it |
| PatternUtils.WithoutWildcardIsExpression | pkg/utils/pattern.go:84-104 | a wildcard-free pattern other than the key answers what it means as an expression of the fragment, and outside the fragment what the engine makes of `^p$` |
| PatternUtils.ErrorIff | pkg/utils/pattern.go:61-99 | an error is answered if and only if the pattern is empty, or is not the key, has no wildcard and is rejected by the engine |
| PatternUtils.SelectConcat | pkg/utils/pattern.go:140-151 | a scan treats every key by itself and keeps their order |
| PatternUtils.SelectCounts | pkg/utils/pattern.go:140-151 | it selects each accepted key as often as it occurs and no other |
| PatternUtils.PlainPatternSelectsItself | pkg/utils/pattern.go:140-151 | a scan for a plain pattern finds exactly its occurrences |
| InvalidationPatterns.PatternMatcher.Match | invalidation/patterns.go:35-57 | each kind of pattern selects its keys in order; an exact pattern yields itself at most once; the empty one nothing |
| InvalidationPatterns.PatternMatcher.MatchWildcard | invalidation/patterns.go:77-117 | the fast-path loops select in order what the per-key decision accepts |
| InvalidationPatterns.PatternMatcher.MatchRegex | invalidation/patterns.go:121-146 | the cache never changes the selection; an expression that does not compile selects nothing |
| InvalidationPatterns.AnchoredSelectsItsMeaning | invalidation/patterns.go:121-146 | an anchored expression of the fragment selects what it means |
| InvalidationPatterns.OtherExpressionAsksEngine | invalidation/patterns.go:121-146 | any other selects what the engine makes of it as it stands, and nothing if it is rejected |
| InvalidationPatterns.ExpressionIff | invalidation/patterns.go:65-73 | a pattern is taken for an expression if and only if it has one of the eleven listed characters; a dot is not one |
| InvalidationPatterns.SelectCounts | invalidation/patterns.go:139-144 | a scan selects each accepted key as often as it occurs and no other |
| InvalidationPatterns.ComplexWildcardSelectsAsGlob | invalidation/patterns.go:110-114 | without a fast path, selection is the glob's on newline-free keys |
| InvalidationPatterns.WildcardIsExactIff | invalidation/patterns.go:85-114 | selection is the glob's on all keys if and only if a fast path is taken and what it compares has no star |
| InvalidationPatterns.L1AgreesIff | cache-manager/cache.go:153-158 | L1 deletes what the invalidation service matches, for all keys, if and only if the pattern is `*` or ends but does not begin with a star |
| RollingStats.FirstSamplesAreExact | monitoring/aggregator.go:542-572 | while the buffer fills, mean and m2 are the mean and the sum of squared deviations of all samples |
| RollingStats.BufferIsWindow | monitoring/aggregator.go:554-559 | a full buffer holds exactly the last n samples |
| RollingStats.DriftRecurrence | monitoring/aggregator.go:547-557 | on a full buffer the error of the mean obeys e' = (1 - 1/n^2) e + (dropped - window mean)/n^2 |
| RollingRuns.MeanIsExactIffSingleSlot | monitoring/aggregator.go:542-560 | the tracked mean is that of the last n samples in every run if and only if n is 1 |
| RollingStats.DriftIsBounded | monitoring/aggregator.go:542-560 | if all samples lie in [a, b] the tracked mean is always within b - a of the mean of the last n |
| RollingRuns.SpreadIsNonNegativeIffSingleSlot | monitoring/aggregator.go:542-569 | m2, whose root is reported, is non-negative in every run if and only if n is 1 |
| RollingRuns.SpreadGoesNegative | monitoring/aggregator.go:568-569 | for every capacity above one, a run that makes m2 negative |
| RollingRuns.ReplayStep | monitoring/aggregator.go:547-557 | replacing a sample x by its own value moves the mean toward it by (x - mean)/n^2 and lowers m2 by (n + 1)(x - mean)^2/n^3 |
| HistoricalStats.HistoricalStats.Add | monitoring/aggregator.go:542-560 | one Add on the circular array and its fields is the step all of the above is about |
| HistoricalStats.HistoricalStats.MeanVariance | monitoring/aggregator.go:563-572 | the variance times count - 1 is m2; zero below two samples |
| LatencySummaries.CalculateSummarises | pkg/models/metrics.go:196-223 | count, sum, least and greatest are those of the samples, whatever their order |
| LatencySummaries.MergeIsHomomorphic | pkg/models/metrics.go:143-165 | merging the summaries of two samples agrees with summarising them together on count, sum, min and max |
| LatencySummaries.UpdatingEqualsCalculating | pkg/models/metrics.go:173-188 | updating sample by sample gives the same four fields as summarising them all |
| LatencySummaries.PercentileIsMonotone | pkg/models/metrics.go:287-303 | a higher percentile is never lower, and all lie between the least and the greatest sample, interpolation and truncation included |
| LatencySummaries.PercentileIsAtRank | pkg/models/metrics.go:292-302 | the percentile p of n sorted samples is at rank p(n - 1): the sample there, or between the two samples around it and less than one unit off the straight line through them |
| LatencySummaries.CalculateHasPercentiles | pkg/models/metrics.go:218-221 | p50, p90, p95 and p99 of a summary are the percentiles at 0.50, 0.90, 0.95 and 0.99 of the sorted samples |
| LatencySummaries.CalculateIsOrdered | pkg/models/metrics.go:211-222 | min <= p50 <= p90 <= p95 <= p99 <= max for every sample |
| LatencySummaries.MergeIsOrdered | pkg/models/metrics.go:151-164 | merging keeps that order despite truncated averages |
| LatencySummaries.MergeAveragesPercentiles | pkg/models/metrics.go:151-164 | a merged percentile is less than one unit off the average of the two of its kind, weighted by their sample counts |
| LatencySummaries.UpdateKeepsOrderIff | pkg/models/metrics.go:167-172 | one update keeps that order if and only if it is not the first sample or the percentiles already equal it |
| LatencySummaries.UpdatedFromZeroIsOrderedIff | pkg/models/metrics.go:167-188 | a summary built by updates alone keeps that order if and only if some sample is at most zero and some at least zero |
| LatencySummaries.SummaryRef.UpdateLatency | pkg/models/metrics.go:173-188 | the update in place is the update the laws are about |
| LatencySummaries.CalculateLatencySummary | pkg/models/metrics.go:196-223 | sorting and the summing loop compute the summary the laws are about |

## Left out

- L2 is an interface in the program; the model's L2 serves an item up to and including its deadline and matches patterns as L1 does, with the same clock. One reply (works, fails, cannot be encoded or decoded) covers all L2 calls of one request.
- Service requests run one at a time against the whole service; the coalescer and the concurrent L1 Get have their own models.
- CacheService.Service.Get: does not return CachedAt, which the program itself only approximates.
- CacheService.Service.FetchWithFallback: the cached-at time of an item is left out as well; values are opaque strings.
- TwoLevelTheorems.TwoLevelsAreAPlainMap: leaves out origin fills, refresh events and L2 failures, under which it is false (`StaleReads.LevelsDecideAnswer` says what a Get answers then), and the second clock reading of a promotion or a Set, for which `ClockLag.LagExtendsLifetimesByAtMostLag` gives the bound. The rest of the model reads the clock once per request.
- TokenBuckets.RateBound: is about calls that run one at a time, because the token swap and the refill-time store are separate writes; under contention the bound is not claimed. Reset is left out.
- RateLimiter.BucketCell.TryConsume: runs alone, so the compare-and-swap succeeds at once and its retry is not modelled.
- RequestCoalescer.RequestCoalescer.Join: numbers the call records instead of allocating objects; panics in the coalesced function are not modelled.
- EmergencyStop.LateFetchesAreBounded: models the deduplicating library as one call per key shared by the workers that join it; the latency test is a free choice, since in the program it does not depend on the fetch. Counters and the lifetime default of a task are left out.
- WorkerPool.WorkerPool.RunNextTask: has one worker at a time; stop signals and shutdown are left out. The jitter's clock is a non-negative parameter.
- Expressions with other regular-expression syntax go to an arbitrary `engine`; strings are sequences of characters, without UTF-8.
- InvalidationPatterns.PatternMatcher.Match: MatchCount, which repeats its branches, is left out.
- container/list is the sequence of its elements; sync.Map is a map; the sorts of the standard library are one sorting function.
- HistoricalStats.HistoricalStats.MeanVariance: returns the variance, not its square root, which reals do not compute; the root is a number exactly when m2 is not negative.
- 64-bit overflow, rounding of floating-point numbers, clocks that go back, and data races under the Go memory model.
- FNV-1a: the hash is arbitrary, so the properties hold for any hash function.
- monitoring.RingBuffer: its tail follows its head, so there is no "last N" property to state.
- HTTP endpoints, Pub/Sub transport, SQL audit, cron, JSON, prediction, dashboards, alerts and the frontend.
