# A verified model of the proxy's stateful core

The repository is a proxy that spreads requests for AI services over pools of API keys. This project models
the parts of it whose guarantees span many calls, and proves them with Dafny 4.11:

| file | models |
|---|---|
| `RoundRobin.dfy` | smooth weighted round-robin over a channel's upstreams |
| `Recency.dfy`, `RecencyRuns.dfy`, `LocalCache.dfy` | the TTL + LRU key cache: the abstract recency order, whole runs of it, and the map with its doubly linked list |
| `Decimal.dfy`, `Slots.dfy`, `Lists.dfy` | integers as text, what a store keeps under a key, list operations |
| `MemoryStore.dfy` | the single-map in-memory store |
| `Sharding.dfy`, `SortedSets.dfy`, `ShardedStore.dfy`, `ShardedRuns.dfy`, `ShardedEquivalence.dfy` | the sharded in-memory store: hashing, the lazily sorted index, the operations and resharding, whole runs, and what of its maintenance shows |
| `Pool.dfy`, `PoolBatches.dfy`, `PoolRuns.dfy`, `KeyProvider.dfy` | the key pool: handlers and batches on (table, hashes, lists), whole runs, and the provider that carries the handlers out on a text-keyed store |
| `Proxy.dfy` | the retry loop of one request, with background status updates landing at any point |
| `Streaks.dfy`, `RequestRuns.dfy` | consecutive failures next to what the pool counts, and requests as runs of the pool |
| `HourlyStats.dfy`, `RequestLogs.dfy` | the request log buffer and its hourly aggregates |

Code that changes state is a class here too: its methods are proved against functions on values (`Recency.Get`,
`Slots.HIncrByChecked`, `Pools.HandleFailure`, `RoundRobin.Next`, …), and the guarantees are lemmas about
those functions over every input and every run. `dafny verify dfyconfig.toml` checks everything.

## What the model takes as given

- Each locked method, each handler and each database transaction is one atomic step, and store calls succeed.
  `handleFailure` and `handleRateLimit` read the hash before their transaction; the step covers both.
- A key's `group.ID` argument is the group of its row. Ids are `uint`, so natural numbers.
- The clock, the order of a query's rows, the ids the database assigns, whether a commit succeeds and what an
  upstream answers are parameters. Where a Go map is walked in random order the model leaves the order open.
- A new log id (a fresh UUID) is not among the recorded ones.
- Time is the same throughout one call.
- The recovery of a rate-limited key, a transaction of its own after the query that found it, still finds the row
  in its group and not active; `PoolBatches.RecoverOneKeepsInv` shows that the agreement survives exactly then.
- Where consecutive failures are counted, rows start with a failure count that is not negative.

## What turned out not to hold

- **Failures are not "consecutive".** The program's settings page (`internal/types/types.go:37`) and its manual
  (line 248 of the program's own `README.md`) speak of consecutive failures, but a successful request reports nothing
  (`internal/proxy/server.go:334` is commented out). `RequestRuns.AnswerDoesNotStartAfresh` is a run in which a
  failed, an answered and a failed request make a key invalid under threshold 2. A key's streak equals what the
  pool counts, and the next failure is judged as documented under every threshold, exactly when no request was
  answered with the key while its row showed failures, since its last success, restore or creation
  (`Streaks.StreakIsTally`, `Streaks.JudgedByConsecutiveFailures`).
- **Recovery leaves an old reset time in the hash**, exactly when the row had one
  (`PoolBatches.RecoveryLeavesStaleResetTime`, `StaleResetTimeExample`).
- **A recovery that is overtaken** between its query and its own transaction breaks the agreement exactly when the
  row is gone, in another group or active again (`PoolBatches.RecoverOneKeepsInv`; `OvertakenRecoveryExample` lists
  a key twice), and forgets the blacklisting exactly when the key has become invalid (`RecoveredBelowThreshold`).
- **Dropping a group's whole list** when keys of it are deleted is right exactly when no active key of the
  group stays (`PoolBatches.DeletingGroupKeys`, `DeletedGroupExample`).
- **Id 0 is never evicted**, since eviction reads 0 as "not found": `Recency.SizeStaysBounded` says exactly when
  the cache outgrows its bound (`ZeroIdIsNeverEvicted` is an example), and `ShrinkingEnds` exactly when the
  shrink loop of `adaptSize` ends.
- **A key text used in two groups** has its successes counted for both
  (`HourlyStats.SharedKeyTextIsCountedForEveryGroup`, exactly when; `SharedKeyTextExample`).
- **The two in-memory stores count differently** exactly when a hash field's text is no integer
  (`Slots.CountersAgree`, `UnreadableCounterExample`); a lone sign reads as zero (`Decimal.ReadersAgree`).
- **SetNX succeeds at the expiry instant** of an item that Get still returns then, and at no other instant
  (`Slots.SetNXRespectsReaders`, `SetNXAtExpiryExample`).
- **A negative adjustment step**, which nothing refuses, drives the cache's capacity out of its range
  (`LocalCache.AdaptedSizeStaysInRange`, exactly when).
- **Garbage collection is visible**: a run gives the answers it would have given without its collections exactly
  when every typed operation finds the slot it would have found (`ShardedEquivalence.MaintenanceShowsExactly`, for
  clocks that do not run behind a collection); `CollectionShows` is a run that fails, with a hash read of an
  expired item.
- **Reads of a sorted set are ambiguous**, since ties come in the order a map was walked in: by score exactly when
  two members of the range share their score (`SortedSets.RangeIsDetermined`), by position exactly when a member
  of the window shares its score with any other member, inside the window or not (`SortedSets.WindowIsDetermined`,
  `TieOutsideTheWindow`).

## Model

| member | source | states |
|---|---|---|
| RoundRobin.BaseChannel.constructor | internal/channel/factory.go:99-110 | weights are normalised to at least 1 and all current weights start at 0 |
| RoundRobin.BaseChannel.GetUpstreamUrl | internal/channel/base_channel.go:41-71 | returns the first upstream whose current weight plus weight no other exceeds, which is the pick of step t of the run, and leaves the current weights of step t+1; none for no upstream, the only one untouched |
| RoundRobin.BaseChannel.SelectBest | internal/channel/base_channel.go:52-70 | the loop raises every weight and finds the first upstream with the greatest raised weight; the total is taken from it alone |
| RoundRobin.FirstMaxIsFirstAndGreatest | internal/channel/base_channel.go:55-63 | the position found has the greatest value and no earlier one has as much |
| RoundRobin.PickAtIsFirstAndGreatest | internal/channel/base_channel.go:52-66 | call t picks the upstream with the greatest raised current weight after t calls, the first of them on a tie |
| RoundRobin.FurthestBehindIsServed | internal/channel/base_channel.go:41-71 | every call serves the upstream that is furthest behind its share of the calls so far |
| RoundRobin.CurrentsSumToZero | internal/channel/base_channel.go:52-70 | after any number of calls the current weights sum to 0 |
| RoundRobin.CurrentIsShareMinusPicks | internal/channel/base_channel.go:52-70 | current_i = t*w_i - W*n_i(t), and it stays above -W |
| RoundRobin.CurrentIsBounded | internal/channel/base_channel.go:52-70 | every current weight lies in [-(W-1), (n-1)(W-1)] |
| RoundRobin.ShareIsBounded | internal/channel/base_channel.go:52-70 | no upstream is ever a full pick or more ahead of its share, and its lag is bounded |
| RoundRobin.FullCycle | internal/channel/base_channel.go:41-71 | after W calls every upstream was returned w_i times and all current weights are 0 again |
| RoundRobin.EveryWindowIsFair | internal/channel/base_channel.go:41-71 | every window of W consecutive calls, wherever it starts, returns upstream i exactly w_i times |
| RoundRobin.SingleUpstreamStaysAtZero | internal/channel/base_channel.go:48-50 | with one upstream, skipping the algorithm gives what running it would give |
| LocalCache.LRUList.Link | internal/keypool/local_cache.go:254-260 | adding behind the head keeps the chain acyclic with next and prev inverse, the new entry first |
| LocalCache.LRUList.Unlink | internal/keypool/local_cache.go:263-273 | removing an entry closes the gap it leaves, everything else in its old order |
| LocalCache.LRUList.MoveToFront | internal/keypool/local_cache.go:276-279 | the entry comes first, every other keeps its relative order |
| LocalCache.LocalKeyCache.Get | internal/keypool/local_cache.go:77-106 | a hit moves the key to the front and adds one to the hits; a miss or an expired entry adds one to the misses, the latter is removed; no other counter moves |
| LocalCache.LocalKeyCache.Set | internal/keypool/local_cache.go:109-141 | refines `Recency.Set`: refreshed in place at the front, or inserted there after at most one eviction, which is counted; no hit or miss is |
| LocalCache.LocalKeyCache.RemoveEntry | internal/keypool/local_cache.go:152-158 | the map, the list and the size all lose exactly this key |
| LocalCache.LocalKeyCache.EvictLRU | internal/keypool/local_cache.go:161-185 | the search over the map in any order finds the id of the tail's neighbour; exactly the last key goes and is counted, unless its id is 0 |
| LocalCache.LeastRecentlyUsed | internal/keypool/local_cache.go:166-178 | the tail's neighbour is the entry of the least recently used id, and of no other id |
| LocalCache.LocalKeyCache.CleanupExpired | internal/keypool/local_cache.go:198-214 | exactly the unexpired entries stay, in their old recency order; of the counters only the size changes |
| LocalCache.LocalKeyCache.EvictDown | internal/keypool/local_cache.go:347-350 | the shrink loop ends, leaves the most recently used prefix and counts every eviction |
| LocalCache.LocalKeyCache.Clear | internal/keypool/local_cache.go:242-249 | an empty, well-formed cache |
| LocalCache.AdaptiveCache.AdaptSize | internal/keypool/local_cache.go:332-356 | the new capacity, which prefix of the recency order survives it, and how many evictions are counted |
| LocalCache.AdaptedSizeFollowsHits | internal/keypool/local_cache.go:332-343 | the capacity grows exactly when the hits fall short of the target share of all lookups, and shrinks when they exceed it by more than a tenth, within the bounds |
| LocalCache.HitRateIsShareOfHits | internal/keypool/local_cache.go:216-222 | the rate times all lookups is the hits; no hits, rate 0 |
| LocalCache.AdaptedSizeStaysInRange | internal/keypool/local_cache.go:332-356 | no hit rate drives the capacity out of [MinSize, MaxSize], exactly when the step is not negative |
| Recency.OperationsKeepDistinct | internal/keypool/local_cache.go:77-185 | no operation ever holds a key twice |
| Recency.SizeStaysBounded | internal/keypool/local_cache.go:109-141 | the cache keeps its bound, except exactly when a new key meets a full cache whose last key has id 0 |
| Recency.ZeroIdIsNeverEvicted | internal/keypool/local_cache.go:172-184 | an input with which the bound is broken |
| Recency.NewKeyDropsTheLast | internal/keypool/local_cache.go:126-140 | a new key on a full cache drops exactly the last key, every other keeps its order |
| Recency.CleanedEntries | internal/keypool/local_cache.go:198-214 | what cleaning keeps is what has not expired |
| Recency.ShrinkingEnds | internal/keypool/local_cache.go:344-350 | eviction down to a size ends if and only if no id-0 entry stands past it; it then leaves a prefix |
| RecencyRuns.CacheHoldsTheMostRecent | internal/keypool/local_cache.go:77-185 | after any run of fill-on-miss reads and sets the cache holds exactly the maxSize most recently used ids, in that order, however many entries expired on the way |
| RecencyRuns.HitsAreRecentAndFresh | internal/keypool/local_cache.go:77-141 | in any such run a read hits exactly when its id is among the maxSize most recently used and was last filled within the TTL, and it returns what that fill brought |
| RecencyRuns.CachedInOrderOfUse | internal/keypool/local_cache.go:77-214 | in any run, with removals and clean-ups anywhere, the cached ids are distinct, at most maxSize, and stand in the order of their last use |
| RecencyRuns.RecentAndFreshAlwaysHits | internal/keypool/local_cache.go:77-214 | in any run, an id among the maxSize most recently used whose last fill is within the TTL hits and returns what that fill brought, if no clean-up ran by a later clock |
| RecencyRuns.HitsReturnTheLastFill | internal/keypool/local_cache.go:77-214 | conversely, in any run a hit returns what the last fill of its id brought, within the TTL, and the id was not removed since |
| RecencyRuns.RunExplained | internal/keypool/local_cache.go:77-141 | in any run each entry carries the key and expiry of its last fill, the time of its last use, and the number of hits since it came in |
| Decimal.ParseInt64 | internal/keypool/sharded_memory.go:1032-1056 | the digit loop reads exactly what `ParseLenient` describes, sign included, and rejects everything else |
| Decimal.RoundTrip | internal/keypool/sharded_memory.go:422-433 | reading back a printed integer gives the same integer, for every value and each of the readers |
| Decimal.FormatIsInjective | internal/keypool/provider.go:95-96 | two ids never share their text |
| Decimal.ReadsPositionally | internal/keypool/sharded_memory.go:1046-1053 | digits are read in base ten, the first one weighing most |
| Decimal.PrintedIsCanonical | internal/keypool/sharded_memory.go:422-433 | a numeral is what its value is printed as exactly when it has no leading zero |
| Decimal.ReadersAgree | internal/keypool/sharded_memory.go:1032-1056 | the hand-written parser and strconv agree wherever the former accepts; the two differ in accepting only a lone sign |
| Slots.CounterIsRunningTotal | internal/keypool/sharded_memory.go:403-440 | a counter driven by any increments decodes to its initial value (0 if there was no field or hash) plus their sum, the other fields stay; what is no integer stays |
| Slots.ReadableUntilExpiry | internal/keypool/sharded_memory.go:101-154 | an item can be read back until its expiry instant, and at no later time |
| Slots.GetAnswers | internal/keypool/sharded_memory.go:125-154 | a value exactly for an item without expiry or not past it; a type mismatch exactly for another type; else not found |
| Slots.SetNXStores | internal/keypool/sharded_memory.go:220-248 | a value SetNX stored reads until its own expiry; where an item lives or another type is, nothing changes |
| Slots.FieldsAfterSet | internal/keypool/sharded_memory.go:342-370 | fields set read back as set, all others as before; another type stays and is an error |
| Slots.QueueOrder | internal/store/memory.go:236-317 | pushed values stand in front in argument order, and rotation takes what stood last |
| Slots.ScoresAfter | internal/keypool/sharded_memory.go:756-826 | after ZAdd each member has the score it was last given, after ZRem the names are gone and the rest keeps its scores |
| Slots.SetNXRespectsReaders | internal/keypool/sharded_memory.go:220-248 | SetNX replaces an item that can still be read exactly at its expiry instant |
| Slots.SetNXAtExpiryExample | internal/keypool/sharded_memory.go:220-248 | an item that still reads at the instant at which SetNX replaces it |
| Slots.CountersAgree | internal/store/memory.go:210-232 | the plain store counts like the sharded one exactly when the latter accepts the field's text |
| Slots.UnreadableCounterExample | internal/store/memory.go:225-230 | the text "abc" counts as 0 in the plain store and is an error in the sharded one |
| Slots.CollectionIsInvisibleToReads | internal/keypool/sharded_memory.go:261-285 | collecting an expired item changes no later read, Exists or SetNX; a hash read sees it exactly when something was collected |
| MemoryStores.MemoryStore.Get | internal/store/memory.go:70-92 | reply and new store, an expired item being removed |
| MemoryStores.MemoryStore.HIncrBy | internal/store/memory.go:210-232 | reply and new hash; text that is no integer counts as 0 |
| MemoryStores.MemoryStore.LPush | internal/store/memory.go:236-259 | values in argument order in front of the list |
| MemoryStores.MemoryStore.LRem | internal/store/memory.go:261-289 | the loop removes every occurrence and keeps the order of what remains |
| MemoryStores.MemoryStore.Rotate | internal/store/memory.go:291-317 | the last element is returned and moved to the front |
| MemoryStores.MemoryStore.SAdd | internal/store/memory.go:322-343 | the set grows by exactly the given members |
| MemoryStores.MemoryStore.SPopN | internal/store/memory.go:548-576 | min(count, size) distinct members leave the set and are returned |
| Lists.WithoutMembers | internal/store/memory.go:279-286 | removal leaves exactly the other members and no new duplicate |
| Lists.WithoutSplit | internal/store/memory.go:279-286 | where nothing is repeated, only the one position goes |
| Pools.SelectKeepsInv | internal/keypool/provider.go:35-50 | selecting rotates one list; table, hashes and lists stay in agreement |
| Pools.SelectedKeyIsActive | internal/keypool/provider.go:35-89 | the key selected is an active row of the group, decoded field by field as its row stands; only an old reset time may show where the row has none |
| Pools.SuccessKeepsInv | internal/keypool/provider.go:148-192 | a success keeps the agreement, zeroes the failures and makes the key active; nothing else changes |
| Pools.FailureKeepsInv | internal/keypool/provider.go:194-243 | a failure keeps the agreement, adds one to a key that is not invalid and makes it invalid exactly at the threshold; nothing else changes |
| Pools.RateLimitKeepsInv | internal/keypool/provider.go:246-307 | a rate limit keeps the agreement; row and hash get the count, the time and the reset time, and the key leaves its list |
| Pools.CachedRowExample | internal/keypool/provider.go:656-677 | the hash fields of a concrete row, literally |
| Pools.UnixIsWholeSeconds | internal/keypool/provider.go:665-674 | times are stored as the whole seconds passed |
| PoolBatches.AddKeysKeepsInv | internal/keypool/provider.go:387-407 | added keys agree, unless the unique index refuses them all |
| PoolBatches.AddKeysKeepsUnique | internal/keypool/provider.go:387-407 | new rows are taken exactly when afterwards no group holds a key text twice, otherwise none is |
| PoolBatches.RemoveKeepsInv | internal/keypool/provider.go:547-581 | removed keys are gone from table, hashes and lists; the rest is unchanged |
| PoolBatches.RestoreKeepsInv | internal/keypool/provider.go:449-484 | restored keys are active with no failures and listed once; the rest is unchanged |
| PoolBatches.RecoverKeepsInv | internal/keypool/provider.go:689-751 | recovery reactivates exactly the keys found and leaves every other key unchanged, as long as none of them was overtaken |
| PoolBatches.RecoveryFindsWhatIsDue | internal/keypool/provider.go:689-751 | exactly the keys rate-limited with no reset time or one that has come are active afterwards, without reset time and listed once; nothing else of any key changes |
| PoolBatches.RecoverOneKeepsInv | internal/keypool/provider.go:720-751 | recovering one key keeps the agreement if and only if its row is still there, in the group the query saw, and not active |
| PoolBatches.OvertakenRecoveryExample | internal/keypool/provider.go:720-751 | a key whose success lands after the recovery query is listed twice |
| PoolBatches.RecoveredBelowThreshold | internal/keypool/provider.go:720-731 | recovery lets a key live on with too many failures if and only if it had been made invalid for them |
| PoolBatches.RecoveredKeyIsListedOnce | internal/keypool/provider.go:739-748 | a recovered key is in its list once although it is pushed without being removed first |
| PoolBatches.RecoveryLeavesStaleResetTime | internal/keypool/provider.go:720-737 | the hash shows no old reset time afterwards exactly when the row had none before |
| PoolBatches.StaleResetTimeExample | internal/keypool/provider.go:720-737 | a key whose selected form still carries the reset time its row has lost |
| PoolBatches.DeletingGroupKeys | internal/keypool/provider.go:585-618 | dropping the whole list keeps the agreement exactly when no active key of the group stays |
| PoolBatches.DeletedGroupExample | internal/keypool/provider.go:585-618 | of two active keys one is deleted, and the other is listed nowhere |
| PoolBatches.LoadKeysEstablishesInv | internal/keypool/provider.go:310-384 | loading any table into an empty store brings table, hashes and lists into agreement |
| PoolBatches.LoadedInOrder | internal/keypool/provider.go:340-370 | the loaded lists name the active keys in the order their rows were read |
| PoolRuns.EveryReachablePoolAgrees | internal/keypool/provider.go:148-307 | in every state of every run after loading, recoveries landing one by one, each row equals its hash and a key is listed in its group exactly once if active, else not at all |
| PoolRuns.KeysStayUnique | internal/keypool/provider.go:387-407 | in every state of every run no group holds a key text twice |
| PoolRuns.FailureCountIsTally | internal/keypool/provider.go:194-243 | in every run a key's failure count is the failures handled since its last success or restore |
| PoolRuns.ValidKeysStayBelowThreshold | internal/keypool/provider.go:209-220 | with a fixed positive threshold a key that is not invalid is below it, in every state of every run in which no recovery overtakes a blacklisting |
| PoolRuns.FailureAtThresholdInvalidates | internal/keypool/provider.go:215-240 | a failure makes the key invalid if and only if it brings the tally to the threshold |
| PoolRuns.InvalidKeyIsNotSelected | internal/keypool/provider.go:198-240 | an invalid key stays invalid and is never selected until a success, a restore or a recovery |
| PoolRuns.RotationIsFair | internal/store/memory.go:291-317 | with m active keys the k-th of m selections takes the k-th key from the back, and m of them leave everything as it was |
| PoolRuns.EachActiveKeyOncePerRound | internal/store/memory.go:291-317 | m consecutive selections return each active key exactly once |
| PoolRuns.RevivedKeyComesLast | internal/keypool/provider.go:179-187 | after a success or a recovery brings a key back, the other keys are selected first, in the order they would have come in, and then the key |
| KeyProviders.NamesNeverCollide | internal/keypool/provider.go:37-43 | no two hashes, lists or flags share a store key |
| KeyProviders.NamesExample | internal/keypool/provider.go:37-43 | the names of key 42 and of the list of group 1 |
| KeyProviders.KeyProvider.SelectKey | internal/keypool/provider.go:35-89 | the provider on the text-keyed store selects what the pool selects, and decodes its hash |
| KeyProviders.KeyProvider.HandleSuccess | internal/keypool/provider.go:148-192 | the store calls carry out exactly `Pools.HandleSuccess` |
| KeyProviders.KeyProvider.HandleFailure | internal/keypool/provider.go:194-243 | the store calls carry out exactly `Pools.HandleFailure` |
| KeyProviders.KeyProvider.HandleRateLimit | internal/keypool/provider.go:246-307 | the store calls carry out exactly `Pools.HandleRateLimit` |
| KeyProviders.KeyProvider.AddKeyToStore | internal/keypool/provider.go:621-640 | the hash is written and an active key is listed exactly once |
| KeyProviders.KeyProvider.RemoveKeyFromStore | internal/keypool/provider.go:643-654 | the key leaves its list and its hash goes |
| KeyProviders.KeyProvider.AddKeys | internal/keypool/provider.go:387-407 | all rows or none are added, and cached in turn |
| KeyProviders.KeyProvider.RemoveKeys | internal/keypool/provider.go:410-446 | exactly the rows of the group with one of the texts go, from the table and the store |
| KeyProviders.KeyProvider.RemoveKeysByStatus | internal/keypool/provider.go:547-581 | exactly the rows of the group with the status, or all of them, go |
| KeyProviders.KeyProvider.RestoreKeys | internal/keypool/provider.go:449-484 | exactly the invalid rows of the group become active with no failures; the store follows |
| KeyProviders.KeyProvider.RestoreMultipleKeys | internal/keypool/provider.go:487-533 | exactly the invalid rows of the group with one of the texts become active with no failures; the store follows |
| KeyProviders.KeyProvider.RecoverRateLimitedKeys | internal/keypool/provider.go:689-717 | from an agreeing pool, exactly the keys rate-limited with no reset time or one not later than now are active again, with no reset time and listed once; every other key is as it was |
| KeyProviders.KeyProvider.RecoverSingleKey | internal/keypool/provider.go:720-751 | one key's row, if it is still there, and in any case its hash status and list entry |
| KeyProviders.KeyProvider.RemoveKeysFromStore | internal/keypool/provider.go:585-618 | the group's whole list and the given hashes go |
| KeyProviders.KeyProvider.LoadKeysFromDB | internal/keypool/provider.go:310-384 | does nothing once loaded; else writes every hash and replaces the list of every group that has active keys |
| Proxy.RetriesAreBounded | internal/proxy/server.go:147-332 | at most MaxRetries+1 requests are sent, and one numbered error is kept per retry |
| Proxy.EveryAttemptIsJudged | internal/proxy/server.go:245-350 | an attempt is retried exactly on a transport error that is not ignorable or a status of 400 and above other than 404, and its error records just that; the reply is what the last exchange concludes, its own status code included |
| Proxy.ReportedError | internal/proxy/server.go:147-169 | an upstream error is reported exactly on exhaustion, the last of the errors kept; what is forwarded is no error answer except 404 |
| Proxy.ErrorsTellTheAttempts | internal/proxy/server.go:322-329 | error i is what attempt i met upstream, with the text of the key that attempt used |
| Proxy.ReportsTheLastAttempt | internal/proxy/server.go:147-169 | on exhaustion the reply carries what the last attempt met, with the text of the last key used |
| Proxy.RequestKeepsInv | internal/proxy/server.go:136-332 | however its status updates land, a request leaves table, hashes and lists in agreement, and what is still pending concerns keys of the group |
| Proxy.RequestNeverForgives | internal/proxy/server.go:136-334 | no request, answered or not, takes back a failure or revives a key |
| Proxy.LateUpdates | internal/keypool/provider.go:92-119 | updates that land after the reply, in any order, keep the agreement and forgive nothing either |
| Proxy.AttemptsUseDistinctKeys | internal/proxy/server.go:171-332 | of m keys active at the start, the first m attempts use pairwise distinct ones, whatever updates land in between |
| Proxy.ExhaustedRequest | internal/proxy/server.go:136-332 | a request that keeps failing with enough active keys sends MaxRetries+1 times in list order from the back and reports what its last attempt met with the last key |
| Proxy.ProxyServer.ExecuteRequestWithRetry | internal/proxy/server.go:136-350 | the recursion over the provider computes exactly `Proxy.Request`, so retries, errors and the reply follow from what the attempts met |
| RequestRuns.RequestIsRun | internal/proxy/server.go:136-350 | what a request does to the pool is a run; each retried attempt reports the key it used once, as a rate limit with its reset time exactly when the exchange read as one, else as a failure, and each report has landed or is pending; a forwarded answer is the last event |
| RequestRuns.FailedAttemptMarksItsKey | internal/proxy/server.go:281-320 | a lone failed attempt leaves its key rate-limited with one more rate limit and no more failures if it read as a rate limit, else with one more failure, invalid at the threshold |
| RequestRuns.AnswerDoesNotStartAfresh | internal/proxy/server.go:334-334 | a freshly loaded key, a failed, an answered and a failed request, threshold 2: the key is invalid |
| Streaks.StreakIsTally | internal/keypool/provider.go:194-243 | consecutive failures never exceed the failures counted, and equal them exactly when no request was answered with the key while its row showed failures |
| Streaks.JudgedByConsecutiveFailures | internal/keypool/provider.go:209-220 | the next failure is judged by consecutive failures under every threshold, as documented, under exactly that condition |
| Sharding.PowerOfTwoTest | internal/keypool/sharded_memory.go:1148-1151 | `count & (count - 1) == 0` accepts exactly the powers of two |
| Sharding.AndBitByBit | internal/keypool/sharded_memory.go:93-98 | a bit of the masked hash is set exactly when both bits are |
| Sharding.XorBitByBit | internal/keypool/sharded_memory.go:93-98 | a bit of the exclusive or is set exactly when the two bits differ |
| Sharding.EveryShardIsReachable | internal/keypool/sharded_memory.go:93-98 | masking reaches every shard if and only if the count is a power of two, and is then the remainder |
| ShardedStores.ShardIsHashModuloCount | internal/keypool/sharded_memory.go:93-98 | a key's shard is its FNV-1a hash modulo the shard count |
| ShardedStores.AcceptedConfigs | internal/keypool/sharded_memory.go:1135-1154 | which configurations the validation lets through |
| ShardedStores.ShardedMemoryStore.Create | internal/keypool/sharded_memory.go:58-90 | an empty store with the asked number of shards, 16 by default, refused exactly if it is no power of two |
| ShardedStores.ShardedMemoryStore.Set | internal/keypool/sharded_memory.go:101-122 | the flat map gets the item with its expiry, no other key changes |
| ShardedStores.ShardedMemoryStore.Get | internal/keypool/sharded_memory.go:125-154 | the flat map's reply, an expired item being removed |
| ShardedStores.ShardedMemoryStore.Del | internal/keypool/sharded_memory.go:168-192 | exactly the given keys go |
| ShardedStores.ShardedMemoryStore.Exists | internal/keypool/sharded_memory.go:195-217 | whether the flat map has the key, an expired item being removed |
| ShardedStores.ShardedMemoryStore.SetNX | internal/keypool/sharded_memory.go:220-248 | sets unless an item that has not expired, or another type, is there |
| ShardedStores.ShardedMemoryStore.PerformGC | internal/keypool/sharded_memory.go:261-285 | the expired items of the shards last collected at least an interval ago go, everything else stays, and these shards count as collected now |
| ShardedStores.ShardedMemoryStore.HSet | internal/keypool/sharded_memory.go:342-370 | the flat map's hash gets the fields |
| ShardedStores.ShardedMemoryStore.HGetAll | internal/keypool/sharded_memory.go:373-400 | the fields of the flat map's hash |
| ShardedStores.ShardedMemoryStore.HIncrBy | internal/keypool/sharded_memory.go:403-440 | the counter's new value, or an error that leaves the hash alone |
| ShardedStores.ShardedMemoryStore.LPush | internal/keypool/sharded_memory.go:445-475 | values in argument order in front of the list |
| ShardedStores.ShardedMemoryStore.LRem | internal/keypool/sharded_memory.go:478-514 | the loop removes every occurrence and keeps the order of what remains |
| ShardedStores.ShardedMemoryStore.Rotate | internal/keypool/sharded_memory.go:517-549 | the last element is returned and moved to the front |
| ShardedStores.ShardedMemoryStore.SAdd | internal/keypool/sharded_memory.go:629-657 | the set grows by exactly the given members |
| ShardedStores.ShardedMemoryStore.SPopN | internal/keypool/sharded_memory.go:717-751 | min(count, size) distinct members leave the set and are returned |
| ShardedStores.ShardedMemoryStore.ZAdd | internal/keypool/sharded_memory.go:756-794 | each member has the score it was last given, every other keeps its own; a new set if there was none |
| ShardedStores.ShardedMemoryStore.ZRem | internal/keypool/sharded_memory.go:797-826 | exactly the given members go |
| ShardedStores.ShardedMemoryStore.ZRange | internal/keypool/sharded_memory.go:829-881 | a window of some ranking of all the members, negative positions counting from the end; reads in a row use one and the same index |
| ShardedStores.ShardedMemoryStore.ZRangeByScore | internal/keypool/sharded_memory.go:884-914 | each member with min <= score <= max exactly once, in score order; a clean index is kept |
| ShardedStores.ShardedMemoryStore.ZRemRangeByScore | internal/keypool/sharded_memory.go:917-950 | exactly the members in the range go, and their number is returned |
| ShardedStores.ShardedMemoryStore.Reconfigure | internal/keypool/sharded_memory.go:1072-1094 | the flat map stays; afterwards each key is only in the shard the new mask selects; a refused configuration changes nothing |
| ShardedStores.ShardedMemoryStore.ReshardData | internal/keypool/sharded_memory.go:1097-1132 | collecting and redistributing loses and duplicates nothing |
| ShardedRuns.Replay | internal/keypool/sharded_memory.go:101-1132 | every sequence of operations, reconfigurations and garbage collections is a run of the flat map |
| ShardedEquivalence.MaintenanceIsInvisible | internal/keypool/sharded_memory.go:261-1132 | leaving resharding and garbage collection out of a run leaves a run with the same answers, and an end that differs in expired items only, if each typed operation finds the slot it would have found |
| ShardedEquivalence.MaintenanceShowsExactly | internal/keypool/sharded_memory.go:261-1132 | for clocks not behind a collection, the run without its maintenance gives the same answers if and only if each typed operation finds the slot it would have found |
| ShardedEquivalence.CollectionShows | internal/keypool/sharded_memory.go:261-285 | a run whose hash read answers differently without the collection before it |
| ShardedEquivalence.TypedOperationsNotice | internal/keypool/sharded_memory.go:261-285 | a typed operation on an expired item never gets the answer it gets once the item is collected |
| ShardedEquivalence.ReconfiguringIsInvisible | internal/keypool/sharded_memory.go:1072-1132 | leaving only reconfigurations out leaves the same answers and the same end, with no condition |
| ShardedEquivalence.ShardingDoesNotShow | internal/keypool/sharded_memory.go:1072-1132 | two runs of the same operations, with any maintenance in between, give the same answers wherever the operations settle them, and ends that differ in expired items only |
| ShardedEquivalence.SettledExactly | internal/keypool/sharded_memory.go:717-914 | an operation has one possible answer if and only if what it reads has no ties and what it pops leaves no choice |
| ShardedEquivalence.ReplayBoth | internal/keypool/sharded_memory.go:58-1132 | two stores with the same contents and any shard counts, each with its own maintenance, give the same answers to the same settled operations |
| SortedSets.ExchangeSort | internal/keypool/sharded_memory.go:1020-1026 | the double loop yields a permutation in non-decreasing score order |
| SortedSets.SortedSet.EnsureSorted | internal/keypool/sharded_memory.go:1006-1029 | afterwards the index is clean: a sorted permutation of the member map; a clean index is left alone |
| SortedSets.SortedSet.Add | internal/keypool/sharded_memory.go:778-787 | a member named has the score it was last named with, every other the one it had; the index is marked dirty whenever a score changed |
| SortedSets.OutOfRangeIsOutside | internal/keypool/sharded_memory.go:932-946 | exactly the members below min or above max stay, with their scores, and the others are counted |
| SortedSets.WindowPositions | internal/keypool/sharded_memory.go:848-876 | a position is in the window exactly when it lies between the two ends, each counted from the end when negative |
| SortedSets.IndexRanks | internal/keypool/sharded_memory.go:993-1029 | a clean index lists each member exactly once, in score order |
| SortedSets.SelectionRanksRange | internal/keypool/sharded_memory.go:902-907 | filtering the index gives each member of the range exactly once, in score order |
| SortedSets.RangeIsDetermined | internal/keypool/sharded_memory.go:1006-1029 | a range by score has one possible answer exactly when no two members of the range share their score |
| SortedSets.WindowIsDetermined | internal/keypool/sharded_memory.go:829-881 | a range by position has one possible answer exactly when no member of the window shares its score with any other member of the set |
| SortedSets.TieOutsideTheWindow | internal/keypool/sharded_memory.go:829-881 | a window of one member with two possible answers |
| RequestLogs.BatchStored | internal/services/request_log_service.go:139-196 | a batch that commits: its live logs become rows once each, its expired ones are dropped, everything recorded is still in exactly one place |
| RequestLogs.BatchRestored | internal/services/request_log_service.go:175-188 | a batch that fails puts back the pending set it popped |
| RequestLogs.PrimaryKeyTakes | internal/services/request_log_service.go:205-208 | a batch is taken exactly when afterwards no two rows share their id |
| RequestLogs.RequestLogService.Record | internal/services/request_log_service.go:104-125 | a new log becomes a row at once (interval 0) or waits under its key with a body that lives five times the interval in minutes |
| RequestLogs.RequestLogService.Flush | internal/services/request_log_service.go:128-197 | ends because the pending set shrinks each round; recorded logs stay the disjoint union of pending, stored and expired; hourly table and request counts agree with the rows; with every commit succeeding nothing stays pending |
| RequestLogs.RequestLogService.WriteLogsToDB | internal/services/request_log_service.go:200-281 | rows, hourly table and request counts change together or not at all; every line stands at a whole hour |
| HourlyStats.BatchingDoesNotMatter | internal/services/request_log_service.go:239-276 | from empty tables, however logs are split into batches, each hourly count is the number of rows it stands for |
| HourlyStats.LinesCountTheirHour | internal/services/request_log_service.go:239-276 | a line (h, group) counts the rows with h <= timestamp < h + 1 hour of that group, by outcome; every row has such a line, and no line stands elsewhere |
| HourlyStats.TruncatedIsStartOfHour | internal/services/request_log_service.go:242-242 | the hour a timestamp is counted in is the whole hour it lies in |
| HourlyStats.UpsertKeepsAgreement | internal/services/request_log_service.go:258-276 | adding a batch's counts keeps the table in agreement with the rows |
| HourlyStats.BatchStats | internal/services/request_log_service.go:240-257 | the loop counts successes and failures of each hour and group |
| HourlyStats.UpsertAll | internal/services/request_log_service.go:258-276 | every line of the batch is inserted or incremented, in any order |
| HourlyStats.KeyStats | internal/services/request_log_service.go:210-215 | the loop counts the successes of each key text |
| HourlyStats.SuccessesAreRows | internal/services/request_log_service.go:210-233 | a key is counted up by the number of successful rows with its text |
| HourlyStats.SharedKeyTextIsCountedForEveryGroup | internal/services/request_log_service.go:217-233 | a key's request count grows by its own group's successes exactly if no other group had one with its text |
| HourlyStats.SharedKeyTextExample | internal/services/request_log_service.go:217-233 | one success in each of two groups counts twice for either group's key |
| HourlyStats.CountsAddUp | internal/services/request_log_service.go:217-233 | counts that are right for the rows stay right when a batch is added, so in every state each key stands at its starting value plus the successes of its text |

## Left out

- int64 and int overflow: integers are unbounded, except that hashes and masks are 32 bits wide.
- Floating point: scores and hit rates are real numbers, so NaN scores are not modelled; the hit rate is kept as
  its two counters.
- Text encoding: a character is hashed as one unit, which is a byte of the key for ASCII keys, the only ones the
  program makes; JSON encoding of logs is left out, so a body that cannot be decoded does not occur.
- Goroutines, mutexes and races, such as ZRange sorting under a read lock.
- HTTP transport, streaming, headers and bodies; whether an error message reads as a rate limit is a parameter.
- Transaction retries on a locked database, and a store call that fails halfway.
- The layered memory and Redis pools, EnhancedKeyProvider, the recovery service's schedule, metrics and tuning.
- Easy store members: SRem, SMembers, LRange, LLen, ZCard, Close, publish and subscribe; the plain store's
  sorted sets; a negative count for SPopN, with which the source panics.
- last_used_at and updated_at, and columns of a log that no count depends on.
- The clean-up, adaptation and flush timers: their bodies are methods, called at any time.
- Where a Go method is long, the Dafny method is split: `SelectBest`/`RaiseAll`, `Bypass`/`Unlink`, `Hit`/`Expire`,
  `EvictLast`/`KeyOf`/`Evict`, `Assign`/`Erase`, `CollectShard`/`MarkCollected`, `RecordNow`/`RecordLater`,
  `Take`/`FlushBatch`/`WriteBatch`/`PutBack`, `RecordFailure`/`Blacklist` are parts of one source function each.
- LocalCache.AdaptiveCache.AdaptSize: does not model the endless loop it can enter, since Dafny methods
  terminate; its precondition is the condition under which `Recency.ShrinkingEnds` proves that it ends.
- RequestLogs.RequestLogService.Flush: does not model a failing SPopN, Get, SAdd or Del of a remote store, after
  which popped logs could be lost; the in-memory store modelled here never fails on them.
