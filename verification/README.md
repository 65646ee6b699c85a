# Verified models of the resilience, caching and lifecycle cores

The repository is a platform that connects agents to tools. Most of it moves data
between HTTP, SQL and Redis; its hard parts are small state machines that must hold
under every interleaving, every clock reading and every order of calls. This project
models those state machines in Dafny and proves what they keep over whole runs.

`dafny verify dfyconfig.toml` checks everything.

| file | component |
|---|---|
| `CacheGraph.dfy`, `CacheManager.dfy` | cascade invalidation over the dependency graph; the two-level cache with promotion |
| `Coalescing.dfy` | leaders and waiters of coalesced loads, as interleaved steps |
| `Bulkhead.dfy` | the channel semaphore with queue, cancellation and Close, as interleaved steps |
| `BatchProcessor.dfy` | the batching workers with tokens and shutdown, as interleaved steps |
| `CircuitBreaker.dfy` | breaker counters and timing against the outcome history |
| `AttemptLimiter.dfy`, `TokenBucket.dfy` | the two rate limiters |
| `ConfigService.dfy` | versioned configuration table behind a cache |
| `AgentLifecycle.dfy` | the transition table and the repository that walks it |
| `Authorizer.dfy` | first-match policies, roles and the decision cache |
| `Document.dfy` | the fractional-position text document |
| `Histogram.dfy`, `MinuteRing.dfy`, `ContextTokens.dfy` | latency histogram, per-minute error ring, context token accounting |

Conventions. Time is a parameter. Floating point is modelled by reals. Random
identifiers are fresh numbers. Tables are maps or sequences of rows. A method that
holds a lock for its whole body is one step; the bulkhead, coalescing and the batch
workers are split at every channel operation and lock section. Where the source
updates an object in place, the model has a class whose methods are proved against a
specification function or a ghost history, and the run-level results are lemmas about
that function or preserved by every method's `Valid()`.

Properties that turned out not to hold of the code, each with the exact condition under
which it does:

- A cascade returns if and only if no cycle is reachable (`CacheGraph.ReturnsIffAcyclic`); `AddDependency` does not check
  (`CacheGraph.AddEdgeSafeIff`). This is why `Invalidate` has a precondition.
- A bulkhead gets its capacity back if and only if no caller left with a grant in its channel and none was granted a slot after it left
  (`Bulkhead.CapacityRestoredIff`; `Bulkhead.LeakReachable` shows the loss).
- A send panics after Close for exactly the callers that had passed the check and not yet sent (`Bulkhead.SendAfterCloseIff`); a caller
  whose request Close finds waiting can still be served if and only if a slot is free or a Release is half way (`Bulkhead.WaiterServableIff`).
- The CoalescingSaved metric is right if and only if nobody ever waited (`Coalescing.SavedCountsTwice`).
- A lockout holds if and only if no success is recorded before it ends (`AttemptLimiter.LockoutHoldsIff`).
- `getState` releases its lock between check and write; the retry timeout is kept if and only if no such write lands on a breaker that has
  opened again and is not past its retry time (`CircuitBreaker.GapKeepsTimeoutIff`). The other timing results take methods as atomic.
- A configuration can be created if and only if the agent never had one, so deactivating or deleting is final, and updated if and only if
  the schema's unique index on agent_id is absent (`ConfigService.Service.CreateConfig`, `ConfigService.Service.UpdateConfig`).
- An invalidated key stays away if and only if no load of it is about to store its value (`Coalescing.InvalidationUndoneIff`).
- A batch request is sure to be answered before Close returns if and only if a worker has taken it when shutdown is signalled (`BatchProcessor.StrandedIff`).
- Cache keys of decisions tell requests apart if and only if one field position at most may hold a colon (`Authorizer.KeyInjectiveIff`).
- Assigning and removing a role restores the bindings if and only if there was a binding (`Authorizer.RoleRoundTripIff`), and assigning
  one revokes nothing except from an agent that loses its default role (`Authorizer.AddRoleRevokesNothingIff`).
- An insertion splices the visible characters if and only if there is room between its neighbours (`Document.InsertSplicesIff`); a
  second insertion at the front never has room (`Document.SecondPrependHasNoRoom`).
- After an hour's silence the minute ring is right if and only if the one slot it forgets to clear was empty (`MinuteRing.LongGapRefinesIff`).

## Model

| member | source | states |
|---|---|---|
| `CacheGraph.CascadeExact` | pkg/clients/cache_manager.go:441-467 | on paths of bounded length, shared descendants included, the deleting recursion returns, drops exactly the lists of the keys reachable from the key, removes exactly those keys, and counts each edge leaving one of them once |
| `CacheGraph.ReturnsIffAcyclic` | pkg/clients/cache_manager.go:441-467 | the recursion returns for some depth if and only if no cycle is reachable from the key |
| `CacheGraph.AddEdgeSafeIff` | pkg/clients/cache_manager.go:422-438 | adding a dependency keeps every later invalidation returning if and only if the child does not already reach the parent |
| `CacheGraph.AddEdgeExact` | pkg/clients/cache_manager.go:422-438 | the graph gains exactly this edge, listed once and last, and every other list stays as it was |
| `CacheManager.Cache.Set` | pkg/clients/cache_manager.go:243-282 | writes the entry to L1 and, when enabled, to L2, touches no other key, and both levels agree with the log extended by this store |
| `CacheManager.Cache.Get` | pkg/clients/cache_manager.go:182-240 | a hit is the value of the latest store of the key that no invalidation followed, younger than max(effective ttl, L2TTL) + L1TTL however often it was promoted; a store that no later store, invalidation or eviction touched is found while its own ttl lasts, with L2 on or off; a store alive in L2 is always found; the new content of L1 is stated exactly |
| `CacheManager.Cache.Evict` | pkg/clients/cache_manager.go:575-597 | whatever L1 forgets is logged, and the agreement with the log is kept |
| `CacheManager.Cache.AddDependency` | pkg/clients/cache_manager.go:422-438 | the graph gains exactly this edge, once |
| `CacheManager.Cache.InvalidateDependencies` | pkg/clients/cache_manager.go:441-467 | the loop that removes, counts and recurses computes the graph function of the cascade and removes its keys from both levels |
| `CacheManager.Cache.Invalidate` | pkg/clients/cache_manager.go:373-393 | removes exactly the reachable keys from L1 and L2 and their lists, counts their edges, and the cache keeps agreeing with the log |
| `Coalescing.NextKeepsInv` | pkg/clients/cache_manager.go:314-370 | every step of every caller keeps the invariant that ties in-flight map, requests, waiters and metrics together |
| `Coalescing.OneLoaderPerKey` | pkg/clients/cache_manager.go:314-370 | under every interleaving two running loaders are for different keys |
| `Coalescing.CallersGetTheLoadersResult` | pkg/clients/cache_manager.go:322-369 | a caller that returns has the value or error that the loader of the request it led or joined returned, and a value was written to the cache before |
| `Coalescing.CallersGetTheirKeysResult` | pkg/clients/cache_manager.go:314-369 | a caller that asked for a key and returns has what the loader of a caller who asked for the same key returned in the run |
| `Coalescing.CallersAskedForTheKey` | pkg/clients/cache_manager.go:314-340 | over every run a caller is in a request for the key with which it entered |
| `Coalescing.WritesComeFromLoaders` | pkg/clients/cache_manager.go:341-356 | nothing is written to the cache but values that a loader for the key returned in the run |
| `Coalescing.EnteringNeverBlocks` | pkg/clients/cache_manager.go:314-339 | anyone can enter, and a waiter can always give up |
| `Coalescing.RequestsAreStable` | pkg/clients/cache_manager.go:337-366 | a request's result never changes once set, and nobody joins a request that has left the in-flight map |
| `Coalescing.WaitersCanBeServed` | pkg/clients/cache_manager.go:322-366 | a waiter can wake, or its leader can move |
| `Coalescing.SavedCountsTwice` | pkg/clients/cache_manager.go:651-662 | when all callers have returned, the saved counter is the number of waiters plus the number of served waiters; so it is the number of served ones if and only if nobody ever waited, and twice that number if and only if no waiter gave up |
| `Coalescing.CoalescedCountsShared` | pkg/clients/cache_manager.go:651-656 | CoalescedRequests counts the finished requests that somebody joined, once each |
| `Coalescing.MiscountReachable` | pkg/clients/cache_manager.go:651-662 | both miscounts are reachable: two counted for one load saved, and one counted for none |
| `Coalescing.InvalidationUndoneIff` | pkg/clients/cache_manager.go:341-363 | after a key is invalidated the cache can hold it again with the value of a load that began before if and only if a load of the key is then in flight whose loader has not returned, or has returned a value not yet stored |
| `Bulkhead.NextKeepsInv` | pkg/adapters/bulkhead.go:42-132 | every step of callers, processor, Close and cancellation keeps slots and requests accounted for |
| `Bulkhead.SlotsConserved` | pkg/adapters/bulkhead.go:24-132 | free + held + granted and waiting + abandoned + lost is the capacity, and nothing is lost before Close |
| `Bulkhead.ReleaseNeverDropsASlot` | pkg/adapters/bulkhead.go:81-95 | the branch of Release for a full pool is unreachable |
| `Bulkhead.RepliesExactlyOnce` | pkg/adapters/bulkhead.go:98-110 | requests are answered in order of acceptance, each once, and the processor's send never blocks |
| `Bulkhead.RefusedWasCancelled` | pkg/adapters/bulkhead.go:98-110 | open or closed, a request is refused, and a waiting caller leaves, only if its context was cancelled |
| `Bulkhead.AcquireFailsIff` | pkg/adapters/bulkhead.go:42-78 | in every run an Acquire has returned an error, other than by leaving its wait, if and only if it arrived at a closed bulkhead, gave up or was refused with its context cancelled, or found the queue full |
| `Bulkhead.FreeSlotIsTaken` | pkg/adapters/bulkhead.go:50-56 | with a slot free a caller whose context is alive takes it and can do nothing else |
| `Bulkhead.RoomIsUsed` | pkg/adapters/bulkhead.go:64-76 | with room in the open queue a caller that found no slot sends its request and can do nothing else |
| `Bulkhead.QueueBounded` | pkg/adapters/bulkhead.go:24-40 | the queue never holds more than its size, and draining ends exactly when the pool is empty |
| `Bulkhead.AbandonedForever` | pkg/adapters/bulkhead.go:66-72 | an abandoned grant stays abandoned in every continuation |
| `Bulkhead.AbandonedIff` | pkg/adapters/bulkhead.go:64-110 | a grant lies abandoned at the end of a run if and only if the run holds a step in which its caller left with the grant in the channel, or the processor granted to it after it had left |
| `Bulkhead.CapacityRestoredIff` | pkg/adapters/bulkhead.go:64-110 | when all callers are done the full capacity is back if and only if the run holds no such step |
| `Bulkhead.NoLeaveRestoresCapacity` | pkg/adapters/bulkhead.go:66-72 | if no waiting caller leaves on cancellation, the full capacity comes back |
| `Bulkhead.FullyAbandonedStaysEmpty` | pkg/adapters/bulkhead.go:42-110 | with as many abandoned grants as slots, no slot is ever free again |
| `Bulkhead.EmptyForeverIff` | pkg/adapters/bulkhead.go:42-110 | an open bulkhead has no free slot in any continuation if and only if every slot is abandoned |
| `Bulkhead.LeakReachable` | pkg/adapters/bulkhead.go:66-110 | one cancellation can disable a bulkhead of capacity one for good |
| `Bulkhead.SendPossibleIff` | pkg/adapters/bulkhead.go:64-76 | a caller about to send on the queue can move if and only if the bulkhead is not closed |
| `Bulkhead.SendAfterCloseIff` | pkg/adapters/bulkhead.go:42-76 | after Close some continuation brings a caller to its send on the closed queue if and only if, when Close came, it had passed the check of Acquire and not yet sent (and, if it had not looked at the pool yet, its context was alive) |
| `Bulkhead.SendAfterCloseReachable` | pkg/adapters/bulkhead.go:42-78 | such a caller is reachable |
| `Bulkhead.WaiterHangs` | pkg/adapters/bulkhead.go:98-132 | once Close has drained the pool and no Release is half way, no request is granted in any continuation, and a waiting caller waits on as long as its context is not cancelled |
| `Bulkhead.WaiterServableIff` | pkg/adapters/bulkhead.go:98-132 | after Close a waiting caller whose context is alive can still be granted a slot, in some continuation that does not cancel it, if and only if a slot is free or a Release is half way |
| `Bulkhead.HangReachable` | pkg/adapters/bulkhead.go:98-132 | such a caller is reachable |
| `BatchProcessor.GroupingPartitions` | pkg/clients/batch_processor.go:355-364 | for every order of iterating the map, the groups one after the other are a permutation of the batch that keeps the order within each operation |
| `BatchProcessor.GroupByOperation` | pkg/clients/batch_processor.go:355-359 | the map holds exactly the batch's operations, each with its requests in order |
| `BatchProcessor.ProcessBatch` | pkg/clients/batch_processor.go:342-387 | one result per request, with the request's own id and "Processed" followed by it, group after group in some map order |
| `BatchProcessor.NextKeepsInv` | pkg/clients/batch_processor.go:135-387 | every step of submitters, workers and shutdown keeps tokens, places and result channels accounted for |
| `BatchProcessor.ExactlyOnePlace` | pkg/clients/batch_processor.go:282-387 | an accepted request is in exactly one of the queue, one worker's hands, or answered, and no two workers ever take it |
| `BatchProcessor.ReturnedAnsweredAll` | pkg/clients/batch_processor.go:328-337 | a worker that has returned has answered everything it took, each request exactly once |
| `BatchProcessor.AnswersInOrder` | pkg/clients/batch_processor.go:282-387 | within an operation a worker answers a prefix of what it took, in that order, over the whole run |
| `BatchProcessor.BatchesBounded` | pkg/clients/batch_processor.go:297-352 | no processed batch is empty or larger than MaxBatchSize (or one), and the token receive never blocks |
| `BatchProcessor.CallersGetTheirResult` | pkg/clients/batch_processor.go:371-387 | no result is thrown away; a result in a channel or received carries the id of its own request and "Processed" followed by it; and a request is answered exactly when its result is there |
| `BatchProcessor.ResultsTellApart` | pkg/clients/batch_processor.go:375-381 | callers with different ids never get the same result |
| `BatchProcessor.QueueIsFifo` | pkg/clients/batch_processor.go:295-299 | the queue is the tail of the accepted requests, and every worker takes them in that order |
| `BatchProcessor.QueueBounded` | pkg/clients/batch_processor.go:146-152 | the queue never holds more than its size |
| `BatchProcessor.BatchClosesIff` | pkg/clients/batch_processor.go:295-337 | a batch is closed exactly when it has become full, when the timer finds it non-empty, or on shutdown |
| `BatchProcessor.AllAnsweredIff` | pkg/clients/batch_processor.go:495-500 | once the workers have returned, everything accepted was answered if and only if the queue is empty |
| `BatchProcessor.StrandedIff` | pkg/clients/batch_processor.go:282-339 | once shutdown is signalled, Close can return without answering an accepted request if and only if the request is still in the queue |
| `BatchProcessor.StrandedForever` | pkg/clients/batch_processor.go:495-500 | what is left in the queue then is answered in no continuation |
| `BatchProcessor.StrandedReachable` | pkg/clients/batch_processor.go:495-500 | Close can return with a request in the queue |
| `BatchProcessor.WorkerCanProceed` | pkg/clients/batch_processor.go:282-339 | after shutdown a worker that has not returned always has a step that brings it closer to returning |
| `BatchProcessor.WorkIsBounded` | pkg/clients/batch_processor.go:282-387 | in every run the workers make at most as many steps as their phases had left and four more for each request they take, timers on empty batches aside |
| `BatchProcessor.CloseCanReturn` | pkg/clients/batch_processor.go:495-500 | from every state after shutdown the workers alone, taking nothing more from the queue, can bring Close to its end |
| `CircuitBreaker.CircuitBreaker.RecordFailure` | pkg/clients/rest_api_client.go:812-824 | the method computes the breaker function of a failure |
| `CircuitBreaker.CircuitBreaker.RecordSuccess` | pkg/clients/rest_api_client.go:799-810 | the method computes the breaker function of a success |
| `CircuitBreaker.CircuitBreaker.GetState` | pkg/clients/rest_api_client.go:826-841 | the method computes the breaker function of a poll |
| `CircuitBreaker.CircuitBreaker.CanAttempt` | pkg/clients/rest_api_client.go:783-797 | the method answers the breaker predicate and changes nothing |
| `CircuitBreaker.FailuresAreTrailing` | pkg/clients/rest_api_client.go:799-824 | in every run the failure counter is the length of the trailing row of failures |
| `CircuitBreaker.OpensExactlyAfterMaxFailures` | pkg/clients/rest_api_client.go:812-824 | a failure opens the breaker exactly when the last maxFailures outcomes all failed, and then sets the retry time |
| `CircuitBreaker.ClosesOnlyAfterRecovery` | pkg/clients/rest_api_client.go:799-841 | it closes only from half-open, more than retryTimeout after the last opening failure, with successThreshold straight successes since it went half-open |
| `CircuitBreaker.OpenBlocksUntilRetry` | pkg/clients/rest_api_client.go:783-797 | while open, an attempt is permitted exactly once retryTimeout has passed since the last opening failure |
| `CircuitBreaker.PollRecoversIff` | pkg/clients/rest_api_client.go:783-841 | only an open breaker holds attempts back, and a poll makes it half-open exactly once retryTimeout has passed since the last opening failure, changing nothing else |
| `CircuitBreaker.SuccessClosesIff` | pkg/clients/rest_api_client.go:799-810 | a success closes a half-open breaker exactly when it is the successThreshold-th in a row since the poll, and moves no other |
| `CircuitBreaker.GapKeepsFailures` | pkg/clients/rest_api_client.go:826-841 | with getState split at its lock gap the counter is still the trailing row |
| `CircuitBreaker.NoEarlyCommitKeepsTimeout` | pkg/clients/rest_api_client.go:826-841 | with getState split at its lock gap, in every time-ordered run where no late write lands on a breaker that has opened again and is not past its retry time, every closing comes more than retryTimeout after the last opening failure |
| `CircuitBreaker.GapKeepsTimeoutIff` | pkg/clients/rest_api_client.go:826-841 | no such write occurs in a run if and only if every prefix of it keeps the timeout whatever successes follow at once; after one such write successThreshold successes close the breaker too early |
| `CircuitBreaker.GapBreaksRetryTimeout` | pkg/clients/rest_api_client.go:832-833 | a time-ordered run with the gap closes the breaker one time unit after an opening failure |
| `AttemptLimiter.RateLimiter.CheckLimit` | pkg/auth/rate_limiter.go:158-187 | the method computes the check function on this identifier only |
| `AttemptLimiter.RateLimiter.RecordAttempt` | pkg/auth/rate_limiter.go:189-214 | the method computes the record function on this identifier only |
| `AttemptLimiter.CheckPassesIff` | pkg/auth/rate_limiter.go:158-214 | over every history, a check passes if and only if no lockout is in force and fewer than maxAttempts failures were recorded, since the last success, in a window that is not over |
| `AttemptLimiter.LimitIsHistory` | pkg/auth/rate_limiter.go:158-214 | counter, window start and lockout end are what the history says |
| `AttemptLimiter.SilenceIsForgiven` | pkg/auth/rate_limiter.go:170-186 | whatever happened before, after a silence as long as the window and the lockout a check passes |
| `AttemptLimiter.FailuresBounded` | pkg/auth/rate_limiter.go:158-214 | with at most k attempts under way, the counter stays within maxAttempts + k - 1 and since the last success any span of windowSize holds at most twice that many failures |
| `AttemptLimiter.LockoutHolds` | pkg/auth/rate_limiter.go:158-187 | after "too many attempts" every check before the lockout ends is refused, if no success is recorded meanwhile; none can be when no attempt was under way |
| `AttemptLimiter.LockoutHoldsIff` | pkg/auth/rate_limiter.go:158-206 | after "too many attempts" every check before the lockout ends is refused if and only if no success is recorded before it ends |
| `AttemptLimiter.LockoutLiftedReachable` | pkg/auth/rate_limiter.go:158-206 | with two attempts under way a legal run from the start does lift a lockout |
| `AttemptLimiter.IdentifiersIndependent` | pkg/auth/rate_limiter.go:158-214 | in a run over all identifiers each one's limit is that of its own events alone |
| `AttemptLimiter.IdentifierFailuresBounded` | pkg/auth/rate_limiter.go:158-214 | in a run over all identifiers each one that keeps the discipline stays within its own bounds |
| `TokenBucket.TenantRateLimiter.CheckRateLimit` | pkg/clients/security_manager.go:669-718 | the method computes the bucket function on this tenant only |
| `TokenBucket.TokensWithinBurst` | pkg/clients/security_manager.go:690-718 | in every run tokens stay within 0 and BurstSize |
| `TokenBucket.AdmissionsBounded` | pkg/clients/security_manager.go:669-718 | between any two times a and b at most BurstSize + (b - a) * RequestsPerMinute / 60 requests are admitted |
| `TokenBucket.PatientTenantAdmitted` | pkg/clients/security_manager.go:690-718 | a tenant that waited for one token's worth of time is admitted |
| `TokenBucket.BurstAdmitted` | pkg/clients/security_manager.go:677-708 | a new tenant, or one whose bucket is full again, is admitted BurstSize times in a row however fast it asks |
| `TokenBucket.NothingIsLost` | pkg/clients/security_manager.go:690-708 | since the bucket was last full it holds the burst and everything earned, less what was admitted |
| `TokenBucket.RefusalJustified` | pkg/clients/security_manager.go:690-717 | a request is refused only when, since the bucket was last full, more than the burst and everything earned less one was admitted |
| `TokenBucket.TenantsIndependent` | pkg/clients/security_manager.go:669-689 | a tenant's bucket is that of its own calls alone |
| `TokenBucket.TenantAdmissionsBounded` | pkg/clients/security_manager.go:669-718 | in every run of all tenants, the requests of one tenant admitted between a and b number at most BurstSize + (b - a) * RequestsPerMinute / 60 |
| `ConfigService.Validate` | pkg/agents/config.go:119-151 | finds nothing wrong exactly with well-formed configurations, and what it reports is there |
| `ConfigService.GetModelsForTask` | pkg/agents/config.go:164-179 | the first preference for the task type, or else the first for general questions |
| `ConfigService.DeactivateAgentEffect` | pkg/agents/repository.go:526-548 | leaves the agent without a current row, every other agent untouched, and the table invariant intact |
| `ConfigService.DeactivateIdEffect` | pkg/agents/repository.go:551-573 | changes an agent's current row only if it was the row with this id |
| `ConfigService.DeactivateAgentKeepsContent` | pkg/agents/repository.go:526-548 | exactly the agent's active rows are switched off and stamped, and no row loses its content |
| `ConfigService.DeactivateIdKeepsContent` | pkg/agents/repository.go:551-573 | exactly the row with the id is switched off and stamped, and no row loses its content |
| `ConfigService.UpdatesCompose` | pkg/agents/repository.go:343-371 | two updates in a row equal the merged update two versions on; an empty update keeps every setting; one that names every setting takes each, metadata laid over key by key |
| `ConfigService.FirstVersionConflicts` | apps/rest-api/migrations/sql/000001_initial_schema.up.sql:363 | the schema refuses the first version of an agent exactly when the agent has a row |
| `ConfigService.NextVersionConflicts` | apps/rest-api/migrations/sql/000009_fix_agent_configs.up.sql:96 | it refuses the next version exactly when the unique index on agent_id is in place |
| `ConfigService.VersionsOf` | pkg/agents/repository.go:343-346 | an agent with n rows has versions 1 to n, a first one if any, and its active row is version n |
| `ConfigService.InsertEffect` | pkg/agents/repository.go:59-122 | a new active row with the next version becomes its agent's current row if there was none, and no other agent's; the table invariant is kept |
| `ConfigService.InsertSafeIff` | pkg/agents/repository.go:59-122 | inserting keeps one active row per agent if and only if the agent had none |
| `ConfigService.ListedRows` | pkg/agents/repository.go:421-523 | what is listed is active, newest first and within the limit, and an active row is missing only beyond the limit, and then is no newer than any listed one |
| `ConfigService.Service.GetConfig` | pkg/agents/service.go:115-131 | the cached answer is the uncached one, and a failing read shows only when nothing is cached |
| `ConfigService.Service.CreateConfig` | pkg/agents/service.go:72-112 | succeeds for exactly the agents that never had a row, even when the lookup fails; the table invariant and the cache agreement are always kept, and a retired agent stays retired |
| `ConfigService.Service.UpdateConfig` | pkg/agents/service.go:144-175 | exact success condition, which the unique index on agent_id makes impossible; the new version becomes current and cached, other agents keep theirs, and a retired agent stays retired |
| `ConfigService.Service.DeactivateConfig` | pkg/agents/service.go:183-213 | the agent is retired: it has rows, none current and none cached |
| `ConfigService.Service.DeleteConfig` | pkg/agents/service.go:216-250 | after deleting by id the cache still agrees with the table, and an agent whose current row that was is retired |
| `ConfigService.Service.RefreshCache` | pkg/agents/service.go:296-319 | the rebuilt cache agrees with the table, and is complete up to 1000 active rows |
| `AgentLifecycle.CanTransitionTo` | pkg/agents/types.go:81-105 | the search of the target list decides the transition relation |
| `AgentLifecycle.CommissionedWasReady` | pkg/agents/types.go:81-91 | every walk from Pending to Active, Degraded or Suspended went through Configuring, Validating and Ready in that order |
| `AgentLifecycle.NoWayBack` | pkg/agents/types.go:81-91 | a commissioned agent stays so until it ends, and nothing follows Terminated |
| `AgentLifecycle.AlwaysTerminable` | pkg/agents/types.go:81-91 | Terminated is the only dead end, and every other state reaches it within two transitions |
| `AgentLifecycle.TableShape` | pkg/agents/types.go:81-91 | set-up goes one stage on or back, a ready agent may become active, commissioned states change among each other except from suspended to degraded, anything not ended may be terminated, and nothing else |
| `AgentLifecycle.Repository.CreateAgent` | pkg/agents/repository_enhanced.go:37-127 | exact success condition, defaults and event; every row still replays from its events |
| `AgentLifecycle.Repository.TransitionState` | pkg/agents/repository_enhanced.go:251-335 | exact outcome; state, version, activation count and event change together or not at all, and every row still replays from its events |
| `AgentLifecycle.StoredStateHasAHistory` | pkg/agents/repository_enhanced.go:251-335 | an agent created pending has a trail of table transitions to its stored state, was activated as often as it has events into Active, and if commissioned passed the three stages in order |
| `Authorizer.DecidingIsFirstPair` | pkg/auth/production_authorizer.go:441-486 | the deciding policy is that of the first matching pair of identity and policy, and there is none exactly when no pair matches |
| `Authorizer.FirstPairDecides` | pkg/auth/production_authorizer.go:441-486 | conversely, whatever pair is first decides |
| `Authorizer.AllowedIff` | pkg/auth/production_authorizer.go:441-486 | a request is allowed if and only if the first matching pair, the subject before its roles or the default role, has a policy that does not deny |
| `Authorizer.DecidingApplies` | pkg/auth/production_authorizer.go:616-638 | a policy that decides has only wildcards or what is asked in its fields, the tenant included |
| `Authorizer.ApplicableDecides` | pkg/auth/production_authorizer.go:616-638 | whenever such a policy is there, one decides |
| `Authorizer.AppendIsMonotone` | pkg/auth/production_authorizer.go:240-271 | appending a policy that does not deny revokes nothing, appending a denial grants nothing |
| `Authorizer.AppendedPolicyDecides` | pkg/auth/production_authorizer.go:441-486 | an appended policy decides where it is the first to match and changes no other decision |
| `Authorizer.AddRemoveRestores` | pkg/auth/production_authorizer.go:240-311 | adding a policy and removing it restores the exact list |
| `Authorizer.WithoutKeeps` | pkg/auth/production_authorizer.go:284-297 | removal keeps exactly the policies with another rule, and no duplicates arise |
| `Authorizer.WithoutTakesOut` | pkg/auth/production_authorizer.go:284-297 | removal takes the policy out of its place and moves nothing else |
| `Authorizer.RoleRoundTripIff` | pkg/auth/production_authorizer.go:314-397 | assigning and removing a role restores the bindings if and only if the user had a binding before |
| `Authorizer.DropTakesOut` | pkg/auth/production_authorizer.go:370-381 | taking a role away leaves the others in their order |
| `Authorizer.RoundTripLosesDefaultRole` | pkg/auth/production_authorizer.go:464-474 | for an agent without binding that round trip loses the role "user" |
| `Authorizer.AddRoleRevokesNothingIff` | pkg/auth/production_authorizer.go:314-355 | assigning a role revokes nothing, for all policies and requests, if and only if the user has a binding, is no agent, or is given or named after the default role |
| `Authorizer.AddRoleLoses` | pkg/auth/production_authorizer.go:464-475 | for every other user a permission of the role "user" is lost |
| `Authorizer.KeyInjectiveIff` | pkg/auth/production_authorizer.go:595-597 | cache keys tell requests apart if and only if at most one field position may hold a colon |
| `Authorizer.CollisionCanMisjudge` | pkg/auth/production_authorizer.go:595-597 | two requests with one key can deserve different decisions |
| `Authorizer.ProductionAuthorizer.EnforceWithRetry` | pkg/auth/production_authorizer.go:441-486 | the nested search decides as the specification: subject first, then roles or the default role |
| `Authorizer.ProductionAuthorizer.AuthorizeRequest` | pkg/auth/production_authorizer.go:164-214 | the decision is that of the current policies and bindings for the request the cached answer was made for, which is this request when colons are confined to one position; and it is cached |
| `Authorizer.ProductionAuthorizer.AddPolicy` | pkg/auth/production_authorizer.go:240-271 | appends a valid policy exactly when its rule is free; no duplicates, no stale decision |
| `Authorizer.ProductionAuthorizer.RemovePolicy` | pkg/auth/production_authorizer.go:274-311 | removes the policy with this rule exactly when there is one; no stale decision |
| `Authorizer.ProductionAuthorizer.AddRole` | pkg/auth/production_authorizer.go:314-355 | exact success condition and new bindings; no stale decision |
| `Authorizer.ProductionAuthorizer.RemoveRole` | pkg/auth/production_authorizer.go:358-397 | exact success condition and new bindings; no stale decision |
| `Document.StrictViewUnique` | pkg/collaboration/document_crdt.go:306-319 | without equal positions the unstable sort has one result |
| `Document.ViewsAgreeOnPositions` | pkg/collaboration/document_crdt.go:306-319 | with equal positions its results still agree on the positions |
| `Document.InsertSplicesIff` | pkg/collaboration/document_crdt.go:239-257 | on strictly increasing positions Insert splices the visible characters, for every result of the sort, if and only if the new ones end before the next position, and then positions stay strictly increasing |
| `Document.RoomAtTheEnds` | pkg/collaboration/document_crdt.go:286-304 | appending always has room; prepending to a text that starts at position 0 never has |
| `Document.StartPlaces` | pkg/collaboration/document_crdt.go:286-304 | an insertion starts at 0 at the front, one beyond the last position at the end, and otherwise halfway between its neighbours |
| `Document.NewNodesSpacing` | pkg/collaboration/document_crdt.go:239-257 | new characters carry the text in order, a hundred-thousandth apart per byte |
| `Document.WidthIsUtf8` | pkg/collaboration/document_crdt.go:244-248 | a character advances the offset by its length in UTF-8 |
| `Document.SecondPrependHasNoRoom` | pkg/collaboration/document_crdt.go:289-291 | of two insertions at the front in a row the second never has room |
| `Document.PrependTwiceIsAmbiguous` | pkg/collaboration/document_crdt.go:289-291 | two single characters inserted at the front may read in either order |
| `Document.TextDeterminedIff` | pkg/collaboration/document_crdt.go:152-175 | the text is the same for every result of the sort if and only if characters at one position are the same letter |
| `Document.PrependLetterReadsIff` | pkg/collaboration/document_crdt.go:239-257 | a letter prepended without room still reads right, for every result of the sort, if and only if the text starts with that letter already |
| `Document.Document.GetContent` | pkg/collaboration/document_crdt.go:152-175 | after insertions that all had room the content is what plain string editing gives |
| `Document.Document.CalculatePosition` | pkg/collaboration/document_crdt.go:286-304 | the start position does not depend on how the sort treats ties |
| `Document.Document.Insert` | pkg/collaboration/document_crdt.go:64-89 | appends the positioned characters and records the operation; from strict positions the visible characters are the clamped splice if and only if there was room, and while there always was, the text is that of plain editing |
| `Document.Document.Delete` | pkg/collaboration/document_crdt.go:92-117 | fails beyond the end, panics on a slice before the beginning, and otherwise turns exactly the clamped slice of the view into tombstones and cuts it out of the text |
| `Document.DeleteKeepsSound` | pkg/collaboration/document_crdt.go:259-284 | marking a slice of a view leaves the view without the slice, its text cut accordingly, and strict order strict |
| `Document.MarkEachDeletes` | pkg/collaboration/document_crdt.go:272-281 | the marking loops turn exactly the slice into tombstones and leave the view without it |
| `Histogram.Histogram.Observe` | pkg/clients/observability_manager.go:1626-1643 | each count is the number of observations in its bucket's interval, the sum is their sum |
| `Histogram.Histogram.GetPercentile` | pkg/clients/observability_manager.go:1646-1668 | the least boundary that ceil(count * p / 100) observations do not exceed, or infinity; zero only when empty, for p up to 100 |
| `Histogram.PercentilesMonotone` | pkg/clients/observability_manager.go:1646-1668 | a higher percentile never gets a lower answer |
| `Histogram.AnswerUnique` | pkg/clients/observability_manager.go:1646-1668 | the promise determines the answer |
| `Histogram.TargetIsCeiling` | pkg/clients/observability_manager.go:1654 | the target is the least whole number not below count * p / 100 |
| `Histogram.AtMostIsCount` | pkg/clients/observability_manager.go:1657-1659 | the cumulated count is the number of observations not above the boundary |
| `Histogram.CountsAddUp` | pkg/clients/observability_manager.go:1655-1665 | cumulated bucket counts are the observations up to the boundary |
| `MinuteRing.ShortGapRefines` | pkg/clients/error_metrics.go:199-209 | under an hour, updating the ring is appending empty ticks to the unbounded log |
| `MinuteRing.LongGapRefinesIff` | pkg/clients/error_metrics.go:199-209 | after an hour or more the ring follows the log if and only if the current slot was empty |
| `MinuteRing.RingTotal` | pkg/clients/error_metrics.go:232-239 | summing the ring sums the last 60 ticks |
| `MinuteRing.TicksTakeMinutes` | pkg/clients/error_metrics.go:199-209 | between two updates the stamp moves on by one to two minutes per tick |
| `MinuteRing.WindowAge` | pkg/clients/error_metrics.go:196-239 | what the 60-tick window counts is less than 119 minutes old, and what has fallen out of it is more than 59 minutes old |
| `MinuteRing.ErrorMetrics.UpdateTimeBuckets` | pkg/clients/error_metrics.go:196-209 | the log moves on by the elapsed minutes, and the ring follows if and only if the gap can be bridged |
| `MinuteRing.ErrorMetrics.RecordError` | pkg/clients/error_metrics.go:92-115 | one more error in the current tick; across a bridgeable gap the rate is that of the last 60 ticks |
| `ContextTokens.ContextManager.CreateContext` | pkg/core/context_manager.go:65-110 | defaults and count; every stored context counts right if and only if the caller's count was zero or right |
| `ContextTokens.ContextManager.UpdateContext` | pkg/core/context_manager.go:137-257 | the count stays right in every case, and a truncating update leaves exactly the longest suffix that fits |
| `ContextTokens.ContextManager.OldestToRemove` | pkg/core/context_manager.go:224-240 | the removal loop stops at the start of the longest suffix that fits |
| `ContextTokens.LongestFitUnique` | pkg/core/context_manager.go:224-240 | there is one such suffix, and with a non-negative limit it fits |

## Left out

- Real input and output behind the cores: SQL, Redis, HTTP, loggers, metrics clients, tracing, tickers. Whether a statement succeeds is a parameter; L2 cache operations succeed.
- Loader panics and context cancellation inside a loader of a coalesced request.
- GetOrSet with coalescing turned off, cache warm-up, compression and pattern invalidation of the cache manager.
- Submitting to the batch queue after it is closed, which panics in Go, and the textual uniqueness of request ids.
- Auto-flush, batch metrics and the batch list and execute helpers, which do not touch the queue.
- The Redis path of the authentication limiter, which is not atomic.
- Token creation, rotation, encryption, threat detection and the rest of the security manager.
- Rounding of floating point in the token bucket, the histogram, and document positions; 64-bit overflow of counters and of a delete range.
- Aliasing of cached configurations: the source caches pointers, the model caches values.
- UpdateAgent, health updates, the enhanced service's background goroutines, and listing of agents and events.
- Document merging, replica convergence, remote operations and invalid UTF-8 in inserted text; only the local clock counter is kept.
- The hour ring, consecutive-error counting, latency averages and alerts of the error metrics.
- Fields of a context other than content and token counts, and its embedding events.
- The policy watcher beyond its flush, and concurrent AddPolicy calls, whose duplicate check is outside the lock.
- CacheManager.Cache.Invalidate: requires that no cycle is reachable from the key, because otherwise the source never returns (`CacheGraph.ReturnsIffAcyclic`).
- AttemptLimiter.LockoutHolds: speaks of spans without a recorded success, because a success lifts the lockout (`AttemptLimiter.LockoutHoldsIff`).
- CircuitBreaker.ClosesOnlyAfterRecovery: takes `getState` as one step, because with its lock gap the bound has a further condition (`CircuitBreaker.GapKeepsTimeoutIff`).
- The database trigger that gives a new agent a default configuration; the configuration table starts empty.
- Stores of other callers into the cache while a coalesced load is under way; `Coalescing.InvalidationUndoneIff` follows the values of loads only.
