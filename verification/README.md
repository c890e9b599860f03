# Verified models of a set of small C engines

This project models thirteen C files of the repository and proves what they
are for. Each engine that works by changing state in place is a Dafny class or
method with the same branches, loops and error codes, proved against a
specification on values; the theorems about whole runs are lemmas about those
specifications. `dafny verify dfyconfig.toml` checks everything.

| files | engine | main results |
|---|---|---|
| `LruModel`, `LruCache`, `LruCompetitive` | LRU cache (linked list and hash chains over the same nodes) | the heap structure refines a list in recency order; LRU inclusion over any trace; k-competitiveness, and that no online rule does better |
| `HashRing` | consistent-hash ring | minimal movement; lookups determined exactly without collisions; replicas never collide |
| `DependencyGraph`, `KahnOrder`, `DiContainer` | dependency-injection container | cycle search both ways; Kahn's sort agrees with it; singletons built once |
| `BpmnModel`, `BpmnFlow`, `BpmnEngine` | process engine | token weight conserved; exactly when a run completes, and when all its tokens have come to rest |
| `RateLimiter` | token bucket, sliding window, both | interval bounds over any run, and nothing earned is lost |
| `SagaModel`, `SagaOrchestrator` | saga orchestrator | all or undone, for any outcomes |
| `ConfigCenter`, `ConfigSnapshot`, `Decimal` | configuration centre and its text snapshot | version histories; exact round trip |
| `WireFormat`, `WireCodec` | varint, zigzag and field codec | round trips, exact limits |
| `AuditLog` | hash-chained audit log | one-byte tamper evidence field by field; what the chain does not show |
| `Base64Url`, `ClaimsJson`, `JwtAuth` | tokens | round trips of base64url, claims and tokens |
| `CircuitBreaker` | circuit breaker with a rolling window | window contents; when it trips; failing fast until its timeout; recovery or getting stuck |
| `Resilience` | bulkhead, breaker and retries around a call | conservation on every path; when the breaker trips |
| `RbacEngine` | roles and permissions | bounded closure; exactly when caches stay right |
| `CStrings`, `Sequences`, `Words` | C strings, removal from a sequence, machine words | shared |

## How the C is modelled

- A C string is the sequence of its bytes without the NUL; `strncpy` into a
  buffer cuts it. Unsigned words are numbers with explicit wrap-around, and
  exclusive or is defined bit by bit. `double` is `real`. A 64-bit permission
  mask is the set of its bits.
- Clock readings are arguments that do not run backwards, one for each reading
  the C makes unless said otherwise below.
- Factories, saga actions and guarded functions are oracles: the result of the
  n-th call is `world(n)` or `make(i, n)` for an arbitrary function, so a
  theorem about all such functions covers all behaviours. They do not call
  back into the engine.
- The theorems about the ring hold for any function that places the points of
  a node, those about the audit chain for any hash of a record; the hashes of
  the C are then given as instances.
- Ghost logs record what was granted, executed or finished; the bounds are
  stated about them. A log is kept since creation or the last reset.
- Node pointers, hash chains and list links are heap references in the cache.
  The hash chains of the configuration centre are sequences in an array of
  buckets, because the pointer manipulation there is the one already proved
  for the cache.

## Where the code and its documentation differ

The code is followed; the difference is stated by a member.

- Saga compensation steps its index back for a retry, but the step is then no
  longer completed and is skipped: no compensation is ever retried
  (`SagaModel.FailedCompensationStands`).
- An inclusive gateway takes the first flows, as many as are selectable: the
  selectable ones only if they come first
  (`BpmnModel.InclusiveTakesSelectableIff`).
- In BPMN an end event ends only the token that reaches it. Here a token forked
  onto one ends the whole instance, whatever still runs
  (`BpmnFlow.ProcessRun`, `BpmnFlow.ForkOntoEndCompletesEarly`).
- A comment in the audit log says a modified record breaks all later hashes.
  It does not: a record's hash leaves out its link
  (`AuditLog.RelinkingHides`).
- The audit log means to show any change of a record. A bar moved from one
  string of it to the next is not in its hashed text and never shows
  (`AuditLog.BarMovesUnseen`).
- Loading a snapshot does not restore version numbers; versions start again at
  1 (`ConfigSnapshot.Rebuild`).
- The circuit breaker's configuration speaks of consecutive failures; the code
  counts the failures in its window, which is the same exactly when the
  threshold is 1 or the window's size (`CircuitBreaker.ConsecutiveIff`).
- Half open, a breaker whose success threshold exceeds its probe limit rejects
  for good until it is reset (`CircuitBreaker.StuckForGood`).
- `RESILIENCE_RETRIES_EXHAUSTED` is not returned with a positive retry limit
  (`Resilience.Policy.Execute`).
- The container's depth guard never fires, because every resolution resets the
  counter it reads (the precondition of `DiContainer.DIContainer.Build`, which
  every caller meets); ending is proved from acyclicity instead.
- JSON escapes written into a token are not undone when it is read
  (`JwtAuth.ClaimsReturnIff`).
- With a MAC, a token without a third part is accepted unchecked
  (`JwtAuth.TwoPartsAccepted`).
- Permission caches are not dropped by a grant or a new parent
  (`RbacEngine.GrantCoherentIff`, `RbacEngine.ParentCoherentIff`).

## Model

| member | source | states |
|---|---|---|
| LruModel.LruInclusion | mini-backend-framework/src/cache.c:104-172 | After any trace from empty, for any key and TTL, the larger of two caches holds every record of the smaller in the same order with the same value, answers every lookup the smaller answers, and has had at least as many hits |
| LruModel.InclusionStep | mini-backend-framework/src/cache.c:104-229 | Every single operation keeps a smaller cache included in a larger one, expiry and truncated keys included |
| LruModel.InclusionGet | mini-backend-framework/src/cache.c:104-121 | A lookup keeps the inclusion, and a hit in the smaller cache is the same hit in the larger |
| LruModel.InclusionPut | mini-backend-framework/src/cache.c:123-160 | A store keeps the inclusion, whichever of the two caches evicts |
| LruModel.InclusionDelete | mini-backend-framework/src/cache.c:162-172 | A deletion keeps the inclusion |
| LruModel.GetAfterPut | mini-backend-framework/src/cache.c:104-160 | A stored value is found again, cut to its buffer and if unexpired, exactly for keys that fit the key buffer: longer keys are stored truncated and looked up in full |
| LruModel.RunWellFormed | mini-backend-framework/src/cache.c:97-229 | No run exceeds the capacity or a buffer |
| LruModel.StepDistinct | mini-backend-framework/src/cache.c:123-160 | Operations with keys that fit never store a key twice |
| LruModel.DeleteForgets | mini-backend-framework/src/cache.c:162-172 | With distinct keys, a deleted key is answered no more and every other key as before |
| LruModel.Survivors | mini-backend-framework/src/cache.c:183-201 | The records a clean-up leaves are exactly those whose own reading of the clock finds them unexpired, each once and in their order |
| LruCompetitive.LruIsCompetitive | mini-backend-framework/src/cache.c:4-7 | On any trace of lookups with keys that fit and nothing expiring, each miss followed by a store, an empty cache of k places misses at most k times as often as any policy with k places, even one that knows the future and starts full, plus k |
| LruCompetitive.NoRuleBeatsK | mini-backend-framework/src/cache.c:4-7 | No deterministic online rule does better: for every function from the lookups so far to at most k held keys, and every length, there are lookups over k + 1 keys that all miss under it, and a policy that misses at most once in k, plus once |
| LruCompetitive.Foreseeing | mini-backend-framework/src/cache.c:4-7 | For any lookups over k + 1 keys, giving up the key asked for last of all misses at most once in k, plus once |
| LruCompetitive.FactorIsReached | mini-backend-framework/src/cache.c:4-7 | The factor k is exact for LRU: for every length there are a trace of misses only and a policy with k times its misses less k below them |
| LruCompetitive.Competes | mini-backend-framework/src/cache.c:104-160 | The invariant behind it: misses plus the weighted lag behind the policy are paid for by the policy's misses and the places filled |
| LruCompetitive.AskTouches | mini-backend-framework/src/cache.c:104-160 | A lookup followed, on a miss, by a store misses exactly on keys not in the recency list and moves the key to its front, dropping the last of a full list |
| LruCompetitive.Lazy | mini-backend-framework/src/cache.c:4-7 | A policy that gives a key up only to make room for a missing one holds at least what any policy holds |
| LruCache.LRUCache.constructor | mini-backend-framework/src/cache.c:97-102 | An empty list of the given capacity and TTL, 64 and 0 for bad ones, and no counts |
| LruCache.LRUCache.DetachNode | mini-backend-framework/src/cache.c:49-55 | Unlinking a node in place removes exactly it from the recency list, both directions |
| LruCache.LRUCache.MoveToHead | mini-backend-framework/src/cache.c:58-66 | The node becomes the first of the list and the rest keep their order |
| LruCache.LRUCache.HashFind | mini-backend-framework/src/cache.c:83-91 | Walking one chain finds the first record with the key in recency order, or null exactly when none has it |
| LruCache.LRUCache.HashInsert | mini-backend-framework/src/cache.c:77-81 | The node becomes the head of the chain its key hashes to; all other chains are as before |
| LruCache.LRUCache.HashRemove | mini-backend-framework/src/cache.c:68-75 | The node and no other leaves its chain |
| CStrings.Djb2Appends | mini-backend-framework/src/cache.c:27-34 | The hash adds each further byte to 33 times what the bytes before it gave |
| LruCache.LRUCache.Get | mini-backend-framework/src/cache.c:104-121 | The value of the first record with the key, which becomes the first of the list, and a hit; or nothing and a miss, an expired record being removed and counted as evicted |
| LruCache.LRUCache.Put | mini-backend-framework/src/cache.c:123-160 | The first record with the key gets the cut value, the TTL and the time, and becomes the first of the list; without one a new record becomes the first, and of a full list the last is dropped and counted |
| LruCache.LRUCache.Delete | mini-backend-framework/src/cache.c:162-172 | Exactly the first record with the key leaves list and chains, the others keep their order, and nothing else changes; refused exactly when there is none |
| LruCache.LRUCache.Has | mini-backend-framework/src/cache.c:174-181 | Answers whether an unexpired record is there and changes nothing |
| LruCache.LRUCache.EvictExpired | mini-backend-framework/src/cache.c:183-201 | Reading the clock for each record from the last on, leaves exactly those not expired at their reading, in order |
| LruModel.StandingClock | mini-backend-framework/src/cache.c:183-201 | With one reading for all, those are the unexpired records of the inclusion theorem |
| LruModel.RunningClock | mini-backend-framework/src/cache.c:183-201 | With a running clock, they are at least the records unexpired at the last reading and at most those unexpired at the first |
| LruCache.LRUCache.EvictLru | mini-backend-framework/src/cache.c:203-213 | Drops the last record of the list and counts it, or refuses an empty list and changes nothing |
| LruCache.LRUCache.Clear | mini-backend-framework/src/cache.c:219-229 | Leaves the list and all 256 chains empty |
| HashRing.MovementOnAdd | mini-business-infra/src/consistent_hash.c:108-145 | For any placement of points: when a node joins, whoever owns a position afterwards is the new node or owned it before; without collisions an old owner is the same owner |
| HashRing.MovementOnRemove | mini-business-infra/src/consistent_hash.c:147-172 | For any placement of points: when a node leaves, only positions it owned change hands |
| HashRing.OneOwnerIffNoCollision | mini-business-infra/src/consistent_hash.c:65-69 | Every position has one owner exactly when no two nodes' points collide |
| HashRing.LookupDeterminedIffNoCollision | mini-business-infra/src/consistent_hash.c:65-81 | Lookups are independent of how the library sort orders equal hashes exactly when no two nodes collide |
| HashRing.LookupOwns | mini-business-infra/src/consistent_hash.c:72-81 | What the binary search with wrap lands on is the closest point clockwise among all points of all nodes |
| HashRing.OwnerCanBeFound | mini-business-infra/src/consistent_hash.c:72-81 | Among colliding points any owner can be what a legally sorted array answers |
| HashRing.ConsistentUnique | mini-business-infra/src/consistent_hash.c:232-250 | Without collisions the points of the nodes have one sorted array, so any history leaves what a rebuild gives |
| HashRing.ReplicasDiffer | mini-business-infra/src/consistent_hash.c:38-62 | The replicas of one node never share a position |
| HashRing.OneByteMovesKey | mini-business-infra/src/consistent_hash.c:48-56 | A key, or a node's name, with one byte changed has another position |
| HashRing.MixInjective | mini-business-infra/src/consistent_hash.c:38-46 | The last stirring of the bits loses none of them |
| HashRing.CompactAll | mini-business-infra/src/consistent_hash.c:158-170 | Dropping a node's points in place and renumbering the rest leaves exactly the points of the remaining nodes |
| HashRing.Ring.FindVnode | mini-business-infra/src/consistent_hash.c:72-81 | The index is the lower bound of the hash, wrapped to the first point past the last |
| HashRing.Ring.AddNode | mini-business-infra/src/consistent_hash.c:108-145 | The array is again the sorted points of all nodes; a known name changes nothing |
| HashRing.Ring.RemoveNode | mini-business-infra/src/consistent_hash.c:147-172 | The array is again the sorted points of the nodes left; an unknown name is refused |
| HashRing.Ring.CompactVnodes | mini-business-infra/src/consistent_hash.c:158-170 | The in-place loop computes the compaction |
| HashRing.Ring.GetNode | mini-business-infra/src/consistent_hash.c:174-183 | The answer is an owner of the key's position, cut to the caller's buffer |
| HashRing.Ring.GetNodes | mini-business-infra/src/consistent_hash.c:185-211 | The answers are the distinct nodes in the order a clockwise walk first meets them, as many as asked for or as there are |
| HashRing.Ring.Rebalance | mini-business-infra/src/consistent_hash.c:232-250 | A rebuild keeps the ring valid and, without collisions, changes nothing |
| KahnOrder.KahnIffAcyclic | mini-backend-framework/src/di_container.c:175-217 | When no name that is depended on is registered twice, Kahn's sort covers every service exactly when every dependency is registered and no service reaches a cycle |
| KahnOrder.DependenciesFirst | mini-backend-framework/src/di_container.c:175-217 | Under the same condition a service is dequeued after all its dependencies, each of them registered |
| KahnOrder.RunsAgree | mini-backend-framework/src/di_container.c:175-217 | Whatever the order of dequeuing, a finished run has dequeued everything any other run dequeues |
| KahnOrder.DuplicateNamesFoolTheSort | mini-backend-framework/src/di_container.c:64-97 | With a name that is depended on registered twice, the sort can complete although a dependency is missing |
| DependencyGraph.TopologicalNoCycle | mini-backend-framework/src/di_container.c:105-122 | Nothing in a finished search order reaches a cycle |
| DependencyGraph.AcyclicWalkNoRepeats | mini-backend-framework/src/di_container.c:242-277 | Where no cycle is ahead, a chain of resolutions never repeats a service, which is why resolution ends |
| DiContainer.DIContainer.Register | mini-backend-framework/src/di_container.c:64-97 | Appends the service with its names cut to their buffers, or refuses a full table or too many dependencies |
| DiContainer.DIContainer.CycleDfs | mini-backend-framework/src/di_container.c:105-122 | The three-colour search reports a cycle only if there is one and otherwise leaves all it visited in topological order; it ends on every graph |
| DiContainer.DIContainer.HasCycle | mini-backend-framework/src/di_container.c:124-136 | Returns 1 exactly when a cycle of registered services is reachable from the name |
| DiContainer.DIContainer.ResolveAll | mini-backend-framework/src/di_container.c:175-217 | Runs Kahn's sort to its end, returns 0 exactly when the graph is complete and acyclic (no name depended on registered twice), and builds each singleton it dequeues, each resolution ending even where other services are cyclic |
| DiContainer.SingletonsEndIff | mini-backend-framework/src/di_container.c:175-217 | Its precondition can be read off any finished run: the first service of each dequeued singleton's name reaches no cycle |
| DiContainer.SingletonsEndIf | mini-backend-framework/src/di_container.c:175-217 | Unique names, or a graph without cycles, are enough for it |
| DiContainer.DIContainer.Resolve | mini-backend-framework/src/di_container.c:242-277 | Ends wherever no cycle is ahead; a cached singleton or request instance is returned without a call; what is returned was made by the factory of the service named, a transient one by the last call |
| DiContainer.DIContainer.NextArg | mini-backend-framework/src/di_container.c:229-235 | What a factory is handed for a dependency was returned by a call of that dependency's factory: the one cached instance of a singleton, the request's instance, or one just made |
| DiContainer.DIContainer.Build | mini-backend-framework/src/di_container.c:220-240 | Resolves the dependencies in order and calls the factory with them, or gives up at the first missing one; it is only ever entered with the depth counter at 0, so the depth guard never fires |
| DiContainer.DIContainer.Construct | mini-backend-framework/src/di_container.c:260-277 | Caches what was built as the scope says: a singleton is built successfully at most once and stays |
| DiContainer.DIContainer.BeginRequest | mini-backend-framework/src/di_container.c:288-292 | A new request starts without request instances |
| DiContainer.DIContainer.EndRequest | mini-backend-framework/src/di_container.c:294-306 | Ending a request drops its instances and no other scope's |
| BpmnFlow.ProcessRun | mini-business-arch/src/bpmn_model.c:176-355 | From the start node of any process without cycles, dead ends and forks onto end events included: a run completes exactly when it has as many steps as the smaller of the start token's height and early end; every token is then at rest on an end event, as many as the token weighs, exactly when the early end is not below the height; total weight never changes |
| BpmnFlow.RunCompletes | mini-business-arch/src/bpmn_model.c:347-355 | The same from any tokens on the graph |
| BpmnFlow.StepConserves | mini-business-arch/src/bpmn_model.c:315-345 | One step conserves the total weight, brings rest and the early end one step nearer, and completes exactly when either was one step away |
| BpmnFlow.ExecuteToken | mini-business-arch/src/bpmn_model.c:208-313 | What one token leaves behind weighs as much, and is one step nearer to rest and to an early end |
| BpmnFlow.EndsIffEarly | mini-business-arch/src/bpmn_model.c:208-222 | A step executes a start or end event without flows exactly when the early end is one step away |
| BpmnFlow.AllComeToRest | mini-business-arch/src/bpmn_model.c:208-345 | Where every node an active token can stand on has a flow to take, nothing ends early and everything comes to rest, so the run completes exactly at the height |
| BpmnFlow.ForkOntoEndCompletesEarly | mini-business-arch/src/bpmn_model.c:208-345 | A process whose gateway forks a token onto an end event: its forecast has the early end below the height, and the instance completes with another token still active |
| BpmnModel.ExclusiveFrom | mini-business-arch/src/bpmn_model.c:404-423 | An exclusive gateway takes the first unconditional or true flow, else the first flow |
| BpmnModel.CountsConditions | mini-business-arch/src/bpmn_model.c:441-447 | Selectable are the flows with a condition or the default mark, each counted once |
| BpmnEngine.EvaluateExclusive | mini-business-arch/src/bpmn_model.c:404-423 | The loop selects the first flow that is the default or has a condition, else the first flow, and none only if there is none |
| BpmnEngine.EvaluateInclusive | mini-business-arch/src/bpmn_model.c:437-455 | The flows returned are the first ones, as many as are selectable, not the selectable ones |
| BpmnModel.InclusiveTakesSelectableIff | mini-business-arch/src/bpmn_model.c:437-455 | The flows an inclusive gateway takes are exactly its selectable ones when these come first and there is at least one, or it has no flows; otherwise they are not |
| BpmnModel.InclusiveTakesAnother | mini-business-arch/src/bpmn_model.c:437-455 | A gateway whose second flow alone is selectable takes the first |
| BpmnEngine.ProcessInstance.constructor | mini-business-arch/src/bpmn_model.c:176-206 | A fresh instance has one active token on the first start event, or without one on the node set as start, or none |
| BpmnEngine.ProcessInstance.ExecuteNode | mini-business-arch/src/bpmn_model.c:208-313 | By kind of node: an exclusive gateway sends the token down its one chosen flow, a parallel gateway down every flow, an inclusive one down the first ones, events and tasks down the first; timers and sub-processes keep it. The first flow is taken by the token itself, each other by a new token in front of the list; an event without flows ends the instance |
| BpmnEngine.ProcessInstance.ExecuteStep | mini-business-arch/src/bpmn_model.c:315-345 | One pass over the tokens is the model's step: refused once the instance has ended, -1 for a token that stands on no node, and completed exactly when a token stood on an event without flows or none is active any more |
| BpmnEngine.ProcessInstance.RunSteps | mini-business-arch/src/bpmn_model.c:347-355 | The loop of steps is the model's run |
| BpmnEngine.ProcessInstance.Terminate | mini-business-arch/src/bpmn_model.c:357-363 | Marks the instance terminated and completed, tokens untouched |
| RateLimiter.BucketTheorem | mini-backend-framework/src/rate_limiter.c:49-83 | Over any run, the tokens granted in any closed interval are at most the capacity plus the rate times its length |
| RateLimiter.NothingLost | mini-backend-framework/src/rate_limiter.c:49-83 | Asked for a bucketful each time, and before a token can be lost to a full bucket, the bucket grants in all exactly the whole tokens it started with and has earned since |
| RateLimiter.ServedOnceEarned | mini-backend-framework/src/rate_limiter.c:49-83 | After any requests, n tokens, at most the capacity, are granted in full once n / rate seconds have passed since the last refill |
| RateLimiter.WindowTheorem | mini-backend-framework/src/rate_limiter.c:122-162 | Over any run, no half-open stretch of one window length holds more allowed requests than the maximum |
| RateLimiter.CompositeBound | mini-backend-framework/src/rate_limiter.c:195-210 | What the composite limiter lets through obeys both bounds |
| RateLimiter.TokenBucket.constructor | mini-backend-framework/src/rate_limiter.c:39-47 | Starts full, with the defaults for a bad rate or capacity |
| RateLimiter.TokenBucket.Refill | mini-backend-framework/src/rate_limiter.c:49-63 | The tokens are the smaller of the capacity and what they were plus the rate times the time since the last refill |
| RateLimiter.TokenBucket.ConsumeN | mini-backend-framework/src/rate_limiter.c:69-83 | Grants all of n if the bucket has them, else the whole tokens it has, and keeps every interval bound |
| RateLimiter.TokenBucket.Consume | mini-backend-framework/src/rate_limiter.c:65-67 | Grants one token exactly when a whole one is there |
| RateLimiter.TokenBucket.Reset | mini-backend-framework/src/rate_limiter.c:85-91 | Full again with an empty history |
| RateLimiter.LiveIsTail | mini-backend-framework/src/rate_limiter.c:122-145 | The entries still in the window are the last ones of the log: those younger than the window, and all of them |
| RateLimiter.SlidingWindow.CollectLive | mini-backend-framework/src/rate_limiter.c:130-137 | Reading the ring through its wrapped index collects exactly the live entries in order |
| RateLimiter.SlidingWindow.Evict | mini-backend-framework/src/rate_limiter.c:122-145 | The rebuilt ring holds exactly the live part of everything ever allowed, in order |
| RateLimiter.SlidingWindow.Allow | mini-backend-framework/src/rate_limiter.c:147-162 | Allows exactly when there were fewer than the maximum of requests or the last but that many is at least a window old, and logs the later clock reading |
| RateLimiter.SlidingWindow.Available | mini-backend-framework/src/rate_limiter.c:164-169 | The number of requests that could still be allowed, never negative |
| RateLimiter.CompositeLimiter.Allow | mini-backend-framework/src/rate_limiter.c:195-210 | Consumes from both limiters whatever either says, sets the two reject flags accordingly, and allows exactly when neither rejects |
| SagaModel.AllOrUndone | mini-business-arch/src/saga_orch.c:70-122 | From a fresh saga and any answers of its actions, execution ends with every step completed in order, or with one failed step and every earlier step that has a compensator compensated exactly once, in strictly reverse order; each step executes at most max(0, retries) + 1 times, the failed one exactly that often |
| SagaModel.ExecuteOutcome | mini-business-arch/src/saga_orch.c:70-80 | The same from any progress made so far |
| SagaModel.TryStepOutcome | mini-business-arch/src/saga_orch.c:82-99 | A step is executed until it succeeds or its retries are used up, and nothing else changes |
| SagaModel.UndoFromOutcome | mini-business-arch/src/saga_orch.c:101-122 | The compensation pass makes one call for each completed step with a compensator, later steps first, and leaves all others as they were |
| SagaModel.NothingLeftDoneIff | mini-business-arch/src/saga_orch.c:101-122 | A saga reported compensated has every earlier step undone exactly when each had a compensator and its one call succeeded |
| SagaModel.FailedCompensationStands | mini-business-arch/src/saga_orch.c:112-119 | A failed compensation with retries left is not tried again, and the saga is still reported compensated |
| SagaOrchestrator.RevisitSkips | mini-business-arch/src/saga_orch.c:114-119 | Stepping the index back up revisits the step only to pass over it |
| SagaOrchestrator.SagaInstance.Execute | mini-business-arch/src/saga_orch.c:70-80 | The forward loop is the model's execution; 0 is returned exactly when the saga completes, and otherwise the result of the last call of the step that failed, followed in the trace by compensations only |
| SagaOrchestrator.SagaInstance.ExecuteStep | mini-business-arch/src/saga_orch.c:82-99 | The step is called until it succeeds or its retries are used up, and is completed or failed; all else stays; an index out of range is refused |
| SagaOrchestrator.SagaInstance.Compensate | mini-business-arch/src/saga_orch.c:101-122 | The loop that changes its own index ends; from any state, each completed step up to the given one that has a compensator gets one call of it, later steps first, and no other step changes |
| SagaOrchestrator.SagaInstance.AddStep | mini-business-arch/src/saga_orch.c:57-61 | At most twenty steps |
| SagaOrchestrator.SagaInstance.Resume | mini-business-arch/src/saga_orch.c:124-127 | Only a running saga is executed, from its current step |
| SagaOrchestrator.Orchestrator.Enqueue | mini-business-arch/src/saga_orch.c:161-169 | Puts the saga behind those already there |
| SagaOrchestrator.Orchestrator.Tick | mini-business-arch/src/saga_orch.c:171-178 | Every saga has ended afterwards; those that had ended before are untouched |
| SagaOrchestrator.Orchestrator.Find | mini-business-arch/src/saga_orch.c:180-188 | The first saga enqueued with the identifier, or null |
| SagaOrchestrator.Orchestrator.Cancel | mini-business-arch/src/saga_orch.c:190-196 | Compensates the completed steps of the saga found up to its current one, unless it has ended, leaves it ended, and touches no other |
| ConfigCenter.WrittenAppends | mini-business-infra/src/config_center.c:58-71 | Writing keeps version numbers gapless from 1 and appends the value to the history |
| ConfigCenter.VersionsAreForever | mini-business-infra/src/config_center.c:111-144 | Over any run that does not delete a name, no version of it is changed or lost |
| ConfigCenter.RollbackRestores | mini-business-infra/src/config_center.c:261-279 | Rolling back restores what was current at that point of the run, and can itself be rolled back |
| ConfigCenter.DeletionForgets | mini-business-infra/src/config_center.c:163-186 | Over any run, a deleted name has no history and starts over, and no other name notices |
| ConfigCenter.Center.Find | mini-business-infra/src/config_center.c:45-56 | Finds the first entry of the chain with all three names, or none |
| ConfigCenter.Center.Put | mini-business-infra/src/config_center.c:111-144 | Appends one version to the history of that name and of no other; a name too long for its buffers makes an entry lookups of it do not find |
| ConfigCenter.Center.Get | mini-business-infra/src/config_center.c:146-161 | The last value of the name's history with its number as version, or nothing exactly when there is no history |
| ConfigCenter.Center.Delete | mini-business-infra/src/config_center.c:163-186 | Unlinks exactly the first entry of the chain with the name; in a tidy centre the name's history is gone and no other changes |
| ConfigCenter.Center.GetVersion | mini-business-infra/src/config_center.c:223-247 | Answers exactly the versions there have been, each with the value that was current at it |
| ConfigCenter.Center.Rollback | mini-business-infra/src/config_center.c:261-279 | Appends the value of an earlier version; refused exactly for the current version and for those there never were |
| ConfigCenter.RepairEntry | mini-business-infra/src/config_center.c:494-521 | For any entry, makes the newest archived version current; does nothing exactly when none is newer |
| ConfigCenter.Center.ReadRepair | mini-business-infra/src/config_center.c:494-521 | Never changes a centre |
| ConfigCenter.Center.QuorumRead | mini-business-infra/src/config_center.c:449-483 | Answers what the plain read answers |
| ConfigCenter.Center.GetConsistent | mini-business-infra/src/config_center.c:528-552 | Every consistency level answers as the plain read does and leaves the centre as it is |
| ConfigCenter.DecryptInvertsEncryptIff | mini-business-infra/src/config_center.c:188-221 | Decrypting what encrypting stored gives the value back exactly when no byte equals the key's byte over it and the output has room |
| ConfigCenter.CryptedByte | mini-business-infra/src/config_center.c:188-191 | One byte encrypted, by its value |
| ConfigCenter.XorCrypt | mini-business-infra/src/config_center.c:188-191 | The loop combines every byte with the key's, the key repeating |
| ConfigCenter.Center.PutEncrypted | mini-business-infra/src/config_center.c:193-209 | Writes the ciphertext up to its first NUL as any value and marks the entry, unless its name is too long for lookups to find it |
| ConfigCenter.Center.GetDecrypted | mini-business-infra/src/config_center.c:211-221 | Decrypts as much of the value as the output holds |
| ConfigSnapshot.Save | mini-business-infra/src/config_center.c:563-582 | Prints every entry of every chain once |
| ConfigSnapshot.Load | mini-business-infra/src/config_center.c:588-647 | Each name's history grows by exactly those records of the file that were new or of a higher version when read |
| ConfigSnapshot.RecordRoundTripIff | mini-business-infra/src/config_center.c:568-642 | At the head of a file a printed record is read back as the entry exactly when namespace and group have no colon, the key no equals sign, nothing a newline, and the line fits the reader's buffer |
| ConfigSnapshot.ParseLineIff | mini-business-infra/src/config_center.c:595-639 | The same for any line cut from a printed record |
| ConfigSnapshot.RecordsOfAll | mini-business-infra/src/config_center.c:563-642 | Reading a file of printable entries yields exactly their records in order |
| ConfigSnapshot.SnapshotRestores | mini-business-infra/src/config_center.c:563-647 | Loading a centre's snapshot into nothing leaves under each name its current value, as version 1 |
| ConfigSnapshot.SnapshotOntoItself | mini-business-infra/src/config_center.c:563-647 | Loading a centre's own snapshot into it changes no history: only higher versions win |
| ConfigSnapshot.PrintedRecord | mini-business-infra/src/config_center.c:568-577 | One entry's printed line, byte by byte |
| ConfigSnapshot.RestoreRecord | mini-business-infra/src/config_center.c:640-645 | A record is written if its name is new or its version higher than the current one, and else ignored |
| ConfigSnapshot.Rebuild | mini-business-infra/src/config_center.c:563-647 | Saving and loading into a new centre restores the same names with the same values |
| ConfigSnapshot.DocumentedLimitsPrintable | mini-business-infra/src/config_center.c:594-594 | Values up to the documented maximum and names without separators always fit the line buffer |
| Decimal.ParsePrint | mini-business-infra/src/config_center.c:624-629 | A printed number is read back, whatever follows it that is not a digit |
| Decimal.ParsedTexts | mini-business-infra/src/config_center.c:624-629 | Signs, blanks and foreign characters as atoi reads them |
| WireFormat.VarintRoundTrip | mini-api-engineering/src/grpc_sim.c:285-306 | Decoding a varint inverts encoding for every 64-bit number with any bytes after it |
| WireFormat.VarintFailsIff | mini-api-engineering/src/grpc_sim.c:295-306 | Decoding fails exactly when none of the first ten bytes ends a number |
| WireFormat.VarintFits | mini-api-engineering/src/grpc_sim.c:347-348 | No varint takes more than the ten bytes set aside |
| WireFormat.DocumentedNumbers | mini-api-engineering/src/grpc_sim.c:285-389 | The examples of the Protocol Buffers encoding guide: 300 as a varint, and 150 in field 1 |
| WireFormat.DocumentedString | mini-api-engineering/src/grpc_sim.c:285-389 | And the string testing in field 2 |
| WireFormat.FixedWidths | mini-api-engineering/src/grpc_sim.c:324-389 | Four and eight byte fields are sent byte for byte under wire types 5 and 1 |
| WireFormat.FieldFailsIff | mini-api-engineering/src/grpc_sim.c:391-450 | A field cannot be read exactly when its tag, number or length does not end, its wire type is unknown, or its bytes are not there |
| WireFormat.LengthIsCut | mini-api-engineering/src/grpc_sim.c:425-436 | A length past the end of the data is cut to the end |
| WireFormat.ZigZagBijection | mini-api-engineering/src/grpc_sim.c:308-322 | Zigzag is a bijection between signed and unsigned words of any width |
| WireFormat.ZigZagIs | mini-api-engineering/src/grpc_sim.c:308-318 | Non-negative n is coded 2n, negative n is coded -2n - 1 |
| WireFormat.FieldRoundTrip | mini-api-engineering/src/grpc_sim.c:341-450 | A field is read back whole with its exact length, whatever follows it |
| WireFormat.NumberReturnsIff | mini-api-engineering/src/grpc_sim.c:344-345 | A field number comes back exactly when it is below 2^29 |
| WireFormat.SignedReturns | mini-api-engineering/src/grpc_sim.c:353-361 | A zigzag field decodes to the signed number that was sent |
| WireFormat.MessageRoundTrip | mini-api-engineering/src/grpc_sim.c:452-487 | Decoding consumes the encoded message exactly and returns the sent fields in order; all fields are sent exactly when every number is positive and all but the last leave room in a frame |
| WireFormat.MessageReads | mini-api-engineering/src/grpc_sim.c:469-487 | The same from any field boundary |
| WireFormat.SentStops | mini-api-engineering/src/grpc_sim.c:452-467 | Where encoding stops short, a bad number comes next or a frame has just been filled, and neither was so before |
| WireFormat.FewerFields | mini-api-engineering/src/grpc_sim.c:469-487 | A lower limit reads the first of the fields that a higher one reads |
| WireFormat.LoadStore | mini-api-engineering/src/grpc_sim.c:411-411 | Loading a little-endian word inverts storing it |
| WireCodec.EncodeVarint | mini-api-engineering/src/grpc_sim.c:285-293 | Writes exactly the varint's bytes at the offset and nothing else |
| WireCodec.DecodeVarint | mini-api-engineering/src/grpc_sim.c:295-306 | The shifting loop reads what the specification reads, including its tenth-byte limit |
| WireCodec.EncodeField | mini-api-engineering/src/grpc_sim.c:341-389 | Writes exactly the field's bytes; nothing for a number that is not positive |
| WireCodec.DecodeField | mini-api-engineering/src/grpc_sim.c:391-450 | Reads what the specification reads; a length past the end is cut to the end |
| WireCodec.EncodeMessage | mini-api-engineering/src/grpc_sim.c:452-467 | Writes the fields up to a bad number or a full frame, and reports success exactly in the latter case or at the end |
| WireCodec.DecodeMessage | mini-api-engineering/src/grpc_sim.c:469-487 | Reads fields until the data, the definition or a readable field runs out |
| AuditLog.OneByteDetected | mini-auth-security/src/audit_log.c:187-218 | Changing exactly one byte of any record's hashed text makes verification return -1 |
| AuditLog.FieldByteDetected | mini-auth-security/src/audit_log.c:187-218 | Changing exactly one byte of a record's subject, object, action, message or source address makes verification return -1 |
| AuditLog.OneNumberChangesText | mini-auth-security/src/audit_log.c:73-79 | Changing any one of a record's five numbers changes the hashed text |
| AuditLog.OneFieldChangesText | mini-auth-security/src/audit_log.c:73-79 | Changing any one of the ten fields changes the text, and by one byte if that is all that changed in the field |
| AuditLog.TextDetermines | mini-auth-security/src/audit_log.c:73-79 | Records whose strings hold no bar have the same text only if they agree on all but the stored hashes |
| AuditLog.BarMovesUnseen | mini-auth-security/src/audit_log.c:73-79 | With a bar they need not: moving one from the object to the subject is never noticed |
| AuditLog.OneByteChangesHash | mini-auth-security/src/audit_log.c:54-62 | Texts that differ in exactly one byte have different hashes |
| AuditLog.FnvOfA | mini-auth-security/src/audit_log.c:54-62 | The published FNV-1a hash of one letter |
| AuditLog.HexOf251 | mini-auth-security/src/audit_log.c:82-83 | Hexadecimal has leading zeros, lower case, and the highest digit first |
| AuditLog.FnvStepInjective | mini-auth-security/src/audit_log.c:57-60 | Each hash step is injective in the state and in the byte |
| AuditLog.PrimeUndone | mini-auth-security/src/audit_log.c:59-59 | Multiplying by the prime modulo 2^64 can be undone |
| AuditLog.HexInjective | mini-auth-security/src/audit_log.c:82-83 | The hexadecimal form determines the hash |
| AuditLog.CheckIff | mini-auth-security/src/audit_log.c:187-218 | Verification returns 0 exactly when every record carries its own hash and its predecessor's |
| AuditLog.RehashedDetectedIff | mini-auth-security/src/audit_log.c:187-218 | A record replaced and hashed anew is noticed exactly when a later record still names the old hash |
| AuditLog.ChangeDetectedIff | mini-auth-security/src/audit_log.c:187-218 | A record changed under its stored hashes is noticed exactly when the change changes its hash |
| AuditLog.RecordHashIgnoresLinks | mini-auth-security/src/audit_log.c:67-79 | The log's hash covers neither the link to the predecessor nor the stored hash |
| AuditLog.RelinkingHides | mini-auth-security/src/audit_log.c:67-84 | With such a hash, relinking the next record hides any rewriting of a record and changes no later hash |
| AuditLog.TextFits | mini-auth-security/src/audit_log.c:69-79 | A record's text always fits the buffer it is hashed from |
| AuditLog.Fnv1a64 | mini-auth-security/src/audit_log.c:54-62 | The loop computes the hash |
| AuditLog.ComputeRecordHash | mini-auth-security/src/audit_log.c:67-84 | Hex of the hash of the record's text, which the theorems on its fields describe |
| AuditLog.Log.LogEvent | mini-auth-security/src/audit_log.c:112-173 | Appends one record with the next identifier, the arguments' numbers and strings cut to their buffers, hashed and linked; a log built this way stays sound; a full log refuses and stays as it is |
| AuditLog.Log.VerifyIntegrity | mini-auth-security/src/audit_log.c:187-218 | The scan's result is the specification's, 0 for every log built by logging; the tampered flag says the same |
| Base64Url.PadIs | mini-auth-security/src/jwt_auth.c:25-26 | The padding and the number of groups the code computes are what groups of three leave over |
| Base64Url.RoundTripIff | mini-auth-security/src/jwt_auth.c:11-59 | Decoding gives an encoded byte string back exactly when there is room for its whole groups |
| Base64Url.KnownEncodings | mini-auth-security/src/jwt_auth.c:11-28 | Test vectors of RFC 4648, and the two characters of the URL alphabet |
| Base64Url.Encode | mini-auth-security/src/jwt_auth.c:11-28 | Writes the unpadded encoding and its terminator |
| Base64Url.Decode | mini-auth-security/src/jwt_auth.c:30-59 | Refuses exactly the strings with a foreign character; otherwise writes the bytes that fit, less the padding |
| ClaimsJson.FieldReads | mini-auth-security/src/jwt_auth.c:220-247 | Searching for a field's key finds that field: its number, or its string as far as it fits |
| ClaimsJson.FieldFound | mini-auth-security/src/jwt_auth.c:227-236 | The first occurrence of a key's pattern is the field's own, whatever the quote-free values say |
| ClaimsJson.SkipQuoted | mini-auth-security/src/jwt_auth.c:236-236 | A quoted string is never mistaken for another key |
| ClaimsJson.TextOfTwoFields | mini-auth-security/src/jwt_auth.c:158-180 | Two claims as JSON text, byte by byte |
| JwtAuth.ClaimsRoundTrip | mini-auth-security/src/jwt_auth.c:158-180 | Claims without quotes and backslashes are read back from their text |
| JwtAuth.ClaimsReturnIff | mini-auth-security/src/jwt_auth.c:146-247 | Claims come back exactly when each has no quote, and has no backslash or is as long as its buffer allows with nothing but backslashes from its first on: escapes are never undone |
| JwtAuth.EscapedFits | mini-auth-security/src/jwt_auth.c:146-156 | Quotes and backslashes each get a backslash before them, and the text and its terminator fit the buffer |
| JwtAuth.TokenRoundTrip | mini-auth-security/src/jwt_auth.c:182-298 | Decoding an encoded token gives the claims back, for any MAC that verifies its own output; plain claims never overrun a buffer |
| JwtAuth.AcceptedIsVerified | mini-auth-security/src/jwt_auth.c:277-285 | With a MAC, an accepted token has a third part that the MAC verifies, or no third part |
| JwtAuth.TwoPartsAccepted | mini-auth-security/src/jwt_auth.c:249-298 | A token that ends with its second part is accepted, whatever the MAC, exactly when both parts decode: the third part is checked only where there is one |
| JwtAuth.SigningInputAccepted | mini-auth-security/src/jwt_auth.c:249-298 | So the signed text of a token of plain claims is accepted on its own |
| JwtAuth.RefusedIff | mini-auth-security/src/jwt_auth.c:249-298 | A token is refused exactly for being too long, for fewer than two parts, or for a third part the MAC does not verify |
| JwtAuth.TokenParts | mini-auth-security/src/jwt_auth.c:263-265 | A part is what is left without leading dots, up to the next dot |
| JwtAuth.HeaderReads | mini-auth-security/src/jwt_auth.c:194-196 | The header's text in letters |
| JwtAuth.EscapeStr | mini-auth-security/src/jwt_auth.c:146-156 | The loop escapes as much as the buffer holds |
| JwtAuth.Encode | mini-auth-security/src/jwt_auth.c:182-218 | The token is the three encoded parts, cut to the caller's buffer |
| JwtAuth.Decode | mini-auth-security/src/jwt_auth.c:249-298 | Splits, decodes, verifies and parses as specified, each error with its code |
| CircuitBreaker.CallKeeps | mini-business-infra/src/circuit_breaker.c:110-175 | Every call is counted as one success, failure or fast fail; half open, only successes below both limits are possible |
| CircuitBreaker.Recovery | mini-business-infra/src/circuit_breaker.c:110-175 | Successes from a fresh half open state: it closes with exactly the threshold's number when that is within the probe limit; otherwise it never closes and rejects every call after the last probe |
| CircuitBreaker.OpenTurnsAway | mini-business-infra/src/circuit_breaker.c:117-126 | Over any run from an open breaker, calls before its timeout execute nothing and change nothing but two counts |
| CircuitBreaker.TimeoutLetsOneTry | mini-business-infra/src/circuit_breaker.c:110-175 | The first call at or after the timeout is executed half open: a failure opens the breaker anew, a success is the first of those that close it |
| CircuitBreaker.StuckForGood | mini-business-infra/src/circuit_breaker.c:127-134 | A half open breaker out of probes stays so whatever is tried |
| CircuitBreaker.HalfOpenNeverRejectsIff | mini-business-infra/src/circuit_breaker.c:110-175 | From a fresh breaker, no run of calls ever leads to a half open state that turns a call away exactly when the success threshold is within the probe limit, or the window is too small for the breaker to open |
| CircuitBreaker.RunKeeps | mini-business-infra/src/circuit_breaker.c:110-175 | The totals add up over any run of calls |
| CircuitBreaker.StaysClosedIff | mini-business-infra/src/circuit_breaker.c:110-175 | A closed breaker stays closed through any run of calls exactly when no failing call leaves the threshold of failures in the window |
| CircuitBreaker.ClosedUntilTripped | mini-business-infra/src/circuit_breaker.c:110-175 | Up to the first such call it executes every call and stays closed; that call opens it |
| CircuitBreaker.SmallWindowNeverOpens | mini-business-infra/src/circuit_breaker.c:74-94 | With a window smaller than the threshold no run of calls opens it |
| CircuitBreaker.ConsecutiveIff | mini-business-infra/include/circuit_breaker.h:58 | The documented reading, so many consecutive failures, is what the window counts (nothing in it too old) exactly when the threshold is 1 or the window's size |
| CircuitBreaker.SeparateFailuresTrip | mini-business-infra/include/circuit_breaker.h:58 | At threshold 2 a failure, a success and a failure open the breaker |
| CircuitBreaker.FailuresAppend | mini-business-infra/src/circuit_breaker.c:74-84 | Counting failures is independent of where the ring wraps |
| CircuitBreaker.Breaker.WindowRecord | mini-business-infra/src/circuit_breaker.c:86-94 | The ring holds the last outcomes in order and no others |
| CircuitBreaker.Breaker.WindowFailures | mini-business-infra/src/circuit_breaker.c:74-84 | The count is of the failures among the last outcomes that are inside the time span |
| CircuitBreaker.Breaker.Transition | mini-business-infra/src/circuit_breaker.c:97-108 | A change of state clears both streaks and stamps the time; to the same state it does nothing |
| CircuitBreaker.Breaker.Call | mini-business-infra/src/circuit_breaker.c:110-175 | Open before its timeout, or half open with its probes used up, it returns -1, counts a fast fail and changes nothing else; otherwise the operation runs, is logged, and moves the state as a failure or a success does there. The object and its log take the same step as the machine of the run theorems |
| CircuitBreaker.Breaker.GetState | mini-business-infra/src/circuit_breaker.c:177-185 | Half open for an open breaker exactly from its timeout on, else its state: the state in which a call at that time would be decided on |
| CircuitBreaker.Breaker.Reset | mini-business-infra/src/circuit_breaker.c:193-202 | Closed, with empty window and statistics |
| CircuitBreaker.Breaker.HalfOpenProbe | mini-business-infra/src/circuit_breaker.c:212-224 | An open breaker runs the probe whatever the time and opens again, closes or stays half open by its outcome; half open the probe is a call like any other |
| Resilience.Recovery | mini-business-arch/src/business_patterns.c:53-117 | Driven by the pipeline, an open breaker whose time is up closes with exactly the configured number of successes and rejects nothing on the way |
| Resilience.RoundKeeps | mini-business-arch/src/business_patterns.c:53-117 | Each request admitted by the breaker leaves exactly one outcome with it, each other request one rejection |
| Resilience.RejectsOnlyTooEarly | mini-business-arch/src/business_patterns.c:53-117 | Over any run of requests the breaker rejects exactly those that find it open before its timeout, half open none, and has one outcome for each other |
| Resilience.StaysClosedIff | mini-business-arch/src/business_patterns.c:53-117 | A closed breaker stays closed through any requests exactly when no threshold of failures comes in a row, those it has counted before included |
| Resilience.ClosedUntilTripped | mini-business-arch/src/business_patterns.c:53-117 | Until then it counts the failures in a row and rejects nothing; the failure that reaches the threshold opens it |
| Resilience.StreakIs | mini-business-arch/src/business_patterns.c:84-117 | That row is the failures at the end, and those before when nothing else happened |
| Resilience.Breaker.AllowRequest | mini-business-arch/src/business_patterns.c:53-82 | Admits when closed, open from the timeout on (then half open with fresh counts), and half open below the limit; otherwise counts a rejection and changes nothing else |
| Resilience.Breaker.RecordSuccess | mini-business-arch/src/business_patterns.c:84-100 | Closed it clears the failures; half open it counts, and closes at the limit |
| Resilience.Breaker.RecordFailure | mini-business-arch/src/business_patterns.c:102-117 | Closed it counts, and opens at the threshold; half open it opens at once |
| Resilience.Bulkhead.TryAcquire | mini-business-arch/src/business_patterns.c:416-427 | Admits exactly below the limit; admitted stays completed plus failed plus in flight |
| Resilience.Bulkhead.Release | mini-business-arch/src/business_patterns.c:429-434 | One less in flight, one more completed; ignored when nothing is in flight |
| Resilience.Bulkhead.ReleaseWithResult | mini-business-arch/src/business_patterns.c:436-445 | The totals stay balanced exactly when something was in flight |
| Resilience.Calls | mini-business-arch/src/business_patterns.c:524-559 | The calls made end with the first success, the first slow failure or the last allowed attempt, and none before is such |
| Resilience.Policy.RunCalls | mini-business-arch/src/business_patterns.c:521-559 | The do-while loop makes exactly those calls, at least one and at most max(1, retries) |
| Resilience.Policy.Execute | mini-business-arch/src/business_patterns.c:500-570 | Calls are made until one succeeds, fails slowly or is the last allowed; OK for a success, timeout for a slow failure, else failed, RETRIES_EXHAUSTED only when the retry limit is not positive. Every path returns the bulkhead to its prior count with its totals balanced and gives the breaker its one outcome |
| RbacEngine.ResolvedIff | mini-auth-security/src/rbac_engine.c:166-179 | The resolved mask is exactly the bits of the roles reachable by at most ten parent links, on any role graph, cyclic or not |
| RbacEngine.AllResolvedIff | mini-auth-security/src/rbac_engine.c:181-196 | The same for all roles of a user together |
| RbacEngine.ElevenRolesSuffice | mini-auth-security/src/rbac_engine.c:166-179 | With at most eleven roles the depth bound loses nothing |
| RbacEngine.TwelveRolesLose | mini-auth-security/src/rbac_engine.c:166-179 | With twelve it can |
| RbacEngine.ShortWalk | mini-auth-security/src/rbac_engine.c:166-179 | What a walk of parent links reaches, one no longer than the number of roles reaches |
| RbacEngine.RegisterLemma | mini-auth-security/src/rbac_engine.c:49-64 | Registering a role changes no user's effective permissions and keeps caches right |
| RbacEngine.GrantAdds | mini-auth-security/src/rbac_engine.c:83-93 | A grant adds exactly its bits to whoever has the role within ten parent links of one of theirs, and nothing to anybody else |
| RbacEngine.GrantCoherentIff | mini-auth-security/src/rbac_engine.c:83-93 | A grant leaves right caches right exactly when each valid one holds the bits already or its user does not cover the role |
| RbacEngine.ParentAdds | mini-auth-security/src/rbac_engine.c:66-81 | A new parent adds exactly what it resolves to at the depths at which its child is met, and only where lookups find that child |
| RbacEngine.ParentCoherentIff | mini-auth-security/src/rbac_engine.c:66-81 | A new parent leaves right caches right exactly when each valid one holds that already |
| RbacEngine.ParentLeavesStale | mini-auth-security/src/rbac_engine.c:66-81 | A new parent can leave a valid cache stale |
| RbacEngine.GrantLeavesStale | mini-auth-security/src/rbac_engine.c:83-93 | Granting a permission can leave a valid cache stale |
| RbacEngine.Engine.RegisterRole | mini-auth-security/src/rbac_engine.c:49-64 | Appends a role without permissions or parents, or refuses a full table or a known name |
| RbacEngine.Engine.GrantPermission | mini-auth-security/src/rbac_engine.c:83-93 | Adds bits to the first role of the name; right caches stay right exactly when the grant brings their users nothing new |
| RbacEngine.Engine.AddParent | mini-auth-security/src/rbac_engine.c:66-81 | Adds a parent to the last role of the name, both registered and below the limit; right caches stay right exactly when the parent brings their users nothing new |
| RbacEngine.Engine.CreateUser | mini-auth-security/src/rbac_engine.c:95-110 | Appends a user without roles and without a cache |
| RbacEngine.Engine.AssignRole | mini-auth-security/src/rbac_engine.c:128-141 | Adds the role's resolved bits to the user's effective permissions and drops the cache |
| RbacEngine.Engine.RemoveRole | mini-auth-security/src/rbac_engine.c:143-164 | Removes exactly the first such role in place, the others keeping their order, and drops the cache |
| RbacEngine.Engine.GetEffectivePermissions | mini-auth-security/src/rbac_engine.c:181-196 | A valid cache is the answer, right or stale; otherwise what resolving afresh gives, which is also every answer of an engine with right caches |
| RbacEngine.Engine.CheckPermission | mini-auth-security/src/rbac_engine.c:198-203 | True exactly when the required bits are among those answered |

## Left out

- Null arguments, failing `malloc`, and the release of memory.
- Widths of counters, versions and clocks that would need 2^31 or more operations to overflow.
- Rounding of `double` in the rate limiters.
- HashRing.SortByHash: any arrangement sorted by hash stands for `qsort`, which leaves the order of equal hashes open.
- LruModel.LruInclusion: both caches take the same one clock reading for an operation, the clean-up pass included.
- LruCache: `cache_destroy`, which leaves a cache of capacity 0, and the size and hit-rate getters.
- DiContainer.DIContainer.ResolveAll: requires that the first service of each dequeued singleton's name reaches no cycle, because the C can recurse without end where it does.
- DiContainer.DIContainer.Resolve: requires that no cycle is ahead, for the same reason; lookup by type, tags and destructors are not modelled.
- BpmnFlow.ProcessRun: is stated for processes in which no active token can come back to a node; with a cycle ahead there is no height to count down. Targets name existing nodes, and node identifiers fit their buffers.
- RateLimiter.SlidingWindow.constructor: requires at most 4096 requests, the size of the ring, which the C does not check.
- SagaOrchestrator: choreography, the example sagas, saga identifiers from the clock, and the copying of a saga into the orchestrator's array.
- ConfigCenter: subscribers and their callbacks, gray releases, listings and diffs. Histories are stated for names that fit their buffers; what happens to others is in the contract of Put.
- ConfigCenter.Center.PutEncrypted: requires a nonempty key; the C takes remainders by its length.
- ConfigCenter.Center.GetDecrypted: requires a nonempty key and an output size above 0; with 0 the C writes beyond the output.
- ConfigSnapshot.Load: a declared length past the end of a line changes nothing here, where the C writes beyond the line; files hold no NUL.
- ConfigSnapshot.SnapshotRestores: is stated for centres all of whose entries were put under names that fit, so that no name is stored twice.
- WireFormat: null field values, messages of 2^31 bytes or more, and the framing around messages.
- WireCodec.EncodeMessage: the caller provides room for what is written and readable values for all fields, as the C assumes.
- WireFormat.NumberReturnsIff: the C shifts signed numbers, field numbers from 2^28 up and negative values in zigzag; these shifts are taken to wrap.
- AuditLog: the CRC, queries, statistics and the JSON export.
- JwtAuth: the MAC itself, the validators and token refresh. Decoding a part that is no base64url or fills its buffer is reported as `Undefined`, because the C then reads or writes memory it did not set.
- Base64Url.Decode: requires room for three bytes; with less the C can count below zero when it takes the padding off.
- JwtAuth.Encode: requires the claims' text to fit the payload buffer, which the C does not check; plain claims always do.
- CircuitBreaker: the change callback and the breaker's name.
- Resilience: the limiter's own bucket (its answer is an argument), the jittered delay, which nobody waits for, idempotency keys and health checks.
- Resilience.Backoff.NextDelay: the delay itself is random and not modelled.
- RbacEngine: the permission registry, role identifiers and priorities, and time stamps.
- The remaining directories of the repository: other lookups, formatting and servers, which would add easier members only.
