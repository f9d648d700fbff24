# Verification of the WChat server algorithms

A Dafny 4.11 model of the self-contained algorithms and state machines behind agent
orchestration, retrieval and the in-process services, with proofs of what they promise over
all inputs, all runs and all interleavings. `dafny verify dfyconfig.toml` checks everything.

Code that changes things step by step is modelled by methods and classes, proved against
specification functions or against the run they have gone through; the theorems are lemmas
about those functions and runs.

| file | component |
|---|---|
| `DagPlanner.dfy`, `DagExecution.dfy`, `OrderDependence.dfy` | levels, cycles, placeholders, level-parallel execution; when the order matters |
| `LlmFailover.dfy` | streaming failover with buffering and cooldown |
| `ExprEvaluator.dfy` | the template expression evaluator |
| `ImportConversations.dfy` | flattening of a conversation with parent pointers |
| `ChannelRegistry.dfy` | queues of events and waiters, and the subscriber map |
| `SessionSearch.dfy` | prefix filters, LIKE escaping, the query sent |
| `RateLimiter.dfy` | the fixed-window limiter |
| `HybridSearch.dfy` | cosine similarity, ranking, rank fusion, top-K |
| `Chunker.dfy`, `ChunkRows.dfy`, `DocumentIndex.dfy` | overlapping chunks; chunk rows and their listing; index and retry under failures |
| `UrlValidator.dfy`, `DenyList.dfy` (on `BigBits.dfy`, `AddressText.dfy`) | addresses as numbers, CIDR blocks, allow and deny |
| `FolderForest.dfy` | nested folders per owner |
| `SettingsCache.dfy` | the settings cache under interleaved calls |
| `ParentChains.dfy`, `Text.dfy`, `Wrappers.dfy` | parent maps, blanks and words, shared types |

## Conditions found

Where a promise holds only under a condition, the condition is proved along with it.

- For distinct ids and present dependencies the level-parallel run of a plan equals the
  one-at-a-time run in every topological order, whatever a node computes, iff every placeholder
  that names a node names a transitive dependency, a transitive dependent or the node itself
  (`OrderDependence.OrderIndependentIffScoped`). For any other plan there are two topological
  orders and a way to run a node that give different answers.
- Without failing steps the retry of a failed document succeeds iff its object is there and none
  of the new rows has the index of a row that the listing of the old ones missed; that listing
  asks for no page beyond the first 1000 rows. What a successful retry stores is exact iff the
  document had at most 1000 rows when it began. So over a whole index of more than 1000 rows,
  a retry that makes more than 1000 rows again, as one with the same settings does, fails every
  time, and one that makes fewer leaves stale rows beside them
  (`ChunkRows.RetryOverWholeIndex`, `ChunkRows.NeverIndexedAgain`, with one document for both
  in `ChunkRows.StaleRowSurvives`).
- An invalidation is effective for every later call iff no call of that organisation has its
  read's answer in hand at that moment; otherwise that call puts the older value back.
- The limiter's bound is one better than twice the limit. Some run attains it iff the window is
  longer than a millisecond, or is one millisecond and lets a single call through.
- An allow-list entry without a prefix length compares no bits: as a bare IPv4 address it admits
  every IPv4 address (`DenyList.BareEntryAdmitsAll`).
- The deny list has no entry for IPv4-mapped addresses: written as eight groups, such an
  address passes whatever its bytes, so the two writings of an IPv4 address are judged
  differently iff its bytes are internal (`DenyList.MappedVerdictsDifferIff`).

## Model

| member | source | states |
|---|---|---|
| `DagPlanner.ByIdOfDistinct` | apps/server/src/orchestrator/dag-planner.ts:51 | With distinct ids the id table lists exactly the plan's nodes, in plan order |
| `DagPlanner.ByIdKeepsFirstPlaces` | apps/server/src/orchestrator/dag-planner.ts:51 | Of several nodes with one id the table holds the last, and the ids stand in the order they first turn up |
| `DagPlanner.FindMissing` | apps/server/src/orchestrator/dag-planner.ts:52-63 | No error iff every dependency names a node; otherwise the error names the first missing dependency in reading order |
| `DagPlanner.RankedIsAcyclic` | apps/server/src/orchestrator/dag-planner.ts:65-88 | A plan whose nodes all have an exact longest-chain rank has no dependency cycle |
| `DagPlanner.StuckHasCycle` | apps/server/src/orchestrator/dag-planner.ts:70-80 | When no remaining node is ready, some cycle runs entirely through remaining nodes |
| `DagPlanner.LevelStep` | apps/server/src/orchestrator/dag-planner.ts:69-86 | One round of the loop: the ready nodes are exactly those whose longest dependency chain has as many edges as there are levels so far |
| `DagPlanner.TopologicalLevels` | apps/server/src/orchestrator/dag-planner.ts:50-88 | DAG_INVALID iff a dependency is missing; otherwise it returns iff the graph is acyclic; the levels hold every node once, at its longest-chain length; a DAG_CYCLE error names exactly the nodes that depend, at whatever distance, on a cycle, each once and in plan order |
| `DagExecution.ResolveIsSubstitution` | apps/server/src/orchestrator/dag-planner.ts:38-47 | On a task split into literals, stray braces included, and references, the scan replaces exactly the references that have an answer, copies all else, and finds exactly their names |
| `DagExecution.EveryTaskSplits` | apps/server/src/orchestrator/dag-planner.ts:36-47 | Every text can be split so that no match begins in a literal, not even one that reaches into the next pieces |
| `DagExecution.PlaceholderIff` | apps/server/src/orchestrator/dag-planner.ts:36 | A name is found at a place iff the text there is two braces, a non-empty name of letters, digits, underscores and hyphens, and two braces |
| `DagExecution.NothingToResolve` | apps/server/src/orchestrator/dag-planner.ts:38-47 | A task none of whose names has an answer is run as it is written |
| `DagExecution.ResolveDependsOnPlaceholders` | apps/server/src/orchestrator/dag-planner.ts:40-47 | Two result maps that agree on the task's placeholders resolve it to the same text |
| `DagExecution.RunLevel` | apps/server/src/orchestrator/dag-planner.ts:138-144 | Every node of a level is run on its task resolved against the answers before the level, whatever order the nodes finish in |
| `DagExecution.StoreLevel` | apps/server/src/orchestrator/dag-planner.ts:145-147 | The answers of a level are stored under their node ids after the whole level is done |
| `DagExecution.RunLevels` | apps/server/src/orchestrator/dag-planner.ts:137-148 | The level loop computes the schedule that takes the levels one after the other |
| `DagExecution.RunDag` | apps/server/src/orchestrator/dag-planner.ts:130-151 | Fails exactly as the planner does; otherwise the result map is that of the exact levels, and for distinct ids and scoped placeholders it equals running the nodes one at a time in any topological order |
| `DagExecution.ScheduleIndependence` | apps/server/src/orchestrator/dag-planner.ts:130-151 | Any two schedules that respect the dependencies, however they batch the nodes, give every node the same answer when placeholders are scoped |
| `DagExecution.OrderIndependence` | apps/server/src/orchestrator/dag-planner.ts:130-151 | The level-parallel run equals the one-at-a-time run in any topological order |
| `DagExecution.QuotedPairDependsOnOrder` | apps/server/src/orchestrator/dag-planner.ts:137-148 | The smallest such plan: two independent nodes, one of which quotes the other, and their two orders |
| `OrderDependence.OrderIndependentIffScoped` | apps/server/src/orchestrator/dag-planner.ts:130-151 | For every plan with distinct ids and present dependencies: the level-parallel run equals the sequential run in every topological order, for every way to run a node, iff placeholders are scoped |
| `OrderDependence.SchedulesAgreeIffScoped` | apps/server/src/orchestrator/dag-planner.ts:130-151 | The same over schedules: any two that respect the dependencies agree on all answers, for every way to run a node, iff placeholders are scoped |
| `OrderDependence.UnscopedDependsOnOrder` | apps/server/src/orchestrator/dag-planner.ts:137-148 | Every unscoped plan has two topological orders and a way to run a node that give different answers |
| `LlmFailover.Attempt` | apps/server/src/orchestrator/llm-failover.ts:114-153 | The buffering loop over one stream that may throw: what it has emitted, buffered and recorded is what the stream's first error and first content event determine |
| `LlmFailover.OutputIsFirstSurvivor` | apps/server/src/orchestrator/llm-failover.ts:93-178 | Without an abort the caller sees exactly the events, up to and including the first error or converted throw, of the first attempted candidate that does not fail early |
| `LlmFailover.OutputOfAllEarly` | apps/server/src/orchestrator/llm-failover.ts:180-182 | If every attempted candidate fails early the caller sees the last early error alone |
| `LlmFailover.OutputOfAborted` | apps/server/src/orchestrator/llm-failover.ts:94-101 | An abort seen before an attempt gives the caller one stop event, whatever candidates are left |
| `LlmFailover.FailsEarlyIff` | apps/server/src/orchestrator/llm-failover.ts:120-153 | A stream fails early iff an error event, or a throw at its end, comes before any text and any tool use |
| `LlmFailover.VisibleIs` | apps/server/src/orchestrator/llm-failover.ts:41-51 | The caller sees the events up to and including the first error event, or all of them and a throw as an external, non-retryable error event of this provider |
| `LlmFailover.ReplayAccounts` | apps/server/src/orchestrator/llm-failover.ts:161-177 | After any run a candidate's counter is its number of early failures since its last error-free completion, and its cooldown runs from the latest of them once the limit is reached |
| `LlmFailover.SkippedIffCooling` | apps/server/src/orchestrator/llm-failover.ts:80-85 | A candidate is passed over iff its streak has reached the limit and its latest early failure is less than cooldownMs old |
| `LlmFailover.CleanForgives` | apps/server/src/orchestrator/llm-failover.ts:174-175 | After an error-free completion fewer than `limit` further events cannot make the candidate be passed over |
| `LlmFailover.FailuresCool` | apps/server/src/orchestrator/llm-failover.ts:161-172 | From a fresh start or a clean end, a candidate cools iff it has failed early `limit` times in a row, for cooldownMs from the last of them |
| `LlmFailover.OthersDoNotCool` | apps/server/src/orchestrator/llm-failover.ts:155-177 | Outcomes of other candidates, and errors after the first content, change nothing of it |
| `LlmFailover.AttemptOrderIs` | apps/server/src/orchestrator/llm-failover.ts:80-89 | The attempt order is strictly increasing; it is all candidates if every one is cooling, and otherwise exactly those that are not |
| `LlmFailover.FailoverProvider.Consult` | apps/server/src/orchestrator/llm-failover.ts:82-85 | The filter admits a candidate iff it is not cooling at the moment it is consulted |
| `LlmFailover.FailoverProvider.Judge` | apps/server/src/orchestrator/llm-failover.ts:81-86 | One turn of the filter: the candidate joins the order iff it is not cooling at the clock reading of that turn |
| `LlmFailover.FailoverProvider.Order` | apps/server/src/orchestrator/llm-failover.ts:80-89 | The order is the candidates not cooling, or all of them when every one is cooling |
| `LlmFailover.FailoverProvider.RecordEarly` | apps/server/src/orchestrator/llm-failover.ts:161-172 | An early failure extends the run by one early failure, and the state stays the replay of the run |
| `LlmFailover.FailoverProvider.RecordClean` | apps/server/src/orchestrator/llm-failover.ts:174-175 | An error-free completion resets the counter, and the state stays the replay of the run |
| `LlmFailover.FailoverProvider.TryCandidate` | apps/server/src/orchestrator/llm-failover.ts:110-178 | One attempt either fails early, with nothing given to the caller, or gives exactly the visible part of the stream and ends the call |
| `LlmFailover.FailoverProvider.TryNext` | apps/server/src/orchestrator/llm-failover.ts:93-178 | Attempt k after k early failures: what the caller receives on its account is nothing if it fails early too, and otherwise the whole output of the call |
| `LlmFailover.FailoverProvider.TryEach` | apps/server/src/orchestrator/llm-failover.ts:93-179 | The attempt loop hands on what every attempt gives the caller, early failures included; together that is nothing while all fail early, and the output of the call once one does not |
| `LlmFailover.FailoverProvider.TryInOrder` | apps/server/src/orchestrator/llm-failover.ts:93-183 | All that the attempts and the last early error give the caller, one after the other, is the functional output of the streams; one event per attempt made is logged |
| `LlmFailover.FailoverProvider.Chat` | apps/server/src/orchestrator/llm-failover.ts:76-183 | A call's output is the functional output over the attempt order that the run so far and the clock determine; without an abort it is the visible part of the first of those candidates, each asked with its own model, that does not fail early, or the last error; all candidates in their order are asked if every one is cooling; its effect on the failure state is the replay of the extended run |
| `ExprEvaluator.ParensWrapWhole` | apps/web/design-reference/support.js:237-247 | True iff no closing parenthesis before the last character brings the depth back to zero |
| `ExprEvaluator.FindTopLevelEquality` | apps/web/design-reference/support.js:248-262 | Finds the first comparison operator outside all parentheses and brackets that is not the tail of a longer operator and has text before it; none iff there is none |
| `ExprEvaluator.FindClose` | apps/web/design-reference/support.js:275-285 | Finds the bracket that closes the current index, or none iff it is never closed |
| `ExprEvaluator.Evaluate` | apps/web/design-reference/support.js:205-236 | Ends on every string with the value of the recursive definition, every call of which is on a strictly shorter text |
| `ExprEvaluator.EvaluateTrimmed` | apps/web/design-reference/support.js:207-235 | The branches on the trimmed text, in order |
| `ExprEvaluator.PathStep` | apps/web/design-reference/support.js:268-292 | One step of the path loop: the member or index read, and the text behind it; anything else ends the path as undefined |
| `ExprEvaluator.WalkPath` | apps/web/design-reference/support.js:268-293 | The path loop computes the recursive reading of the segments |
| `ExprEvaluator.EvaluatePath` | apps/web/design-reference/support.js:263-294 | A path is its head member followed by its segments |
| `ExprEvaluator.ResolvePrint` | apps/web/design-reference/support.js:205-294 | For every well-formed tree, values, run-time operators and layout of blanks and redundant parentheses, resolving the printed text gives the value of the tree |
| `ExprEvaluator.ResolveSegs` | apps/web/design-reference/support.js:268-293 | Printed path segments, indexes included, are read back one by one with the value of the tree |
| `ExprEvaluator.ReadSegs` | apps/web/design-reference/support.js:268-293 | The segments at the head of a path are read with the value of the tree, whatever text follows |
| `ExprEvaluator.NumberIff` | apps/web/design-reference/support.js:204 | The number pattern matches exactly an optional minus, digits, and optionally a point and digits |
| `ExprEvaluator.ResolveNumber` | apps/web/design-reference/support.js:231 | Every such text, with a sign or a fraction or without, is read as the number of that text |
| `ExprEvaluator.ResolveAtom` | apps/web/design-reference/support.js:227-235 | A text that is not parenthesised, no comparison and no negation is a keyword, a numeral, a quoted text, or else a path |
| `ExprEvaluator.BlankIsUndefined` | apps/web/design-reference/support.js:206-207 | A blank text is undefined |
| `ExprEvaluator.BrokenPathIsUndefined` | apps/web/design-reference/support.js:268-293 | A path that breaks off, at a point without a name, an index never closed or any other character, is undefined however much of it could be read |
| `ExprEvaluator.EqualityIff` | apps/web/design-reference/support.js:250-259 | Where a comparison operator stands, by counts of opening and closing characters before it |
| `ExprEvaluator.ClosesIff` | apps/web/design-reference/support.js:275-285 | Which bracket closes an index, by counts |
| `ExprEvaluator.WrapsWholeIff` | apps/web/design-reference/support.js:237-247 | When outer parentheses belong together, by counts |
| `ImportConversations.BuildBuckets` | apps/server/src/lib/import-conversations.ts:113-121 | The buckets hold the children of each parent in key order, and the roots |
| `ImportConversations.ChildrenInKeyOrder` | apps/server/src/lib/import-conversations.ts:112-121 | Siblings, and the roots, stand in the order of the keys |
| `ImportConversations.WalkVisits` | apps/server/src/lib/import-conversations.ts:105-140 | Preorder visits exactly the nodes whose parent chain reaches a root, each once; the others are exactly those on or below a parent cycle |
| `ImportConversations.WalkStack` | apps/server/src/lib/import-conversations.ts:124-140 | The stack loop ends on any parent map, visits in recursive preorder with siblings in key order, collects messages in that order, and pushes no key twice |
| `ImportConversations.FlattenMapping` | apps/server/src/lib/import-conversations.ts:111-142 | The conversation is the title and, in preorder of the parent map, what each node says: nothing unless it is a user or an assistant with text, and then its text parts, one a line, without the blanks around them |
| `ParentChains.RootedIffNoCycleAbove` | apps/server/src/lib/import-conversations.ts:111-121 | A key's parent chain reaches a root iff no ancestor of it lies on a cycle |
| `Text.SpacesAre` | apps/server/src/knowledge/chunker.ts:33-47 | The code units that trimming and splitting take for blank |
| `ChannelRegistry.ReadsAreFifo` | apps/server/src/orchestrator/channel-registry.ts:33-70 | After any sequence of push, close and next, the k-th next has the k-th accepted event, done once closed with fewer, or waits; buffer and waiters are what is left over |
| `ChannelRegistry.BufferedOrWaiting` | apps/server/src/orchestrator/channel-registry.ts:38-65 | Buffered events and waiters are never both non-empty |
| `ChannelRegistry.SettledForGood` | apps/server/src/orchestrator/channel-registry.ts:38-65 | A settled next keeps its value whatever happens later |
| `ChannelRegistry.BusRuns` | apps/server/src/orchestrator/channel-registry.ts:78-109 | In every run a channel has an entry iff it has an open subscriber, the entry is exactly those, and each queue is the queue of its own history |
| `ChannelRegistry.DeliveryIsExactlyOnceFifo` | apps/server/src/orchestrator/channel-registry.ts:33-109 | Over any interleaving the k-th next of a subscription gets the k-th event published to its channel while subscribed, or done after unsubscribing with fewer |
| `ChannelRegistry.ChannelQueue.Push` | apps/server/src/orchestrator/channel-registry.ts:38-46 | Settles the longest-waiting next, or buffers, or ignores the event once closed |
| `ChannelRegistry.ChannelQueue.Close` | apps/server/src/orchestrator/channel-registry.ts:48-54 | Settles every waiting next as done, once |
| `ChannelRegistry.ChannelQueue.Next` | apps/server/src/orchestrator/channel-registry.ts:56-65 | Takes the oldest buffered event, or done once closed, or waits at the end of the line |
| `ChannelRegistry.Registry.Subscribe` | apps/server/src/orchestrator/channel-registry.ts:91-99 | A new open queue under the channel; the registry stays the state of its run |
| `ChannelRegistry.Registry.PushTo` | apps/server/src/orchestrator/channel-registry.ts:86-88 | Every queue of the set gets the event once, in whatever order the set is walked |
| `ChannelRegistry.Registry.Publish` | apps/server/src/orchestrator/channel-registry.ts:80-89 | Every open subscriber of the channel gets the event and nobody else |
| `ChannelRegistry.Registry.Read` | apps/server/src/orchestrator/channel-registry.ts:56-69 | A next on one subscription touches only that subscription |
| `ChannelRegistry.Registry.Unsubscribe` | apps/server/src/orchestrator/channel-registry.ts:101-107 | Closes the queue and drops it, and the channel's entry with the last one; a second call changes nothing more |
| `SessionSearch.LikeEscaped` | apps/server/src/db/session-data-access.ts:116-118 | In a LIKE pattern an escaped text matches exactly itself before the rest of the pattern is matched |
| `SessionSearch.EscapedIsContainment` | apps/server/src/db/session-data-access.ts:116-118 | `%` + escaped text + `%` matches iff the text is a literal substring, up to the database's case folding |
| `SessionSearch.EscapedIsEquality` | apps/server/src/db/session-data-access.ts:116-118 | The escaped text alone matches iff the texts are equal, up to case folding |
| `SessionSearch.UnescapedIsNotLiteral` | apps/server/src/db/session-data-access.ts:116-118 | Without the escaping a lone underscore matches a text that does not contain it |
| `SessionSearch.TakeToken` | apps/server/src/db/session-data-access.ts:98-111 | One token: a recognised prefix with a value sets its filter, the last one winning; anything else is kept as free text |
| `SessionSearch.TakeTokens` | apps/server/src/db/session-data-access.ts:96-111 | The loop reads every token: last value of each filter, and the free words in order |
| `SessionSearch.ParseSearchQuery` | apps/server/src/db/session-data-access.ts:95-114 | The reading of a query: last value of each filter, the other words in order joined by blanks |
| `SessionSearch.ReadingIs` | apps/server/src/db/session-data-access.ts:92-114 | Each filter is what the last word has behind `tag:`, `folder:`, `pinned:` or `archived:`, in letters of any case, and a flag is off iff that is `false`; the words that carry none, in order, are the free text |
| `SessionSearch.BuildSearch` | apps/server/src/db/session-data-access.ts:214-268 | The conditions, parameters and limit position sent for a query are those of its reading |
| `SessionSearch.CollectConditions` | apps/server/src/db/session-data-access.ts:219-268 | Every condition refers to the position at which its own parameter was pushed |
| `SessionSearch.SearchIsLiteral` | apps/server/src/db/session-data-access.ts:214-267 | A session satisfies all conditions sent iff it has the literal texts and flags asked for |
| `RateLimiter.RunKeeps` | apps/server/src/mcp/mcp-client-pool.ts:130-146 | What every run keeps per server: the counter is the number of calls accepted since the window opened, and the counts around it are bounded |
| `RateLimiter.SlidingBound` | apps/server/src/mcp/mcp-client-pool.ts:130-146 | Over any run with a non-decreasing clock no half-open interval of windowMs holds more than 2*maxCalls - 1 accepted calls to a server |
| `RateLimiter.BoundIsTightIff` | apps/server/src/mcp/mcp-client-pool.ts:130-146 | For every limit and window, some run has 2*maxCalls - 1 accepted calls in a window length iff the window is at least 2 ms, or is 1 ms with a limit of one |
| `RateLimiter.RefusedOnlyWhenFull` | apps/server/src/mcp/mcp-client-pool.ts:137-144 | A call is refused only if maxCalls calls were accepted in the windowMs that end with it |
| `RateLimiter.ServersAreIndependent` | apps/server/src/mcp/mcp-client-pool.ts:132-145 | Leaving out all calls to other servers changes neither a server's state nor any verdict |
| `RateLimiter.Limiter.CheckRateLimit` | apps/server/src/mcp/mcp-client-pool.ts:130-146 | The object's state is the state of its run; a refusal changes nothing; both bounds hold after every call |
| `HybridSearch.DotIsBounded` | apps/server/src/knowledge/search-service.ts:20-31 | Cauchy-Schwarz for the accumulated sums, vectors of unequal length included |
| `HybridSearch.CosineSums` | apps/server/src/knowledge/search-service.ts:20-31 | The accumulation loop computes the three sums, with dot*dot <= normA*normB and both norms non-negative |
| `HybridSearch.CosineInRange` | apps/server/src/knowledge/search-service.ts:20-33 | The similarity of any two vectors lies in [-1, 1] |
| `HybridSearch.CosineIs` | apps/server/src/knowledge/search-service.ts:20-33 | Times the product of the two lengths the similarity is the dot product; it is zero if a length is |
| `HybridSearch.CosineOfSame` | apps/server/src/knowledge/search-service.ts:20-33 | A vector of some length has similarity one with itself |
| `HybridSearch.DotAppends` | apps/server/src/knowledge/search-service.ts:24-30 | One more component each adds their product to the sum |
| `HybridSearch.DotBeyondTheEnd` | apps/server/src/knowledge/search-service.ts:25-26 | Components of the first vector beyond the end of the second add nothing to the dot product |
| `HybridSearch.SortedIsUnique` | apps/server/src/knowledge/search-service.ts:46-48 | The comparator leaves no choice: any two sorted arrangements of the entries are equal |
| `HybridSearch.NumberOff` | apps/server/src/knowledge/search-service.ts:49-51 | The entries are numbered 1, 2, ... in order |
| `HybridSearch.RankOf` | apps/server/src/knowledge/search-service.ts:42-52 | A bijection of the candidates onto 1..n that orders them by score, ties in list order |
| `HybridSearch.AheadInBoth` | apps/server/src/knowledge/search-service.ts:79-86 | Better ranks in both rankings give a strictly higher fused score |
| `HybridSearch.CutIsTop` | apps/server/src/knowledge/search-service.ts:90-95 | The first k entries of the filtered order leave out no passing candidate that comes before one of them |
| `HybridSearch.TopOfSorted` | apps/server/src/knowledge/search-service.ts:88-95 | The cut of the filtered order: distinct passing candidates in order, none left out that comes before one of them |
| `HybridSearch.KeptAreThePassing` | apps/server/src/knowledge/search-service.ts:90-93 | As many entries are kept as candidates pass the threshold |
| `HybridSearch.Search` | apps/server/src/knowledge/search-service.ts:54-96 | Distinct candidates with their scores, ranked 1..m in descending order of 1/(rrfK + rank) summed over the two rankings; a threshold above zero admits only vector scores of at least it; as many as pass, cut to topK; no passing candidate left out has a higher fused score |
| `HybridSearch.AheadInBothIsEarlier` | apps/server/src/knowledge/search-service.ts:70-96 | A candidate ahead of a hit in both rankings is itself a hit, and an earlier one |
| `Chunker.EstimateTokenCount` | apps/server/src/knowledge/chunker.ts:28-30 | The least number of four-character tokens that covers the text |
| `Chunker.SplitOfTrimmed` | apps/server/src/knowledge/chunker.ts:47 | Splitting a trimmed text on blanks gives its words, with no empty pieces |
| `Chunker.CutWords` | apps/server/src/knowledge/chunker.ts:48-61 | The loop ends for all options and gives the windows of the closed form |
| `Chunker.Chunk` | apps/server/src/knowledge/chunker.ts:32-62 | The chunks of any text under any options, overlap at least the size included, are those of the closed form |
| `Chunker.ChunksCoverTheText` | apps/server/src/knowledge/chunker.ts:47-61 | The words of the contents, each without what it repeats of its predecessor, are the words of the text in order |
| `Chunker.ConsecutiveChunksShare` | apps/server/src/knowledge/chunker.ts:51-59 | Every chunk but the last is full and ends with exactly the words its successor opens with: overlapWords of them if that is below the size, none otherwise |
| `Chunker.ChunkCount` | apps/server/src/knowledge/chunker.ts:50-60 | The number of chunks is the least that lets the last window reach the end: 1 + ceil(max(0, n - size) / step) |
| `Chunker.WordsOfOptions` | apps/server/src/knowledge/chunker.ts:36-45 | A chunk has the greatest number of five-character words that fit the tokens at four characters each, at least one; so has the overlap, at least none; 800 and 100 tokens by default |
| `ChunkRows.PageIsComplete` | apps/server/src/db/project-document-data-access.ts:182-201 | A listing returns the rows of smallest index up to its limit, and is complete iff there are no more rows than that |
| `ChunkRows.RetryIsExactIff` | apps/server/src/db/document-service.ts:265-302 | After a retry the stored rows are the new ones and no others iff the listing of the old ones was complete |
| `ChunkRows.RetryOverWholeIndex` | apps/server/src/db/project-document-data-access.ts:182-201 | Over the whole rows of an old index the new rows find their places free iff the old or the new ones fit one page, and are then exact iff the old ones do |
| `ChunkRows.RetryIsStuck` | apps/server/src/db/document-service.ts:265-296 | Over a whole index of more than 1000 rows, inserting more than 1000 rows meets the one at index 1000 and leaves a whole index of the same size |
| `ChunkRows.NeverIndexedAgain` | apps/server/src/db/document-service.ts:235-311 | So every one of any number of such retries fails, under whatever settings make more than 1000 rows, although no step of theirs does |
| `ChunkRows.StaleRowSurvives` | apps/server/src/db/project-document-data-access.ts:182-201 | One document, 1001 rows under one pair of options and 2 under the defaults: with the first options again the rows collide; with the defaults they do not, and row 1000 stays beside them |
| `DocumentIndex.IndexedIsChunksOfSource` | apps/server/src/db/document-service.ts:151-311 | In every state an indexed document's rows 0..chunkCount-1 are the chunks of the parse of its stored bytes, row i with the i-th vector that the provider gives for the contents in order, if there is one; there are no others iff the indexing attempt began with at most 1000 rows |
| `DocumentIndex.RowsCarryTheirVectors` | apps/server/src/db/document-service.ts:203-216 | If the provider gives every text its own vector, every row of an indexed document carries the vector of its own content |
| `DocumentIndex.DocumentService.InsertRows` | apps/server/src/db/project-document-data-access.ts:175-181 | Row by row, any insert may fail before or after taking place: what is stored is always the old rows and the first so many of the new; without failures it succeeds iff no index is taken, and otherwise stops at the first that is |
| `DocumentIndex.DocumentService.DeleteRows` | apps/server/src/db/document-service.ts:266-268 | Deletes one by one: what is left is always all but the first so many of the listed rows, and all but the listed rows on success, which comes when no step fails |
| `DocumentIndex.DocumentService.BulkInsert` | apps/server/src/db/document-service.ts:205-216 | The rows of one document grow by the first so many of the new rows, all of them on success; without failures that is iff no index is taken; nothing else changes |
| `DocumentIndex.DocumentService.SetStatus` | apps/server/src/db/document-service.ts:217-227 | The row takes the status and count unless the step fails before that, and the caller is told of success iff it did not fail |
| `DocumentIndex.DocumentService.MakeRows` | apps/server/src/db/document-service.ts:192-204 | Rows for the parse of the bytes with the settings of the moment, defaults when they cannot be had; row i carries chunk i and the i-th vector; nothing but the options is changed |
| `DocumentIndex.DocumentService.Store` | apps/server/src/db/document-service.ts:205-221 | The status becomes indexed only after all rows of the source are in place; without failures it does iff no index is taken, and otherwise stays |
| `DocumentIndex.DocumentService.Attempt` | apps/server/src/db/document-service.ts:191-229 | Whatever step fails, the document is indexed with the rows of its source or not marked as indexed, and no other document changes; without failures it is indexed iff the rows find their places free, and marked as failed otherwise |
| `DocumentIndex.DocumentService.ByContentHash` | apps/server/src/db/project-document-data-access.ts:137-143 | Finds the project's document with the hash iff there is one |
| `DocumentIndex.DocumentService.PutObject` | apps/server/src/db/document-service.ts:179-180 | Bytes under a fresh key, all other objects kept; an object may stay behind when the call is lost |
| `DocumentIndex.DocumentService.InsertDocument` | apps/server/src/db/document-service.ts:181-189 | A pending row under a fresh id; it may stay behind when the call is lost |
| `DocumentIndex.DocumentService.Upload` | apps/server/src/db/document-service.ts:179-230 | Object, row, index: at most one new document and one new object, all others kept; success means an exact index, and comes when no step fails |
| `DocumentIndex.DocumentService.IndexNew` | apps/server/src/db/document-service.ts:190-230 | The first attempt finds no rows in its way: it succeeds when no step fails, and then the rows are exactly those of the bytes |
| `DocumentIndex.DocumentService.Index` | apps/server/src/db/document-service.ts:151-230 | Only an editor or the owner may, and refusals are exact and change nothing; a document of the same content in the project is returned as it is; otherwise success means a new document whose rows are exactly those of the uploaded bytes, with those bytes under its key, and comes when no step fails; old documents and objects are untouched whatever fails |
| `DocumentIndex.DocumentService.DeleteStale` | apps/server/src/db/document-service.ts:265-268 | The listed rows of a failed document are deleted one by one; what is left is what the listing missed, and when a step fails also the last of the listed rows |
| `DocumentIndex.DocumentService.Retry` | apps/server/src/db/document-service.ts:235-311 | Only failed documents are indexed again (CONFLICT otherwise); without failing steps that succeeds iff the object is there and the rows, under the settings of that moment, collide with none that the listing missed; on success the rows are the new ones over those, exact iff at most 1000 rows were there; other documents are untouched whatever fails |
| `DocumentIndex.DocumentService.RetryFailed` | apps/server/src/db/document-service.ts:265-310 | Listing, deletion, object, attempt: the same condition for success from any failed document |
| `DocumentIndex.DocumentService.Delete` | apps/server/src/db/document-service.ts:129-149 | The object first, then the row with its chunks; no other document loses its row, its chunks or its object; succeeds when no step fails; refusals are exact and change nothing |
| `DocumentIndex.DocumentService.RemoveObject` | apps/server/src/db/document-service.ts:147 | The object of the document goes, those of all other documents stay |
| `BigBits.FoldIsValue` | apps/server/src/mcp/url-validator.ts:48-52 | Folding with shift and or is the positional value when every digit fits its width |
| `AddressText.HexDigitsAre` | apps/server/src/mcp/url-validator.ts:60 | A hexadecimal digit, small or large, is worth its place among the sixteen |
| `AddressText.HexAppends` | apps/server/src/mcp/url-validator.ts:60 | A further digit shifts the others by one place |
| `UrlValidator.Ipv6Parses` | apps/server/src/mcp/url-validator.ts:54-71 | A text of eight groups, full or with one `::` run, parses to the positional value of its eight 16-bit groups |
| `UrlValidator.SameNumberIffSameGroups` | apps/server/src/mcp/url-validator.ts:54-71 | Two texts in either form parse to the same number iff they stand for the same groups |
| `UrlValidator.Ipv6TextIsAccepted` | apps/server/src/mcp/url-validator.ts:54-71 | Every such text is taken for an IPv6 address and for nothing else |
| `UrlValidator.AcceptedIsIpv6Text` | apps/server/src/mcp/url-validator.ts:54-71 | Every accepted text is one of the two forms |
| `UrlValidator.DottedQuadParses` | apps/server/src/mcp/url-validator.ts:48-52 | A dotted quad is taken for an IPv4 address and parses to the positional value of its bytes |
| `UrlValidator.Ipv4RoundTrip` | apps/server/src/mcp/url-validator.ts:48-52 | Every accepted IPv4 text is the printing of the bytes it parses to |
| `UrlValidator.QuadsAreDistinct` | apps/server/src/mcp/url-validator.ts:48-52 | Dotted quads parse to the same number iff their bytes are equal |
| `UrlValidator.QuadCidrParses` | apps/server/src/mcp/url-validator.ts:73-80 | Network and prefix length of an IPv4 CIDR text |
| `UrlValidator.Ipv6CidrParses` | apps/server/src/mcp/url-validator.ts:73-80 | Network and prefix length of an IPv6 CIDR text in either form |
| `UrlValidator.IpInCidrIffSameBlock` | apps/server/src/mcp/url-validator.ts:82-90 | An address matches iff it is of the entry's version and lies in the same block of 2^(total-bits) addresses; a prefix longer than the address asks for equality |
| `UrlValidator.InSomeIff` | apps/server/src/mcp/url-validator.ts:133-134 | Over well-formed entries `some` is true iff an entry covers the address |
| `UrlValidator.CheckAddresses` | apps/server/src/mcp/url-validator.ts:131-140 | Accepts iff every address passes; otherwise reports the verdict on the first that does not |
| `DenyList.QuadIsDenied` | apps/server/src/mcp/url-validator.ts:32-46 | An IPv4 address is on the deny list iff its bytes are 0.*, 10.*, 127.*, 169.254.*, 172.16-31.*, 192.168.*, 198.18-19.* or 224.* and above |
| `DenyList.Ipv6IsDenied` | apps/server/src/mcp/url-validator.ts:32-46 | An IPv6 text, in either form, is on the deny list iff it is ::1 or its first group is in fc00-fdff, fe80-febf or ff00-ffff |
| `DenyList.QuadVerdict` | apps/server/src/mcp/url-validator.ts:131-140 | With a well-formed allow list an IPv4 address passes iff it is allow-listed or not internal |
| `DenyList.Ipv6Verdict` | apps/server/src/mcp/url-validator.ts:131-140 | The same for IPv6 texts |
| `DenyList.MappedPasses` | apps/server/src/mcp/url-validator.ts:32-46 | Without an allow list every text whose groups are those of an IPv4-mapped address passes, whatever the bytes |
| `DenyList.MappedVerdictsDifferIff` | apps/server/src/mcp/url-validator.ts:131-140 | For every four bytes there is such a text, and it and the dotted quad are judged differently iff the bytes are internal |
| `DenyList.UnspecifiedPasses` | apps/server/src/mcp/url-validator.ts:32-46 | So does every text of the unspecified address |
| `DenyList.BareEntryAdmitsAll` | apps/server/src/mcp/url-validator.ts:73-90 | An allow-list entry that is an IPv4 address without a prefix length admits every IPv4 address |
| `FolderForest.MoveKeepsForestIff` | apps/server/src/db/session-folder-data-access.ts:75-101 | Giving a folder a new parent keeps a forest a forest iff the folder is neither the new parent nor one of its ancestors |
| `FolderForest.InsertKeepsForests` | apps/server/src/db/session-folder-data-access.ts:104-111 | A new folder closes no cycle for any owner |
| `FolderForest.UpdateKeepsForests` | apps/server/src/db/session-folder-data-access.ts:127-163 | A change of one row, cleared by the walk, keeps every owner's folders a forest |
| `FolderForest.DeleteKeepsForests` | apps/server/src/db/migrations/0029_nested_folders.sql:13-14 | Setting the children's parent to null keeps every owner's folders a forest |
| `FolderForest.FolderStore.WouldCreateCycle` | apps/server/src/db/session-folder-data-access.ts:78-101 | On any table, cyclic or not, the walk ends and is true iff the folder is the new parent or one of its ancestors within the owner's rows |
| `FolderForest.FolderStore.Create` | apps/server/src/db/session-folder-data-access.ts:104-111 | Inserts the row, or nothing when the parent row does not exist; all forests stay forests |
| `FolderForest.FolderStore.UpdateForOwner` | apps/server/src/db/session-folder-data-access.ts:127-163 | Circular iff the folder is at or above its new parent, a violation iff otherwise the owner's row would name a missing parent; on success exactly what the patch names changes in the owner's row, and no other row; all forests stay forests |
| `FolderForest.FolderStore.DeleteForOwner` | apps/server/src/db/session-folder-data-access.ts:164-170 | Deletes the owner's row iff it is there; its children lose their parent and nothing else, every other row of every owner is as it was; all forests stay forests |
| `SettingsCache.Resolved` | apps/server/src/lib/settings-service.ts:37-66 | Every setting is the stored patch's if it has one and the default's otherwise; the defaults alone on a missing, failed or corrupt record |
| `SettingsCache.BoundedStaleness` | apps/server/src/lib/settings-service.ts:68-75 | Under any interleaving a value served at t is the merge of what a read of that organisation answered at r, in a call whose completion is an event of the run at w, and either t == w or t - r < ttlMs + (w - r) |
| `SettingsCache.ServedForTtl` | apps/server/src/lib/settings-service.ts:68-75 | What a completed call has cached is served to every later call, without another read, for exactly ttlMs, unless the organisation is invalidated or another of its calls completes |
| `SettingsCache.FreshAfterInvalidateIff` | apps/server/src/lib/settings-service.ts:68-79 | After an invalidation every later call is served something read after it, whatever else happens, iff no call of that organisation has its answer in hand at that moment |
| `SettingsCache.QuietInvalidateIsFresh` | apps/server/src/lib/settings-service.ts:77-79 | The sufficient half, for every continuation |
| `SettingsCache.StaleAfterInvalidate` | apps/server/src/lib/settings-service.ts:72-74 | The necessary half: the continuation in which the call in flight puts its older value back |
| `SettingsCache.SettingsService.BeginResolve` | apps/server/src/lib/settings-service.ts:68-72 | Serves an unexpired cached value, or begins a read; the object stays the state of its run |
| `SettingsCache.SettingsService.ReadAnswers` | apps/server/src/lib/settings-service.ts:37-66 | The read's answer is merged and held until the call continues |
| `SettingsCache.SettingsService.FinishResolve` | apps/server/src/lib/settings-service.ts:72-75 | Caches and serves the value of its own read with a fresh expiry |
| `SettingsCache.SettingsService.Invalidate` | apps/server/src/lib/settings-service.ts:77-79 | Forgets the organisation's entry and nothing else |

## Left out

- Running a node (`runNode`), including a rejection or an abort in the middle of a plan: a node is a function of its resolved task.
- Back-off delays between attempts, and a caller that stops reading the failover stream before it ends.
- Interleaved calls of one failover provider: the accounting lemmas hold of any log of outcomes, the method runs one call at a time.
- JavaScript's own operators on values (`===`, `==`, truthiness, property access, number and string literals) are parameters of the evaluator.
- ExprEvaluator.ResolvePrint: string literals are free of parentheses, brackets, `=` and `!`, and a path does not start with one of the four keywords alone, because the scanners look for these inside quotes too.
- Schema validation and the native format of imported conversations; only the flattening of the parent map is modelled.
- Delivery of settled promises by the event loop: a waiter counts as served when its promise is resolved.
- The database's case folding is an arbitrary relation on characters; ordering and paging of search results, and the SQL text around the conditions.
- One UTF-16 code unit is one `char`; lower-casing in search prefixes is on ASCII letters.
- Floating-point rounding: scores, norms and square roots are exact reals.
- HybridSearch.Search: candidates are distinct objects, and rrfK is above -1 so that no fused score divides by zero; the settings schema admits 1 to 1000 (apps/server/src/lib/org-settings-schema.ts, line 35).
- LlmFailover.FailoverProvider.constructor: asks for at least one candidate, where the source throws, and for a clock that is never negative.
- RateLimiter.Limiter.CheckRateLimit: asks for a clock that does not go back; with one that does, the windows are no longer consecutive.
- The keyword count and the embeddings: the two scores of a candidate are parameters of the search.
- Fractional chunk options: option values are integers, as in the settings schema.
- The parser, the embedding provider and the content hash are functions; a parse that gives different text on a second run is not covered.
- Two requests on one document at the same time, the project access query (its outcome is a parameter), timestamps and failure messages of a document row.
- URL parsing, the protocol check, name resolution and the connection: the decision starts from the resolved addresses.
- IPv6 texts with an embedded IPv4 address or a zone id, and numerals other than plain decimal digits in CIDR texts (`Number` also reads signs, exponents and prefixes).
- Two changes of folders at the same time, the folder list, and cycles through folders of different owners, which the walk does not look for.
- Logging, the schema check of a settings record (its outcome is a parameter), and what a read sees when the record changes while it runs: a read has one moment.
- SQL plumbing, HTTP routing, authentication, environment and user interface.
