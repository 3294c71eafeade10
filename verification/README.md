# JARVIS OS: verified models of its algorithms and state machines

This project models, in Dafny, the parts of JARVIS OS (a Python assistant runtime) that hold real
algorithms: the dependency-graph tools, two knowledge-graph traversals, the memory caches and
indexes, and several step-wise services. Objects whose methods update fields are classes; what they
compute is stated against specification functions and predicates, and the properties are proved
about those.

## What is proved

* **Import cycles.** The iterative Tarjan search (suspended iterators on a work stack, node stack,
  numbers and lowlinks) returns exactly the strongly connected components, for every order in which
  sets are iterated. Each node is pushed once, each edge consumed once, and components come out in
  reverse topological order. A module gets a CYCLE-1 violation iff it lies on a directed cycle. The
  recursive search of the architecture audit returns a closed simple path of real edges, or nothing
  exactly when the graph of known modules is acyclic.
* **Entity graphs.** The FIFO traversal (visited on pop, duplicates in the queue) returns exactly the
  ball of the given radius, each entity once, nearest first. The layer traversal returns exactly the
  stored nodes of the outgoing ball. All graph results share the walks of `Reachability`.
* **Caches and indexes.** The LRU list of any run is a function of the history of touches and
  deletions; smaller caches hold a suffix of larger ones. The index over shared, mutable record
  objects answers queries like a filter over the record map. Batches of embeddings are right position
  by position. Optimistic versions let at most one of two equal updates through, every field of a
  stored record is the one last given, and each filter of a listing restricts it exactly.
* **Event bus.** In every reachable state, whatever is started, stopped, published and subscribed in
  between, the tasks a listen loop created for a topic are, each once and in stream order, those of
  the entries from the first one read up to its offset, for the listeners of the moment each entry
  was handled. A restart repeats no task iff no older loop is still running.
* **Consolidation.** For every interleaving of recordings and cycles, several cycles at once
  included, each consolidated fingerprint has exactly one record; and if at most `limit` episodes
  arrive between the starts of two cycles, none is missed. The graph holds exactly the relations and
  entities, and the facts exactly the goals, that the saved episodes call for.
* **Other protocols.** Lossy telemetry queues and the sliding login window keep their invariants over
  arbitrary runs, and what was delivered or lost follows from the events of the run. Versioned facts
  under lock levels keep theirs over arbitrary runs of calls that do not overlap, and the active
  version has the aliases and metadata last given.
* **Packing.** The context package is the greedy choice, which is unique, maximal and prefers earlier
  records; whether it fits the budget is decided by goal, history and personal facts alone, and an
  overrun consists of exactly those.

Where a promise fails, an input is given and the exact condition is proved:

* `add` is documented as overwriting, but re-adding a record object that was changed while indexed
  leaves its *old* tags in the tag index: the id is filed right iff no tag was given up
  (`MemoryIndex.ReaddAfterMutation`), and without re-adding iff the tags are the same
  (`MemoryIndex.MutationWithoutReadd`). At the end of an update, whatever ran at its awaits, it is
  filed right iff each tag it is filed under is carried by the updated object or the one cached by
  then (`MemoryEngine.MemoryEngine.FinishUpdate`). `MemoryEngine.StaleTagExample`,
  `MemoryEngine.HitRepairsExample` and `MemoryEngine.DeletionUndoneExample` reach such states.
* The audit follows self-imports and the validator drops them, so their verdicts differ exactly when
  self-imports are the only cycles (`CycleCheck.AuditVersusValidator`, `CycleCheck.SelfImportExample`).
* `add_edge` with an unknown module fails after the edge set has already grown, and for an unknown
  target after the source's adjacency has, too (`ImportGraph.DependencyGraph.AddEdge`).
* A save under an id that is already indexed with another hash leaves a hash that leads to a record
  without it (`RecordStore.SoundKeptIff`, `RecordStore.SoundLostExample`); a record becomes
  unfindable by hash iff an operation writes a hash that another record has
  (`RecordStore.CompleteKeptIff`, `RecordStore.CompleteLostExample`).
* `count` includes archived records: it equals the length of a default listing iff no record that
  matches otherwise is archived (`RecordStore.ArchivedCounted`, `RecordStore.ArchivedCountedExample`).
* A window of recent episodes has at most `limit` of them iff the limit is positive, or zero on an
  empty journal: zero means the whole journal (`Consolidation.WindowIsTail`). Once all cycles have
  finished, the journal is consolidated iff what the windows skipped recurs in one of them
  (`ConsolidationRuns.NoneMissedIff`, `ConsolidationRuns.MissedExample`).
* An episode leaves dangling relations iff it has no mission, its goal is no entity, and entities are
  extracted from it, none of them the goal (`Consolidation.EndpointsKeptIff`,
  `Consolidation.DanglingExample`).
* The two traversals agree on symmetric relations iff the depth is not negative and every entity in
  reach has a row; for a negative depth the FIFO traversal returns nothing, the layer traversal the
  start alone (`GraphRepository.TraversalsCompared`).
* One active row per fact and namespace is kept iff a call is refused or no other active row of the
  namespace states the new fact when it writes (`PersonalMemory.UniqueFactsKeptIff`,
  `PersonalMemory.AliasTakesFactExample`). Of calls that overlap, one keeps the version chains iff the
  version it supersedes is still active (`PersonalMemory.OverlapKeepsChainsIff`), the locks iff no row
  of the memory refuses it (`PersonalMemory.OverlapKeepsLocksIff`), and aliases and metadata iff it
  brings what any row of the memory has (`PersonalMemory.OverlapKeepsCarriedIff`);
  `PersonalMemory.OverlapExample` breaks chains and locks.
* Until a request for a topic is answered, each asks from the end of the stream, and the loop's reading
  begins where the last of them asks. An entry before that position is missed for good, and of the
  entries the loop has passed those, and only those, go to no listener that was there although they
  parse (`ListenLoop.MissedIff`, `EventBus.LostBetweenRequests`).
* Starting a bus repeats no task of an earlier loop if none is running
  (`EventBus.RedisEventBus.RestartRepeatsNothing`); if one is, from any state and on any topic the
  run can go on so that both loops create the same task (`EventBus.StartRepeats`,
  `EventBus.StartedTwice`).
* A context package overruns its budget iff goal, history and personal facts do
  (`ContextPackage.MemoryContextBuilder.BuildContextPackage`, `ContextPackage.OverrunExample`).

The files: `Basics`, `Reachability` (shared notions); `ImportGraph`, `TarjanView` (the search
through sets, its invariant and steps), `TarjanSearch` (the concrete state tied to that view),
`Tarjan` (the code), `CycleCheck`, `AuditCycle`; `KnowledgeGraph`, `GraphRepository`; `MemoryIndex`,
`RecencyList`, `MemoryEngine`; `EmbeddingCache`; `RecordStore`; `Broadcaster`; `ListenLoop` (one loop
as a value), `EventBus` (the code); `RateLimit`; `PersonalMemory`; `Consolidation` (the code and one
cycle), `ConsolidationRuns` (runs); `ContextPackage`. Fields and results marked `ghost`, and fields
commented as being for the proof, have no counterpart in the program. Code between two awaits is one
step; an operation that awaits is given by its steps, and where a method joins them its comment says
that nothing else runs in between. Replies of databases, servers, language models and clocks are
arguments. Python's sets are iterated in an arbitrary order, its dictionaries in insertion order.

## Model

| member | source | states |
|---|---|---|
| ImportGraph.DependencyGraph.AddNode | scripts/dgv.py:169-172 | registering a module keeps edge set and both adjacency dictionaries the same relation |
| ImportGraph.DependencyGraph.AddEdge | scripts/dgv.py:174-180 | self-edges are ignored; the three relations stay equal iff both modules are registered; otherwise the edge set has grown, with a known source its adjacency too, and the reverse adjacency has not |
| ImportGraph.DependencyGraph.Successors | scripts/dgv.py:182-183 | exactly the targets of edges from the node, none for an unknown node |
| ImportGraph.DependencyGraph.Predecessors | scripts/dgv.py:185-186 | exactly the sources of edges into the node |
| ImportGraph.DependencyGraph.FanOut | scripts/dgv.py:188-189 | the number of edges leaving the node |
| ImportGraph.DependencyGraph.FanIn | scripts/dgv.py:191-192 | the number of edges entering the node |
| ImportGraph.DependencyGraph.DegreesSumToEdges | scripts/dgv.py:164-192 | fan-outs and fan-ins both add up to the number of edges |
| TarjanView.DiscoverInv | scripts/dgv.py:396-402 | numbering a new node keeps the search invariant |
| TarjanView.ScanBackEdge | scripts/dgv.py:403-404 | lowering a lowlink to the number of a stack node keeps the search invariant |
| TarjanView.RetreatInv | scripts/dgv.py:390-393 | passing a lowlink to the parent frame keeps the search invariant |
| TarjanView.EmitInv | scripts/dgv.py:381-389 | popping the nodes of a closed visit keeps the search invariant, in particular that finished nodes have no edge to unfinished ones |
| TarjanView.OwnedIsComponent | scripts/dgv.py:381-389 | the nodes popped when lowlink equals number are one whole strongly connected component |
| TarjanView.OwnedEdgesStay | scripts/dgv.py:381-389 | every edge out of the popped nodes stays among them or enters a finished component |
| TarjanSearch.TreeStep | scripts/dgv.py:376-402 | following an edge to a new node keeps the concrete state consistent |
| TarjanSearch.BackStep | scripts/dgv.py:376-404 | an edge to a node on the stack keeps the concrete state consistent |
| TarjanSearch.SkipStep | scripts/dgv.py:376-404 | an edge to a finished node needs no action |
| TarjanSearch.RetreatStep | scripts/dgv.py:380-394 | a visit ending below its own number always has a parent frame, and handing over to it keeps the state consistent |
| TarjanSearch.EmitStep | scripts/dgv.py:380-394 | a visit ending at its own number emits a component and keeps the state consistent |
| Tarjan.SccSearch.Enter | scripts/dgv.py:397-401 | numbers the node, pushes it and marks it as on the stack |
| Tarjan.SccSearch.PopComponent | scripts/dgv.py:382-388 | pops the stack down to the node, clearing exactly the flags of what it pops |
| Tarjan.SccSearch.Follow | scripts/dgv.py:376-404 | handling one produced successor keeps the state consistent and makes progress |
| Tarjan.SccSearch.Close | scripts/dgv.py:380-394 | handling an exhausted iterator keeps the state consistent and drops a frame |
| Tarjan.SccSearch.EmitComponent | scripts/dgv.py:381-393 | when lowlink equals number a component is popped, and the parent's lowlink stays as it was |
| Tarjan.SccSearch.Retreat | scripts/dgv.py:390-393 | otherwise there is a parent frame, and it takes over the smaller lowlink |
| Tarjan.SccSearch.StrongConnect | scripts/dgv.py:367-404 | the work-stack loop terminates with an empty stack, having numbered its start |
| Tarjan.TarjanScc | scripts/dgv.py:354-410 | the result is the partition of the nodes into strongly connected components, in reverse topological order; nodes are pushed and edges consumed exactly once |
| Tarjan.PartitionUnique | scripts/dgv.py:354-410 | two results for one graph have the same components, whatever the iteration order |
| CycleCheck.SccOnCycle | scripts/dgv.py:413-424 | without self-edges, a node is on a cycle iff its component has at least two nodes |
| CycleCheck.FindCycles | scripts/dgv.py:413-424 | the listed components are disjoint, whole, and together hold exactly the nodes on cycles |
| CycleCheck.CheckCycles | scripts/dgv.py:529-543 | a module gets a violation iff it lies on a cycle, and then one, naming its component; none iff the graph is acyclic |
| CycleCheck.AuditVersusValidator | audit/architecture_audit.py:120-130 | with self-imports kept there is a cycle iff there is a self-import or a component of two nodes once they are dropped |
| CycleCheck.SelfImportExample | scripts/dgv.py:174-176 | a module that imports only itself is reported by the audit and not by the validator |
| AuditCycle.CycleSearch.Dfs | audit/architecture_audit.py:115-134 | returns a cycle path, or completes the node with stack and colours restored |
| AuditCycle.CyclePathSound | audit/architecture_audit.py:124-126 | every node of a reported path lies on a cycle of real edges |
| AuditCycle.FindCycle | audit/architecture_audit.py:109-142 | a closed path of real edges between known modules without repeated interior nodes, and it is found iff a cycle exists |
| KnowledgeGraph.KnowledgeGraph.GetNeighbors | core/memory/knowledge_graph.py:44-52 | one entry per relation touching the entity, naming the other end |
| KnowledgeGraph.NearerVisited | core/memory/knowledge_graph.py:60-68 | everything closer than the head of the queue has been visited |
| KnowledgeGraph.HeadDistance | core/memory/knowledge_graph.py:60-65 | an entity is first popped at its true distance |
| KnowledgeGraph.KnowledgeGraph.Traverse | core/memory/knowledge_graph.py:54-69 | exactly the entities within the depth, each once, in nondecreasing distance |
| GraphRepository.NextLayer | core/memory/graph.py:250-256 | the new targets turn the ball of one radius into the ball of the next |
| GraphRepository.LayersDone | core/memory/graph.py:239-269 | stopping early loses nothing |
| GraphRepository.GraphRepository.Expand | core/memory/graph.py:243-256 | the next layer is exactly the unvisited targets of edge rows whose source is in the current one |
| GraphRepository.GraphRepository.FetchRows | core/memory/graph.py:261-267 | exactly the stored nodes of the layer are added, each once |
| GraphRepository.GraphRepository.Traverse | core/memory/graph.py:226-271 | nothing for an unknown start, otherwise exactly the stored nodes within the depth along outgoing edges, each once, while the tables stay as they are |
| GraphRepository.BallsCompared | core/memory/graph.py:242-256 | the outgoing ball is inside the two-way ball, and equal to it on symmetric relations |
| GraphRepository.TraversalsCompared | core/memory/graph.py:226-271 | from a stored start over the same relations, the layer result is within the FIFO result for depths that are not negative; on symmetric relations the two are the same iff the depth is not negative and every entity in reach has a row |
| MemoryIndex.SortByTimeSorts | core/memory/memory_index.py:63-64 | the time list is sorted and keeps its entries |
| MemoryIndex.SortIsStable | core/memory/memory_index.py:63-64 | records of one time keep their order |
| MemoryIndex.MemoryIndex.Add | core/memory/memory_index.py:40-64 | replaces the record in all four indexes; the id is taken from under the tags that the record indexed before carries now |
| MemoryIndex.MemoryIndex.Remove | core/memory/memory_index.py:66-88 | takes the record out of all four indexes and returns it |
| MemoryIndex.MemoryIndex.GetByTag | core/memory/memory_index.py:94-97 | the indexed records filed under the tag, each once, which are those carrying it while the tag index is right |
| MemoryIndex.MemoryIndex.GetByType | core/memory/memory_index.py:99-102 | exactly the records of the type, each once |
| MemoryIndex.MemoryIndex.GetByTimeRange | core/memory/memory_index.py:104-115 | exactly the records created in the closed interval, each once, oldest first |
| MemoryIndex.MemoryIndex.Clear | core/memory/memory_index.py:117-122 | empties all four indexes |
| MemoryIndex.RightAfterAdd | core/memory/memory_index.py:42-60 | after an addition the id is filed right iff each tag it was filed under is carried by the new record or the one indexed before; other ids stay right |
| MemoryIndex.ReaddAfterMutation | core/memory/memory_index.py:42-60 | re-adding a record changed in place leaves it filed right iff no old tag was given up |
| MemoryIndex.MutationWithoutReadd | core/memory/memory_engine.py:233-254 | a change that is not re-added leaves the record filed right iff the set of tags is unchanged |
| RecencyList.SmallerCacheIsSuffix | core/memory/memory_engine.py:185-196 | on any history of touches and deletions a smaller cache holds a suffix of a larger one |
| RecencyList.MostRecentlyTouched | core/memory/memory_engine.py:185-196 | without deletions the list is the last ids in order of most recent touch, up to the capacity |
| MemoryEngine.MemoryEngine.LruInvariant | core/memory/memory_engine.py:64-66 | in every reachable state the list has no duplicates, fits the capacity and holds exactly the cached ids |
| MemoryEngine.MemoryEngine.Evict | core/memory/memory_engine.py:193-196 | keeps the most recent entries with their records; each evicted id leaves the tags its record carries |
| MemoryEngine.MemoryEngine.UpdateLru | core/memory/memory_engine.py:185-196 | files the record, makes it the most recent and evicts the oldest; exactly when its tags are right afterwards |
| MemoryEngine.MemoryEngine.Store | core/memory/memory_engine.py:86-183 | caches the known record when the content is known, the new one otherwise, and leaves the other records that stay as they were |
| MemoryEngine.MemoryEngine.RetrieveCached | core/memory/memory_engine.py:198-204 | up to the await: a cached record is returned and becomes the most recent, a miss changes nothing |
| MemoryEngine.MemoryEngine.RetrieveStored | core/memory/memory_engine.py:206-212 | after the await: the stored record is cached, whatever ran meanwhile |
| MemoryEngine.MemoryEngine.Retrieve | core/memory/memory_engine.py:198-212 | the cached record if there is one, else the stored one, which becomes the most recent |
| MemoryEngine.MemoryEngine.FinishUpdate | core/memory/memory_engine.py:239-254 | after the await, in any state: an accepted record is cached again with the new version and filed right iff each tag it is filed under is carried by it or the record cached now; a refused update does nothing more |
| MemoryEngine.MemoryEngine.Update | core/memory/memory_engine.py:214-254 | an update that runs alone: what record and cache hold afterwards for every id and capacity, and exactly when the tags are right |
| MemoryEngine.StaleTagExample | core/memory/memory_engine.py:234-243 | an accepted update that drops the only tag leaves the record filed under it |
| MemoryEngine.HitRepairsExample | core/memory/memory_engine.py:198-243 | a refused update that gained a tag is put right by a retrieval during its await |
| MemoryEngine.DeletionUndoneExample | core/memory/memory_engine.py:239-264 | a deletion during the await of an accepted update is undone |
| MemoryEngine.MemoryEngine.Delete | core/memory/memory_engine.py:256-275 | the id leaves list and index whatever the repository answers |
| EmbeddingCache.HitsAreRight | core/memory/embeddings.py:100-111 | cache hits are right for every text and reachable cache iff texts of equal hash have equal embeddings |
| EmbeddingCache.CachedEmbeddingGenerator.FinishOne | core/memory/embeddings.py:112-124 | after a miss, whatever happened to the cache: the delegate's answer, now cached, or a timeout that caches nothing |
| EmbeddingCache.CachedEmbeddingGenerator.GenerateEmbedding | core/memory/embeddings.py:104-124 | alone: the cached answer, a timeout that caches nothing, or the delegate's answer now cached; one hit or miss is counted |
| EmbeddingCache.CachedEmbeddingGenerator.LookUp | core/memory/embeddings.py:130-142 | hits are filled in, the missing texts are listed in order with their positions, and each text counts once |
| EmbeddingCache.CachedEmbeddingGenerator.Fill | core/memory/embeddings.py:145-154 | every open place gets the answer for its own text, whatever happened to the cache meanwhile |
| EmbeddingCache.CachedEmbeddingGenerator.GenerateEmbeddings | core/memory/embeddings.py:126-161 | alone: answers position by position for any mix of hits, misses and duplicates; a timeout leaves the cache alone |
| RecordStore.OneStep | core/memory/memory_repository.py:142-202 | an operation never changes identity or creation time, and every change raises the version by one |
| RecordStore.VersionsGrow | core/memory/memory_repository.py:142-202 | over any run with fresh saves a record is never lost and differs only at a higher version |
| RecordStore.AtMostOneUpdateWins | core/memory/memory_repository.py:146-166 | of two updates expecting the same version of a record at most one succeeds |
| RecordStore.FieldsOverRuns | core/memory/memory_repository.py:125-174 | over every run, content, hash, owner, type and visibility of a record are those of the last successful update that gave one, else those saved |
| RecordStore.SoundKeptIff | core/memory/memory_repository.py:125-129 | a hash keeps leading to a record that has it iff no save gives an indexed record another hash |
| RecordStore.SoundLostExample | core/memory/memory_repository.py:125-129 | a record saved again with another hash is found under the first one |
| RecordStore.CompleteKeptIff | core/memory/memory_repository.py:125-172 | with fresh saves every record stays findable by hash iff the operation writes no hash that another record has |
| RecordStore.CompleteLostExample | core/memory/memory_repository.py:125-140 | of two records of one hash only the second is findable |
| RecordStore.HashIndexOverRuns | core/memory/memory_repository.py:125-202 | over whole runs from the empty repository hashes lead to records that have them, and every record was always findable iff no operation wrote a hash in use |
| RecordStore.HiddenAfter | core/memory/memory_repository.py:176-230 | a deleted or archived record shows exactly to the queries that ask for it and match it otherwise |
| RecordStore.ListingHolds | core/memory/memory_repository.py:216-245 | a listing holds exactly the matching records, each once |
| RecordStore.AllListed | core/memory/memory_repository.py:216-245 | without any restriction the listing is the whole repository in insertion order |
| RecordStore.FiltersRestrict | core/memory/memory_repository.py:232-243 | each of the filters by owner, type, visibility and session leaves exactly the records that have what it asks for, in order |
| RecordStore.DefaultsRestrict | core/memory/memory_repository.py:216-230 | the defaults leave out exactly the expired and the archived records |
| RecordStore.CountsAddUp | core/memory/memory_repository.py:270-291 | the count without owner is the sum of the counts of the owners there are |
| RecordStore.PagesConcatenate | core/memory/memory_repository.py:247 | pages taken at one time put together are the full listing |
| RecordStore.InMemoryRecordRepository.SaveRecord | core/memory/memory_repository.py:125-129 | files the record and points its hash at it |
| RecordStore.InMemoryRecordRepository.GetByHash | core/memory/memory_repository.py:135-140 | a stored record if any; one with the hash while the index is sound; the record with the hash while the index is complete |
| RecordStore.InMemoryRecordRepository.UpdateRecord | core/memory/memory_repository.py:142-174 | succeeds iff the record exists at the expected version; then each given field has its value, each other its old one, no other record changes, and its hash entry moves |
| RecordStore.InMemoryRecordRepository.DeleteRecord | core/memory/memory_repository.py:176-188 | marks the record as expired in the past |
| RecordStore.InMemoryRecordRepository.ArchiveRecord | core/memory/memory_repository.py:190-202 | marks the record with the far-future sentinel |
| RecordStore.InMemoryRecordRepository.ListRecords | core/memory/memory_repository.py:204-247 | one slice of the matching records in insertion order, each of which has the asked owner, type, visibility and session and is neither expired nor archived unless asked for |
| RecordStore.InMemoryRecordRepository.Count | core/memory/memory_repository.py:270-291 | the length of the listing that includes archived records |
| RecordStore.ArchivedCounted | core/memory/memory_repository.py:228-291 | that is the length of the default listing iff no record that matches otherwise is archived |
| RecordStore.ArchivedCountedExample | core/memory/memory_repository.py:190-291 | one archived record is counted and not listed |
| Broadcaster.StepOk | api/broadcaster.py:72-109 | every broadcast and every step of the sender loop keeps the client invariant |
| Broadcaster.RunOk | api/broadcaster.py:72-109 | the invariant holds in every state of every interleaving |
| Broadcaster.ClientGuarantees | api/broadcaster.py:72-109 | the queue is a suffix of the broadcast frames; delivered, in-flight and queued frames are in broadcast order; all frames are accounted for; a frame is dropped only once maxsize newer ones exist; unfinished tasks are queued plus in-flight |
| Broadcaster.HistoryOf | api/broadcaster.py:72-107 | in every run the offered frames are those broadcast, a frame was taken for each resumption and delivered for each successful send, and the loop has stopped iff a send failed, at most once |
| Broadcaster.NothingAfterFailure | api/broadcaster.py:99-107 | after a failed send nothing is taken or sent, and the lost frame was broadcast after every delivered one |
| Broadcaster.TelemetryBroadcaster.Connect | api/broadcaster.py:48-53 | the client starts with an empty queue |
| Broadcaster.TelemetryBroadcaster.Disconnect | api/broadcaster.py:58-67 | the client is gone, others are untouched |
| Broadcaster.TelemetryBroadcaster.Broadcast | api/broadcaster.py:72-90 | every connected client's queue gets the frame at its end, and loses its oldest frame iff it was full |
| Broadcaster.TelemetryBroadcaster.SenderTake | api/broadcaster.py:98 | the sender takes the head of the queue and leaves the rest |
| Broadcaster.TelemetryBroadcaster.SenderFinish | api/broadcaster.py:99-107 | either way the item is done; after a success the frame is delivered and the loop waits, after a failure it is lost and the loop has stopped |
| ListenLoop.DueMembers | core/events/redis_bus.py:211-223 | a task is due iff its entry was read and parses and its listener was there at that moment |
| ListenLoop.DueInOrder | core/events/redis_bus.py:204-223 | tasks are due in stream order |
| ListenLoop.DueByListener | core/events/redis_bus.py:214-221 | the tasks of one entry are in the order of its listeners |
| ListenLoop.DueOnce | core/events/redis_bus.py:216-223 | no entry is due twice to one listener |
| ListenLoop.AdvanceOk | core/events/redis_bus.py:204-223 | handling the entries of a batch keeps the loop's invariant for every topic and all it had read |
| ListenLoop.ReplyMoves | core/events/redis_bus.py:204-223 | a reply moves each of its topics past its batch and records who listened |
| ListenLoop.ReplyLeaves | core/events/redis_bus.py:204-223 | a reply leaves offset, tasks and history of all other topics alone, and nowhere changes where reading begins |
| ListenLoop.AskingOk | core/events/redis_bus.py:189-195 | asking keeps the loop's invariant and all it had read, and moves the beginning of reading only for topics not read yet |
| ListenLoop.MissedIff | core/events/redis_bus.py:189-223 | in every later state no task lies before where reading begins, and once the topic is read a task passed by the loop was created iff it is not before that position, parses, and had its listener |
| EventBus.RedisEventBus.Initialize | core/events/redis_bus.py:44-64 | the client is kept even when the first ping fails |
| EventBus.RedisEventBus.Start | core/events/redis_bus.py:66-75 | fails without a client, otherwise begins a new loop that has read nothing, beside any other |
| EventBus.RedisEventBus.CancelLoop | core/events/redis_bus.py:79-81 | up to the first await of `stop`: the bus is inactive and the loop started last is cancelled |
| EventBus.RedisEventBus.Stop | core/events/redis_bus.py:77-98 | a stop that runs alone cancels the loop started last and drops the client |
| EventBus.RedisEventBus.Publish | core/events/redis_bus.py:112-143 | appends to the topic's stream, raises without appending, or drops the message when inactive |
| EventBus.RedisEventBus.Subscribe | core/events/redis_bus.py:145-164 | the listener is appended to its topic |
| EventBus.RedisEventBus.Unsubscribe | core/events/redis_bus.py:166-175 | the listener leaves its topic; the topic stays known |
| EventBus.RedisEventBus.BeginPoll | core/events/redis_bus.py:182-200 | a loop of an inactive bus ends; otherwise every subscribed topic is requested from its offset, one not read yet from the end of its stream, where its reading now begins |
| EventBus.RedisEventBus.HandleEntry | core/events/redis_bus.py:205-223 | the offset moves past the entry and each listener gets one task if it parses; nothing else changes |
| EventBus.RedisEventBus.HandleBatch | core/events/redis_bus.py:204-229 | all entries of a batch are handled in order |
| EventBus.RedisEventBus.FinishPoll | core/events/redis_bus.py:198-235 | the loop after a reply is the one after its batches, and no other loop changes |
| EventBus.RedisEventBus.ReadContiguously | core/events/redis_bus.py:177-229 | in every reachable state the tasks a loop created for a topic are distinct, in stream order, and exactly those of the parsable entries from the first one read up to the next one to read for the listeners of each moment |
| EventBus.RedisEventBus.RestartRepeatsNothing | core/events/redis_bus.py:66-98 | a loop that started while no other ran creates no task that an earlier one created |
| EventBus.StartRepeats | core/events/redis_bus.py:66-75 | the converse: from any state, a start beside a running loop can be continued, on any topic, so that both create the same task |
| EventBus.StartedTwice | core/events/redis_bus.py:66-75 | starting an active bus makes two loops that both create the task of one entry |
| EventBus.LostBetweenRequests | core/events/redis_bus.py:191-202 | of two entries, the one published between two unanswered requests for a topic never read is skipped and the other delivered |
| RateLimit.CountBounded | api/middleware/rate_limit_middleware.py:53-68 | times a window apart `limit` positions on bound every closed window |
| RateLimit.CountInMeans | api/middleware/rate_limit_middleware.py:53-68 | the count of a window is the number of accepted times in it |
| RateLimit.RateLimiter.EveryWindowWithinLimit | api/middleware/rate_limit_middleware.py:44-68 | in every reachable state each closed window holds at most `limit` accepted attempts of an address |
| RateLimit.RateLimiter.Expire | api/middleware/rate_limit_middleware.py:53-55 | what is left are the accepted times of the window that ends now |
| RateLimit.RateLimiter.Attempt | api/middleware/rate_limit_middleware.py:44-68 | refused iff `limit` accepted attempts lie in the window; the queue is exactly the window's accepted times |
| PersonalMemory.AppliedChains | core/memory/intelligence.py:149-222 | whichever match a call takes, it keeps the version chains: numbered from 1 without gaps, one namespace, one creation time, the last version active and no other, counters following the version |
| PersonalMemory.AppliedLocks | core/memory/intelligence.py:150-170 | whichever match a call takes, a pinned chain stays pinned, a system-locked version is never superseded, aliases and metadata are carried forward |
| PersonalMemory.LastGivenOverRuns | core/memory/intelligence.py:162-166 | over every run of calls that do not overlap, the active version of a memory has the aliases and the metadata of the last successful call for it that gave any |
| PersonalMemory.OverlapKeepsChainsIff | core/memory/intelligence.py:129-222 | a call that overlaps others keeps the chains iff the version it supersedes is still active when it writes |
| PersonalMemory.OverlapKeepsLocksIff | core/memory/intelligence.py:129-170 | it keeps the locks iff no row of the memory refuses it when it writes |
| PersonalMemory.OverlapKeepsCarriedIff | core/memory/intelligence.py:129-170 | it carries aliases and metadata on iff no row of the memory has some that it lacks |
| PersonalMemory.OverlapExample | core/memory/intelligence.py:129-222 | two calls that read one version and write in turn leave two active versions and a superseded lock |
| PersonalMemory.UniqueFactsKeptIff | core/memory/intelligence.py:134-147 | one active row per fact and namespace is kept iff the call is refused or no other active row states the fact when it writes |
| PersonalMemory.AliasTakesFactExample | core/memory/intelligence.py:135-147 | a fact that is matched through another row's alias is then stated twice |
| PersonalMemory.VersionsAreOneToN | core/memory/intelligence.py:176-181 | a memory's versions are exactly 1 to n, n being its one active version |
| PersonalMemory.HasActiveVersion | core/memory/intelligence.py:172-192 | every memory has an active version |
| PersonalMemory.MemoryIntelligenceService.FindMatch | core/memory/intelligence.py:129-147 | the first row of the query's reply, in any order, that is active in the namespace and states the fact up to case and surrounding blanks or shares an alias; none only if there is none |
| PersonalMemory.MemoryIntelligenceService.WriteVersion | core/memory/intelligence.py:149-223 | given the match as it was read, whatever was written meanwhile: a refusal changes nothing; a success appends one row whose fact, tier, namespace and lock are those of the call, whose aliases and metadata are the given ones or else the superseded row's, and deactivates that row alone |
| PersonalMemory.MemoryIntelligenceService.AddOrUpdateMemory | core/memory/intelligence.py:91-223 | a call that runs alone keeps all invariants and writes that row; a refused one changes nothing |
| Consolidation.WindowIsTail | core/memory/episodic_memory.py:33 | the last `limit` episodes, all of them for limit zero, all but the first ones for a negative limit; at most `limit` iff the limit is positive, or zero on an empty journal |
| Consolidation.AbsorbAllSavesOnce | core/memory/consolidation.py:77-83 | each distinct fingerprint has exactly one long-term record, and those of the window are all consolidated |
| Consolidation.NothingNew | core/memory/consolidation.py:78-80 | a cycle that sees nothing new changes nothing |
| Consolidation.MissionCallsFor | core/memory/consolidation.py:95-129 | an episode adds (mission, goal) as PURSUED_GOAL always, COMPLETED iff its outcome is SUCCESS, FAILED_AT iff it is FAILED or ERROR, and from the goal to each extracted entity its relation; nothing else |
| Consolidation.MissionGiven | core/memory/consolidation.py:95-103 | mission and goal get their entities, the goal before the mission, and every other name keeps its own |
| Consolidation.NamedLast | core/memory/consolidation.py:119-124 | a name has the kind it was extracted with last |
| Consolidation.AbsorbAllProjects | core/memory/consolidation.py:77-137 | over a cycle or several, the graph has a relation iff it had it or a saved episode calls for it, each name the entity given last, the facts are the non-empty goals of the saved episodes in order, and the counters are exact |
| ConsolidationRuns.RecordedOnce | core/memory/consolidation.py:77-83 | in every state of every run, several cycles at once included, each consolidated fingerprint has exactly one record |
| ConsolidationRuns.AllAccounted | core/memory/consolidation.py:74-83 | whatever a cycle was given is consolidated or still before it, and nothing else is consolidated |
| ConsolidationRuns.ConsolidatedIffTaken | core/memory/consolidation.py:74-83 | once all cycles have finished, a fingerprint is consolidated iff some window held it |
| ConsolidationRuns.NoneMissedIff | core/memory/consolidation.py:74-83 | then the journal up to the last cycle's start is consolidated iff what the windows skipped recurs in one |
| ConsolidationRuns.NoneMissed | core/memory/consolidation.py:56-83 | if never more episodes arrive between two cycles than the next one looks back, each of them has exactly one record once all cycles have finished |
| ConsolidationRuns.MissedExample | core/memory/episodic_memory.py:33 | of two episodes recorded before a cycle that looks back one, the first is missed |
| ConsolidationRuns.CycleIsRun | core/memory/consolidation.py:74-83 | an uninterrupted cycle is the run of its turns |
| Consolidation.StatsCountGrowth | core/memory/consolidation.py:67-137 | the counters tell how many records and facts were added, and bound how many entities and relations were |
| Consolidation.EndpointsKeptIff | core/memory/consolidation.py:95-129 | relations stay between known entities unless an episode has no mission, names an unknown goal and mentions entities, none of them the goal |
| Consolidation.DanglingExample | core/memory/consolidation.py:119-129 | an episode without mission leaves a dangling relation in an empty graph |
| Consolidation.EndpointsOfMissions | core/memory/consolidation.py:95-129 | episodes with a mission never leave a dangling relation |
| Consolidation.MemoryConsolidation.Consolidate | core/memory/consolidation.py:56-137 | the cycle saves episodes of its window, one record per fingerprint, and leaves facts, entities, relations and counters that they call for, and no others |
| Consolidation.MemoryConsolidation.Process | core/memory/consolidation.py:78-131 | a known fingerprint changes nothing; a new one is saved, and adds the fact, entities and relations it calls for |
| Consolidation.MemoryConsolidation.ProjectMission | core/memory/consolidation.py:95-117 | the entities and relations of mission, goal and outcome |
| Consolidation.MemoryConsolidation.ProjectFound | core/memory/consolidation.py:119-129 | every extracted entity is added, and linked to a non-empty goal |
| ContextPackage.GreedyWithinCap | core/memory/memory_context.py:56-63 | a segment never spends more than its cap |
| ContextPackage.EstimateTokens | core/memory/retrieval_engine.py:98-106 | a quarter of the length rounded down, at least one for a text that is not empty |
| ContextPackage.GreedyDetermined | core/memory/memory_context.py:67-76 | records and cap determine the choice and what it spends |
| ContextPackage.NoSkippedRecordFits | core/memory/memory_context.py:69-76 | no skipped record fits beside the finished segment |
| ContextPackage.EarlierRecordsFirst | core/memory/memory_context.py:80-87 | any other choice within the cap first differs by skipping a record that is kept |
| ContextPackage.MemoryContextBuilder.Pack | core/memory/memory_context.py:67-76 | the kept records are the greedy choice, in order |
| ContextPackage.MemoryContextBuilder.PackRecent | core/memory/memory_context.py:54-63 | the kept records are the greedy choice from the most recent back, in the original order |
| ContextPackage.MemoryContextBuilder.BuildContextPackage | core/memory/memory_context.py:35-119 | the tokens used, within the budget iff the goal and the greedy choices of history and personal facts are, an overrun consisting of exactly those and never above goal plus caps |
| ContextPackage.OverrunExample | core/memory/memory_context.py:49-51 | a goal longer than the budget overruns it |

## Left out

- FastAPI routes, DTOs, authentication, the kernel's wiring, command lines, health probes: thin wrappers and object construction.
- File walking and import parsing in the linter and the audit: the graphs are taken as given. `orphans` and the single-branch lint rules would only add easy members.
- CycleCheck.CheckCycles: the printed text of a violation is not modelled, only the module blamed and the component it lists; sorting is any rearrangement.
- AuditCycle.CycleSearch.Dfs: Python's recursion limit is not modelled.
- GraphRepository.GraphRepository.Traverse: nothing writes to the tables between its queries; results are the ids of the rows; the conversion of rows to transfer objects is not modelled.
- Persistence and loading of the in-memory entity graph, and SQL, Redis and asyncio internals: tables are sets, maps or lists, streams are lists that grow.
- Broadcaster.TelemetryBroadcaster.Connect: a client's queue object and task are values in the client map, so a second connection of one socket, whose first sender task would live on, replaces the old entry.
- EventBus.RedisEventBus.Publish: trimming of streams to about ten thousand entries is not modelled, nor is an append that raises after it succeeded.
- EventBus.RedisEventBus.BeginPoll: a request reaches the server in the step that makes it.
- EventBus.RedisEventBus.Stop: stated for a stop that runs alone, `CancelLoop`, `ForgetTask` and `DropClient` being its steps; tasks are recorded when they are created; that stopping cancels those still pending is not modelled.
- MemoryEngine.MemoryEngine.Store: whether cached content equals stored content is not stated, as the program does not keep the two equal; hashing, events and the access counters are left out.
- EmbeddingCache.CachedEmbeddingGenerator.Fill: the delegate is deterministic and answers every text it is given; the vector arithmetic of the generators is left out.
- RecordStore.InMemoryRecordRepository.UpdateRecord: confidence, importance, trust level and cross-references of a record are not modelled, nor are values that fail validation; metadata search is left out.
- RecordStore.HiddenAfter: stated for clocks after the year 2000 and up to the year 9999, between the two sentinels.
- RateLimit.RateLimiter.Attempt: other paths than the login route pass through and are not modelled; the clock does not go back.
- PersonalMemory.MemoryIntelligenceService.AddOrUpdateMemory: embedding tags, confidence and provenance, and confirm, forget, purge, retrieval and auto-classification are left out.
- Consolidation.MemoryConsolidation.Consolidate: stated for a cycle that runs alone; with others under way `ConsolidationRuns` covers fingerprints and records, not the order in which facts and graph entries are written. The long-term memory is empty at first and nothing else writes to it; exceptions in mid-cycle and callers that change an episode after recording it are not modelled; facts are represented by their concept.
- ContextPackage.MemoryContextBuilder.BuildContextPackage: the assembled text with its headings is not modelled, and the two percentage caps are arbitrary functions of the budget.
- Records of `RecordStore` are values: that its callers share the stored objects is not modelled there, only in the cache.
