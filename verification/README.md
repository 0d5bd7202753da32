# Verified model of sqlitegraph's traversal, transaction and generator core

This Dafny project models the parts of sqlitegraph on which its promises rest and proves them for
every graph, every run and every input:

- **Traversal** (`Adjacency`, `Levels`, `Frontier`, `Bfs`, `ShortestPath`, `AdjList`,
  `TraversalLaws`). The queue searches are proved against a reference that has no queue: `Level` and
  `Ball` list a graph level by level, and a node is in level k exactly when its shortest walk has k
  edges. `BfsNeighbors` returns the ball of its bound, the filtered search the ball of the typed
  adjacency, the in-memory adjacency list's search the same ball by a different cut-off, and the two
  path searches return a shortest path exactly when there is a walk, and a particular one: each node
  on it is the first in listing order that leads to the next.
- **Tables, cache, transactions, snapshots** (`Tables`, `Connection`, `Cache`, `Mvcc`,
  `FaultInjection`, `GraphObject`, `Batch`, `Stored`, `GraphOpt`, `Machine`, `Runs`, `Snapshots`, `Safety`).
  The SQL connection holds the committed tables, the working copy of an open transaction and a
  supply of outcomes, so any set of engine calls, COMMIT and ROLLBACK included, may fail. Every read
  and write of the graph object has a contract that says which step of `Machine` it takes; the
  contract of a search through the caches says which reads it is, one after the other. The last
  three modules prove what holds over all sequences of steps. What the specification functions mean
  is stated once more in the fields of the rows and entries themselves: which rows make a neighbour
  list, which entries a bulk insert stores, what each write changes.
- **Generators** (`PairIndex`, `RandomEdges`, `ScaleFree`, `Dataset`). Random draws are supplied
  values. Pair un-ranking is a bijection, the skip-sampling generator is a strictly increasing choice,
  and preferential attachment with running counters equals a reference that recounts every degree and
  spends the fewest draws that meet enough different nodes.
- **Pattern language** (`Dsl`, `Strings`). The arrow law, the repeat law and a round trip.

`dafny verify dfyconfig.toml` checks the whole project.

## What the proofs found

- Bulk edge inserts recognise duplicates within a chunk only, so the chunk size changes the stored
  graph; it makes no difference exactly when no edge key occurs in two chunks (`EdgeChunkingExact`,
  `DuplicateAcrossChunks`). For entities the chunk size never matters.
- A bulk commit empties the caches before it publishes them, so what it publishes is the empty
  snapshot (`Machine.AfterCommits`, `PublishedExact`). An acquired snapshot holds exactly the lists
  read since the last invalidation: it can miss stored nodes and it can contain ids that were never
  stored (`SnapshotIsPointInTime`, `SnapshotEdgeCount`, `SnapshotOfNobody`). After a search it holds
  the nodes nearer than the bound, not those at the bound (`SnapshotOfSearch`). The method comment asks
  callers to warm the cache; the type's comment promises a view of the graph. The code is followed.
  Every reader of a snapshot, the counting ones included, publishes the caches again first, so the
  empty snapshot of a commit is never seen.
- A transaction is left open exactly when the engine refused a ROLLBACK, whose result every caller
  ignores, or refused the COMMIT of `insert_entities_bulk` or `insert_edges_bulk`, which return
  without a ROLLBACK although their comments promise one on any error (`OpenExact`,
  `RefusedCommitIsStale`). From then on BEGIN fails, no operation commits anything any more, and the
  single inserts still report success (`OpenIsForever`).
- The rows such a transaction leaves behind are visible to queries, and the caches are not emptied:
  a cached list becomes wrong exactly when such a row belongs to it, and stays wrong until it is
  forgotten (`CachedListExact`, `CacheCoherence`, `RefusedRollbackIsStale`). As long as no transaction is left open every cached list
  is right, whatever else fails (`ClosedIsCoherent`).
- The bulk inserts with chunks reject an edge from a node to itself with the message that an endpoint
  is missing; the other inserts accept it (`BulkRejectsLoops`).
- Deleting an entity is two statements without a transaction: if the second fails, edges dangle
  (`HalfDeleteDangles`).
- With an empty list of edge types the filtered search returns nothing, not even the start node,
  while the filtered path search returns the one-node path (`FilteredSearchesAgree`).
- The skip sampler may deliver fewer edges than asked for, even none (`FullDeliveryExact`,
  `NothingDelivered`), but never when all pairs are asked for (`CompleteRequest`).
- An edge added to the adjacency list before one of its endpoints stays one-sided
  (`AddEdgeMirror`, `MirrorAfterRun`, `LateNodeBreaksMirror`).
- The refill loop of the preferential-attachment generator is dead code (`Tidied`).
- A repeat count that does not fit the machine word is read as one (`RepeatLaw`, `StarLegs`).

## Model

| member | source | states |
|---|---|---|
| Levels.BallExact | sqlitegraph-core/src/bfs.rs:12-35 | the listing of bound k holds exactly the nodes some walk of at most k edges reaches |
| Levels.LevelExact | sqlitegraph-core/src/bfs.rs:28-32 | the depth a node is queued with is the length of its shortest walk: level k holds exactly the nodes at distance k |
| Levels.LevelInOrder | sqlitegraph-core/src/bfs.rs:28-32 | within a level: the first occurrences, in the lists of the level before read one after the other, of the nodes not listed before |
| Levels.BallNoDup | sqlitegraph-core/src/bfs.rs:29 | no node is listed twice |
| Levels.BallOrdered | sqlitegraph-core/src/bfs.rs:23-34 | the listing is in nondecreasing order of true distance |
| Levels.BallPrefix | sqlitegraph-core/src/bfs.rs:25-27 | the listing of a smaller bound is a prefix of the listing of a larger one |
| Levels.SaturatedExact | sqlitegraph-core/benches/adjlist_benchmark.rs:62-90 | once the bound reaches the number of nodes, exactly the reachable nodes are listed |
| Bfs.Enqueue | sqlitegraph-core/src/bfs.rs:28-32 | the neighbour loop queues exactly the first occurrences of unseen neighbours, in order, one level deeper |
| Bfs.BfsNeighbors | sqlitegraph-core/src/bfs.rs:12-35 | terminates and returns the ball of the bound over the adjacency read through the cache, which is the stored adjacency when the cache is coherent; its effect is exactly the reads of the nodes nearer than the bound, in listing order, up to an engine error; depths fit 32 bits; without engine errors it fails only for a missing start node |
| Bfs.BfsNeighborsFiltered | sqlitegraph-core/src/bfs.rs:37-66 | the same over the adjacency of allowed types in either direction; an empty type list yields the empty listing |
| ShortestPath.Scan | sqlitegraph-core/src/bfs.rs:85-94 | unseen neighbours are queued and hung below the node until the target is met |
| ShortestPath.TreeHang | sqlitegraph-core/src/bfs.rs:86-87 | the parent map stays a tree rooted at the start, each parent one level closer and adjacent |
| ShortestPath.Rebuild | sqlitegraph-core/src/bfs.rs:102-115 | both reconstruction loops terminate and return a shortest path; the exit for a path not ending at the start is unreachable |
| ShortestPath.ShortestPath | sqlitegraph-core/src/bfs.rs:68-116 | returns a shortest path exactly when the end is reachable, None exactly when it is not; each node of the path is the first in listing order that has the next as a neighbour; its effect is exactly the reads of the nodes listed up to the first that sees the end, the last but one of the path, or of all reachable nodes |
| ShortestPath.ShortestPathFiltered | sqlitegraph-core/src/bfs.rs:118-171 | the same answers and the same choice of path over the outgoing adjacency of allowed types, an empty list included; the caches are left alone |
| ShortestPath.FirstPathUnique | sqlitegraph-core/src/bfs.rs:85-94 | of all shortest paths exactly one has each node first in listing order to lead to the next, so the answer is determined |
| TraversalLaws.ShortestIsMinimal | sqlitegraph-core/src/bfs.rs:68-116 | no walk is shorter than the returned path, and the path repeats no node |
| TraversalLaws.SearchesAgree | sqlitegraph-core/src/bfs.rs:12-116 | a node is listed under depth d exactly when its shortest path has at most d edges |
| TraversalLaws.FilteredSearchesAgree | sqlitegraph-core/src/bfs.rs:45-47 | the filtered pair agrees exactly unless the type list is empty and the node is the start |
| TraversalLaws.WideningKeepsNodes | sqlitegraph-core/src/bfs.rs:37-66 | allowing more types never removes a node from the filtered listing |
| TraversalLaws.WideningKeepsPaths | sqlitegraph-core/src/bfs.rs:118-171 | allowing more types never loses or lengthens a filtered shortest path |
| TraversalLaws.FilteredPathIsWalk | sqlitegraph-core/src/bfs.rs:118-171 | a filtered path is a walk of the whole graph, at least as long as the unfiltered answer |
| TraversalLaws.AllTypesIsUnfiltered | sqlitegraph-core/src/bfs.rs:37-66 | with every stored type allowed the filtered search returns the very sequence of the plain one |
| TraversalLaws.SameListing | sqlitegraph-core/benches/adjlist_benchmark.rs:62-90 | on equal neighbour lists the adjacency list's search returns the sequence of the store's; unbounded, exactly the reachable nodes |
| AdjList.SimpleAdjList.AddNode | sqlitegraph-core/benches/adjlist_benchmark.rs:29-36 | the next id, with two empty lists; the mirror is kept |
| AdjList.SimpleAdjList.AddEdge | sqlitegraph-core/benches/adjlist_benchmark.rs:38-49 | each end is recorded once where its list exists; the mirror is kept exactly when both endpoints exist or neither does |
| AdjList.SimpleAdjList.Bfs | sqlitegraph-core/benches/adjlist_benchmark.rs:62-90 | discarding over-deep nodes on pop returns the ball of the bound, and without a bound exactly the reachable nodes |
| AdjList.AddEdgeMirror | sqlitegraph-core/benches/adjlist_benchmark.rs:38-49 | the exact condition under which one added edge keeps incoming and outgoing lists mirrored |
| AdjList.MirrorAfterRun | sqlitegraph-core/benches/adjlist_benchmark.rs:29-49 | over any run of additions, the exact condition for mirrored lists |
| AdjList.ListInOrder | sqlitegraph-core/benches/adjlist_benchmark.rs:38-49 | after any run of additions a list holds the first occurrences, in order, of the far ends pushed while its node was known |
| AdjList.LateNodeBreaksMirror | sqlitegraph-core/benches/adjlist_benchmark.rs:38-49 | a concrete run after which the lists are not mirrored |
| Tables.SelectRowsExact | sqlitegraph-core/src/graph/adjacency.rs:138-141 | the query returns every matching row as often as stored, and no other |
| Tables.NeighborListExact | sqlitegraph-core/src/graph/adjacency.rs:134-156 | u stands in the outgoing list of v once for every row with source v and target u, and in the incoming list once for every row with source u and target v |
| Tables.NeighborListAscending | sqlitegraph-core/src/graph/adjacency.rs:138-141 | both lists are ascending |
| Tables.NeighborMirror | sqlitegraph-core/src/graph/adjacency.rs:134-156 | v is in the outgoing list of u as often as u is in the incoming list of v |
| Tables.TypedListExact | sqlitegraph-core/src/multi_hop.rs:161-193 | u is in the typed list of v exactly when a row of an allowed type has source v and target u, for incoming lists source u and target v; the two directions mirror each other |
| Tables.TypedListAscending | sqlitegraph-core/src/multi_hop.rs:185-192 | the typed list is strictly ascending, so no neighbour repeats |
| Tables.CollapseAscending | sqlitegraph-core/src/multi_hop.rs:185-192 | collapsing adjacent repeats leaves each neighbour once, ascending |
| Tables.EndpointCountExact | sqlitegraph-core/src/graph_opt.rs:290-305 | the endpoint count reaches two exactly when both endpoints exist and differ |
| Tables.ValidExact | sqlitegraph-core/src/graph/types.rs:23-43 | an entity is valid exactly when kind and name hold a character that is not whitespace, an edge when its type does and both endpoints are positive |
| Tables.DeleteEdgeExact | sqlitegraph-core/src/graph/edge_ops.rs:107-117 | exactly the row of that id is gone; the others stay in their order |
| Tables.DeleteEntityExact | sqlitegraph-core/src/graph/entity_ops.rs:156-173 | the first statement removes the one entity, the second exactly the rows that start or end at it |
| GraphObject.SqliteGraph.Fetch | sqlitegraph-core/src/graph/adjacency.rs:134-156 | read-through: a hit returns the cached list, a miss stores what the query returned, an error stores nothing; coherence is kept |
| GraphObject.AfterReadsExact | sqlitegraph-core/src/graph/adjacency.rs:134-144 | after a row of reads exactly the nodes read are cached as well, as the query returns them |
| GraphObject.SqliteGraph.TypedAdjacency | sqlitegraph-core/src/multi_hop.rs:146-193 | the row loop returns the typed list and leaves the caches alone |
| GraphObject.SqliteGraph.AcquireSnapshot | sqlitegraph-core/src/graph/snapshot.rs:89-101 | publishes a copy of both caches and returns it, unless opening the snapshot's connection fails after the publication |
| GraphObject.SqliteGraph.SnapshotEdgeCount | sqlitegraph-core/src/graph/snapshot.rs:119-138 | publishes the caches anew and sums the lengths of their outgoing lists |
| GraphObject.SqliteGraph.InsertEntity | sqlitegraph-core/src/graph/entity_ops.rs:13-41 | a fresh id; a failed label row leaves the entity row in place |
| GraphObject.SqliteGraph.InsertEntitiesBulk | sqlitegraph-core/src/graph/entity_ops.rs:50-111 | all entities or none are committed with consecutive ids; after an error nothing changed, or a refused COMMIT or ROLLBACK left a prefix of them in an open transaction |
| GraphObject.SqliteGraph.UpdateEntity | sqlitegraph-core/src/graph/entity_ops.rs:128-154 | replaces an existing row by a valid one, or changes nothing |
| GraphObject.SqliteGraph.InsertEdge | sqlitegraph-core/src/graph/edge_ops.rs:13-30 | a fresh id and empty caches on success, nothing changed on error |
| GraphObject.SqliteGraph.InsertEdgesBulk | sqlitegraph-core/src/graph/edge_ops.rs:38-90 | the same for edges, each checked as a single insert checks it; the caches are emptied by a commit only |
| GraphObject.SqliteGraph.DeleteEdge | sqlitegraph-core/src/graph/edge_ops.rs:107-117 | removes the row and empties the caches, or changes nothing |
| GraphObject.SqliteGraph.DeleteEntity | sqlitegraph-core/src/graph/entity_ops.rs:156-173 | removes the entity and its edges and empties the caches; on error nothing, or the entity alone |
| GraphObject.CoherentSearch | sqlitegraph-core/src/bfs.rs:28 | a search through coherent caches lists what a search on the tables lists |
| Runs.ReadsAreRun | sqlitegraph-core/src/graph/adjacency.rs:134-144 | what a search leaves behind is the end of a run of successful reads, so searches are parts of runs |
| Cache.AdjacencyCache.Get | sqlitegraph-core/src/cache.rs:163-171 | the cached list if any, counting one hit or one miss in a wrapping counter |
| Cache.CachedExact | sqlitegraph-core/src/cache.rs:173-185 | after any history a list is cached exactly when it was inserted and neither removed nor cleared since |
| Cache.CachedValue | sqlitegraph-core/src/cache.rs:173-185 | a cached list is the one inserted last: no insert, remove or clear of its key came after |
| Cache.StatsExact | sqlitegraph-core/src/cache.rs:163-194 | after any history the counters hold, modulo 2^64, the gets since the last clear that found their list and those that did not |
| FaultInjection.FaultRegistry.CheckFault | sqlitegraph-core/src/fault_injection.rs:33-45 | fails exactly when the point is armed, and uses up one count |
| FaultInjection.FailsExactly | sqlitegraph-core/src/fault_injection.rs:33-45 | a point armed c times fails exactly its next c checks, and checks of one point leave the others as they are |
| GraphOpt.TransactionGuard.Commit | sqlitegraph-core/src/graph_opt.rs:48-56 | the working copy becomes committed, caches and published snapshot become empty; on an error nothing changes |
| GraphOpt.TransactionGuard.Finish | sqlitegraph-core/src/graph_opt.rs:64-89 | the body's error or a failed COMMIT ends in a ROLLBACK; a transaction stays open exactly when that is refused |
| GraphOpt.EntityBody | sqlitegraph-core/src/graph_opt.rs:149-167 | a valid chunk is inserted whole with consecutive ids, an invalid one is rejected; after an error exactly an accepted prefix is in the working copy |
| GraphOpt.EdgeBody | sqlitegraph-core/src/graph_opt.rs:195-218 | a chunk is accepted exactly when every entry is valid with two existing distinct endpoints, and inserts its first occurrences; after an error exactly those of an accepted prefix are in the working copy |
| GraphOpt.BulkInsertEntities | sqlitegraph-core/src/graph_opt.rs:137-174 | chunk-prefix atomicity: the store is the initial one plus a prefix of the chunks, success means all of them, the failing chunk is invalid or hit by a fault unless the engine failed, and a refused ROLLBACK leaves an accepted prefix of that chunk open |
| GraphOpt.BulkInsertEdges | sqlitegraph-core/src/graph_opt.rs:183-225 | the same for edges |
| GraphOpt.CacheClearRanges | sqlitegraph-core/src/graph_opt.rs:251-256 | exactly the named lists leave both caches |
| Batch.BatchesExact | sqlitegraph-core/src/graph_opt.rs:107-128 | with chunking in force chunk c holds the entries from c*n up to (c+1)*n or the end, and there are as many chunks as that takes; otherwise the list is one chunk, an empty one none |
| Batch.FlattenBatches | sqlitegraph-core/src/graph_opt.rs:107-128 | chunking loses and reorders nothing |
| Batch.EntityChunkingIsInvisible | sqlitegraph-core/src/graph_opt.rs:137-174 | the final tables are the same for every chunk size and with chunking on or off |
| Batch.EdgeChunkingExact | sqlitegraph-core/src/graph_opt.rs:192-206 | for edges they are the same exactly when no key occurs in two chunks |
| Batch.ChunkingsAgree | sqlitegraph-core/src/graph_opt.rs:192-218 | any two ways of chunking any two lists store the same rows exactly when they keep the same entries in the same order |
| Batch.DuplicateAcrossChunks | sqlitegraph-core/src/graph_opt.rs:201-206 | two copies of one edge: one row in one chunk, two rows in two |
| Batch.AppendEdgesExact | sqlitegraph-core/src/graph_opt.rs:200-218 | a chunk appends its kept entries in order with consecutive fresh ids, and changes nothing else |
| Batch.FirstsExact | sqlitegraph-core/src/graph_opt.rs:201-206 | the kept entries are, in order, exactly those before which the chunk has none with the same source, target and type |
| Batch.ParallelEdgesStored | sqlitegraph-core/src/graph_opt.rs:200-218 | two entries of a chunk that differ in source, target or type are both stored, in different rows |
| Stored.CommittedEntities | sqlitegraph-core/src/graph_opt.rs:137-174 | d committed chunks leave the first d*n entries of the list, or all of it |
| Stored.CommittedEdges | sqlitegraph-core/src/graph_opt.rs:183-225 | d committed chunks of edges append, in order and with consecutive ids, exactly those of the first d*n entries before which their chunk has none with the same source, target and type |
| Runs.OpenExact | sqlitegraph-core/src/graph_opt.rs:82-89 | in any state of a run, no transaction is open exactly when so far the engine refused no ROLLBACK and no COMMIT of the inserts that do not roll one back |
| Runs.OpenIsForever | sqlitegraph-core/src/graph_opt.rs:38-46 | a transaction left open stays open and nothing is committed after it, whatever is called |
| Runs.CachedListExact | sqlitegraph-core/src/graph/adjacency.rs:134-162 | in any state of any run, one list is absent or what a query would return, exactly unless a row of it was left open while it was cached and it has not been forgotten since |
| Runs.StepCoherent | sqlitegraph-core/src/graph/edge_ops.rs:77-89 | one step from right caches leads to right caches exactly unless it leaves open a row that belongs to a cached list |
| Runs.CacheCoherence | sqlitegraph-core/src/graph_opt.rs:48-89 | over every run, whatever the engine refuses: every cached list is always what a query would return, exactly when no step leaves open a row of a cached list |
| Runs.ClosedIsCoherent | sqlitegraph-core/src/graph_opt.rs:48-89 | whenever no transaction is open, every cached list is what a query on the committed tables would return |
| Runs.RefusedRollbackIsStale | sqlitegraph-core/src/graph_opt.rs:82-89 | a run from the new graph object after which a query finds a neighbour and the cached list does not |
| Runs.RefusedCommitIsStale | sqlitegraph-core/src/graph/edge_ops.rs:77-83 | a run from the new graph object in which a refused COMMIT is not rolled back: the row stays visible, the cached list lacks it, and nothing was committed |
| Runs.CachedSearchIsStoreSearch | sqlitegraph-core/src/bfs.rs:12-35 | until a step exposes such a row, a search through the caches lists what a search on the visible tables lists |
| Snapshots.CachedKeysExact | sqlitegraph-core/src/graph/adjacency.rs:134-162 | a list is cached exactly when some successful read of it was followed by no invalidation and no clearing of it |
| Snapshots.PublishedExact | sqlitegraph-core/src/mvcc.rs:161-244 | what is published: after the last acquisition or counting read the visible adjacency of that moment for the cached nodes, after a chunked commit and at first nothing |
| Snapshots.SnapshotIsPointInTime | sqlitegraph-core/src/mvcc.rs:39-74 | an acquired snapshot's lists are the visible adjacency of that moment, and it contains a node exactly when its list was cached; what happens later does not matter |
| Snapshots.SnapshotEdgeCount | sqlitegraph-core/src/mvcc.rs:56-59 | the edge count never exceeds the visible edges and equals them exactly when every source node was read |
| Snapshots.SnapshotAfterSearch | sqlitegraph-core/src/graph/snapshot.rs:34-56 | a snapshot right after a search of bound d + 1 adds exactly the nodes within d steps of its start, with their stored lists |
| Snapshots.SnapshotOfSearch | sqlitegraph-core/src/graph/snapshot.rs:34-56 | with nothing cached before, it holds as many nodes as the search of bound d lists, and counts the edges that leave them |
| Snapshots.SnapshotOfNobody | sqlitegraph-core/src/mvcc.rs:61-64 | a snapshot that contains a node nobody stored |
| Safety.StoreSafety | sqlitegraph-core/src/graph_opt.rs:183-225 | over every run, whatever the engine refuses, of the tables statements see, those of a transaction left open included: no entity or edge id is given twice, an entity changes by its updates only, edges join existing entities unless a delete stopped halfway, and distinct ones unless an insert that accepts loops was given one |
| Safety.CommittedSafety | sqlitegraph-core/src/graph_opt.rs:183-225 | the same of the committed tables |
| Safety.HalfDeleteDangles | sqlitegraph-core/src/graph/entity_ops.rs:156-173 | a delete that stops halfway leaves dangling edges exactly when the entity had edges |
| Safety.BulkRejectsLoops | sqlitegraph-core/src/graph_opt.rs:290-305 | of the edges the single insert accepts, the endpoint count passes exactly those that are no loops |
| Safety.AcceptedExact | sqlitegraph-core/src/graph_opt.rs:278-305 | which edges the single and the chunked insert accept, by fields: positive existing endpoints and a type that is not blank, for the chunked one different endpoints |
| Safety.StepTakesEffect | sqlitegraph-core/src/graph/edge_ops.rs:107-117 | every single write takes effect on the visible tables: the row is there, replaced, or gone, and the rows not meant stay |
| PairIndex.PairFromIndex | sqlitegraph-core/src/bench_utils.rs:221-233 | the pair of that rank, in range, or the fallback exactly for indices out of range; no intermediate value exceeds the number of pairs |
| PairIndex.RankClosed | sqlitegraph-core/src/bench_utils.rs:221-233 | the rank in closed form |
| PairIndex.RankOfUnrank | sqlitegraph-core/src/bench_utils.rs:221-233 | ranking undoes un-ranking on every index in range |
| PairIndex.UnrankOfRank | sqlitegraph-core/src/bench_utils.rs:221-233 | un-ranking undoes ranking on every pair |
| PairIndex.UnrankOrder | sqlitegraph-core/src/bench_utils.rs:221-233 | the bijection is strictly increasing |
| RandomEdges.GenerateRandomEdges | sqlitegraph-core/src/bench_utils.rs:124-148 | the rank of the first edge is the first skip, each further rank the one before plus one plus the next skip; all ranks lie below the pair count cut to 64 bits, and fewer edges than asked for come back only when the next rank does not |
| RandomEdges.RandomEdgesAscending | sqlitegraph-core/src/bench_utils.rs:72-77 | the edges are in range, strictly ascending, distinct, and left unchanged by the final sort |
| RandomEdges.FullDeliveryExact | sqlitegraph-core/src/bench_utils.rs:134-146 | all requested edges are delivered exactly when the last position falls inside the range |
| RandomEdges.NothingDelivered | sqlitegraph-core/src/bench_utils.rs:134-146 | a first skip out of the range delivers nothing, whatever was asked for |
| RandomEdges.CompleteRequest | sqlitegraph-core/src/bench_utils.rs:134-146 | when all pairs are asked for, so that every draw has probability one and skips nothing, all pairs are delivered in order |
| ScaleFree.LocateExact | sqlitegraph-core/src/bench_utils.rs:169-178 | a pick lands on exactly one node, the one whose share of the weight holds it |
| ScaleFree.FillExact | sqlitegraph-core/src/bench_utils.rs:165-179 | the draws used for a node are the fewest that land on m different nodes, the targets are the first occurrences of the nodes they land on, the other draws are left; it gives up exactly when all draws land on fewer |
| ScaleFree.SeedExact | sqlitegraph-core/src/bench_utils.rs:156-163 | the seed joins every two of the nodes up to m, and nothing else |
| ScaleFree.GenerateScaleFreeEdges | sqlitegraph-core/src/bench_utils.rs:150-195 | equals the generator that recounts every degree; m(m+1)/2 + (n-m-1)m distinct upward edges, exactly m into every later node; behind the seed every node is joined, ascending, to the m nodes its own draws land on, each node starting with the draws the one before left; None exactly means that some node's draws land on fewer |
| ScaleFree.GrowExact | sqlitegraph-core/src/bench_utils.rs:165-193 | the same from every reachable point of the loop |
| ScaleFree.AttachNode | sqlitegraph-core/src/bench_utils.rs:165-193 | one round attaches the node to m distinct earlier ones and keeps the running total equal to the sum of the degrees |
| ScaleFree.Tidied | sqlitegraph-core/src/bench_utils.rs:180-186 | sorting and de-duplicating keeps m targets, so the refill loop is never entered |
| ScaleFree.SomePickProgresses | sqlitegraph-core/src/bench_utils.rs:167-179 | while a target is missing some draw supplies one |
| ScaleFree.SomeSupplyGrows | sqlitegraph-core/src/bench_utils.rs:165-193 | from every reachable point some supply of draws completes the graph |
| Dataset.DegreeExact | sqlitegraph-core/src/bench_utils.rs:21-30 | the degree counts the edges that start at a node and those that end there |
| Dataset.Degrees | sqlitegraph-core/src/bench_utils.rs:21-30 | the degree of every node, summing to twice the number of edges |
| Dataset.HubIndex | sqlitegraph-core/src/bench_utils.rs:32-40 | the first node of maximal degree |
| Dataset.SortEdgesExact | sqlitegraph-core/src/bench_utils.rs:72-77 | the sort yields a permutation ascending by source and then by target |
| Dataset.SortEdgesSorted | sqlitegraph-core/src/bench_utils.rs:72-77 | the sort leaves an ascending list as it is |
| Strings.TrimExact | sqlitegraph-core/src/dsl.rs:13 | trimming takes the whitespace off both ends, all of it, and nothing else |
| Dsl.ParseDsl | sqlitegraph-core/src/dsl.rs:12-21 | a pattern for input with an arrow or star, an error otherwise |
| Dsl.ParsedExact | sqlitegraph-core/src/dsl.rs:12-21 | for all strings, trimmed or not: an error exactly without arrow and star, else the pattern of the legs |
| Dsl.ParseRepetitivePattern | sqlitegraph-core/src/dsl.rs:23-45 | the two loops yield the legs of the pieces in order |
| Dsl.ArrowLaw | sqlitegraph-core/src/dsl.rs:25 | for all strings, the legs of s->t are the legs of s followed by the legs of t |
| Dsl.ParsedArrow | sqlitegraph-core/src/dsl.rs:12-21 | the same for the whole parser, trimming included |
| Dsl.PieceExact | sqlitegraph-core/src/dsl.rs:25-37 | between arrows a blank piece gives no leg, a piece without a star the one leg of its trimmed name |
| Dsl.HasArrowAt | sqlitegraph-core/src/dsl.rs:17 | an arrow is a minus sign with a greater-than sign right behind it |
| Dsl.StarLegs | sqlitegraph-core/src/dsl.rs:30-42 | what T*w means for any w, readable count or not |
| Dsl.StarAlone | sqlitegraph-core/src/dsl.rs:30-33 | T* with no digit, or with anything but digits behind it, is T once |
| Dsl.Unreadable | sqlitegraph-core/src/dsl.rs:31 | no digit, or any character but digits behind an optional plus sign, is no number |
| Dsl.Readable | sqlitegraph-core/src/dsl.rs:31 | digits read as the number they write, with or without plus sign and leading zeros, exactly when it is below 2^64 |
| Dsl.RepeatLaw | sqlitegraph-core/src/dsl.rs:30-42 | T*n means n copies of T joined by arrows exactly when n fits the machine word |
| Dsl.RepeatParsed | sqlitegraph-core/src/dsl.rs:12-45 | the two spellings parse alike unless there is a single copy |
| Dsl.RoundTrip | sqlitegraph-core/src/dsl.rs:12-45 | a written pattern of two or more plainly named legs reads back as itself |

## Left out

- SQL text, prepared statements, connection pooling and error messages: a connection is one object, a group of calls that share an error path is one engine call, and an error is its kind.
- Payloads are strings that are stored as they are; serialising them never fails.
- Rows of labels and properties, and the query-result cache above the searches, which the same invalidation call empties.
- Ids, counters and sums are unbounded except where the code casts or wraps (cache counters, depth bounds, the pair count, the repeat count).
- SelectRows: orders rows by the far endpoint only; the further sort keys of the query do not show in the columns read from it.
- GenerateRandomEdges: takes the skips as given numbers; sampling them in floating point and overflow of the index addition are not modelled.
- GenerateScaleFreeEdges: takes a finite supply of draws and gives up when it runs out; that the loop ends with probability one is not stated, only that some supply always ends it.
- The creation time of a snapshot.
- The snapshot file at the repository root (src/mvcc.rs) has the same operations with adjacency maps as entries; the model follows the one the graph object uses, whose entries are lists.
- Concurrent use of caches and snapshots: the graph object is documented as not shareable between threads, so steps do not interleave.
- Engine errors on which SQLite rolls back by itself (a full disk, for instance): a later ROLLBACK is then refused with nothing left open. In the model a refused ROLLBACK always leaves the transaction open.
- Lists put into the caches from outside: both caches and their insert are public, so a caller can cache any list. No action of the machine does that.
- Other statements that end a transaction on the same connection (schema migration, recovery, the vector index): the runs consist of the operations of the graph object and the two bulk calls.
- k-hop and chain queries.
- Edge lists of line, star and grid shapes, and batch adjacency reads: they would add only easy members.
- Eviction in the cache: its module comment describes one, the code has none.
