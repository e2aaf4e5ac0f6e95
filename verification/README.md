# Verified models of C2DN

C2DN is a content delivery network that erasure-codes cached objects. Its repository holds a simulator
(`CDNSimulator`, with the cache library `libCacheSim`) and a graph package of its prototype
(`prototype/graph`). This project models the parts whose correctness does not show on the surface and proves
what they are for:

- **Graph algorithms**: Tarjan's components, Hierholzer's Euler walks, Edmonds-Karp maximum flow, Dijkstra and
  Prim over an indexed heap that shares its cost slice with the caller.
- **Concurrent cuckoo hash map**: a transition system whose steps are the critical sections; every
  interleaving is linearizable to a plain map, across displacements, lazy migration and doubling, and
  sections that hold no lock in common commute; a size read meanwhile is off by at most the operations that
  finish beside it.
- **LRU cache on a relocating hash table**: nodes live in an explicit memory and change addresses; the cache
  still does to one recency list what the specification says.
- **Splay tree and one-pass LRU profiler**: the tree relinked in place, its sizes and order, and the exact
  condition under which one pass gives the hit counts of all cache sizes.
- **Placement and repair**: consistent hashing, parity placement by a flow, repair of erasure-code chunks, and
  the three together from ring and availability to a repaired cluster.
- **CSV parser and writer**: every text is a document of a grammar that does not mention the parser's states, and is
  read as its rows and cells. **XXH3 and MD5 streaming**, **Knuth-Morris-Pratt search**.

`dafny verify dfyconfig.toml` checks everything.

Each module has a specification that does not mention the code (a map, a list, a fold, the set of flows) and
methods or functions in the form of the source, tied to it by their postconditions. `Finite`, `Sums`, `Sequences`,
`Bits` and `Bytes` hold shared facts.

Where the code does not do what it promises, the model follows the code and the exact condition is proved:

- The profiler keeps access times in a hash table of pointers, so time 0 looks like a missing entry and the
  second request of the first object counts as a cold miss (`ProfilerMissesOne`, `OnePassIsAllSimulations`,
  `SecondRequestLost`).
- With n equal to k the count of chunk hits can exceed n, which puts the index into `n_miss` out of range
  (`CacheHitChunk`, `HitsBound`, `TooManyHits`).
- Placement asserts that a server without data is unavailable. It aborts if and only if an available server is
  among the first n - 1 of no bucket, or a bucket finds too few servers; more available servers than data places
  are enough for that (`PopulateHashMapping`, `UsedOnRing`, `MoreServersThanData`, `AssertionFails`).
- `cache_get` gives an object that is hit the size of the request even when that exceeds the cache, and evicts
  nothing; the contents then exceed the cache until the next request that fits (`StaysWithin`).
- The counter of a lock is not the number of elements under it, as its comment says: a displacement changes no
  counter, so it stays right if and only if both slots are under one lock (`DisplaceCounts`). The sum is right.
- `md5_append` adds the bytes in its buffer to the length of the piece as `int`. With one byte buffered and
  a piece of 2^31 - 1 bytes the sum wraps, and the copy runs past the 64-byte buffer; it does so if and only
  if something is buffered and the sum is 2^31 or more (`CopyFits`, `CopyOverruns`). `nbytes << 3` is taken
  to wrap as well.
- `chained_hashtable_delete` on a node that is still on the recency list keeps the list if and only if the node
  is inside it or alone and is not a table entry with a successor (`HashtableDelete`, `DeletedBridged`,
  `DeletedUnbridged`). The caches unlink first.
- `utstring_find` and `utstring_findR` compare characters outside the buffer for some start positions, such as -3
  for the needle "abc" in "ab"; from position 2 on, `utstring_findR` takes in the null that ends "ab"
  (`StringFind`, `StringFindR`, `FindBeforeText`, `FindBehindBuffer`, `FindWithNull`).

## Model

| member | source | states |
|---|---|---|
| StrongComponents.Compute | prototype/graph/strong.go:11-25 | the lists partition the vertices, two vertices share a list exactly when each reaches the other, and every list comes after the lists it reaches |
| StrongComponents.ReachLeadsToEarlier | prototype/graph/strong.go:3-10 | in a decomposition in reverse topological order a path never leads from one list to a later one |
| StrongComponents.Scc.Append | prototype/graph/strong.go:38-73 | one call of append finishes v: the search state keeps the Tarjan invariant, the stack grows by the vertices that reach below v, and the output gains exactly the components closed |
| StrongComponents.AboveIsComponent | prototype/graph/strong.go:59-72 | when no edge lowered v's low link, the part of the stack from v up is one strongly connected component |
| StrongComponents.PopKeepsInv | prototype/graph/strong.go:62-72 | popping a component keeps the invariant of the search |
| StrongComponents.EnterKeepsInv | prototype/graph/strong.go:39-48 | pushing a new vertex keeps the invariant of the search |
| StrongComponents.LowerKeepsInv | prototype/graph/strong.go:53-56 | lowering a low link keeps the invariant of the search |
| EulerWalk.EulerDirected | prototype/graph/euler.go:3-71 | for every directed multigraph with edges, ok exactly when an Euler walk exists, and then the edges of consecutive vertices of the walk are the graph's edges with multiplicity; without edges the empty walk |
| EulerWalk.EulerBalance | prototype/graph/euler.go:21-32 | the degrees of a graph with an Euler walk: all balanced but for the two ends of the walk |
| EulerWalk.NoWalkWhenUnbalanced | prototype/graph/euler.go:22-32 | a degree that the loop rejects rules out every Euler walk |
| EulerWalk.NoWalkWhenEdgesRemain | prototype/graph/euler.go:64-66 | edges left over after the search rule out every Euler walk |
| EulerWalk.StuckAtEnd | prototype/graph/euler.go:57-61 | following unused edges can get stuck only where the tour has to close |
| EulerWalk.CountDegrees | prototype/graph/euler.go:6-16 | the degrees are out minus in and the count is the number of edges |
| EulerWalk.FindEnds | prototype/graph/euler.go:21-32 | the start and end found are the only unbalanced vertices, or a vertex shows that there are too many |
| EulerWalk.Trace | prototype/graph/euler.go:53-63 | the search uses up the edges it can reach and leaves a walk over exactly those |
| MaximumFlow.MaxFlow | prototype/graph/maxflow.go:7-39 | for s different from t and a simple graph with non-negative capacities summing below Max the result respects capacities, conserves flow, carries the value returned, and no flow carries more |
| MaximumFlow.ResidualFlow | prototype/graph/maxflow.go:41-57 | breadth-first search: prev is a tree of residual edges over the visited set, no residual edge leaves that set, and the answer is whether it holds t |
| MaximumFlow.Bottleneck | prototype/graph/maxflow.go:13-20 | the path flow is positive and no larger than any residual capacity on the path |
| MaximumFlow.Augment | prototype/graph/maxflow.go:22-27 | sending the path flow along the path keeps a residual graph, with the value raised by it |
| MaximumFlow.FlowWithinCut | prototype/graph/maxflow.go:3-6 | no flow exceeds the capacity of a cut between s and t |
| MaximumFlow.ClosedCutIsFull | prototype/graph/maxflow.go:12-28 | if no residual edge leaves the visited set, the flow equals its capacity as a cut |
| MaximumFlow.Copy | prototype/graph/mutable.go:30-46 | the copy has the graph's costs |
| MaximumFlow.ExtractFlow | prototype/graph/maxflow.go:29-37 | the result holds the positive part of capacity minus residual |
| MaximumFlow.PositivePartIsFlow | prototype/graph/maxflow.go:29-37 | the positive part of capacity minus residual is a flow of the value sent |
| PriorityQueue.PrioQueue.Empty | prototype/graph/heap.go:9-14 | an empty valid queue on the caller's cost slice |
| PriorityQueue.PrioQueue.Full | prototype/graph/heap.go:16-28 | a valid queue of all vertices on the caller's cost slice |
| PriorityQueue.PrioQueue.Push | prototype/graph/heap.go:37-42 | heap order and the inverse index are kept, and the queue gains v |
| PriorityQueue.PrioQueue.Pop | prototype/graph/heap.go:46-55 | the vertex returned is of least cost and leaves the queue; heap order and the inverse index are kept |
| PriorityQueue.PrioQueue.Fix | prototype/graph/heap.go:64-68 | after the cost of one queued vertex has changed, heap order holds again and the same vertices are queued |
| PriorityQueue.PrioQueue.Up | prototype/graph/heap.go:80-89 | sifting up restores heap order when only one vertex is out of order with those above it |
| PriorityQueue.PrioQueue.Down | prototype/graph/heap.go:91-109 | sifting down restores heap order below and reports whether anything moved |
| PriorityQueue.PrioQueue.Swap | prototype/graph/heap.go:74-78 | heap and index stay inverse to each other |
| PriorityQueue.RootIsCheapest | prototype/graph/heap.go:46-55 | in a heap no vertex is cheaper than the root |
| ShortestPaths.ShortestPaths | prototype/graph/path.go:33-64 | dist[w] is the least length of a path over non-negative edges, or -1 exactly when there is no path |
| ShortestPaths.ShortestPath | prototype/graph/path.go:9-22 | the path returned has the least length; following parents ends even with zero-cost edges |
| ShortestPaths.Relax | prototype/graph/path.go:47-61 | relaxing an edge keeps the invariant; Fix is called only on a vertex in the queue |
| ShortestPaths.ImprovedIsOpen | prototype/graph/path.go:56-58 | a vertex whose distance can still be lowered is in the queue |
| ShortestPaths.PopInv | prototype/graph/path.go:45-46 | the vertex popped is final, and settling it keeps the invariant |
| ShortestPaths.NoShorterPath | prototype/graph/path.go:28-29 | once all settled vertices are relaxed no path is shorter than the distance recorded |
| ShortestPaths.FollowParents | prototype/graph/path.go:15-17 | the parent chain leads back to the source through settled vertices and has the recorded length |
| SpanningForest.MST | prototype/graph/mst.go:11-34 | parent is acyclic with exactly one root per connected component and its total cost is at most that of any spanning forest |
| SpanningForest.PrimIsMinimal | prototype/graph/mst.go:3-10 | every forest built by always taking a cheapest edge out of the settled vertices is a minimum spanning forest |
| SpanningForest.ExchangeStep | prototype/graph/mst.go:22-31 | exchanging one edge of any spanning forest for the edge Prim took does not raise its cost |
| SpanningForest.PrimSpans | prototype/graph/mst.go:5-7 | the parent links connect exactly the vertices that the graph connects |
| SpanningForest.RootsApart | prototype/graph/mst.go:6-7 | two roots are in different components |
| SpanningForest.PopInv | prototype/graph/mst.go:22-23 | settling the cheapest vertex keeps the invariant |
| SpanningForest.ExamineInv | prototype/graph/mst.go:24-30 | lowering the cost of a queued vertex keeps the invariant |
| CuckooTable.AltInvolution | CDNSimulator/libCacheSim/dataStructure/libcuckoo/cuckoohash_map.hpp:767-778 | alt_index is its own inverse |
| CuckooTable.AlternateIsCandidate | CDNSimulator/libCacheSim/dataStructure/libcuckoo/cuckoohash_map.hpp:767-778 | the alternate of a candidate bucket is the other candidate |
| CuckooTable.CandidatesGrow | CDNSimulator/libCacheSim/dataStructure/libcuckoo/cuckoohash_map.hpp:746-749 | doubling leaves each candidate where it is or moves it up by the old table size |
| CuckooTable.LocksStay | CDNSimulator/libCacheSim/dataStructure/libcuckoo/cuckoohash_map.hpp:1093-1095 | from kMaxNumLocks buckets on, doubling does not change a key's locks |
| CuckooHash.XorBit | CDNSimulator/libCacheSim/dataStructure/libcuckoo/cuckoohash_map.hpp:767-778 | each bit of the exclusive or is one exactly when the two bits differ |
| CuckooHash.PartialIsBytes | CDNSimulator/libCacheSim/dataStructure/libcuckoo/cuckoohash_map.hpp:750-759 | the partial key is the exclusive or of the eight bytes of the hash |
| CuckooHash.BucketsAre | CDNSimulator/libCacheSim/dataStructure/libcuckoo/cuckoohash_map.hpp:763-778 | the two buckets and the lock of a bucket in arithmetic, with the constant of the source and 64-bit wrap-around |
| CuckooSteps.FindAgrees | CDNSimulator/libCacheSim/dataStructure/libcuckoo/cuckoohash_map.hpp:1127-1139 | with both locks held and migrated, cuckoo_find hits exactly the keys of the map, at their one slot |
| CuckooSteps.AddRepresents | CDNSimulator/libCacheSim/dataStructure/libcuckoo/cuckoohash_map.hpp:1275-1280 | adding an absent key to an empty candidate slot adds it to the map and one to the counters' sum |
| CuckooSteps.RemoveRepresents | CDNSimulator/libCacheSim/dataStructure/libcuckoo/cuckoohash_map.hpp:1960-1963 | erasing takes the key out of the map and one off the counters' sum |
| CuckooSteps.AssignRepresents | CDNSimulator/libCacheSim/dataStructure/libcuckoo/cuckoohash_map.hpp:487-497 | writing a value through the functor updates the map at that key only |
| CuckooSteps.DisplaceRepresents | CDNSimulator/libCacheSim/dataStructure/libcuckoo/cuckoohash_map.hpp:1501-1516 | moving an entry to a free slot of its other bucket leaves the map and the counters' sum as they are |
| CuckooResize.MoveBucket | CDNSimulator/libCacheSim/dataStructure/libcuckoo/cuckoohash_map.hpp:1736-1780 | on two empty target buckets entries go to their own slot of the low one or packed into the high one; replaying the calls of setKV shows that each found its slot empty |
| CuckooResize.UnmigratedAwaits | CDNSimulator/libCacheSim/dataStructure/libcuckoo/cuckoohash_map.hpp:933-954 | the target buckets of an unmigrated lock are empty, so rehash_lock overwrites nothing |
| CuckooResize.DestinationIsCandidate | CDNSimulator/libCacheSim/dataStructure/libcuckoo/cuckoohash_map.hpp:1741-1744 | a moved entry lands in a candidate bucket of the doubled table |
| CuckooResize.PartSource | CDNSimulator/libCacheSim/dataStructure/libcuckoo/cuckoohash_map.hpp:1752-1778 | every occupied slot of the split buckets comes from one slot of the old bucket: nothing is invented or duplicated |
| CuckooResize.RehashLock | CDNSimulator/libCacheSim/dataStructure/libcuckoo/cuckoohash_map.hpp:933-954 | the loop over one lock's buckets computes the migration of that lock |
| CuckooResize.MigrateRepresents | CDNSimulator/libCacheSim/dataStructure/libcuckoo/cuckoohash_map.hpp:933-954 | migrating one lock keeps the map and changes only buckets guarded by that lock |
| CuckooResize.FastDouble | CDNSimulator/libCacheSim/dataStructure/libcuckoo/cuckoohash_map.hpp:1656-1734 | the loops of cuckoo_fast_double compute the doubled table, in one go below kMaxNumLocks buckets and lazily from there on |
| CuckooResize.DoubleRepresents | CDNSimulator/libCacheSim/dataStructure/libcuckoo/cuckoohash_map.hpp:1656-1734 | doubling keeps the map and raises the hashpower by one |
| CuckooResize.MigrateFromRepresents | CDNSimulator/libCacheSim/dataStructure/libcuckoo/cuckoohash_map.hpp:1681-1687 | finishing the migration of all locks keeps the map |
| CuckooProtocol.Linearizable | CDNSimulator/libCacheSim/dataStructure/libcuckoo/cuckoohash_map.hpp:1127-1280 | in every interleaving of critical sections of any number of threads each answer is the one a plain map gives when the finished operations are applied one after the other, the table stands for that map, and the counters sum to its size |
| CuckooProtocol.StepKeeps | CDNSimulator/libCacheSim/dataStructure/libcuckoo/cuckoohash_map.hpp:1173-1197 | every critical section keeps the invariant, finishes at most the operation of its own thread, and never lowers the hashpower |
| CuckooProtocol.OneSlotPerKey | CDNSimulator/libCacheSim/dataStructure/libcuckoo/cuckoohash_map.hpp:1335-1386 | in every reachable state a key of the map is in exactly one live slot, in a candidate bucket or an unmigrated old one |
| CuckooProtocol.NothingElse | CDNSimulator/libCacheSim/dataStructure/libcuckoo/cuckoohash_map.hpp:1335-1386 | in every reachable state a live slot holds a key of the map with its value |
| CuckooProtocol.OldFreedWhenMigrated | CDNSimulator/libCacheSim/dataStructure/libcuckoo/cuckoohash_map.hpp:2024-2039 | the old buckets are gone exactly when every lock is migrated |
| CuckooProtocol.TryInsertGood | CDNSimulator/libCacheSim/dataStructure/libcuckoo/cuckoohash_map.hpp:1217-1235 | under the locks uprase_fn finds a duplicate, adds to the last empty slot of the first bucket with room, or goes on to search, without ever making a duplicate |
| CuckooProtocol.RecheckGood | CDNSimulator/libCacheSim/dataStructure/libcuckoo/cuckoohash_map.hpp:1254-1262 | after the locks were dropped the second lookup makes the insertion safe |
| CuckooProtocol.MoveOnPathGood | CDNSimulator/libCacheSim/dataStructure/libcuckoo/cuckoohash_map.hpp:1478-1520 | a displacement on a stale path is made only if it is still valid, and keeps the map |
| CuckooProtocol.MoveLastGood | CDNSimulator/libCacheSim/dataStructure/libcuckoo/cuckoohash_map.hpp:1478-1520 | the last displacement and the insertion happen in one critical section and act like one insertion |
| CuckooProtocol.MoveNothingGood | CDNSimulator/libCacheSim/dataStructure/libcuckoo/cuckoohash_map.hpp:1460-1476 | a path of depth 0 is re-checked under the locks |
| CuckooProtocol.ExtendGood | CDNSimulator/libCacheSim/dataStructure/libcuckoo/cuckoohash_map.hpp:1397-1448 | building the path migrates locks but changes nothing in the map |
| CuckooProtocol.ExpandGood | CDNSimulator/libCacheSim/dataStructure/libcuckoo/cuckoohash_map.hpp:1180-1191 | expansion happens only at the expected hashpower and keeps the map |
| CuckooProtocol.BeginGood | CDNSimulator/libCacheSim/dataStructure/libcuckoo/cuckoohash_map.hpp:512-560 | erase_fn, uprase_fn and clear up to the first release of the locks act on the map or leave it alone |
| CuckooProgress.BeginFinishes | CDNSimulator/libCacheSim/dataStructure/libcuckoo/cuckoohash_map.hpp:512-522 | find, update, erase and clear finish in their first critical section |
| CuckooProgress.BeginInserts | CDNSimulator/libCacheSim/dataStructure/libcuckoo/cuckoohash_map.hpp:548-560 | an insertion does so if and only if its key is there or one of its buckets has an empty slot, and else goes on to search |
| CuckooProgress.BeginAddsTo | CDNSimulator/libCacheSim/dataStructure/libcuckoo/cuckoohash_map.hpp:1217-1235 | an absent key goes to the last empty slot of its first bucket, or of its second one when the first is full |
| CuckooProgress.NextStepAnswers | CDNSimulator/libCacheSim/dataStructure/libcuckoo/cuckoohash_map.hpp:512-560 | in every reachable state the next step of an operation that finishes there answers it with what the map says |
| CuckooProgress.StalePath | CDNSimulator/libCacheSim/dataStructure/libcuckoo/cuckoohash_map.hpp:1168-1197 | a step that finds another hashpower starts the operation again and changes nothing |
| CuckooProgress.MoveNothingFinishes | CDNSimulator/libCacheSim/dataStructure/libcuckoo/cuckoohash_map.hpp:1460-1476 | at an unchanged hashpower a path of depth 0 ends the insertion if and only if its slot is still empty |
| CuckooProgress.MoveLastFinishes | CDNSimulator/libCacheSim/dataStructure/libcuckoo/cuckoohash_map.hpp:1478-1520 | the last displacement ends the insertion if and only if it is still valid |
| CuckooProgress.MoveOnPathGoesDown | CDNSimulator/libCacheSim/dataStructure/libcuckoo/cuckoohash_map.hpp:1478-1520 | a displacement before that moves the entry and goes one position down if it is still valid, and else moves nothing |
| CuckooProgress.ExpandRaises | CDNSimulator/libCacheSim/dataStructure/libcuckoo/cuckoohash_map.hpp:1656-1734 | expansion at the expected hashpower doubles the number of buckets |
| CuckooProgress.ExtendSees | CDNSimulator/libCacheSim/dataStructure/libcuckoo/cuckoohash_map.hpp:1397-1448 | the search goes on in the other bucket of the key it saw and keeps what it has seen; at an empty slot the path is ready |
| CuckooProgress.PathFinishes | CDNSimulator/libCacheSim/dataStructure/libcuckoo/cuckoohash_map.hpp:1450-1520 | a thread alone on a ready path ends its insertion within as many steps as the path is deep |
| CuckooProtocol.LockTwo | CDNSimulator/libCacheSim/dataStructure/libcuckoo/cuckoohash_map.hpp:982-999 | both buckets' locks are migrated and no migrated lock is undone |
| CuckooProtocol.LockThree | CDNSimulator/libCacheSim/dataStructure/libcuckoo/cuckoohash_map.hpp:1012-1040 | all three buckets' locks are migrated |
| CuckooProtocol.TryReadFromBucket | CDNSimulator/libCacheSim/dataStructure/libcuckoo/cuckoohash_map.hpp:1143-1155 | the first slot that holds the key, or -1, whether partial keys are compared or not |
| CuckooProtocol.TryFindInsertBucket | CDNSimulator/libCacheSim/dataStructure/libcuckoo/cuckoohash_map.hpp:1288-1309 | the first slot that holds the key, or else the last empty slot, or -1, whether partial keys are compared or not |
| CuckooProtocol.PartialsStored | CDNSimulator/libCacheSim/dataStructure/libcuckoo/cuckoohash_map.hpp:1145-1148 | in a table that stands for a map the stored partial keys are right, so that skipping their comparison changes nothing |
| CuckooProtocol.Size | CDNSimulator/libCacheSim/dataStructure/libcuckoo/cuckoohash_map.hpp:334-344 | the sum of the counters is the number of keys, when no other thread steps in between |
| CuckooSize.SizeIsClose | CDNSimulator/libCacheSim/dataStructure/libcuckoo/cuckoohash_map.hpp:334-344 | read one by one while other threads go on, the counters add up to the number of keys at the start, give or take the operations that finish meanwhile |
| CuckooSize.AdvanceBumps | CDNSimulator/libCacheSim/dataStructure/libcuckoo/cuckoohash_map.hpp:1275-1280 | a critical section changes at most one counter, by at most one, and only when its operation finishes |
| CuckooSize.DisplaceCounts | CDNSimulator/libCacheSim/dataStructure/libcuckoo/cuckoohash_map.hpp:1501-1516 | counters that are right for each lock stay right in a displacement if and only if the entry stays under its lock |
| CuckooFootprint.AdvanceSpares | CDNSimulator/libCacheSim/dataStructure/libcuckoo/cuckoohash_map.hpp:933-1040 | every critical section short of doubling and clearing leaves the buckets, waiting old buckets, counters and flags of locks it does not hold as they are |
| CuckooFootprint.AdvanceAlike | CDNSimulator/libCacheSim/dataStructure/libcuckoo/cuckoohash_map.hpp:933-1040 | such a section depends on nothing but what its locks guard: on tables that agree there it takes the same turn and gives the same answer |
| CuckooFootprint.DisjointSectionsCommute | CDNSimulator/libCacheSim/dataStructure/libcuckoo/cuckoohash_map.hpp:1093-1095 | two threads whose sections hold no lock in common may go in either order: same table, same threads, same answers |
| LinkedNodes.RelocatedLinked | CDNSimulator/libCacheSim/dataStructure/hashtable/chainedHashtable.c:49-58 | moving a node keeps the list with the new address in its place, head and tail included |
| LinkedNodes.MovedToTailLinked | CDNSimulator/libCacheSim/include/libCacheSim/cacheObj.h:72-110 | move_obj_to_tail makes the node last and keeps the order of the others |
| LinkedNodes.AppendedLinked | CDNSimulator/libCacheSim/cache/cache.c:167-177 | appending a node with empty links makes it the last |
| LinkedNodes.HeadDroppedLinked | CDNSimulator/libCacheSim/cache/cache.c:198-200 | dropping the head leaves the rest of the list |
| ChainedTable.LinkedInTable | CDNSimulator/libCacheSim/dataStructure/hashtable/chainedHashtable.c:207-217 | linking a node to the end of its bucket's chain keeps all chains |
| ChainedTable.PulledUpChain | CDNSimulator/libCacheSim/dataStructure/hashtable/chainedHashtable.c:231-235 | when the first node of a chain is deleted the second one takes its address and the chain is shorter by one |
| ChainedTable.BypassedChain | CDNSimulator/libCacheSim/dataStructure/hashtable/chainedHashtable.c:240-251 | a later node is taken out of its chain |
| RelocatingTable.RehomedInv | CDNSimulator/libCacheSim/dataStructure/hashtable/chainedHashtable.c:75-95 | moving a node into the new table keeps chains, list and cached objects |
| RelocatingTable.RelinkedInv | CDNSimulator/libCacheSim/dataStructure/hashtable/chainedHashtable.c:92-94 | linking a node in where it is keeps chains, list and cached objects |
| RelocatingTable.InsertedInv | CDNSimulator/libCacheSim/dataStructure/hashtable/chainedHashtable.c:204-218 | a new node joins the table without touching the others |
| RelocatingTable.PulledUpInv | CDNSimulator/libCacheSim/dataStructure/hashtable/chainedHashtable.c:230-235 | deletion by moving the next node keeps chains, list and the other objects |
| RelocatingTable.EmptiedInv | CDNSimulator/libCacheSim/dataStructure/hashtable/chainedHashtable.c:236-238 | deletion of a lone entry zeroes it and keeps the rest |
| RelocatingTable.BypassedInv | CDNSimulator/libCacheSim/dataStructure/hashtable/chainedHashtable.c:240-251 | deletion from the middle of a chain keeps the rest |
| RelocatingTable.AllocatedInv | CDNSimulator/libCacheSim/dataStructure/hashtable/chainedHashtable.c:304-318 | with the new table allocated every node is still to be moved, and nothing else has changed |
| RelocatingTable.WithoutTableInv | CDNSimulator/libCacheSim/dataStructure/hashtable/chainedHashtable.c:334-334 | once every node has been moved the old table can be freed |
| LruCaches.LruCache.constructor | CDNSimulator/libCacheSim/dataStructure/hashtable/chainedHashtable.c:99-119 | an empty cache is valid |
| LruCaches.LruCache.Find | CDNSimulator/libCacheSim/dataStructure/hashtable/chainedHashtable.c:152-191 | the node of the object, or NULL exactly when it is not cached |
| LruCaches.LruCache.MoveIntoNewTable | CDNSimulator/libCacheSim/dataStructure/hashtable/chainedHashtable.c:75-95 | the next node of the old table moves to its bucket of the new one; cached objects and their order stay |
| LruCaches.LruCache.Expand | CDNSimulator/libCacheSim/dataStructure/hashtable/chainedHashtable.c:304-338 | expansion changes addresses, not the cached objects, their order or what head and tail denote |
| LruCaches.LruCache.HashtableInsert | CDNSimulator/libCacheSim/dataStructure/hashtable/chainedHashtable.c:199-221 | the object is in the table, after an expansion exactly if more than four fifths of the table size were in use |
| NodeRemoval.UnlinkedIsLoose | CDNSimulator/libCacheSim/include/libCacheSim/cacheObj.h:46-64 | a node dropped from the front, dropped from the end or unlinked from the middle has nothing left to bridge |
| NodeRemoval.DeletedTable | CDNSimulator/libCacheSim/dataStructure/hashtable/chainedHashtable.c:224-255 | deleting a node that is still on the list leaves the table right in every case |
| NodeRemoval.DeletedBridged | CDNSimulator/libCacheSim/dataStructure/hashtable/chainedHashtable.c:60-67 | a node inside the list, or alone on it, that no other node replaces is bridged: the list loses it and nothing else |
| NodeRemoval.DeletedUnbridged | CDNSimulator/libCacheSim/dataStructure/hashtable/chainedHashtable.c:230-238 | otherwise no list over the remaining nodes fits the links and the monitored pointers |
| LruCaches.LruCache.HashtableDelete | CDNSimulator/libCacheSim/dataStructure/hashtable/chainedHashtable.c:224-255 | a node off the list is gone and the others and their order stay; a node still on it leaves the table right, and the list right if and only if it is inside the list or alone and is not a table entry with a successor |
| LruCaches.LruCache.Check | CDNSimulator/libCacheSim/evictionAlgo/LRU.c:28-37 | a hit exactly when the object is cached; it then takes the request's size and becomes the most recently used |
| LruCaches.LruCache.Insert | CDNSimulator/libCacheSim/cache/cache.c:155-178 | the new object becomes the most recently used |
| LruCaches.LruCache.Evict | CDNSimulator/libCacheSim/cache/cache.c:180-208 | the least recently used object goes |
| LruCaches.LruCache.Shrink | CDNSimulator/libCacheSim/cache/cache.c:142-143 | eviction goes on until the objects fit and never reaches the requested one |
| LruCaches.LruCache.Get | CDNSimulator/libCacheSim/cache/cache.c:115-153 | the contents become those of the list specification for requests of any size but 0, and the answer is whether the object was cached |
| Recency.StaysWithin | CDNSimulator/libCacheSim/cache/cache.c:135-149 | a cache within its size stays so if and only if the request is not a hit on an object larger than the cache |
| Recency.TrimmedIsLongest | CDNSimulator/libCacheSim/cache/cache.c:142-143 | eviction leaves the longest end of the list that fits |
| Recency.TouchedIs | CDNSimulator/libCacheSim/include/libCacheSim/cacheObj.h:72-110 | a request makes its object the last one and keeps the order of the others |
| LruCaches.LastDoesNotFit | CDNSimulator/libCacheSim/cache/cache.c:138-143 | when the objects do not fit there are at least two, since the requested one fits alone |
| Recency.TotalTouched | CDNSimulator/libCacheSim/cache/cache.c:105-111 | occupied_size after a request |
| SplayTree.SplayedKeys | CDNSimulator/libCacheSim/dataStructure/splay.c:58-126 | the keys stay in order and every size field is its subtree's size |
| SplayTree.SplayedRoot | CDNSimulator/libCacheSim/dataStructure/splay.c:25-36 | the root is the key, or the node a binary search for it ends at; smaller keys are left of it and larger ones right |
| SplayTree.DescendKeys | CDNSimulator/libCacheSim/dataStructure/splay.c:67-97 | the main loop keeps the keys of both assembly trees and the current tree in order |
| SplayTree.DescendApart | CDNSimulator/libCacheSim/dataStructure/splay.c:67-97 | what is linked left is smaller than the key and what is linked right is larger |
| SplayTree.SedgewickizedSplay | CDNSimulator/libCacheSim/dataStructure/splay.c:128-153 | sedgewickized_splay gives the shape that splay gives |
| SplayTree.InsertedKeys | CDNSimulator/libCacheSim/dataStructure/splay.c:155-190 | insert is set insertion, in order, with all sizes right |
| SplayTree.DeletedKeys | CDNSimulator/libCacheSim/dataStructure/splay.c:192-214 | splay_delete is set removal, in order, with all sizes right |
| SplayTree.LargestOnTop | CDNSimulator/libCacheSim/dataStructure/splay.c:202-205 | splaying the left subtree at the deleted key leaves no right subtree |
| SplayTree.OnTop | CDNSimulator/libCacheSim/dataStructure/splay.c:155-214 | insert leaves the key at the root, and splay_delete the largest smaller key |
| SplayDepth.SplayHalves | CDNSimulator/libCacheSim/dataStructure/splay.c:58-126 | the q-th node on the way to the key is at depth q / 2 + 2 or less afterwards |
| SplayInPlace.Nodes.DescendAt | CDNSimulator/libCacheSim/dataStructure/splay.c:67-97 | rotations and links in memory end in the state of the specification, with both assembly trees hung below the dummy node and their sizes counted |
| SplayInPlace.Nodes.FixSizesAt | CDNSimulator/libCacheSim/dataStructure/splay.c:109-119 | following the inner path to NULL, each size-fixing loop gives its nodes the size of what they will carry |
| SplayInPlace.Nodes.SplayAt | CDNSimulator/libCacheSim/dataStructure/splay.c:58-126 | the memory holds the splayed tree, made of the same nodes, and every other node is as it was |
| SplayInPlace.Nodes.InsertAt | CDNSimulator/libCacheSim/dataStructure/splay.c:155-190 | the memory holds the tree with the key, with one node more unless the key was there |
| SplayInPlace.Nodes.SplayDeleteAt | CDNSimulator/libCacheSim/dataStructure/splay.c:192-214 | the memory holds the tree without the key, whose node alone is freed |
| SplayInPlace.HungHolds | CDNSimulator/libCacheSim/dataStructure/splay.c:121-124 | an assembly tree whose innermost node is given the inner subtree is, in memory, the linked tree |
| StackDistance.GetStackDistAddReq | CDNSimulator/libCacheSim/profiler/include/distInternal.h:87-111 | the memory holds the tree of last access times and no node besides, the hash table agrees with it, and the distance is that of the specification but for objects last accessed at time 0 |
| StackDistance.GetLruHitCnt | CDNSimulator/libCacheSim/profiler/profilerLRU.c:58-99 | entry x is the number of requests the profiler takes to be hits at size x |
| StackDistance.DepthIsDistinct | CDNSimulator/libCacheSim/profiler/include/distInternal.h:73-86 | the stack depth of a request is the number of different objects since its last access |
| StackDistance.ContentsAreTop | CDNSimulator/libCacheSim/profiler/profilerLRU.c:50-57 | a cache of capacity n holds the n topmost objects of the LRU stack |
| StackDistance.HitIffShallow | CDNSimulator/libCacheSim/profiler/profilerLRU.c:75-81 | a request hits a cache of capacity n exactly when fewer than n objects are above it |
| StackDistance.ProfilerMissesOne | CDNSimulator/libCacheSim/profiler/include/distInternal.h:95-98 | at every size the profiler counts one hit less than LRU exactly when the second request of the first object is a hit |
| StackDistance.OnePassIsAllSimulations | CDNSimulator/libCacheSim/profiler/profilerLRU.c:50-99 | the counts of one pass are those of the LRU caches of all sizes up to size if and only if the first object is not requested again after fewer than size other objects |
| StackDistance.SecondRequestLost | CDNSimulator/libCacheSim/profiler/include/distInternal.h:95-98 | two requests of one object: LRU scores a hit and the profiler does not |
| StackDistance.Simulate | CDNSimulator/libCacheSim/evictionAlgo/LRU.c:39-41 | running LRU_get over a trace scores the specified number of hits |
| SubstringSearch.BuildTable | CDNSimulator/libCacheSim/dataStructure/ut/utstring.h:171-207 | entry i is the longest border of the first i characters that is followed by another character, or -1, and the last entry is the longest border of the needle |
| SubstringSearch.BuildTableR | CDNSimulator/libCacheSim/dataStructure/ut/utstring.h:211-247 | the same table for the needle read from the right |
| SubstringSearch.Find | CDNSimulator/libCacheSim/dataStructure/ut/utstring.h:251-280 | the first occurrence, or -1 exactly when there is none |
| SubstringSearch.FindR | CDNSimulator/libCacheSim/dataStructure/ut/utstring.h:284-314 | the last occurrence, or -1 exactly when there is none |
| SubstringSearch.Skip | CDNSimulator/libCacheSim/dataStructure/ut/utstring.h:265-268 | moving along to the table entry loses no occurrence |
| SubstringSearch.NextFails | CDNSimulator/libCacheSim/dataStructure/ut/utstring.h:189-203 | the optimised entry is right in both of its cases |
| SubstringSearch.NextLongest | CDNSimulator/libCacheSim/dataStructure/ut/utstring.h:183-188 | falling back until the next character matches gives the longest border of the next prefix |
| SubstringSearch.FirstIsLast | CDNSimulator/libCacheSim/dataStructure/ut/utstring.h:284-314 | the first occurrence in the reversed haystack is the last occurrence |
| SubstringSearch.StringFind | CDNSimulator/libCacheSim/dataStructure/ut/utstring.h:318-360 | the first occurrence at or after the start position, or -1; the search leaves the buffer exactly when the start is before it and the needle, not empty, is no longer than the rest |
| SubstringSearch.StringFindR | CDNSimulator/libCacheSim/dataStructure/ut/utstring.h:364-402 | the last occurrence in the buffer that ends at or before the start position, or -1, the null and what follows it included; the search leaves the buffer exactly when the start is outside it and the needle, not empty, is no longer than what precedes |
| SubstringSearch.FindBeforeText | CDNSimulator/libCacheSim/dataStructure/ut/utstring.h:329-338 | an example: three characters looked for from three before the end of a text of two |
| SubstringSearch.FindWithNull | CDNSimulator/libCacheSim/dataStructure/ut/utstring.h:375-384 | an example of an occurrence that takes in the null and is not in the text |
| Csv.Step | CDNSimulator/libCacheSim/traceReader/libcsv.c:350-455 | one character: positions never underflow and at most one byte is added to the entry |
| Csv.SplitInput | CDNSimulator/libCacheSim/traceReader/libcsv.c:314-458 | splitting the input between two calls gives the same callbacks and state |
| Csv.AnyPieces | CDNSimulator/libCacheSim/traceReader/libcsv.c:314-458 | however the input is cut into pieces the callbacks are the same |
| Csv.RoundTrip | CDNSimulator/libCacheSim/traceReader/libcsv.c:461-495 | fields written by csv_write, joined by commas and ended by a line break, are read back as one row of the original bytes, whatever the options |
| Csv.RoundTripAtEnd | CDNSimulator/libCacheSim/traceReader/libcsv.c:167-203 | without the line break csv_fini gives the same row |
| Csv.CsvWrite | CDNSimulator/libCacheSim/traceReader/libcsv.c:461-495 | the length of the quoted field, of which as much as fits is in the buffer |
| Csv.Parser.Parse | CDNSimulator/libCacheSim/traceReader/libcsv.c:314-458 | callbacks and state are those of the state machine on the bytes processed, every buffer write is in bounds, and it stops early only on a strict error or when memory runs out |
| Csv.Parser.IncreaseBuffer | CDNSimulator/libCacheSim/traceReader/libcsv.c:279-311 | the buffer keeps its contents and grows by the first of the amounts a block, its half, its quarter and so on that is granted, or the status says that none is or that nothing can be added |
| Csv.Parser.SubmitFieldNow | CDNSimulator/libCacheSim/traceReader/libcsv.c:56-68 | the field submitted is the entry without trailing spaces, and on request a null is written behind it, in bounds |
| Csv.Parser.Fini | CDNSimulator/libCacheSim/traceReader/libcsv.c:167-203 | what is left is submitted as the end of a row and the parser is as new, or strict mode rejects an open quote |
| CsvDocument.ReadsDocument | CDNSimulator/libCacheSim/traceReader/libcsv.c:314-458 | every document of rows and cells, with blanks around cells, doubled and stray quotes and empty cells and rows, is read as its rows and cells: without quotes the text but for the blanks around it, with quotes what they enclose, under all options |
| CsvDocument.ReadsDraft | CDNSimulator/libCacheSim/traceReader/libcsv.c:314-458 | the same for a text that breaks off anywhere: the callbacks are for the cells and rows that have ended |
| CsvDocument.FinishesDraft | CDNSimulator/libCacheSim/traceReader/libcsv.c:167-203 | csv_fini adds the last cell, even without its closing quote, and the end of its row, unless that row is empty |
| CsvDocument.StopsAt | CDNSimulator/libCacheSim/traceReader/libcsv.c:391-450 | strict mode stops exactly at a quote inside a cell without quotes, or after a closing quote at anything but blanks and the end of the cell |
| CsvDocument.EveryText | CDNSimulator/libCacheSim/traceReader/libcsv.c:314-458 | every text is such a draft, unless strict mode rejects it |
| CsvDocument.ReadAll | CDNSimulator/libCacheSim/traceReader/libcsv.c:314-458 | the parser object on a whole text makes the callbacks of the draft that the text is |
| CsvDocument.DefaultIsProper | CDNSimulator/libCacheSim/traceReader/libcsv.c:355-405 | the characters of csv_init, in numbers |
| Xxh3Stream.HashLong | CDNSimulator/libCacheSim/dataStructure/hash/xxh3.h:1632-1663 | the block loop with its scrambles and last stripe computes the stripe-by-stripe hash |
| Xxh3Stream.ConsumeStripes | CDNSimulator/libCacheSim/dataStructure/hash/xxh3.h:1970-1994 | stripes within and across a block boundary are consumed as one by one, with the scramble in its place |
| Xxh3Stream.Xxh3State.Update | CDNSimulator/libCacheSim/dataStructure/hash/xxh3.h:1999-2065 | the state takes in the input: all but the last bytes are consumed and the buffer keeps what the last stripe may need |
| Xxh3Stream.Xxh3State.DigestLong | CDNSimulator/libCacheSim/dataStructure/hash/xxh3.h:2076-2109 | the accumulators are those of the one-shot loop on everything taken in, catch-up stripe included |
| Xxh3Stream.CatchUp | CDNSimulator/libCacheSim/dataStructure/hash/xxh3.h:2098-2107 | the last stripe pieced together from both ends of the buffer ends with the data |
| Xxh3Stream.LongHashCalls | CDNSimulator/libCacheSim/dataStructure/hash/xxh3.h:1632-1663 | the calls of the mixing functions in numbers: stripe i with the secret from 8 times its place in its block, a scramble 64 before the end of the secret after each block of (size - 64) / 8 stripes, and the last 64 bytes with the secret from 71 before its end |
| Xxh3Stream.HashPieces | CDNSimulator/libCacheSim/dataStructure/hash/xxh3.h:1999-2109 | any sequence of updates and the digest make exactly these calls for the concatenation, as the one-shot form does |
| Md5Stream.CopyFits | CDNSimulator/src/md5.c:339-346 | with a partial block of offset bytes the copy stays within the buffer if and only if offset plus the new bytes is below 2^31 |
| Md5Stream.CopyOverruns | CDNSimulator/src/md5.c:339-346 | one buffered byte and a piece of 2^31 - 1 bytes: the copy overruns the buffer |
| Md5Stream.Md5State.Append | CDNSimulator/src/md5.c:322-358 | all whole blocks are processed, the rest is buffered and the bit count is right modulo 2^64, for every piece whose length does not overflow the test for a partial block |
| Md5Stream.Md5State.Finish | CDNSimulator/src/md5.c:360-381 | the digest is the fold over the message padded as in sections 3.1 and 3.2 of RFC 1321 |
| Md5Stream.Counting | CDNSimulator/src/md5.c:333-337 | adding to the two count words carries as a 64-bit addition does |
| Md5Stream.Zeros | CDNSimulator/src/md5.c:376-376 | the padding brings the length to 56 modulo 64 with fewer than 64 zero bytes |
| Md5Stream.WordBytes | CDNSimulator/src/md5.c:371-380 | a word is written with its lowest byte first |
| Md5Stream.LengthNumber | CDNSimulator/src/md5.c:371-374 | the eight length bytes are the number of bits modulo 2^64 |
| Md5Stream.OutputNumbers | CDNSimulator/src/md5.c:379-380 | the sixteen bytes of the digest are the registers a, b, c and d in this order |
| Md5Stream.FirstRegisters | CDNSimulator/src/md5.c:313-319 | the registers begin as section 3.3 of RFC 1321 says |
| Md5Stream.PaddingIs | CDNSimulator/src/md5.c:360-378 | the message, 0x80, zero bytes up to 56 modulo 64 and the length |
| Md5Stream.BlocksInOrder | CDNSimulator/src/md5.c:339-358 | the registers begin with the constants of section 3.3 of RFC 1321 and go through the blocks of 64 bytes one after the other |
| Md5Stream.DigestPieces | CDNSimulator/src/md5.c:322-381 | any sequence of appends, each of which fits after those before it, and finishing give the digest of the concatenation |
| Md5Stream.SmallPieceFits | CDNSimulator/src/md5.c:339-346 | pieces of at most 2^31 - 64 bytes always fit |
| HashRing.VnodeIdx | CDNSimulator/src/consistentHash.cpp:85-128 | the first virtual node at or after the hash, or 0 when all are before it |
| HashRing.SuccessorUnique | CDNSimulator/src/consistentHash.cpp:85-128 | the virtual node found is determined by the ring and the hash |
| HashRing.GetServers | CDNSimulator/src/consistentHash.cpp:135-194 | the first n servers with capacity in the clockwise order of first occurrence; it aborts exactly when there are fewer |
| HashRing.ClockwiseHasAll | CDNSimulator/src/consistentHash.cpp:135-194 | when every available server has a virtual node the order holds all of them, so n available servers are enough |
| HashRing.ClockwiseByDistance | CDNSimulator/src/consistentHash.cpp:135-194 | of two servers in the order the one whose first virtual node is met earlier clockwise comes first |
| HashRing.PopulateHashMapping | CDNSimulator/src/cacheCluster.cpp:133-164 | every bucket goes to the first available servers clockwise of its hash, and the counters count the buckets on each server; it aborts if and only if some bucket finds too few |
| HashRing.NeverExhausted | CDNSimulator/src/cacheCluster.cpp:140-147 | while buckets are left the servers with capacity are exactly the available ones |
| HashRing.LosingAServer | CDNSimulator/src/include/cacheCluster.hpp:239-245 | losing a server changes only the lists that contained it, and the survivors keep their order |
| HashRing.KeepWithout | CDNSimulator/src/consistentHash.cpp:151-166 | an unavailable server drops out of the clockwise order and the others stay in place |
| ChunkRepair.GetChunkInfo | CDNSimulator/src/cacheCluster.cpp:321-354 | exactly the servers with the first copy of a chunk are marked correct, those with a further copy incorrect and the others without chunk; every chunk is counted as often as it is held, the hits are the different chunks and the duplicates the further copies |
| ChunkRepair.Cluster.Restore | CDNSimulator/src/cacheCluster.cpp:452-468 | every chunk ends up on exactly one mapped server; first copies stay, the missing chunks go to the other mapped servers in increasing order, other servers are untouched, and the assertion that a position is left never fails |
| ChunkRepair.Cluster.CountHits | CDNSimulator/src/cacheCluster.cpp:379-424 | the hits counted on mapped, spare and previous servers, each server once even where the list repeats it |
| ChunkRepair.Cluster.CacheHitChunk | CDNSimulator/src/cacheCluster.cpp:356-489 | after any chunk hit the n mapped servers hold the chunks 0 to n-1 once each, first copies where they were and the missing ones in order, also when a spare server repeats the parity server; the index into n_miss is out of range exactly when n equals k, one chunk is missing and both spare servers count |
| ChunkRepair.HitsBound | CDNSimulator/src/cacheCluster.cpp:486-486 | the hits exceed n in exactly that case |
| ChunkRepair.HitsAre | CDNSimulator/src/cacheCluster.cpp:379-424 | the hits as sizes of sets: the chunks on mapped servers, then spare servers with another chunk, then the server that last had the parity chunk |
| ChunkRepair.LastParityCounts | CDNSimulator/src/cacheCluster.cpp:400-424 | a chunk on the server that last had the parity chunk turns k - 1 hits into k |
| ChunkRepair.TooManyHits | CDNSimulator/src/cacheCluster.cpp:383-396 | an example with n and k both 3 in which four hits are counted for three chunks |
| ParityPlacement.BuildNetwork | CDNSimulator/src/cacheCluster.cpp:63-103 | the arcs between source, servers, buckets and sink with their capacities, or a failed assertion exactly when an available server has no data |
| ParityPlacement.FindParityMapping | CDNSimulator/src/cacheCluster.cpp:104-129 | decoding any integral flow puts the server with flow at the parity position of each bucket and counts it |
| ParityPlacement.PlacementOk | CDNSimulator/src/cacheCluster.cpp:104-129 | parity goes to an available server that holds none of the bucket's data chunks; data chunks stay and the first n servers are different |
| ParityPlacement.LoadBound | CDNSimulator/src/cacheCluster.cpp:72-96 | data and assigned parity stay within the larger of the data load and the rounded-up average; a server without data gets none |
| ParityPlacement.OneParity | CDNSimulator/src/cacheCluster.cpp:99-102 | each bucket has flow from at most one server |
| ParityPlacement.CountsExact | CDNSimulator/src/cacheCluster.cpp:149-162 | the counters miss exactly the buckets that got no parity and have the server as their n-th |
| ParityPlacement.SaturatedCounts | CDNSimulator/src/cacheCluster.cpp:126-128 | if the flow saturates all buckets the counters are the true counts |
| ParityPlacement.NetworkArcs | CDNSimulator/src/cacheCluster.cpp:72-102 | every arc and its capacity in numbers, and that there is no other |
| ParityPlacement.PlacedByFlow | CDNSimulator/src/cacheCluster.cpp:104-129 | a server from which the flow takes a unit to a bucket becomes its n-th server and the former ones move back by one, other buckets stay; every counter is the data load plus the buckets the flow gives the server, which is the true count if the flow saturates all buckets; the true count is at most the larger of data load and average, but for buckets that keep their server |
| ClusterPlacement.ListAfterServes | CDNSimulator/src/cacheCluster.cpp:119-125 | whatever the flow, every list after parity placement is one that chunk hits can be served from: n different mapped servers, all of the list available |
| ClusterPlacement.ParityRepeats | CDNSimulator/src/cacheCluster.cpp:119-125 | when the flow picks the old n-th server the list repeats it as the first spare one |
| ClusterPlacement.PlaceParity | CDNSimulator/src/cacheCluster.cpp:63-129 | unless the assertion fails, lists and counters are what the flow that the solver returns for the network makes of those of the ring (ParityPlacement.Placed), the average is rounded up, and every list serves chunk hits |
| ClusterPlacement.UsedOnRing | CDNSimulator/src/cacheCluster.cpp:76-91 | the assertion holds exactly when every available server is among the first n - 1 clockwise of some bucket's hash |
| ClusterPlacement.MoreServersThanData | CDNSimulator/src/cacheCluster.cpp:86-87 | with more available servers than places for data the assertion fails, whatever the ring and the hash |
| ClusterPlacement.AssertionFails | CDNSimulator/src/cacheCluster.cpp:86-87 | an example: 201 available servers, n = 3 and 100 buckets, each of which finds its servers |
| ClusterPlacement.PopulateHashMapping | CDNSimulator/src/cacheCluster.cpp:133-164 | from ring and availability: data on the first available servers clockwise of the bucket's hash and parity where the flow through the network says; it aborts if and only if a bucket finds too few servers or an available server has no data |
| ClusterPlacement.PlaceAndServe | CDNSimulator/src/cacheCluster.cpp:356-489 | from ring and availability to a repaired cluster: placement succeeds under the exact condition, and then after any chunk hit on any bucket its n mapped servers hold the chunks 0 to n-1 once each |

## Left out

- `EulerUndirected`, breadth-first search, bipartition, topological sort, weak components and `Immutable`: easier
  relatives of what is modelled; `Sort` at the end of `MaxFlow` only changes the representation of its result.
- MaximumFlow.MaxFlow: s different from t, at most one edge between two vertices in each direction, capacities
  whose sum is below Max; beyond that the source's arithmetic may overflow.
- ShortestPaths.ShortestPaths: distances are mathematical integers; sums beyond 64 bits are not modelled.
- SpanningForest.MST: symmetric graphs with costs below Max, as the source asks of an undirected graph.
- StrongComponents.Compute: graphs of fewer vertices than the largest integer, which is the source's marker.
- Running times of the graph algorithms.
- Cuckoo: a critical section is one step. `DisjointSectionsCommute` supports that for sections without a common
  lock, but the steps inside one section are not interleaved with others, and lock order, memory orderings and
  the retry loops of lock acquisition are not modelled; nor is whether an insertion ends that others keep
  disturbing or whose keys all have one hash; nor are the breadth-first slot search (a path may be any sequence of
  slots), manual resizing, `locked_table`, iterators, allocators and exceptions other than a refused resize.
- CuckooSize.SizeIsClose: a scan during which the table is cleared, or the array of locks replaced by a longer one.
- LruCaches.LruCache.Get: requests of size 0, which look like an empty table entry.
- LruCaches.LruCache.HashtableInsert: 80 percent of the table size is computed in integers.
- Removal of objects on request, TTLs, eviction ages and the other eviction algorithms.
- SplayDepth.SplayHalves: the amortised running time that follows from it is not stated.
- SplayInPlace.Nodes.SplayAt: a node is addressed by its key, of which a search tree has no two equal; keys are
  unbounded integers.
- SplayTree.SedgewickizedSplay: trees are values, since it makes the same writes as splay without the sizes.
- StackDistance.GetLruHitCnt: objects of unit size, and a hash table without collisions of identifiers.
- SubstringSearch.Find: lengths beyond 31 bits, which the source truncates.
- SubstringSearch.StringFind: what a comparison outside the buffer gives.
- SubstringSearch.StringFindR: what a comparison outside the buffer gives.
- Csv: the callbacks are assumed to be present and options not to change between calls; `csv_fwrite` is the same
  printer on a file; a NULL source or destination of `csv_write` and saturation of its count are not modelled.
- XXH3 inputs of up to 240 bytes, seeds and the choice of vector instructions; the mixing functions are parameters.
- Md5Stream.Md5State.Append: pieces whose length plus the bytes buffered reaches 2^31, where the copy overruns the
  buffer (`CopyFits`); a caller that keeps pieces at 2^31 - 64 bytes or fewer is safe.
- Md5Stream.DigestPieces: pieces that do not fit after those before them, for the same reason.
- HashRing.GetServers: the call without capacities, which is the same walk with every server available.
- Rings with unequal weights, where some virtual nodes stay unset.
- ChunkRepair.Cluster.CacheHitChunk: what a server's cache evicts to make room, byte counters and whole objects.
- ParityPlacement.FindParityMapping: the solver is not part of this model, any integral flow will do.
- Choices made with `rand()`, trace readers, the command line, logging, threads of the simulator, and slab caches.
