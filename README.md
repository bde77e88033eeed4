# Quiver in Dafny

A model of the core of Quiver, a header-only C++ graph theory library, with proofs of what its operations promise.

Quiver stores a graph as an `adjacency_list`. This is a vector of vertices, each with a payload and a list of out-edge records (target index and payload), plus counters for vertices and edges. An undirected graph stores each edge as two records, one in each direction, which the library means to carry the same payload. The model calls that property `Mirrored`. It is not part of the class invariant `Valid()`, because two of the library's operations can break it (see "## Left out"). The other mutating operations keep it when it held before, and the undirected copies establish it.

The model covers:
- the adjacency list itself: emplacing and erasing vertices and edges, edge contraction, cleaving, stripping and directivity changes;
- the graph families complete, complete bipartite (with star and claw), cycle, linear and wheel, and their recognisers;
- the operations complement, transpose, orient and disorient;
- regularity;
- breadth-first, depth-first and Dijkstra search, with the visitation table and the binary heap Dijkstra uses;
- the disjoint set with its four find strategies;
- connected components and splitting a graph into them;
- Kruskal's spanning forest, with and without weights;
- Kahn's topological sort;
- Tarjan's strongly connected components, recursive form;
- the Graphviz `to_dot` writer.

The model follows the library's form:
- The graph, the disjoint set, the binary heap and the visitation table are classes whose methods update their fields in place.
- Algorithms with loops are methods proved against specification functions and predicates.
- Per-vertex loops are separate methods with their own invariants.
- Facts that relate several operations are lemmas.

Each module corresponds to one source file:
- `graph_types.dfy`, `adjacency_ops.dfy`, `adjacency_list.dfy` and `contraction.dfy` model `adjacency_list.hpp/.inl`;
- `paths.dfy` holds walks, reachability and walk costs, shared by the searches;
- `family_build.dfy` holds the construction steps shared by the families.
- `scc.dfy` models `strongly_connected_components.hpp`. `tarjan_invariant.dfy` states the search's invariant over the values of the state's fields and proves that each step keeps it.
- `search_tests.dfy` and `scc_tests.dfy` state the library's dfs, bfs and strongly connected components tests as lemmas about the model.

## Model

| member | source | states |
|---|---|---|
| AdjacencyList.Graph.constructor | include/quiver/adjacency_list.hpp:228-230 | a new graph of the given directivity has no vertices and satisfies the storage invariant |
| AdjacencyList.Graph.Sized | include/quiver/adjacency_list.inl:284-288 | adjacency_list(n) has n vertices, each with the given payload and no records, and is valid |
| AdjacencyList.Graph.Copy | include/quiver/adjacency_list.inl:18-23 | the converting copy takes over storage and both counters unchanged |
| AdjacencyList.Graph.VertexSize | include/quiver/adjacency_list.inl:39-42 | vertex_size is m_v whenever the counters are in step |
| AdjacencyList.Graph.VertexEmpty | include/quiver/adjacency_list.inl:44-47 | vertex_empty holds exactly when there are no vertices |
| AdjacencyList.Graph.VertexGet | include/quiver/adjacency_list.inl:91-100 | vertex_get(index) returns exactly the vertex stored at `index` (`r == vertices[index]`), for an index below the vertex count as its assert demands |
| AdjacencyList.Graph.VertexEmplace | include/quiver/adjacency_list.inl:104-110 | vertex_emplace appends the vertex, returns the old m_v as its index, adds its records to m_e, and keeps the invariant when it has no records |
| AdjacencyList.Graph.VertexEraseSimple | include/quiver/adjacency_list.inl:142-151 | vertex_erase_simple drops the vertex and its records, leaving other lists untouched, and reports true |
| AdjacencyList.Graph.VertexErase | include/quiver/adjacency_list.inl:112-140 | vertex_erase drops the vertex, every record to it, and renumbers targets above it; the result is EraseVertex (see EraseVertexEffect) and the invariant holds |
| AdjacencyList.Graph.ShiftRows | include/quiver/adjacency_list.inl:118-133 | the scan over every list leaves each list shifted (records to the erased vertex dropped, higher targets decremented) and m_e in step |
| AdjacencyList.Graph.EdgeSizeCounts | include/quiver/adjacency_list.inl:154-173 | edge_size counts adjacent ordered pairs (unordered pairs when undirected), never exceeds edge_max_size, and edge_empty holds exactly when no two vertices are adjacent |
| AdjacencyList.Graph.EdgeGetSimple | include/quiver/adjacency_list.inl:186-197 | edge_get_simple finds nothing exactly when there is no record from -> to, and otherwise returns the first such record |
| AdjacencyList.Graph.EdgeGet | include/quiver/adjacency_list.inl:176-184 | edge_get finds a record exactly when the edge exists; an undirected graph looks it up from the lower index |
| AdjacencyList.Graph.EdgeEmplaceSimpleNonexistent | include/quiver/adjacency_list.inl:218-230 | with no record from -> to, the record is appended, m_e grows by one, and the result is true |
| AdjacencyList.Graph.EdgeEmplaceSimple | include/quiver/adjacency_list.inl:231-243 | the record is appended exactly when absent; the result says whether it was; a simple graph stays simple |
| AdjacencyList.Graph.EdgeEmplace | include/quiver/adjacency_list.inl:199-217 | edge_emplace adds from -> to (and to -> from when undirected), reports true exactly when the edge was new, and keeps the invariant and mirrored payloads |
| AdjacencyList.Graph.EdgeEraseSimple | include/quiver/adjacency_list.inl:264-282 | edge_erase_simple drops the first record from -> to, if any, and reports whether there was one |
| AdjacencyList.Graph.EdgeErase | include/quiver/adjacency_list.inl:244-263 | edge_erase removes exactly the edge (both records when undirected), reports whether it existed, and keeps the invariant |
| AdjacencyList.Graph.InDegree | include/quiver/adjacency_list.inl:290-301 | in_degree is the number of vertices with a record to index (the out-degree for undirected graphs, see UndirectedInDegree) |
| AdjacencyList.Graph.OutDegree | include/quiver/adjacency_list.inl:302-306 | out_degree is the number of distinct out-neighbours |
| AdjacencyList.Graph.Degree | include/quiver/adjacency_list.inl:307-312 | degree, only for undirected graphs, is both the number of neighbours and the in-degree |
| AdjacencyList.Graph.StripEdges | include/quiver/adjacency_list.inl:314-322 | strip_edges() const& returns a fresh valid graph with the same payloads and no records |
| AdjacencyList.Graph.PayloadsOnly | include/quiver/adjacency_list.inl:317-320 | the payload-copying loop yields a valid graph with one edgeless vertex per vertex |
| AdjacencyList.Graph.StripEdgesMove | include/quiver/adjacency_list.inl:323-333 | strip_edges() && clears every list in place and m_e ends at zero |
| AdjacencyList.Graph.ToDirected | include/quiver/adjacency_list.inl:335-346 | to_directed keeps storage and m_e; every undirected edge is read as its two directed records |
| AdjacencyList.Graph.ToUndirected | include/quiver/adjacency_list.inl:348-368 | to_undirected() const& of a directed graph emplaces every edge undirected into a copy of the payloads (ToUndirectedCopy); an undirected graph is returned as it is |
| AdjacencyList.Graph.UndirectedCopy | include/quiver/adjacency_list.inl:352-363 | the directed branch of to_undirected() const& builds exactly ToUndirectedCopy |
| AdjacencyList.Graph.EmplaceRow | include/quiver/adjacency_list.inl:360-361 | the inner copying loop emplaces one vertex's records in order |
| AdjacencyList.Graph.ToUndirectedMove | include/quiver/adjacency_list.inl:369-386 | to_undirected() && keeps every record and adds each missing reverse record (ToUndirectedMove) |
| AdjacencyList.Graph.AddReverseRecords | include/quiver/adjacency_list.inl:377-379 | the inner loop of to_undirected() && adds to -> v for every record v -> to, keeping the graph simple |
| AdjacencyList.Graph.TransformOuts | include/quiver/adjacency_list.inl:388-395 | transform_outs maps every target through the function, payloads and counters unchanged |
| AdjacencyList.Graph.SortEdges | include/quiver/adjacency_list.inl:396-402 | sort_edges leaves every list sorted by target (SortedRows) and keeps the invariant |
| AdjacencyList.Graph.Contract | include/quiver/adjacency_list.inl:404-483 | contract(u, v) merges the higher vertex into the lower one (Contracted), reports whether they were adjacent either way, and keeps the invariant |
| AdjacencyList.Graph.ContractOrdered | include/quiver/adjacency_list.inl:413-482 | the steps of contract with u < v, in order, reach Contracted |
| AdjacencyList.Graph.DropRecordTo | include/quiver/adjacency_list.inl:421-442 | the first block of contract removes u's record to v, reports it, and builds u_connectivity over the rest of u's list |
| AdjacencyList.Graph.AbsorbList | include/quiver/adjacency_list.inl:443-449 | v's records that point neither at u nor at a neighbour of u are appended to u; the result says whether v had a record to u |
| AdjacencyList.Graph.RelabelOthers | include/quiver/adjacency_list.inl:453-477 | every list but u's is relabelled: the first record to u or v becomes one to u, later ones are dropped, others renamed |
| AdjacencyList.Graph.RenameOwn | include/quiver/adjacency_list.inl:478-480 | u's own records are renamed |
| AdjacencyList.Graph.Cleave | include/quiver/adjacency_list.inl:484-499 | cleave(v) appends a copy of v, returns its index and adds a record to it beside every other vertex's record to v (Cleaved), keeping the invariant |
| AdjacencyList.Graph.CleaveRow | include/quiver/adjacency_list.inl:492-497 | one round of cleave's loop adds i -> new_v with the payload of i's record to v, when there is one |
| AdjacencyList.Graph.Swap | include/quiver/adjacency_list.inl:501-508 | swap exchanges storage and both counters, and keeps both invariants |
| AdjacencyOps.AddRecord | include/quiver/adjacency_list.inl:227-228 | appending a record adds exactly the edge from -> to, one record, and changes no other list |
| AdjacencyOps.EmplaceSimple | include/quiver/adjacency_list.inl:233-243 | a record is added exactly when from -> to was absent, and then only that edge is new |
| AdjacencyOps.EmplaceEffect | include/quiver/adjacency_list.inl:199-217 | after edge_emplace the edge exists (both ways when undirected), nothing else changes, the result is true exactly when it is new, the record count grows by 0, 1 or 2, and the graph stays well formed |
| AdjacencyOps.EmplaceSimpleRecords | include/quiver/adjacency_list.inl:233-243 | the records after edge_emplace_simple are the old ones plus from -> to with its payload when it was new |
| AdjacencyOps.EmplaceUndirectedRecords | include/quiver/adjacency_list.inl:209-214 | an undirected edge_emplace gives both records of a new edge its payload; an existing edge keeps its records |
| AdjacencyOps.EmplaceMirrored | include/quiver/adjacency_list.inl:209-214 | undirected edge_emplace keeps every record's partner at the same payload |
| AdjacencyOps.EmplaceSimplePreservesSimple | include/quiver/adjacency_list.inl:233-243 | edge_emplace_simple keeps a simple graph simple (no loops, no multi-edges) |
| AdjacencyOps.RemoveFirstToRecords | include/quiver/adjacency_list.inl:271-281 | dropping the first record to `to` keeps exactly the records with other targets when targets are distinct |
| AdjacencyOps.EraseSimple | include/quiver/adjacency_list.inl:264-282 | edge_erase_simple reports true exactly when from -> to existed and then removes one record |
| AdjacencyOps.EraseSimpleEffect | include/quiver/adjacency_list.inl:264-282 | after edge_erase_simple exactly from -> to is gone and the graph stays simple |
| AdjacencyOps.EraseSimpleRecords | include/quiver/adjacency_list.inl:264-282 | the records after edge_erase_simple are all old records except from -> to |
| AdjacencyOps.EraseUndirectedRecords | include/quiver/adjacency_list.inl:253-261 | an undirected edge_erase removes exactly the two records of the edge |
| AdjacencyOps.EraseMirrored | include/quiver/adjacency_list.inl:253-261 | undirected edge_erase keeps every record's partner at the same payload |
| AdjacencyOps.EraseEffect | include/quiver/adjacency_list.inl:244-263 | after edge_erase the edge is gone (both directions when undirected), nothing else changes, the result says whether it was there, and the graph stays well formed |
| AdjacencyOps.RemoveVertex | include/quiver/adjacency_list.inl:142-151 | vertex_erase_simple keeps the other vertices in order and loses exactly the erased vertex's records |
| AdjacencyOps.ShiftOutsAny | include/quiver/adjacency_list.inl:120-132 | after the shift a list has a record to b exactly when it had one to b's old index |
| AdjacencyOps.ShiftOutsDistinct | include/quiver/adjacency_list.inl:120-132 | the shift keeps targets distinct |
| AdjacencyOps.EraseVertexEffect | include/quiver/adjacency_list.inl:112-140 | after vertex_erase the other vertices keep their payloads in order, their edges are exactly the old ones renumbered, and the graph stays well formed |
| AdjacencyOps.ScanCorrectedShifts | include/quiver/adjacency_list.inl:120-132 | the backward scan without the extra ++i shifts the scanned prefix and keeps the rest |
| AdjacencyOps.ScanAsWrittenShiftsTwice | include/quiver/adjacency_list.inl:120-127 | as written, the list [index, index+2] becomes [index] instead of [index+1] |
| AdjacencyOps.ScanAsWrittenReadsPastEnd | include/quiver/adjacency_list.inl:120-127 | as written, a list whose last record points at the erased vertex makes the scan read past the end |
| AdjacencyOps.EdgesMembers | include/quiver/adjacency_list.inl:352-361 | the nested loop over every vertex and its records visits exactly the records, as (from, to, payload) |
| AdjacencyOps.Stripped | include/quiver/adjacency_list.inl:314-322 | stripping keeps every payload and leaves no records |
| AdjacencyOps.UndirectedFoldEffect | include/quiver/adjacency_list.inl:359-361 | emplacing a sequence of edges undirected keeps the graph well formed and adds exactly the pairs the edges join |
| AdjacencyOps.EdgesMentions | include/quiver/adjacency_list.inl:359-361 | the edges of a graph join a and b exactly when a -> b or b -> a is a record |
| AdjacencyOps.ToUndirectedCopyEffect | include/quiver/adjacency_list.inl:348-368 | to_undirected() const& keeps the payloads, is well formed, and has {a, b} exactly where a -> b or b -> a existed |
| AdjacencyOps.PayloadToRecord | include/quiver/adjacency_list.inl:192-196 | with distinct targets, the first record to w is the only one |
| AdjacencyOps.FirstJoinUpTo | include/quiver/adjacency_list.inl:359-361 | in iteration order, the first edge joining a < b is a -> b when a holds it, else b -> a |
| AdjacencyOps.UndirectedFoldRecord | include/quiver/adjacency_list.inl:359-361 | the undirected fold keeps the old records and gives every new pair the payload of the first edge joining it |
| AdjacencyOps.ToUndirectedCopyRecords | include/quiver/adjacency_list.inl:348-368 | the two records of each copied edge carry the same payload: that of a -> b for a < b when it exists, else that of b -> a |
| AdjacencyOps.RowFoldEffect | include/quiver/adjacency_list.inl:377-379 | the reverse-record loop adds exactly the reverse of the records it reads |
| AdjacencyOps.ToUndirectedMoveEffect | include/quiver/adjacency_list.inl:369-386 | to_undirected() && keeps the payloads and has a -> b exactly where a -> b or b -> a existed |
| AdjacencyOps.ToUndirectedMoveRecords | include/quiver/adjacency_list.inl:369-386 | every record stays, and a missing reverse record takes the payload of its partner |
| AdjacencyOps.ToUndirectedMoveValid | include/quiver/adjacency_list.inl:369-386 | the moving conversion yields valid undirected storage |
| AdjacencyOps.AppendIsolated | include/quiver/adjacency_list.inl:104-110 | appending a vertex without records adds no edges and keeps the storage well formed |
| AdjacencyOps.InCountCounts | include/quiver/adjacency_list.inl:293-297 | the in_degree loop counts exactly the vertices with a record to t |
| AdjacencyOps.OutDegreeCounts | include/quiver/adjacency_list.hpp:66 | without multi-edges, out_degree is the number of distinct neighbours |
| AdjacencyOps.UndirectedInDegree | include/quiver/adjacency_list.inl:298-299 | in symmetric simple storage (every record has its reverse record) the in-degree equals the out-degree |
| AdjacencyOps.TransformOutsEffect | include/quiver/adjacency_list.inl:388-395 | transform_outs keeps every record; a -> f(c) exists exactly where a -> c did |
| AdjacencyOps.TransformOutsCompose | include/quiver/adjacency_list.inl:388-395 | two transformations in a row equal one by the composition |
| AdjacencyOps.TransformOutsIdentity | include/quiver/adjacency_list.inl:388-395 | transforming by the identity changes nothing |
| AdjacencyOps.SortEdgesEffect | include/quiver/adjacency_list.hpp:73-76 | sorting keeps the records, the edges and the storage invariants |
| AdjacencyOps.SortedRowsUnique | include/quiver/adjacency_list.hpp:73-76 | with distinct targets, the target-sorted lists are the only sorted permutations of the lists |
| AdjacencyOps.CleavedRowAny | include/quiver/adjacency_list.inl:493-496 | a cleaved list has a record to t exactly when it had one, or t is the copy and it had one to v |
| AdjacencyOps.CleaveEffect | include/quiver/adjacency_list.inl:484-499 | after cleave(v) the copy has v's payload and records, every vertex with an edge to v gains one to the copy, nothing else changes, and the storage stays well formed |
| AdjacencyOps.ToUndirectedMoveUnmirrored | include/quiver/adjacency_list.inl:373-379 | a directed graph with 0 -> 1 ('a') and 1 -> 0 ('b') is left as it is by to_undirected() &&, and its one undirected edge carries two payloads |
| GraphTypes.AnyTo | include/quiver/adjacency_list.hpp:68-71 | has_edge_to holds exactly when some record of the list targets the index |
| GraphTypes.FirstTo | include/quiver/adjacency_list.inl:190-196 | the search finds nothing exactly when no record targets `to`, and otherwise the first position that does |
| GraphTypes.SortByTarget | include/quiver/adjacency_list.hpp:73-76 | sort_edges yields a target-sorted permutation of the records |
| GraphTypes.SortedPermutationUnique | include/quiver/adjacency_list.hpp:73-76 | with distinct targets, two target-sorted permutations of the same records are equal, so any comparison sort gives the same list |
| GraphTypes.SortDistinct | include/quiver/adjacency_list.hpp:73-76 | sorting keeps targets distinct |
| GraphTypes.EdgePairsCard | include/quiver/adjacency_list.inl:155-156 | without multi-edges, the record count m_e equals the number of adjacent ordered pairs |
| GraphTypes.UndirectedRecordsEven | include/quiver/adjacency_list.inl:157-158 | symmetric loop-free storage (every record has its reverse record) holds an even number of records, so m_e / 2 loses nothing |
| GraphTypes.RecordsMax | include/quiver/adjacency_list.inl:166-173 | a simple graph holds at most n(n-1) records, the directed edge_max_size |
| GraphTypes.RecordsZero | include/quiver/adjacency_list.inl:161-165 | without multi-edges no record is stored exactly when no two vertices are adjacent |
| Contraction.AbsorbedAny | include/quiver/adjacency_list.inl:444-449 | u takes over a record of v to t exactly when t is not u, u has no record to t, and v has one |
| Contraction.AbsorbedDistinct | include/quiver/adjacency_list.inl:444-449 | the records u takes over have distinct targets, none shared with u's list |
| Contraction.MergedAny | include/quiver/adjacency_list.inl:421-449 | the merged list points at t exactly when u did (t other than v) or v did (t other than u) |
| Contraction.MergedDistinct | include/quiver/adjacency_list.inl:421-449 | the merged list has distinct targets and points at neither u nor v |
| Contraction.RelabelAny | include/quiver/adjacency_list.inl:454-477 | a relabelled list points at u exactly when it pointed at u or v, and at any other b exactly when it pointed at b's old index |
| Contraction.RelabelDistinct | include/quiver/adjacency_list.inl:454-477 | relabelling keeps targets distinct: the second record to u or v is dropped |
| Contraction.RenameOutsAny | include/quiver/adjacency_list.inl:418 | rename moves every target above v down by one, so the list points at b exactly when it pointed at b's old index |
| Contraction.ContractedSteps | include/quiver/adjacency_list.inl:421-480 | merging, vertex_erase_simple(v), relabelling the other lists and renaming u's list, in that order, give Contracted |
| Contraction.ContractedRow | include/quiver/adjacency_list.inl:404-483 | each vertex of the contracted graph keeps its payload, and has an edge to b exactly when a vertex merged into it had an edge to a vertex merged into b, loops excluded |
| Contraction.ContractEffect | include/quiver/adjacency_list.inl:404-483 | contract leaves one vertex fewer, keeps the other payloads in order, joins a and b exactly when the vertices merged into them were joined, and keeps the graph simple (and symmetric when undirected: every record has its reverse record) |
| Contraction.UncontractedMirrored | include/quiver/adjacency_list.inl:404-483 | the three-vertex example (0 - 2 with 'a', 1 - 2 with 'b') is a well-formed undirected graph whose records are mirrored |
| Contraction.ContractUnmirrored | include/quiver/adjacency_list.inl:444-466 | contracting 1 into 0 in that example gives 0 -> 1 ('a') and 1 -> 0 ('b'): the surviving edge reads a different payload from each end |
| Bfs.SeedEntry | include/quiver/search/bfs.hpp:58-62 | a seed entry has distance 0 and is its own predecessor (see Bfs.ShortestPathTable) |
| Bfs.Seed | include/quiver/search/bfs.hpp:107-113 | the seeding loop queues one seed entry per start index, in order, and marks exactly the start indices |
| Bfs.Expand | include/quiver/search/bfs.hpp:124-128 | the inner loop queues, in record order and once each, exactly the targets of the front's records that were not yet marked, as children of the front, and marks them |
| Bfs.DerivedReachable | include/quiver/search/bfs.hpp:115-129 | every entry derived from a seed through records stands for a vertex the seeds reach |
| Bfs.DerivedWalk | include/quiver/search/bfs.hpp:63-64 | the distance decoration of a derived entry is the length of a walk from the seeds to its vertex |
| Bfs.Closure | include/quiver/search/bfs.hpp:115-130 | once the queue runs dry, the visited vertices are exactly those the seeds reach |
| Bfs.Shortest | include/quiver/search/bfs.hpp:115-130 | once the queue runs dry, no walk from the seeds to a visited vertex is shorter than its distance decoration |
| Bfs.Step | include/quiver/search/bfs.hpp:115-129 | one round of the do-while loop (visit the front, pop it, queue its unmarked targets) keeps the loop invariant |
| Bfs.BasicBfs | include/quiver/search/bfs.hpp:100-131 | basic_bfs hands the visitor the first seed first, stops at the first entry it accepts and then returns true; every entry is a seed or a child through a record, distances never decrease and are walk lengths; without a stop it visits exactly the reachable vertices, at shortest distance, each once when the seeds are distinct |
| Bfs.Bfs | include/quiver/search/bfs.hpp:134-141 | bfs hands the first seed over first and returns true exactly when the visitor accepts the last index it sees, which is the first it accepts; every visited index is reachable; without a stop the visited indices are exactly the reachable ones; the levels at which they were queued never decrease, are walk lengths, and without a stop are shortest; the whole run is a breadth-first trail |
| Bfs.Projected | include/quiver/search/bfs.hpp:134-141 | what basic_bfs promises about its entries carries over to the bare indices a visitor of indices is handed |
| Bfs.BfsFrom | include/quiver/search/bfs.hpp:142-146 | bfs from one vertex visits it first, visits no vertex twice, and without a stop visits exactly the vertices it reaches |
| Bfs.Tabulate | include/quiver/search/bfs.hpp:168-170 | starting from (inf, ~0) everywhere, each visited entry writes its (distance, predecessor) at its index and every unvisited index keeps (inf, ~0) |
| Bfs.ShortestPathTable | include/quiver/search/bfs.hpp:163-176 | bfs_shortest_path(graph, start) gives (inf, ~0) for unreached vertices; a reached vertex's distance is the length of a shortest walk from the start set, and it is a start vertex with (0, itself) or has a reached predecessor one step closer with an edge to it |
| Dfs.PushChildren | include/quiver/search/dfs.hpp:46-55 | walking the records from last to first, every unmarked target is marked and pushed, so the first record's target ends on top; the pushed vertices are exactly the unmarked targets, once each |
| Dfs.UnseenMembers | include/quiver/search/dfs.hpp:50-54 | with distinct targets, the pushed vertices are exactly the unmarked targets, each once |
| Dfs.Seed | include/quiver/search/dfs.hpp:30-36 | the seeding loop marks every start index and pushes it, so the last one is on top |
| Dfs.Step | include/quiver/search/dfs.hpp:37-56 | one round of the do-while loop (take the top, pop it, push its unmarked targets) keeps the loop invariant |
| Dfs.DrainedClosed | include/quiver/search/dfs.hpp:56-57 | once the stack is empty the visited vertices are closed under the records, so they are exactly the vertices the seeds reach |
| Dfs.OrderReachable | include/quiver/search/dfs.hpp:37-56 | every visited vertex is reached from the seeds |
| Dfs.Dfs | include/quiver/search/dfs.hpp:24-58 | dfs visits the seed pushed last first, stops at the first vertex the visitor accepts and then returns true, visits only seeds and targets of earlier visits, each once when the seeds are distinct, and without a stop visits exactly the reachable vertices, in the depth-first order of its stack |
| Dfs.Search | include/quiver/search/dfs.hpp:37-57 | the do-while loop, from the seeded stack, gives the same outcome and depth-first trail |
| Dfs.DfsFrom | include/quiver/search/dfs.hpp:59-63 | dfs from one vertex visits it first, no vertex twice, and without a stop exactly the vertices it reaches |
| SearchTests.DfsTestOrder | test/quiver/search/dfs.cpp:15-38 | on the test's five-vertex graph, dfs from vertex 1 with a visitor that never accepts returns false after visiting 1, 3, 4, 2, 0 |
| SearchTests.BfsTestOrder | test/quiver/search/bfs.cpp:15-38 | on the same graph, any breadth-first trail from vertex 1 that never stops visits 1, 3, 2, 4, 0: the queue order of the records fixes it |
| DijkstraSearch.Children | include/quiver/search/dijkstra.hpp:120-125 | the relaxation loop pushes one entry per record whose target is not visited, in record order, at the extracted distance plus the record's weight, with the extracted vertex as predecessor |
| DijkstraSearch.Advance | include/quiver/search/dijkstra.hpp:119-125 | extract_top followed by the relaxation leaves a valid heap holding the old entries minus the top plus the children |
| DijkstraSearch.PushAll | include/quiver/search/dijkstra.hpp:124 | pushing entries one by one keeps the heap valid and adds exactly those entries |
| DijkstraSearch.Seeds | include/quiver/search/dijkstra.hpp:103-106 | the seeding loop pushes one seed entry (distance 0, own predecessor) per start index, in order |
| DijkstraSearch.Skip | include/quiver/search/dijkstra.hpp:112-115 | popping a top entry whose vertex is already visited keeps the loop invariant, since the visit was at a distance no greater |
| DijkstraSearch.Visit | include/quiver/search/dijkstra.hpp:116-125 | visiting an unvisited top entry, extracting it and relaxing its records keeps the invariant and the shortest-distance property |
| DijkstraSearch.VisitShortest | include/quiver/search/dijkstra.hpp:111-119 | with non-negative weights, the least entry of the heap carries the least cost of any walk to its unvisited vertex |
| DijkstraSearch.Frontier | include/quiver/search/dijkstra.hpp:108-126 | every walk from the seeds ends at a vertex visited no farther than the walk's cost, or the heap holds an entry no farther |
| DijkstraSearch.Complete | include/quiver/search/dijkstra.hpp:126-127 | once the heap runs dry, every vertex the seeds reach was visited |
| DijkstraSearch.DerivedCost | include/quiver/search/dijkstra.hpp:42-48 | the distance of every visited entry is the cost of a walk from the seeds to its vertex |
| DijkstraSearch.BasicDijkstra | include/quiver/search/dijkstra.hpp:95-128 | basic_dijkstra hands the visitor a seed first and stops at the first entry it accepts, returning true; every entry's distance is the least cost of a walk to it; no vertex is visited twice; distances never decrease; without a stop it visits exactly the reachable vertices |
| DijkstraSearch.Dijkstra | include/quiver/search/dijkstra.hpp:137-167 | dijkstra returns true exactly when the visitor accepts some reachable vertex together with the least cost of a walk to it |
| DijkstraSearch.DijkstraByWeight | include/quiver/search/dijkstra.hpp:24-32 | with dijkstra_default_weight_invokable the cost of a record is the weight stored in it, with the same answer |
| DijkstraSearch.Answer | include/quiver/search/dijkstra.hpp:157-162 | the outcome of the search gives the visitor's answer over least costs |
| DijkstraSearch.ShortestPathTable | include/quiver/search/dijkstra.hpp:185-204 | dijkstra_shortest_path gives (inf, ~0) for unreached vertices; a reached vertex has the least walk cost from the start set and is a start vertex at (0, itself) or has a reached predecessor with a record to it whose weight makes up the difference |
| DijkstraSearch.Fill | include/quiver/search/dijkstra.hpp:193-198 | the table starts at (inf, ~0) and every visited entry writes its own row |
| DijkstraSearch.ShortestPathTableByWeight | include/quiver/search/dijkstra.hpp:210-214 | the same table with the weights stored in the records |
| BinaryHeaps.Up | include/quiver/heaps/binary_heap.hpp:31 | up(i) is the parent of a non-root index: i is its left or right child |
| BinaryHeaps.Down | include/quiver/heaps/binary_heap.hpp:32 | down(i) is the left child, and both it and the next index have i as parent |
| BinaryHeaps.FrontLeast | include/quiver/heaps/binary_heap.hpp:147-151 | in a heap no element compares less than the front |
| BinaryHeaps.Swapped | include/quiver/heaps/binary_heap.hpp:40-41 | swapping two positions exchanges exactly them and keeps the multiset |
| BinaryHeaps.SwapDown | include/quiver/heaps/binary_heap.hpp:56-61 | one sift_down step (swap with the lesser child when it compares less) moves the only defect down to the child |
| BinaryHeaps.SwapUp | include/quiver/heaps/binary_heap.hpp:38-42 | one sift_up step moves the only defect up to the parent |
| BinaryHeaps.DropBack | include/quiver/heaps/binary_heap.hpp:170-173 | after swapping front and back and popping the back, only the new front may be out of place, and the old front is gone |
| BinaryHeaps.LesserChild | include/quiver/heaps/binary_heap.hpp:53-57 | the child sift_down picks (the left one on a tie) compares no greater than any child of the index |
| BinaryHeaps.IsHeapAsWrittenMissesRightChild | include/quiver/heaps/binary_heap.hpp:69-80 | as written, is_heap follows only left children: it accepts [0, 1, -5, 2], which is not a heap, and reads past the end of [0] |
| BinaryHeaps.EraseAsWrittenLastIndex | include/quiver/heaps/binary_heap.hpp:159-165 | as written, erase of the back element pops it and then updates an index that no longer exists: erase(0) on [7] fails |
| BinaryHeaps.BinaryHeap.constructor | include/quiver/heaps/binary_heap.hpp:89-95 | a new heap is empty and valid, with the given comparison key |
| BinaryHeaps.BinaryHeap.SiftUp | include/quiver/heaps/binary_heap.hpp:34-48 | sift_up restores the heap property when only the given index may be below its parent, keeps the multiset, and returns where the element stopped |
| BinaryHeaps.BinaryHeap.SiftDown | include/quiver/heaps/binary_heap.hpp:49-67 | sift_down restores the heap property (from lo on) when only the given index may be above its children, keeps the multiset, and returns where the element stopped |
| BinaryHeaps.BinaryHeap.MakeHeap | include/quiver/heaps/binary_heap.hpp:81-86 | sifting down every parent from the last to the root makes any container a heap of the same elements |
| BinaryHeaps.BinaryHeap.Empty | include/quiver/heaps/binary_heap.hpp:113-116 | empty holds exactly when there are no elements |
| BinaryHeaps.BinaryHeap.Clear | include/quiver/heaps/binary_heap.hpp:117-120 | clear leaves an empty, valid heap |
| BinaryHeaps.BinaryHeap.Top | include/quiver/heaps/binary_heap.hpp:147-151 | top is an element that no element compares less than |
| BinaryHeaps.BinaryHeap.Push | include/quiver/heaps/binary_heap.hpp:153-158 | push adds the element, keeps the heap valid, and returns the index where the element ended |
| BinaryHeaps.BinaryHeap.Pop | include/quiver/heaps/binary_heap.hpp:167-178 | pop removes the front and keeps the heap valid, both with one element and with more |
| BinaryHeaps.BinaryHeap.ExtractTop | include/quiver/heaps/binary_heap.hpp:180-186 | extract_top returns the old top and removes it, keeping the heap valid |
| BinaryHeaps.BinaryHeap.ExchangeTop | include/quiver/heaps/binary_heap.hpp:188-193 | exchange_top replaces the front by the value, keeps the heap valid, and returns where the value ended |
| BinaryHeaps.BinaryHeap.Update | include/quiver/heaps/binary_heap.hpp:195-204 | update replaces the element at index by the value, whichever way it must move, keeps the heap valid, and returns where the value ended |
| BinaryHeaps.BinaryHeap.Increase | include/quiver/heaps/binary_heap.hpp:206-212 | increase with a value that does not compare less replaces the element and keeps the heap valid |
| BinaryHeaps.BinaryHeap.Decrease | include/quiver/heaps/binary_heap.hpp:214-220 | decrease with a value the old one does not compare less than replaces the element and keeps the heap valid |
| BinaryHeaps.BinaryHeap.Erase | include/quiver/heaps/binary_heap.hpp:159-165 | erase removes exactly the element at index and keeps the heap valid; erasing the back element only pops it |
| BinaryHeaps.BinaryHeap.PopBack | include/quiver/heaps/binary_heap.hpp:162-163 | the back element is moved out and popped; the rest is unchanged and still a heap |
| BinaryHeaps.BinaryHeap.Merge | include/quiver/heaps/binary_heap.hpp:122-138 | merge appends the other heap's elements and rebuilds, giving a valid heap of both heaps' elements |
| BinaryHeaps.BinaryHeap.CheckHeap | include/quiver/heaps/binary_heap.hpp:69-80 | the corrected is_heap answers true exactly when every child compares no less than its parent |
| FamilyBuild.UniformStart | include/quiver/adjacency_list.inl:284-288 | adjacency_list(n) starts every generator with uniform payloads and no edges |
| FamilyBuild.AddPair | include/quiver/adjacency_list.inl:199-217 | emplacing a pair that is not yet joined into an undirected graph adds exactly its two records and nothing else |
| FamilyBuild.EmplacePath | include/quiver/families/linear.hpp:37-39 | emplacing (i, i + 1) for every i < k joins exactly consecutive vertices up to k and adds 2k records |
| CompleteGraphs.Complete | include/quiver/families/complete.hpp:23-33 | complete(n) has n vertices, every two distinct vertices adjacent and no others, and n(n-1)/2 edges |
| CompleteGraphs.CompleteRow | include/quiver/families/complete.hpp:30-31 | the inner loop emplaces (i, j) for every j < i |
| CompleteGraphs.IsComplete | include/quiver/families/complete.hpp:39-44 | is_complete holds exactly when every two distinct vertices are adjacent |
| CompleteGraphs.FullIff | include/quiver/families/complete.hpp:43 | the edge count reaches edge_max_size exactly when every two distinct vertices are adjacent, directed or undirected |
| CompleteGraphs.RecordsFullIff | include/quiver/families/complete.hpp:43 | a simple graph has n(n-1) records exactly when all pairs are joined |
| CompleteBipartiteGraphs.CompleteBipartite | include/quiver/families/complete_bipartite.hpp:23-37 | complete_bipartite(m, n) has m + n vertices, joins exactly the pairs across the two sides, and has m * n edges |
| CompleteBipartiteGraphs.BipartiteRow | include/quiver/families/complete_bipartite.hpp:34-35 | the inner loop emplaces (i, j + n) for every j < m, adding 2m records |
| CompleteBipartiteGraphs.BipartiteDegrees | include/quiver/families/complete_bipartite.hpp:27-32 | each vertex of the side of n has degree m and each of the other side degree n, the capacities reserved |
| CompleteBipartiteGraphs.Star | include/quiver/families/complete_bipartite.hpp:43-53 | star(n) joins vertex 0 to each of 1..n and nothing else: n edges, degree n at the centre and 1 elsewhere |
| CompleteBipartiteGraphs.Claw | include/quiver/families/complete_bipartite.hpp:59-69 | claw() is the star on four vertices with three edges |
| LinearGraphs.Linear | include/quiver/families/linear.hpp:24-41 | linear(n) has n vertices joined exactly along the path 0 - 1 - ... - (n-1), has n - 1 edges (none for n = 0), is a path graph, and is accepted by is_linear exactly when n != 1 |
| LinearGraphs.PathAccepted | include/quiver/families/linear.hpp:54-75 | is_linear accepts every path of at least two vertices: two ends of degree one, the rest of degree two |
| LinearGraphs.SingleVertexRejected | include/quiver/families/linear.hpp:57-74 | as written, is_linear rejects a single vertex: it has no edge, no leaf and degree 0 |
| LinearGraphs.PathBesideTriangle | include/quiver/families/linear.hpp:54-75 | as written, is_linear accepts the path 0 - 1 - 2 beside the triangle 3 - 4 - 5, which is no path: five edges, two leaves, no degree above two, but vertex 3 is not reached from vertex 0 |
| LinearGraphs.IsLinear | include/quiver/families/linear.hpp:54-75 | is_linear as written: true for no vertices, otherwise exactly when there are V - 1 edges, every degree is 1 or 2, and exactly two vertices have degree 1 |
| LinearGraphs.IsPathGraph | include/quiver/families/linear.hpp:54-75 | the corrected is_linear is true exactly for path graphs: no vertices, or connected with V - 1 edges and no degree above two |
| LinearGraphs.PathConnected | include/quiver/families/linear.hpp:37-39 | along the path every vertex is reached from vertex 0 and none has more than two neighbours |
| CycleGraphs.Cycle | include/quiver/families/cycle.hpp:26-37 | cycle(n), n >= 3, has n vertices joined exactly around the cycle, n edges, is 2-regular and is a cycle graph |
| CycleGraphs.CloseCycle | include/quiver/families/cycle.hpp:35 | the closing edge (0, n - 1) turns the path into the cycle, with 2n records |
| CycleGraphs.CycleDegrees | include/quiver/families/cycle.hpp:33-35 | every vertex of the cycle has exactly its two neighbours around the cycle |
| CycleGraphs.CycleConnected | include/quiver/families/cycle.hpp:33-35 | around the cycle every vertex is reached from vertex 0 |
| CycleGraphs.IsCycleGraph | include/quiver/families/cycle.hpp:50-54 | is_cycle_graph as written is true exactly when every vertex has two neighbours |
| CycleGraphs.TwoTriangles | include/quiver/families/cycle.hpp:50-54 | as written, is_cycle_graph accepts two disjoint triangles, which are no cycle, and the graph without vertices |
| CycleGraphs.IsCycle | include/quiver/families/cycle.hpp:50-54 | the corrected is_cycle_graph is true exactly for cycle graphs: at least three vertices, connected, 2-regular |
| Regularity.IsRegular | include/quiver/regular.hpp:18-37 | is_regular(graph, d) is true exactly when every out-degree is d and, for directed graphs, every in-degree is d; the edge-count shortcut and the early tally exit lose nothing |
| Regularity.InDegreesFull | include/quiver/regular.hpp:26-31 | when no tally exceeds d and there are V * d records, every in-degree is d, so the final check may be skipped |
| Regularity.UniformRecords | include/quiver/regular.hpp:22-24 | a graph whose out-degrees are all d stores V * d records |
| Regularity.TargetCountAny | include/quiver/regular.hpp:28-29 | without repeated targets a list holds one record to t or none |
| Regularity.RegularDegree | include/quiver/regular.hpp:39-49 | regular_degree is nothing for a graph without vertices or an irregular one, and otherwise a degree the graph is regular with |
| Regularity.IsRegularGraph | include/quiver/regular.hpp:51-55 | is_regular(graph) is true exactly when the graph has vertices and is regular with some degree |
| WheelGraphs.Wheel | include/quiver/families/wheel.hpp:26-42 | wheel(n), n >= 4, joins exactly the hub 0 to every rim vertex and each rim vertex to its two rim neighbours: 2(n - 1) edges, hub degree n - 1, rim degree 3 |
| WheelGraphs.WheelClose | include/quiver/families/wheel.hpp:35-36 | the two pairs emplaced before the loop, (0, n - 1) and (1, n - 1), give four records |
| WheelGraphs.WheelSpoke | include/quiver/families/wheel.hpp:38 | the first statement of the loop adds the spoke (0, i) |
| WheelGraphs.WheelRim | include/quiver/families/wheel.hpp:39 | the second statement of the loop adds the rim pair (i, i + 1) |
| WheelGraphs.WheelEnd | include/quiver/families/wheel.hpp:37-40 | when the loop ends, the edges are exactly the spokes and the rim pairs |
| WheelGraphs.WheelDegrees | include/quiver/families/wheel.hpp:31-33 | the hub has n - 1 neighbours and every rim vertex three, the capacities reserved |
| Complementation.Complement | include/quiver/operations/complement.hpp:19-54 | complement keeps the directivity and the vertex payloads, has an edge exactly between distinct vertices the graph does not join, gives every record the default payload, and has edge_max_size minus the original's edge count |
| Complementation.Checklist | include/quiver/operations/complement.hpp:25-27 | the checklist of v is set exactly at the targets of v's records |
| Complementation.EmplaceMissing | include/quiver/operations/complement.hpp:28-35 | the inner loops emplace (v, o) for every unmarked o other than v: below v when undirected, all o when directed |
| Complementation.ComplementStep | include/quiver/operations/complement.hpp:30-31 | an unmarked o other than v is a missing pair not yet handled, and emplacing it adds it with the default payload |
| Complementation.ComplementEdgeSize | include/quiver/operations/complement.hpp:19-54 | the complement's edge count plus the original's is edge_max_size |
| Complementation.ComplementRow | include/quiver/operations/complement.hpp:24-35 | the neighbours of a vertex in the graph and in its complement together make up every other vertex, without overlap |
| Complementation.ComplementTwice | include/quiver/operations/complement.hpp:19-54 | complementing twice gives back the edges of a simple graph |
| Transposition.Transpose | include/quiver/operations/transpose.hpp:18-31 | transpose returns the same graph when undirected; a directed graph gets a new graph with the same payloads and, for every record u -> w with payload p, exactly the record w -> u with p; the edge count is kept |
| Transposition.EmplaceReversed | include/quiver/operations/transpose.hpp:28-29 | the inner loop emplaces to -> v with the payload of every record v -> to |
| Transposition.TransposeStep | include/quiver/operations/transpose.hpp:29 | the reverse of a record is new, so each emplace adds exactly that record |
| Transposition.TransposedEdges | include/quiver/operations/transpose.hpp:23-31 | the transpose has a -> b exactly when the graph has b -> a |
| Transposition.TransposeTwice | include/quiver/operations/transpose.hpp:23-31 | transposing twice gives back every payload and every record with its payload |
| Orientation.Orient | include/quiver/orientation.hpp:21-41 | orient gives a new directed graph with the same vertex payloads holding, for every undirected edge {to, v} with to < v, the record to -> v when orientation(to, v) holds and v -> to otherwise, with the edge's payload; the edge count is kept |
| Orientation.OrientRow | include/quiver/orientation.hpp:31-38 | the inner loop orients every record v -> to with to < v of row v and leaves the others to the higher row |
| Orientation.OrientStep | include/quiver/orientation.hpp:32-36 | the oriented record of an edge is new, so each emplace adds exactly that record |
| Orientation.OrientedEdges | include/quiver/orientation.hpp:19-20 | the oriented graph has a -> b exactly when the graph joins a and b and the orientation points that way, and never both a -> b and b -> a |
| Orientation.OrientEdgeSize | include/quiver/orientation.hpp:21-41 | the oriented graph has as many edges as the undirected one |
| GraphTypes.SwapHalf | include/quiver/orientation.hpp:30-39 | a swap-closed set of pairs without loops is twice its half with the smaller end first |
| Orientation.Disorient | include/quiver/orientation.hpp:42-62 | disorient gives a new undirected graph with the same vertex payloads and an edge between a and b exactly when the directed graph has a -> b or b -> a, carrying the payload of the first record met |
| Orientation.DisorientRow | include/quiver/orientation.hpp:53-59 | the inner loop emplaces each pair of row v not yet marked and marks it in both orders |
| Orientation.DisorientStep | include/quiver/orientation.hpp:54-57 | a pair not yet met has no edge in the result, so the emplace adds both of its records with the payload of the record met |
| Orientation.DisorientSkip | include/quiver/orientation.hpp:54 | a marked pair has been met already, so nothing is emplaced |
| Orientation.MarkStep | include/quiver/orientation.hpp:56-57 | marking both cells of a pair keeps the matrix marking exactly the pairs met |
| Orientation.DisorientedEdges | include/quiver/orientation.hpp:42-62 | the disoriented graph joins a and b exactly when a != b and the graph has a -> b or b -> a |
| Orientation.ChosenUnique | include/quiver/orientation.hpp:53-58 | every edge of the result carries one payload |
| Orientation.Cell | include/quiver/orientation.hpp:49 | the cell of a pair lies inside the V * V matrix |
| Orientation.CellInjective | include/quiver/orientation.hpp:54-57 | distinct pairs have distinct cells |
| Toposort.ToposortKahnInto | include/quiver/toposort.hpp:20-43 | toposort_kahn writes each vertex at most once, each after all of its predecessors; it writes all V vertices, a topological order, exactly when one exists, and throws cyclic_graph otherwise |
| Toposort.ToposortKahn | include/quiver/toposort.hpp:44-51 | the vector form returns a topological order, or cyclic_graph exactly when the graph has none |
| Toposort.TopoSort | include/quiver/toposort.hpp:53-62 | toposort is toposort_kahn: a topological order, or cyclic_graph exactly when none exists |
| Toposort.InDegrees | include/quiver/toposort.hpp:23-26 | in_deg[t] counts the edges into t |
| Toposort.Seeds | include/quiver/toposort.hpp:27-30 | starts holds, once each and in index order, exactly the vertices of in-degree 0 |
| Toposort.Emit | include/quiver/toposort.hpp:33-36 | the top of the stack is not yet written, has no pending predecessor, and writing it keeps every written vertex behind its predecessors |
| Toposort.Release | include/quiver/toposort.hpp:37-39 | lowering the in-degrees of next's targets leaves each in-degree counting the predecessors not yet written, and stacks exactly the targets that reach 0 |
| Toposort.Lower | include/quiver/toposort.hpp:38 | the target's in-degree is positive before the decrement, and the decrement removes exactly next from its pending predecessors |
| Toposort.Lowered | include/quiver/toposort.hpp:38-39 | a vertex is stacked exactly when its decremented in-degree reaches 0 |
| Toposort.Complete | include/quiver/toposort.hpp:41 | when V vertices were written, they form a topological order |
| Toposort.Stuck | include/quiver/toposort.hpp:41-42 | when the stack empties with fewer than V vertices written, no topological order exists |
| Toposort.NoOrder | include/quiver/toposort.hpp:41-42 | a non-empty set of vertices each with a predecessor inside it admits no topological order |
| Toposort.Covers | include/quiver/toposort.hpp:17 | a topological order lists every vertex |
| ConnectedComponents.GetDisjointSet | include/quiver/connected_components.hpp:19-33 | get_disjoint_set gives a fresh path-splitting disjoint set in which two vertices share a root exactly when one reaches the other |
| ConnectedComponents.UniteRow | include/quiver/connected_components.hpp:27-29 | the inner loop unites the ends of every record u -> t with u < t of row u |
| ConnectedComponents.UniteRecord | include/quiver/connected_components.hpp:28-29 | one record is united once per edge, from its smaller end |
| ConnectedComponents.MergeSound | include/quiver/connected_components.hpp:29 | uniting the ends of an edge only joins vertices that reach each other |
| ConnectedComponents.MergeUnited | include/quiver/connected_components.hpp:29 | uniting never separates two vertices of one set |
| ConnectedComponents.UnitedClasses | include/quiver/connected_components.hpp:26-31 | once every edge is united from its smaller end, the sets are exactly the connected components |
| ConnectedComponents.ReachSym | include/quiver/connected_components.hpp:22 | in an undirected graph reachability is symmetric |
| ConnectedComponents.ReachTrans | include/quiver/connected_components.hpp:26-31 | reachability is transitive |
| ConnectedComponents.SetsAreComponents | include/quiver/connected_components.hpp:74 | the disjoint set has as many sets as the graph has components |
| ConnectedComponents.Ccs | include/quiver/connected_components.hpp:70-75 | ccs is the number of connected components |
| ConnectedComponents.SplitCcs | include/quiver/connected_components.hpp:42-68 | split_ccs returns one non-empty part per component; vertex v is stored at position rel[v] of part cc[v] with its records renumbered, and two vertices share a part exactly when one reaches the other; the parts come in the order their first vertices appear (vertex 0's part first), and within a part the vertices keep their original order |
| ConnectedComponents.SplitDone | include/quiver/connected_components.hpp:48-67 | what the three loops build is a split into the components, with the parts in the order of their first vertices and each part in the original vertex order |
| ConnectedComponents.CompressRoots | include/quiver/connected_components.hpp:48-50 | the roots are numbered 0, 1, ... one number per set; the first vertex met with the root numbered c comes before the first vertex met with the root numbered c + 1 |
| ConnectedComponents.LeadersInOrder | include/quiver/connected_components.hpp:48-50 | numbering the roots with try_emplace as they are met numbers the parts in the order of their first vertices, so vertex 0's part is part 0 |
| ConnectedComponents.PositionsInOrder | include/quiver/connected_components.hpp:52-56 | with each vertex at the count of earlier vertices of its part, two vertices of one part keep their original order |
| ConnectedComponents.NumberVertex | include/quiver/connected_components.hpp:49-50 | one round of the first loop: try_emplace(ds.find(v), size()) keeps the roots and the set count and extends the numbering by vertex v |
| ConnectedComponents.NumberedSets | include/quiver/connected_components.hpp:48-50 | after the first loop the numbered roots are exactly the disjoint set's roots, one number per set |
| ConnectedComponents.NumberedStep | include/quiver/connected_components.hpp:50 | try_emplace numbers a root only when it is met first |
| ConnectedComponents.PartOf | include/quiver/connected_components.hpp:56 | compressed_cc_index[ds.find(v)] is the part of v, below the number of sets |
| ConnectedComponents.Relative | include/quiver/connected_components.hpp:52-57 | cc_relative[v] is the number of vertices before v in v's part |
| ConnectedComponents.CountVertex | include/quiver/connected_components.hpp:56 | the counter of v's part gives v's position and then grows by one |
| ConnectedComponents.CountingStep | include/quiver/connected_components.hpp:56 | the counters keep counting the vertices met in each part |
| ConnectedComponents.BuildParts | include/quiver/connected_components.hpp:59-66 | each part holds the renumbered copies of its vertices in their original order |
| ConnectedComponents.CopyVertex | include/quiver/connected_components.hpp:61-65 | v's copy is appended to its part at position cc_relative[v] |
| ConnectedComponents.RelabelRow | include/quiver/connected_components.hpp:64-65 | every record's target is replaced by its position in the part |
| ConnectedComponents.BuiltStep | include/quiver/connected_components.hpp:63-65 | appending v's copy keeps every part holding its vertices at their positions |
| ConnectedComponents.CountBelowMono | include/quiver/connected_components.hpp:56 | the count of a part's vertices grows with the prefix |
| ConnectedComponents.CountBelowHit | include/quiver/connected_components.hpp:56 | each position below a part's size belongs to some vertex of the part |
| ConnectedComponents.SplitCounts | include/quiver/connected_components.hpp:52-66 | the parts are a split: every position used once and every part non-empty |
| ConnectedComponents.SplitUnique | include/quiver/connected_components.hpp:52-57 | two vertices of one part have distinct positions |
| ConnectedComponents.SameParts | include/quiver/connected_components.hpp:48-61 | two vertices share a part exactly when they share a root, that is, when one reaches the other |
| ConnectedComponents.SplitKeepsEdges | include/quiver/connected_components.hpp:60-66 | u -> w is an edge exactly when u and w share a part and the copy of u has a record to the copy of w |
| DisjointSets.Root | include/quiver/disjoint_set.hpp:35-41 | following parent pointers from an index ends at a root, an index that is its own parent |
| DisjointSets.Identity | include/quiver/disjoint_set.hpp:123-124 | the reset parent vector makes every index its own parent |
| DisjointSets.Singletons | include/quiver/disjoint_set.hpp:120-126 | the forest of n singletons is a partition into n sets, each index its own root and alone in its set |
| DisjointSets.DisjointSet.constructor | include/quiver/disjoint_set.hpp:115-118 | disjoint_set(size) holds size singletons, each with cardinality 1 |
| DisjointSets.DisjointSet.Reset | include/quiver/disjoint_set.hpp:120-126 | reset(size) leaves size singletons, each with cardinality 1 |
| DisjointSets.ResetAsWrittenKeepsCardinality | include/quiver/disjoint_set.hpp:122 | after unite(0, 1), the library's reset(2) keeps cardinality 2 at index 0 although its set is {0}, so the counters no longer describe the sets |
| DisjointSets.ResizedCards | include/quiver/disjoint_set.hpp:122 | resize keeps the old cardinalities and sets the new entries to 1 |
| DisjointSets.DisjointSet.FindNaive | include/quiver/disjoint_set.hpp:35-41 | naive find returns the root of index and changes nothing |
| DisjointSets.DisjointSet.FindCompression | include/quiver/disjoint_set.hpp:50-59 | path compression returns the root of index, keeps every root, cardinality and the set count |
| DisjointSets.DisjointSet.FindHalving | include/quiver/disjoint_set.hpp:68-73 | path halving returns the root of index, keeps every root, cardinality and the set count |
| DisjointSets.DisjointSet.FindSplitting | include/quiver/disjoint_set.hpp:82-87 | path splitting returns the root of index, keeps every root, cardinality and the set count |
| DisjointSets.DisjointSet.Find | include/quiver/disjoint_set.hpp:138-139 | find, under the set's strategy, returns the root of index and keeps every set |
| DisjointSets.Repoint | include/quiver/disjoint_set.hpp:57 | pointing a node at a proper ancestor changes no root and keeps the counters true |
| DisjointSets.RepointRoot | include/quiver/disjoint_set.hpp:85 | pointing a node at a proper ancestor keeps the root of every index |
| DisjointSets.RootBelow | include/quiver/disjoint_set.hpp:38-39 | the walk to the root never climbs in rank |
| DisjointSets.DisjointSet.Unite | include/quiver/disjoint_set.hpp:141-167 | unite returns false and changes no set when a and b share a root; otherwise it joins their sets under the root of the larger set (a's root on a tie), and the set count drops by one |
| DisjointSets.DisjointSet.Join | include/quiver/disjoint_set.hpp:155-160 | linking minRoot under maxRoot merges the two sets and lowers the set count by one |
| DisjointSets.Link | include/quiver/disjoint_set.hpp:155-160 | after linking, the cardinality at the new root is the size of the merged set and the set count is the number of roots |
| DisjointSets.LinkRoot | include/quiver/disjoint_set.hpp:156 | after linking, the indices that had root minRoot have root maxRoot and the others keep theirs |
| DisjointSets.LinkMembers | include/quiver/disjoint_set.hpp:157 | the merged set is as large as the two sets together, and every other set is unchanged |
| DisjointSets.LinkCount | include/quiver/disjoint_set.hpp:160 | linking two roots leaves one root fewer |
| DisjointSets.DisjointSet.Cardinality | include/quiver/disjoint_set.hpp:169-172 | cardinality(index) is the number of indices in index's set |
| DisjointSets.DisjointSet.SameSet | include/quiver/disjoint_set.hpp:174-177 | same_set(a, b) holds exactly when a and b have one root |
| SpanningForests.Kruskal | include/quiver/mst/kruskal.hpp:57-73 | kruskal without weights returns a new undirected graph on the same vertices, built from the graph's records, with the same reachability and components, and with V minus the number of components edges: a spanning forest |
| SpanningForests.KruskalRow | include/quiver/mst/kruskal.hpp:66-69 | the inner loop offers every record u -> t with u < t of row u |
| SpanningForests.KruskalRecord | include/quiver/mst/kruskal.hpp:67-69 | one record is offered once per edge, from its lower end |
| SpanningForests.Consider | include/quiver/mst/kruskal.hpp:52-53 | an offered edge joins the sets of its ends; the edge is emplaced exactly when they were apart, and otherwise its ends are already connected in the forest |
| SpanningForests.Grow | include/quiver/mst/kruskal.hpp:52-53 | adding an edge between two sets and joining them keeps the forest built from graph records and its sets joined exactly along its edges |
| SpanningForests.Spanned | include/quiver/mst/kruskal.hpp:62-72 | once every edge is offered, the forest and the graph have the same reachability and components |
| SpanningForests.SameComponents | include/quiver/mst/kruskal.hpp:62-72 | two graphs whose vertices share roots alike have the same reachability and components |
| SpanningForests.Counted | include/quiver/mst/kruskal.hpp:52-53 | each successful unite removed one set and added one edge, so the forest has V minus the number of components edges |
| SpanningForests.KeptEdges | include/quiver/mst/kruskal.hpp:53 | every edge of the forest is an edge of the graph |
| SpanningForests.ReachMono | include/quiver/mst/kruskal.hpp:53 | a walk stays a walk in a graph with more edges |
| SpanningForests.KruskalWeighted | include/quiver/mst/kruskal.hpp:19-56 | kruskal with weights returns a spanning forest as the unweighted one does, in which the ends of every edge of weight w are connected by edges of weight at most w, the cycle property of a minimum spanning forest |
| SpanningForests.Collect | include/quiver/mst/kruskal.hpp:35-46 | the edge list holds every edge once, from its lower end, with the payload of that end's record |
| SpanningForests.CollectRow | include/quiver/mst/kruskal.hpp:41-43 | the inner loop collects exactly the records of row u that point to a higher vertex |
| SpanningForests.SortByWeight | include/quiver/mst/kruskal.hpp:47 | the sort keeps the same entries and orders them by weight |
| SpanningForests.Insert | include/quiver/mst/kruskal.hpp:47 | inserting an entry into a list ordered by weight keeps it ordered and adds exactly that entry |
| SpanningForests.SortCollected | include/quiver/mst/kruskal.hpp:47 | the sorted edge list still holds every edge once and is ordered by weight |
| SpanningForests.ConsiderNext | include/quiver/mst/kruskal.hpp:50-54 | each entry keeps every edge offered so far closed in the forest by edges no heavier than it |
| SpanningForests.ClosingStep | include/quiver/mst/kruskal.hpp:52-53 | the entry just offered is either emplaced or already closed by lighter edges, because the edges offered before weigh no more |
| SpanningForests.BoundedStep | include/quiver/mst/kruskal.hpp:50-53 | every edge of the forest weighs at most the last entry offered |
| SpanningForests.GreedyDone | include/quiver/mst/kruskal.hpp:50-55 | after the last entry every edge is united and closed in the forest by edges no heavier than it |
| SpanningForests.LightMono | include/quiver/mst/kruskal.hpp:53 | the light edges of the forest stay light edges as the forest grows |
| VisitationTables.VisitationTable.constructor | include/quiver/search/visitation_table.hpp:23-26 | a new table holds n flags, none set |
| VisitationTables.VisitationTable.ForGraph | include/quiver/search/visitation_table.hpp:27-31 | a table for a graph holds one unset flag per vertex |
| VisitationTables.VisitationTable.Set | include/quiver/search/visitation_table.hpp:36-40 | set flags index and nothing else; the count of flags set grows by one exactly when index was unset |
| VisitationTables.VisitationTable.HookVisit | include/quiver/search/visitation_table.hpp:47-54 | the hooked visitor flags its vertex and then answers what the visitor answers |
| Dot.Int2Hex | include/quiver/dot.hpp:41-45 | int2hex gives the lower-case hexadecimal digit of x: '0'-'9' below 10 and 'a'-'f' from 10 on |
| Dot.HexValueInverse | include/quiver/dot.hpp:41-45 | every lower-case hexadecimal digit is int2hex of exactly one value below 16 |
| Dot.Rgb | include/quiver/dot.hpp:30-33 | the three-argument color_hex is fully opaque |
| Dot.ByteRoundTrip | include/quiver/dot.hpp:48-52 | the two digits written for a byte, high nibble first, read back as that byte |
| Dot.ColorHexText | include/quiver/dot.hpp:39-55 | a colour is written as a quoted '#' and six digits, or eight when the alpha is not 0xFF |
| Dot.ColorHexRoundTrip | include/quiver/dot.hpp:39-55 | the text written for a colour reads back as that colour: leaving out an alpha of 0xFF loses nothing |
| Dot.NameRoundTrip | include/quiver/dot.hpp:63-133 | every named colour is written under its own non-empty name, so the name determines the colour |
| Dot.ColorRoundTrip | include/quiver/dot.hpp:136-141 | the text written for a color_t determines which alternative it holds and its value |
| Dot.EscapedRoundTrip | include/quiver/dot.hpp:267 | escaping quotes and backslashes can be undone |
| Dot.QuotedRoundTrip | include/quiver/dot.hpp:267 | a label written with std::quoted reads back as the original string |
| Dot.GraphAnyIff | include/quiver/dot.hpp:252-260 | graph_attributes::any holds exactly when some field is set |
| Dot.GraphAttributeLinesEmpty | include/quiver/dot.hpp:262-277 | the graph attributes write nothing exactly when none is set |
| Dot.AnyIff | include/quiver/dot.hpp:295-305 | node_attributes::any, and edge_attributes::any alike, holds exactly when some field is set |
| Dot.AttributesTextEmpty | include/quiver/dot.hpp:307-327 | an attribute list writes nothing exactly when no field is set, and otherwise ends in the trailing ", " |
| Dot.Decimal | include/quiver/dot.hpp:438 | a vertex index is written as a non-empty digit string without leading zeros |
| Dot.DecimalRoundTrip | include/quiver/dot.hpp:438 | the digits written for an index read back as that index |
| Dot.NodeLineVertex | include/quiver/dot.hpp:438-441 | a vertex line names its vertex: different vertices give different lines |
| Dot.EdgeLineFields | include/quiver/dot.hpp:456-465 | an edge line names its two ends and whether it is directed |
| Dot.PlainToDot | include/quiver/dot.hpp:474-504 | the simple to_dot writes exactly the lines of the simple overload, in order |
| Dot.PlainShape | include/quiver/dot.hpp:477-485 | the simple to_dot opens with "digraph" or "graph" and a brace, writes "\t<v>;" for every vertex v in order, and ends with the closing brace |
| Dot.PlainEdges | include/quiver/dot.hpp:488-500 | the simple to_dot writes "u->w" exactly for the records u -> w of a directed graph and "u--w" exactly for the records with u <= w of an undirected one |
| Dot.ToDot | include/quiver/dot.hpp:408-473 | the attributed to_dot writes exactly the lines of the attributed overload, in order |
| Dot.DotFrame | include/quiver/dot.hpp:419-428 | the attributed to_dot opens with "digraph" or "graph" and a brace, writes the global node and edge lines exactly when those attributes are set, and ends with the closing brace |
| Dot.VertexLinesIff | include/quiver/dot.hpp:432-446 | the attributed to_dot writes the line of vertex v exactly when v has no out-edges or its attributes are not all empty, and no other vertex lines |
| Dot.EdgeLinesFrom | include/quiver/dot.hpp:449-469 | every edge line comes from a record that is written |
| Dot.EdgeLinesHas | include/quiver/dot.hpp:449-469 | every record that is written has its edge line |
| Dot.DirectedEdgeLinesCount | include/quiver/dot.hpp:449-469 | a directed graph gets one edge line per record |
| Dot.UndirectedEdgeLinesCount | include/quiver/dot.hpp:453-454 | an undirected graph gets one edge line per edge: half of its records |
| Dot.WriteEdges | include/quiver/dot.hpp:449-469 | the edge loop writes the edge lines of every vertex, in order |
| Dot.WriteRow | include/quiver/dot.hpp:452-466 | the inner loop writes the edge lines of one vertex, in record order |
| Dot.WriteVertices | include/quiver/dot.hpp:432-446 | the vertex loop writes the vertex lines in index order |
| Dot.WriteGlobal | include/quiver/dot.hpp:425-428 | a global node or edge line is written exactly when its attributes are set |
| StronglyConnectedComponents.TarjanState.constructor | include/quiver/strongly_connected_components.hpp:33-40 | the state starts with V undiscovered vertices, none on the stack and no components, and the search invariant holds |
| StronglyConnectedComponents.TarjanState.Discover | include/quiver/strongly_connected_components.hpp:53-59 | v gets the next index as its index and its low-link, is marked discovered, is pushed on the stack and flagged, and the counter goes up by one |
| TarjanInvariant.DiscoverStep | include/quiver/strongly_connected_components.hpp:53-59 | discovering an undiscovered vertex keeps the invariant and starts its visit with v on top of the stack and its index equal to the number of vertices discovered before it |
| TarjanInvariant.DiscoverSound | include/quiver/strongly_connected_components.hpp:53-59 | after the discovery the indices are again positions in the discovery order, the stack is still in increasing index order and the closed components are unchanged |
| TarjanInvariant.DiscoverExtends | include/quiver/strongly_connected_components.hpp:53-59 | the discovery only appends to the discovery order and the stack and changes nothing about the vertices discovered before |
| TarjanInvariant.DiscoverNumbering | include/quiver/strongly_connected_components.hpp:53-56 | a vertex is discovered exactly when its index is its position in the discovery order, before and after v is numbered |
| TarjanInvariant.DiscoverStack | include/quiver/strongly_connected_components.hpp:53-59 | pushing the newly numbered v keeps the stack in strictly increasing index order and keeps the on-stack flags exact |
| TarjanInvariant.DiscoverComponents | include/quiver/strongly_connected_components.hpp:53-59 | pushing v leaves every closed component and the reach of its root as it was |
| TarjanInvariant.Room | include/quiver/strongly_connected_components.hpp:94-97 | an undiscovered vertex means fewer than V indices are in use, so every index stays below V |
| StronglyConnectedComponents.TarjanState.LowerTo | include/quiver/strongly_connected_components.hpp:61-69 | v's low-link becomes the minimum of its old value and l, nothing else changes, and v's visit stays valid |
| TarjanInvariant.LowerOnStack | include/quiver/strongly_connected_components.hpp:65-67 | when the target w of record j of v is on the stack, lowering v's low-link to w's index keeps v's visit valid with records 0 to j accounted for |
| TarjanInvariant.LowerOpen | include/quiver/strongly_connected_components.hpp:65-67 | lowering v's low-link to the index of a vertex on the stack that v reaches, or to a value no lower, keeps v's visit valid |
| TarjanInvariant.DescendOpen | include/quiver/strongly_connected_components.hpp:63-65 | after the visit of an undiscovered target w, v still reaches every vertex discovered in its own visit, and w's low-link names a vertex on the stack that v reaches or is no lower than v's |
| TarjanInvariant.DescendAbove | include/quiver/strongly_connected_components.hpp:63-65 | the vertices above v on the stack stay settled (low-link below their index, no smaller than v's, all records accounted for) when v takes over w's low-link |
| TarjanInvariant.DiscoverVisit | include/quiver/strongly_connected_components.hpp:53-59 | discovering v starts its visit: v is on the stack at the old height, its index is the old count, and it reaches the one vertex numbered since |
| TarjanInvariant.LowerSound | include/quiver/strongly_connected_components.hpp:65-67 | the same lowering keeps the search invariant |
| TarjanInvariant.LowerLink | include/quiver/strongly_connected_components.hpp:65-67 | lowering to the index of a vertex on the stack keeps every on-stack low-link pointing at a vertex on the stack |
| TarjanInvariant.ExtendsLowlink | include/quiver/strongly_connected_components.hpp:65-67 | changing the low-link of a vertex undiscovered at the start of a visit keeps the later state an extension of the earlier |
| StronglyConnectedComponents.TarjanState.Inherit | include/quiver/strongly_connected_components.hpp:65 | v's low-link becomes the minimum of its own and w's, nothing else changes, and v's visit is valid with one more record accounted for |
| StronglyConnectedComponents.TarjanState.Descend | include/quiver/strongly_connected_components.hpp:63-65 | after the recursive visit of an undiscovered target w and the minimum with w's low-link, v's visit is valid again |
| TarjanInvariant.DescendStep | include/quiver/strongly_connected_components.hpp:63-65 | after w's visit and the minimum with w's low-link, v's visit is valid with records 0 to j accounted for |
| TarjanInvariant.ReachPrepend | include/quiver/strongly_connected_components.hpp:61-64 | a walk from w becomes a walk from v when v has an out-edge to w |
| TarjanInvariant.ExtendsTrans | include/quiver/strongly_connected_components.hpp:49-80 | a state reached from a later state of the search is also reached from the earlier one |
| StronglyConnectedComponents.TarjanState.Recurse | include/quiver/strongly_connected_components.hpp:49-80 | visiting an undiscovered v discovers it with the next index and reaches from v every vertex it discovers; v either stays on the stack above its starting height with a smaller low-link, or its component is closed and the stack is back at its starting height |
| StronglyConnectedComponents.TarjanState.Finish | include/quiver/strongly_connected_components.hpp:71-79 | the end of v's visit closes v's component exactly when v's low-link is its own index |
| TarjanInvariant.OpenStep | include/quiver/strongly_connected_components.hpp:71 | a visit whose low-link ends below v's index leaves v on the stack |
| TarjanInvariant.CloseStep | include/quiver/strongly_connected_components.hpp:71-79 | a visit whose low-link ends at v's index closes v's component, and the stack is back at the height it had when the visit started |
| TarjanInvariant.StackReach | include/quiver/strongly_connected_components.hpp:71-79 | v reaches every vertex at or above it on the stack |
| StronglyConnectedComponents.TarjanState.PopTop | include/quiver/strongly_connected_components.hpp:74-76 | the top comes off the stack, loses its on-stack flag and gets the current component count as its id |
| StronglyConnectedComponents.TarjanState.PopDownTo | include/quiver/strongly_connected_components.hpp:72-77 | the do-while loop pops exactly down to and including v: the stack becomes the part below v, the popped vertices lose their flags and get the id, and every other vertex keeps its flag and id |
| StronglyConnectedComponents.TarjanState.PopComponent | include/quiver/strongly_connected_components.hpp:71-79 | closing a component pops down to and including v, gives the popped vertices the next id and increments the component count |
| TarjanInvariant.PopInit | include/quiver/strongly_connected_components.hpp:72-77 | before the first pop nothing has been taken off |
| TarjanInvariant.PopStep | include/quiver/strongly_connected_components.hpp:74-76 | each round takes off the next entry of the original stack, from the top down |
| TarjanInvariant.PopExit | include/quiver/strongly_connected_components.hpp:77 | the loop stops exactly when v has been popped, because the stack entries are distinct |
| TarjanInvariant.StackPopFrom | include/quiver/strongly_connected_components.hpp:71-77 | the stack entries are distinct vertices, and they are exactly the flagged ones |
| TarjanInvariant.SortedBelow | include/quiver/strongly_connected_components.hpp:71-78 | in a stack of increasing indices, an entry with a smaller index than v's lies below v |
| TarjanInvariant.PopLowLinks | include/quiver/strongly_connected_components.hpp:71-78 | after the pop every vertex left on the stack still has a low-link naming a vertex left on the stack |
| TarjanInvariant.PopShape | include/quiver/strongly_connected_components.hpp:71-78 | after the pop the stack keeps its shape |
| TarjanInvariant.PopIds | include/quiver/strongly_connected_components.hpp:76 | every popped vertex carries the new id, whose root v was discovered no later than it |
| TarjanInvariant.PopComponents | include/quiver/strongly_connected_components.hpp:71-79 | after the pop v is the root of the new component and every earlier component is unchanged |
| TarjanInvariant.PopReach | include/quiver/strongly_connected_components.hpp:71-79 | the root of every component, including the new one, reaches every vertex carrying its id |
| TarjanInvariant.PopClose | include/quiver/strongly_connected_components.hpp:71-79 | after the pop the stack shape, the components and the reach of their roots all hold again |
| TarjanInvariant.PopSnapshot | include/quiver/strongly_connected_components.hpp:71-79 | closing the component at v keeps the search invariant and is the step that pops down to v and adds v as a root |
| TarjanInvariant.BottomSettles | include/quiver/strongly_connected_components.hpp:94-97 | the vertex at the bottom of the stack has its own index as its low-link |
| TarjanInvariant.RootVisit | include/quiver/strongly_connected_components.hpp:94-97 | a visit started by the outer loop ends with the stack empty and v discovered, and every vertex discovered before stays discovered |
| StronglyConnectedComponents.TarjanState.Start | include/quiver/strongly_connected_components.hpp:94-97 | one round of the outer loop leaves the stack empty, u discovered and every vertex discovered before still discovered |
| StronglyConnectedComponents.TarjanRecursive | include/quiver/strongly_connected_components.hpp:89-100 | the result has one id per vertex; the ids are 0 up to the component count minus one with every id in use; each component has a vertex that reaches all of its members; and two vertices share an id exactly when each reaches the other |
| TarjanInvariant.FinishedComponents | include/quiver/strongly_connected_components.hpp:94-99 | once every vertex is closed, two vertices share an id exactly when each reaches the other |
| TarjanInvariant.SameComponent | include/quiver/strongly_connected_components.hpp:71-79 | for one pair: the same id means a walk each way through the component's root; a walk each way means neither id can exceed the other |
| TarjanInvariant.ThroughRoot | include/quiver/strongly_connected_components.hpp:71-79 | two closed vertices with the same id reach each other through the root of their component |
| TarjanInvariant.ReachOrdered | include/quiver/strongly_connected_components.hpp:71-79 | once every vertex is closed, ids never grow along a walk |
| TarjanInvariant.PopReachBack | include/quiver/strongly_connected_components.hpp:71-77 | every vertex from v up on the stack reaches v when v's low-link is its own index |
| TarjanInvariant.PopRootsBack | include/quiver/strongly_connected_components.hpp:71-79 | after the pop every vertex of a closed component, the new one included, reaches the root of its component |
| TarjanInvariant.PopClosedEdges | include/quiver/strongly_connected_components.hpp:71-79 | after the pop every record out of a closed vertex leads to a closed vertex with an id no larger |
| TarjanInvariant.PopLowReach | include/quiver/strongly_connected_components.hpp:71-79 | after the pop every vertex left on the stack still reaches the vertex its low-link names |
| TarjanInvariant.Finished | include/quiver/strongly_connected_components.hpp:94-99 | once every vertex is discovered and the stack is empty, the ids are consecutive from 0 and each component's root reaches all of its members |
| TarjanInvariant.FinishedIds | include/quiver/strongly_connected_components.hpp:99 | every id in the result is below the component count and every id below the count is in use |
| TarjanInvariant.FinishedReach | include/quiver/strongly_connected_components.hpp:99 | every id in the result has a vertex with that id that reaches each vertex carrying it |
| ComponentTests.WikipediaComponents | test/quiver/strongly_connected_components.cpp:29-69 | on the eight-vertex Wikipedia graph, any ids with tarjan_recursive's promises put 0, 1, 2 together, 3 with 5 and 4 with 6, keep those groups and 7 apart, and have 3 as the largest id |
| ComponentTests.WikipediaTest | test/quiver/strongly_connected_components.cpp:46-69 | tarjan_recursive on the test graph returns 8 ids that pass every CHECK of the test |

## Left out

- Unsigned arithmetic: `std::size_t` indices and counters are `nat`, so `m_e`, the vertex count and the breadth-first distances never wrap around. The sentinels are kept as constants: `~vertex_index_t{}` for "no predecessor" and the largest `unsigned int` for an unreached breadth-first distance.
- DijkstraSearch.BasicDijkstra: the generic `scalar_t` weight and `inf<scalar_t>` are `int` with `IntInfinity`, the largest `int`. Overflow of a path cost is not modelled.
- BinaryHeaps.BinaryHeap.Push and the other heap members: the comparator is an integer key `key: T -> int`, and the heap keeps the least key on top. A general strict weak order is not modelled.
- The heap's `swap` with another heap is not modelled, because the key is a constant field of the class. The capacity effects of the move overload of `merge` are not modelled either.
- Move overloads (rvalue-reference members, `to_undirected() &&`, moving payloads) are modelled as their copying counterparts. What is moved from is not modelled.
- `reserve`, capacity and allocation are not modelled.
- Default-constructed payloads (`edge_properties_t{}`, `vertex_properties_t{}`) are parameters of the members that need them.
- The order of records within a row is kept wherever the library keeps it. Members that only promise a set of edges say so in their contracts.
- Visitors and predicates are pure functions passed as parameters. Their side effects are not modelled.
- DijkstraSearch.Dijkstra and DijkstraSearch.ShortestPathTable: the overloads that take the caller's `has_been_visited` (`include/quiver/search/dijkstra.hpp:137-156` and `:175-184`) are modelled only through the visitation table. The documentation at `include/quiver/search/dijkstra.hpp:133-134` requires that predicate to be true exactly when the visitor has visited the vertex. Visitors are pure in this model, so the table is that predicate, and a caller's predicate that departs from it is outside what the library allows.
- Dot.ToDot: the `invoke_node_invocable` and `invoke_edge_invocable` dispatch over argument shapes is reduced to one shape each: `(index, vertex)` for nodes and `(from, out_edge)` for edges.
- Node and edge attributes are one datatype, because their fields are the same. The node writer's extra `style=filled` is chosen by a flag.
- `penwidth_t` and `fontsize_t` hold a `double`. The model keeps the text the stream prints for it. The range checks in their constructors, which throw `invalid_argument`, are not modelled.
- Dot.PlainToDot: the output stream is modelled as the text written to it.
- Bfs.Bfs: the searches require a non-empty list of start vertices. Given none, the library's do-while reads the front of an empty queue or stack. The same holds for Dfs.Dfs and DijkstraSearch.Dijkstra.
- DijkstraSearch.ShortestPathTable: "visited" is modelled as a flag per vertex. The library instead tests a vertex's predecessor entry against "no predecessor". The two agree, because a visited vertex's predecessor is its parent, or the vertex itself for a seed, and never the sentinel.
- SpanningForests.SortByWeight is a stable insertion sort, while `std::sort` is not stable. Only the order by weight and the multiset of entries are relied on.
- SpanningForests.KruskalWeighted: minimality of the total weight is stated through the cycle property. Every edge's ends are connected in the forest by edges no heavier than it, which characterises minimum spanning forests. The sum of weights is not compared directly.
- SpanningForests.Kruskal: acyclicity is stated as the edge count. The forest has V minus the number of components edges and the same components as the graph.
- ConnectedComponents.SplitCcs returns each part as its vertex sequence rather than as a new `adjacency_list` object.
- A call that does not compile, `out_edge->to` at `include/quiver/regular.hpp:29` is used on an out-edge reference. Regularity.IsRegular reads it as `out_edge.to`.
- A member that does not exist, `graph.max_edges()`, is called at `include/quiver/families/complete.hpp:43`. CompleteGraphs.IsComplete reads it as `edge_max_size()`.
- An ambiguous call, `graph.empty()` at `include/quiver/families/linear.hpp:57`, is read by LinearGraphs.IsLinear as "has no vertices".
- The exception-safety of the emplace operations and the recursion depth of the searches are not modelled.
- The assertion helpers `check_size_invariant` (disjoint set) and `is_heap` are modelled as the properties they test. Assertions on index ranges are preconditions.
- The `std::stack` of the strongly connected components search is a sequence whose last element is the top. The discovery order and the component roots are ghost fields added beside the library's state.
- AdjacencyList.Graph.ToUndirectedMove does not keep `Mirrored`. When a directed graph already holds both u -> w and w -> u with different payloads, `to_undirected() &&` adds nothing and the undirected edge keeps both payloads. The library marks this with a TODO at `include/quiver/adjacency_list.inl:375`. AdjacencyOps.ToUndirectedMoveUnmirrored exhibits such a graph.
- AdjacencyList.Graph.Contract does not keep `Mirrored` for undirected graphs. The merged vertex keeps its own record of an edge to a common neighbour, while the neighbour keeps its first record to either of the two, which can carry the payload of the edge to the absorbed vertex. Contraction.ContractUnmirrored exhibits such a graph.
- AdjacencyList.Graph.TransformOuts keeps only the counters, as the library's `transform_outs` does. An arbitrary target map can break simplicity, symmetry and `Mirrored`, so none of them is promised.


## Findings

| source | as written | input that shows it | evidently intended | confidence | as-written member | corrected member |
|---|---|---|---|---|---|---|
| include/quiver/adjacency_list.inl:120-127 | after erasing the record at position i, the backward scan's `++i` makes the next round look again at position i, which now holds a record that was already renumbered, or lies past the end of the list | erasing vertex k when a row holds [k, k + 2]: the row becomes [k] instead of [k + 1]; a row [k] makes the scan read one past the end | every record is looked at once: records to k are dropped and higher targets lowered by one | not executed | AdjacencyOps.ScanAsWrittenShiftsTwice | AdjacencyOps.ScanCorrectedShifts |
| include/quiver/heaps/binary_heap.hpp:69-80 | is_heap walks the leftmost path only, comparing each left child with its parent; the test `child > size()` also lets it read index size() when the path ends exactly there | [0, 1, -5, 2] ordered by value passes although -5 sits below 0; on [0] the walk reads index 1 | every parent's key is at most the keys of both children | not executed | BinaryHeaps.IsHeapAsWrittenMissesRightChild | BinaryHeaps.BinaryHeap.CheckHeap |
| include/quiver/heaps/binary_heap.hpp:159-165 | erase moves the back element out, pops it and writes it over position index, also when index was the back itself | erase(0) on the one-element heap [7]: the write lands one past the end of the emptied vector | erasing the last position only drops it | not executed | BinaryHeaps.EraseAsWrittenLastIndex | BinaryHeaps.BinaryHeap.Erase |
| include/quiver/disjoint_set.hpp:120-126 | reset resizes the cardinality vector, which keeps the existing entries | unite(0, 1) on two elements and then reset(2): element 0 is a singleton with cardinality 2 | after reset every element is its own set with cardinality 1 | not executed | DisjointSets.ResetAsWrittenKeepsCardinality | DisjointSets.DisjointSet.Reset |
| include/quiver/families/linear.hpp:54-75 | is_linear checks the edge count, the degrees and the number of leaves, but not connectivity | the path 0 - 1 - 2 beside the triangle 3 - 4 - 5: five edges, two leaves, no degree above two | true exactly for path graphs | not executed | LinearGraphs.PathBesideTriangle | LinearGraphs.IsPathGraph |
| include/quiver/families/cycle.hpp:50-54 | is_cycle_graph is only is_regular(graph, 2) | two disjoint triangles, and the graph with no vertices | true exactly for connected 2-regular graphs with at least three vertices | not executed | CycleGraphs.TwoTriangles | CycleGraphs.IsCycle |
