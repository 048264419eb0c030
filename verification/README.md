# teexGraph graph engine in Dafny

This project models the core of teexGraph, a C++ library for analysing large
directed and undirected graphs. The model covers the `Graph` object of
`src/Graph.cpp`:

- the node numbering (`mapNode`, `revMapNode`);
- the adjacency tables `E` (out-lists) and `rE` (in-lists) with their
  counters `n`, `m`, `selfm` and the status flags `loaded`,
  `sortedandunique`, `undirected`, `doneWCC` and `doneSCC`;
- the operations that build the graph and normalise it (`addEdge`, the
  reading loop of `loadDirected`, `loadUndirected`, `sortEdgeList`,
  `makeUndirected`);
- the queries on it (`edge`, `edgeSlow`, `inScope`, `nodes`, `nodesInWcc`,
  `wccOf`, `edges`, `selfEdges`);
- the component labellings `computeWCC` (breadth-first search over the out-
  and in-lists) and `computeSCC` with its helpers `goVisitSCC` and
  `goMarkSCC` (Kosaraju's two passes, written with explicit stacks);
- the breadth-first searches `distance` and `distances`, and the triangle
  and wedge count `trianglesWedgesAround`.

It also covers the extreme-distance engine of `src/BDGraph.cpp`:

- `eccentricity`, the search that skips pruned nodes;
- the leaf `pruning`;
- BoundingDiameters (`extremaBounding`), with its bound updates, candidate
  elimination and probe selection;
- the front ends `diameterBD`, `radiusBD`, `eccentricitiesBD`,
  `peripherySizeBD` and `centerSizeBD`;
- the brute-force `diameterAPSP`, `radiusAPSP` and `eccentricitiesAPSP`.

Finally it covers the integer parts of the centrality measures of
`src/CenGraph.cpp`:

- `closenessSum` and `closenesses`, and the exhaustive accumulation of
  `closenessCentrality`;
- the degree centralities;
- `eccentricityCentrality`;
- the forward phase of `betweennessCentrality` (Brandes' algorithm): its
  check of when the measure applies, the distances, the predecessor lists
  and the shortest-path counts.

The `Graph` object is a Dafny class whose fields are the C++ members. The
vectors become `seq` fields that the methods reassign. The two hash maps of
the node numbering become `map` fields. Loops that only rebuild the tables
(the row loop of `sortEdgeList`, the mirroring loop of `makeUndirected`) run
over values in module-level methods. The class method then stores their
result. The invariant of the class includes that weak component labels
marked done are those of the current lists: every operation that changes
the edge sets lowers `doneWCC`, and sorting keeps the sets.

The module layout is:

- `seqs.dfy`: counting, summing and the sort-and-unique step on one list.
- `paths.dfy`: walks, reachability and breadth-first distance on an
  adjacency table.
- `bfs.dfy`: the invariants of a breadth-first search with a FIFO queue.
- `tables.dfy`: the invariants of the adjacency tables and the node
  numbering, and what appending, sorting and mirroring do to them.
- `loading.dfy`: what reading a list of identifier pairs leaves in the
  tables.
- `components.dfy`: the labelling loops of `computeWCC`.
- `dfs.dfy`: `goVisitSCC`, the depth-first first pass of `computeSCC`, with
  the finishing order it leaves on the stack.
- `scc.dfy`: `goMarkSCC` and the popping loop of `computeSCC`, with the
  proof that the labels are the strongly connected components.
- `distances.dfy`: the searches of `distance` and `distances`.
- `triangles.dfy`: the two loops and the wedge formula of
  `trianglesWedgesAround`.
- `pruning.dfy`: `pruning`, the table it leaves, and why skipping the
  pruned leaves keeps every other distance.
- `bounding.dfy`: `eccentricity` and the main loop of `extremaBounding`,
  with the soundness of the bounds and the termination of the loop.
- `extrema.dfy`: what `extremaBounding` returns for each TYPE, the
  brute-force versions, and the star example.
- `brandes.dfy`: the forward phase of `betweennessCentrality` and the
  shortest-path counts it computes.
- `centrality.dfy`: the closeness sums, the degree centralities and the
  eccentricity fill of `eccentricityCentrality`.
- `graph_store.dfy`: the `Graph` class.

In `extremaBounding` every probe's eccentricity comes from a search in the
pruned graph. `Bounding.Reported` with `fix` unset is that value, as the
source computes it. With `fix` set, a representative leaf is credited with
at least 2, its distance to its pruned twins. That corrected value is the
probe's eccentricity in the whole graph (see the star finding below). The
class methods use the corrected value. Whatever `fix` is, the first probe is
the corrected one of the first-probe finding, so `fix` unset reproduces the
source's report but not its first probe.

## Model

| member | source | states |
|---|---|---|
| Seqs.Dedup | src/Graph.cpp:203-207 | sorting and `unique` on one list give a strictly increasing list with the same elements, never longer |
| Seqs.DedupIdempotent | src/Graph.cpp:196-218 | sorting and deduplicating a list that is already strictly increasing changes nothing |
| GraphStore.SortedSearch | src/Graph.cpp:171-181 | the binary search of `edge` on a strictly increasing list answers exactly whether `b` is in it |
| GraphStore.NormalizeRows | src/Graph.cpp:200-209 | rows 0..n-1 of both tables become strictly increasing with the same element sets, and the total equals the summed out-list length |
| GraphStore.SymmetrizeRows | src/Graph.cpp:301-308 | every out-list x gains each y below n that lists x, nothing else is added, and the in-lists below n are emptied |
| GraphStore.Graph.constructor | src/Graph.cpp:16-20 | a new graph with `nmax` slots is empty and valid |
| GraphStore.Graph.Clear | src/Graph.cpp:23-37 | all lists empty, all counters zero, all flags down, numbering empty |
| GraphStore.Graph.MapNode | src/Graph.cpp:42-49 | an identifier already seen keeps its id and nothing changes; a new one gets `nexti`, which advances by one; the numbering stays a bijection onto 0..nexti-1 |
| GraphStore.Graph.RevMapNode | src/Graph.cpp:53-55 | the identifier of an id handed out is the one that was mapped to it, so `revMapNode(mapNode(x)) == x`; an unknown id yields 0 and is inserted with that value |
| GraphStore.Graph.AddEdge | src/Graph.cpp:59-92 | an endpoint outside `[0, maxn)` is refused and nothing changes; otherwise `v` is appended to `E[u]` and `u` to `rE[v]`, `m` grows by one, `selfm` and `hasSelfLoop[u]` change only for a self-loop, `n` counts the newly touched nodes, and all four status flags drop |
| GraphStore.Graph.ReadPairs | src/Graph.cpp:139-144 | no pair is skipped exactly when at most `maxn` distinct identifiers occur, and then the tables hold exactly the pairs read; the ids are numbered in first-seen order with a pair's source before its target, the model's choice of evaluation order |
| GraphStore.Graph.ReadPair | src/Graph.cpp:140-143 | one pass of the reading loop either reads the pair or is the first to push the identifiers seen beyond `maxn` |
| GraphStore.Graph.MapPair | src/Graph.cpp:142 | both identifiers of a pair are mapped; the model maps the source identifier first, one of the two orders C++ permits for `addEdge(mapNode(u), mapNode(v))` |
| Loading.LoadStep | src/Graph.cpp:139-144 | the invariant of the reading loop is kept by one more pair whose ids fit the tables; when they do not fit, more than `maxn` identifiers have been seen |
| GraphStore.Graph.LoadDirected | src/Graph.cpp:104-164 | a second load is refused and changes nothing; otherwise the load succeeds exactly when at most `maxn` identifiers occur, and then the graph is loaded, sorted and holds exactly the pairs read; otherwise it is cleared |
| GraphStore.Graph.LoadUndirected | src/Graph.cpp:95-100 | as `LoadDirected`, and on success every pair is listed in both directions |
| GraphStore.Graph.SortEdgeList | src/Graph.cpp:196-218 | afterwards every list is strictly increasing with the same element set as before, `m` is the total out-list length, and a call on sorted lists changes nothing |
| GraphStore.Graph.MakeUndirected | src/Graph.cpp:289-319 | a no-op on an undirected graph; otherwise the out-list of x holds exactly the y with an edge x->y or y->x before, the in-lists are empty, the lists are sorted and unique, and the component results are invalidated |
| GraphStore.Graph.MirrorEdges | src/Graph.cpp:298-308 | the mirroring loop leaves the undirected closure of the out-lists, with empty in-lists |
| Tables.SymClosureSameSets | src/Graph.cpp:310 | sorting after mirroring keeps the undirected closure |
| GraphStore.Graph.EdgeSlow | src/Graph.cpp:186-192 | the linear scan answers whether `b` is in `E[a]` |
| Connectivity.WccSameSets | src/Graph.cpp:196-218 | sorting and deduplicating the lists keeps a correct weak component labelling correct, since the lists the search follows keep their sets and so their connectivity |
| GraphStore.Graph.Resorted | src/Graph.cpp:200-217 | the sorted lists and their total become the tables and `m`, the graph counts as sorted, and the object invariant, current component labels included, holds again |
| GraphStore.Graph.Edge | src/Graph.cpp:168-182 | sorts first when needed, then answers exactly what `EdgeSlow` answers on the lists before the call |
| GraphStore.Graph.InScope | src/Graph.cpp:222-227 | every node is in scope FULL; a node in scope LWCC or LSCC needs that labelling computed, so before it nothing is in those scopes |
| GraphStore.Graph.InScopeLargest | src/Graph.cpp:222-227 | a node in scope LWCC or LSCC carries a label of maximum size, so it lies in a largest component |
| GraphStore.Graph.Nodes | src/Graph.cpp:231-240 | the number of nodes in the scope, or -1 while the scope's components are not computed |
| GraphStore.Graph.ScopeSizeCount | src/Graph.cpp:222-227 | a node is in scope LWCC (LSCC) exactly when it carries the largest label, so the scope size is the count of that label |
| GraphStore.Graph.NodesInWcc | src/Graph.cpp:243-247 | the number of nodes with the given weakly connected component label, or -1 before they are computed |
| GraphStore.Graph.WccOf | src/Graph.cpp:250-254 | a label in 1..wccs whose component is not empty, or -1 before they are computed |
| GraphStore.Graph.Edges | src/Graph.cpp:257-259 | the edge count is the total length of the out-lists |
| GraphStore.Graph.CountSelfLoops | src/Graph.cpp:273-277 | the number of in-scope nodes whose out-list holds a self-loop |
| GraphStore.Graph.SelfEdges | src/Graph.cpp:270-287 | the self-loop counter for FULL, the number of in-scope nodes with a self-loop for a computed component scope, -1 otherwise |
| GraphStore.Graph.DuplicateSelfLoops | src/Graph.cpp:270-272 | reading the line `1 1` twice leaves one edge but a self-loop counter of 2 |
| GraphStore.Graph.SelfEdgesPerNode | src/Graph.cpp:270-287 | counting FULL like the other scopes gives one per node with a self-loop, never more than `nodes(scope)` |
| Connectivity.WeakSymmetric | src/Graph.cpp:345-366 | the lists the search follows from a node (its out-list, and in a directed graph its in-list too) form an undirected graph for every valid store |
| Connectivity.LabelWeak | src/Graph.cpp:335-384 | every node gets a label in 1..wccs; two nodes share a label exactly when they are connected; labels are issued in the order of each component's smallest node; `wccNodes[c]` counts label c; `largestWCC` is the first label of maximum size |
| Connectivity.LabelComponent | src/Graph.cpp:336-372 | one search from an unlabelled node gives the next label to exactly the nodes connected to it, and the largest label changes only for a strictly larger component |
| Connectivity.ScanRow | src/Graph.cpp:345-366 | scanning one popped node queues and labels its unlabelled neighbours; the unlabelled nodes plus the queue length stay constant, so the search ends |
| Connectivity.OuterDoneConnected | src/Graph.cpp:335-372 | once every node is labelled, components closed under edges and rooted at their start node make "same label" the same as "connected" |
| Connectivity.RootOrder | src/Graph.cpp:335-372 | every node carries the label of an earlier node or the next unused label |
| Connectivity.WccArraysTooShort | src/Graph.cpp:326-341 | a single node with a self-loop gets label 1 = n, one past the n entries of `wccNodes` |
| GraphStore.Graph.ComputeWcc | src/Graph.cpp:321-385 | nothing changes without edges; otherwise `doneWCC` is set and the labelling is the weakly connected components as `LabelWeak` states |
| PostOrder.Step | src/Graph.cpp:394-412 | one pass of the loop of `goVisitSCC` finishes the current node, descends into an unvisited out-neighbour, or moves the cursor, keeping the search invariant and making progress |
| PostOrder.Finish | src/Graph.cpp:395-400 | a node finishes when all its out-neighbours are visited; any edge out of a finished node to an unfinished one ends at an open node, which reaches the node just finished |
| PostOrder.Visit | src/Graph.cpp:389-415 | `goVisitSCC` from a runs until its chain of open nodes is empty, only adds visited nodes, and keeps the finishing-order property |
| PostOrder.VisitAll | src/Graph.cpp:460-470 | after the first loop of `computeSCC` every node is on the stack exactly once, in an order with the finishing-order property |
| StrongComponents.Crossing | src/Graph.cpp:389-415 | a path from a node finished by some time to a node finished later leaves the finished nodes along one edge |
| StrongComponents.Escalate | src/Graph.cpp:389-415 | a node finished before a node it reaches shares its strongly connected component with a node finished no earlier than that node |
| StrongComponents.Kosaraju | src/Graph.cpp:472-480 | when the top of the stack is the unlabelled node finished last, every unlabelled node that reaches it is reached from it |
| StrongComponents.PushPreds | src/Graph.cpp:432-438 | every unlabelled in-neighbour of the labelled node is pushed, nothing else |
| StrongComponents.Mark | src/Graph.cpp:419-441 | `goMarkSCC` from x gives label c to exactly the unlabelled nodes that reach x and are reached from x, and changes only `sccNodes[c]`, which counts them |
| StrongComponents.MarkClosed | src/Graph.cpp:419-441 | when the stack is empty, every node of x's component that reaches a node with label c has label c |
| StrongComponents.MarkedStrong | src/Graph.cpp:472-478 | after a search the labels in use are still exactly whole strongly connected components |
| StrongComponents.LabelStrong | src/Graph.cpp:455-483 | every node gets a label in 1..sccs; two nodes share a label exactly when each reaches the other along the out-lists; `sccNodes[c]` counts label c; `largestSCC` is the first label of maximum size |
| StrongComponents.DagSingletons | src/Graph.cpp:445-487 | in a graph without cycles every strongly connected component is a single node |
| StrongComponents.SccArraysTooShort | src/Graph.cpp:455-457 | on the edge 0->1 the labels 1 and 2 = n are issued, one past the n entries of `sccNodes` |
| GraphStore.Graph.ComputeScc | src/Graph.cpp:445-487 | nothing changes without edges or on an undirected graph; otherwise `doneSCC` is set and the labelling is the strongly connected components as `LabelStrong` states |
| DistanceSearch.DistMeaning | src/Graph.cpp:741-762 | the breadth-first distance is -1 exactly when v is unreachable, 0 exactly at the source, and otherwise the length of a shortest path, below the number of nodes |
| DistanceSearch.Distance | src/Graph.cpp:741-762 | the search from u, which stops as soon as v is discovered, returns the length of a shortest path from u to v, or -1 when there is none |
| DistanceSearch.Distances | src/Graph.cpp:766-787 | the returned vector holds the distance from u to every node (-1 where unreachable), and `dtotals[k]` grows by the number of nodes at distance k |
| DistanceSearch.TallyCoversReached | src/Graph.cpp:766-787 | the increments over all distances below n add up to the number of nodes reachable from u |
| GraphStore.Graph.Distance | src/Graph.cpp:741-762 | `distance(u, v)` on the out-lists of the stored graph, as `DistanceSearch.Distance` states |
| GraphStore.Graph.Distances | src/Graph.cpp:766-787 | `distances(u, dtotals)` on the out-lists of the stored graph, as `DistanceSearch.Distances` states |
| Triangles.CountTriangles | src/Graph.cpp:660-671 | the nested loop counts each pair of positions i < j whose neighbours are distinct, both other than u, and joined by an edge in either direction, once |
| Triangles.TriBelow | src/Graph.cpp:660-677 | there are never more triangles than pairs of neighbours other than u |
| Triangles.PairsClosedForm | src/Graph.cpp:677 | k(k-1)/2 is the number of unordered pairs of k items |
| Triangles.TrianglesWedges | src/Graph.cpp:649-679 | the triangles through u and the pairs of distinct neighbours of u other than u, over the out-list (undirected) or the merged out- and in-list (directed); the triangles never exceed the wedges |
| Triangles.WedgesExactBelow | src/Graph.cpp:674-677 | the 32-bit wedge product is exact up to 46341 neighbours |
| Triangles.WedgesOverflow | src/Graph.cpp:674-677 | with 46342 neighbours the 32-bit product wraps and the wedge count comes out negative |
| GraphStore.Graph.TrianglesWedgesAround | src/Graph.cpp:649-679 | `trianglesWedgesAround(u)` on the stored tables, as `Triangles.TrianglesWedges` states |
| LeafPruning.Pruning | src/BDGraph.cpp:78-105 | the table marks the smallest leaf on each LWCC node with two or more leaves as the representative (-2), points every other leaf there to it, leaves every other node -1, and the count is the number of pruned nodes |
| LeafPruning.PruneHub | src/BDGraph.cpp:87-100 | the scan of one LWCC node's neighbours keeps the table's shape and completes the leaves hanging off that node |
| LeafPruning.PruneStep | src/BDGraph.cpp:90-99 | one neighbour: the first untouched leaf becomes the representative, each further one is pruned onto it and counted |
| LeafPruning.DistPruned | src/BDGraph.cpp:32 | between two unpruned nodes the search that never enters a pruned node finds the same distance as a full search |
| LeafPruning.EccBelowComponent | src/BDGraph.cpp:170 | a component node's eccentricity, pruned or not, is below the component size L, so the initial upper bound L is sound |
| Bounding.Eccentricity | src/BDGraph.cpp:20-40 | the search leaves the pruned-graph distance of every node (-1 where unreached) and returns the largest, the pruned-graph eccentricity of u |
| Bounding.ScanEcc | src/BDGraph.cpp:30-37 | scanning one popped node keeps the search invariant, the running maximum equals the largest label so far, and the search makes progress |
| Bounding.StartSound | src/BDGraph.cpp:169-170 | the initial bounds 0 and L bracket every live node's target |
| Bounding.StartCount | src/BDGraph.cpp:167-180 | L less the pruned count is the number of live component nodes, and there is at least one |
| Bounding.NoPruning | src/BDGraph.cpp:178 | without pruning the table is all -1 and the search skips nothing |
| Bounding.FirstProbe | src/BDGraph.cpp:197-206 | the first probe (corrected) is a live component node of highest degree, the first such |
| Bounding.FirstProbeAsWritten | src/BDGraph.cpp:197-206 | the first probe as written: node 0 unless a later live node has a strictly higher degree |
| Bounding.DetachedFirst | src/BDGraph.cpp:197-206 | on a graph whose node 0 lies outside the component and has the highest degree, the first probe is node 0 |
| Bounding.FirstProbeOutside | src/BDGraph.cpp:207-213 | probing from that node 0 reaches no component node, so both next-probe choices stay -1 |
| Bounding.ProbeBounds | src/BDGraph.cpp:239-240 | the triangle inequality: a probe at distance d with target e bounds every live node's target between max(d, e-d) and e+d |
| Bounding.UpdateBounds | src/BDGraph.cpp:224-247 | every considered node's bounds are tightened from the probe, the others keep theirs, and the four extremes are those of the new bounds |
| Bounding.RoundSound | src/BDGraph.cpp:234-247 | a round keeps the bounds sound and only tightens them, every live node is considered, and the probe's own bounds meet at its target |
| Bounding.ReportedExact | src/BDGraph.cpp:213 | the corrected report for a live probe is its eccentricity in the whole graph |
| Bounding.UpdateCandidates | src/BDGraph.cpp:249-282 | a considered candidate is dropped exactly when its bounds meet or pass the TYPE test, the counter drops with it, and the next probes are the candidate of least lower bound and of highest upper bound, ties to the higher degree and then the lower index |
| Bounding.Round | src/BDGraph.cpp:212-282 | a round from a live candidate probe keeps the bounds sound, strictly lowers the candidate count, settles the dropped nodes and picks the next probes |
| Bounding.BoundStep | src/BDGraph.cpp:184-292 | one pass of the main loop chooses the probe (the first one, or alternately the highest-upper and least-lower candidate), which is never -1, and strictly lowers the candidate count |
| Bounding.Bound | src/BDGraph.cpp:163-292 | the main loop ends with sound bounds, every live node settled for the TYPE asked, and the extremes attained by live nodes |
| Extrema.MaxLowerIsMax | src/BDGraph.cpp:302-305 | after a diameter or periphery run the largest lower bound is the largest target of a live node |
| Extrema.MinUpperIsMin | src/BDGraph.cpp:308-311 | after a radius or center run the least upper bound is the least target of a live node |
| Extrema.PeripheryMembers | src/BDGraph.cpp:259 | after a periphery run a live node's lower bound is the largest target exactly when its target is |
| Extrema.CenterMembers | src/BDGraph.cpp:260 | after a center run a live node's upper bound is the least target exactly when its target is |
| Extrema.TargetPositive | src/BDGraph.cpp:157-161 | in a component of two or more nodes every live node's target is at least 1 |
| Extrema.LeafEccBelow | src/BDGraph.cpp:91-97 | of two leaves on the same node, the first is no more eccentric than the second (and so, swapping them, both are equally eccentric) |
| Extrema.EccTwin | src/BDGraph.cpp:95 | a pruned leaf is exactly as eccentric as its representative |
| Extrema.RepBeyondHub | src/BDGraph.cpp:91-97 | a representative is strictly more eccentric than the live node it hangs off |
| Extrema.RepExact | src/BDGraph.cpp:314-318 | every component node is represented by a live node whose corrected target is its own eccentricity |
| Extrema.DiameterExact | src/BDGraph.cpp:302-305 | with the corrected report the largest live target is the diameter of the component |
| Extrema.RadiusExact | src/BDGraph.cpp:308-311 | with the corrected report the least live target is the radius of the component |
| Extrema.PeripheryExact | src/BDGraph.cpp:314-329 | with the corrected report the component nodes whose representative has the diameter as target are the periphery |
| Extrema.CenterExact | src/BDGraph.cpp:332-340 | with the corrected report the live nodes with the radius as target are the whole center: no pruned node is central |
| Extrema.DistributionExact | src/BDGraph.cpp:313-344 | with the corrected report the distribution vector holds every component node's eccentricity and 0 elsewhere |
| Extrema.CopyPruned | src/BDGraph.cpp:314-318 | every pruned node takes its representative's lower bound, read before the loop changes anything, and the other entries stay |
| Extrema.CountEqual | src/BDGraph.cpp:322-326 | the counting loop returns the number of positions holding the value |
| Extrema.PeripheryCount | src/BDGraph.cpp:321-329 | the nodes whose copied lower bound is the largest target are the component nodes whose representative has that target |
| Extrema.CenterCount | src/BDGraph.cpp:332-340 | the nodes whose upper bound is the least target are the live nodes with that target |
| Extrema.DistributionFound | src/BDGraph.cpp:261 | for the eccentricity distribution every live node's bounds met, so after the copy each component node holds its representative's target |
| Extrema.ExtremaBounding | src/BDGraph.cpp:155-345 | a directed graph or a component below two nodes gives 0 and all -1; otherwise TYPE 1 gives the largest target, TYPE 2 the least, TYPE 4 and 5 the number of nodes at it, and any other TYPE 0 with every component node's representative's target |
| Extrema.ComponentExtrema | src/BDGraph.cpp:155-345 | with the corrected report: the diameter, the radius, the periphery size, the center size, or every component node's eccentricity with 0 elsewhere |
| Extrema.StarPruned | src/BDGraph.cpp:78-105 | on the star with centre 0 and leaves 1 and 2, pruning keeps leaf 1 and prunes leaf 2 onto it |
| Extrema.StarDiameter | src/BDGraph.cpp:44-57 | the diameter of that star is 2 |
| Extrema.StarEccPruned | src/BDGraph.cpp:20-40 | with leaf 2 skipped, nodes 0 and 1 each have eccentricity 1 |
| Extrema.StarDiameterAsWritten | src/BDGraph.cpp:213-305 | a diameter run that reports pruned-graph eccentricities returns 1 on the star, whose diameter is 2 |
| Extrema.StatusAsWritten | src/BDGraph.cpp:50-51 | the status test `i % (n / 100)` of the APSP loops divides by zero exactly on graphs of fewer than 100 nodes |
| Extrema.ApspSmallGraphs | src/BDGraph.cpp:49-51 | on every graph of 1 to 99 nodes the first pass of `diameterAPSP` and `radiusAPSP` divides by zero |
| Extrema.StatusGuarded | src/BDGraph.cpp:50-51 | the test with divisor `max(1, n / 100)` is defined on every graph and agrees with the one as written wherever that is defined |
| Extrema.DiameterApsp | src/BDGraph.cpp:44-57 | on every graph, whatever its size, the largest eccentricity over the component is its diameter, or 0 when the component is empty |
| Extrema.RadiusApsp | src/BDGraph.cpp:61-74 | on every graph, whatever its size, the least eccentricity over the component is its radius, or n when the component is empty |
| Extrema.EccentricitiesApsp | src/BDGraph.cpp:131-138 | every node's eccentricity in the whole graph, with the pruning table all -1 |
| GraphStore.Graph.LwccSetting | src/BDGraph.cpp:157-167 | for a valid undirected graph whose weak components are computed, the lists are symmetric and strictly increasing, the largest weakly connected component is connected, and `nodes(LWCC)` is its size |
| GraphStore.Graph.ExtremaBounding | src/BDGraph.cpp:155-345 | `extremaBounding` on the stored graph's largest weakly connected component, as `Extrema.ComponentExtrema` states, leaving the pruning table and the lower bounds in the object |
| GraphStore.Graph.DiameterBD | src/BDGraph.cpp:109-112 | the diameter of the largest weakly connected component, 0 where BoundingDiameters does not apply |
| GraphStore.Graph.RadiusBD | src/BDGraph.cpp:116-119 | the radius of the largest weakly connected component, 0 where BoundingDiameters does not apply |
| GraphStore.Graph.EccentricitiesBD | src/BDGraph.cpp:123-127 | the eccentricity of every component node and 0 elsewhere, or all -1 (pruning table untouched) where BoundingDiameters does not apply |
| GraphStore.Graph.PeripherySizeBD | src/BDGraph.cpp:141-144 | the number of component nodes whose eccentricity is the diameter |
| GraphStore.Graph.CenterSizeBD | src/BDGraph.cpp:148-151 | the number of component nodes whose eccentricity is the radius |
| GraphStore.Graph.Eccentricity | src/BDGraph.cpp:20-40 | the eccentricity of u in the graph without the nodes the last pruning marked |
| GraphStore.Graph.DiameterAPSP | src/BDGraph.cpp:44-57 | pruning off, components computed, then the diameter of the largest weakly connected component |
| GraphStore.Graph.RadiusAPSP | src/BDGraph.cpp:61-74 | pruning off, components computed, then the radius of the largest weakly connected component, n when it is empty |
| GraphStore.Graph.EccentricitiesAPSP | src/BDGraph.cpp:131-138 | pruning off, then every node's eccentricity in the whole graph |
| Brandes.ForwardOne | src/CenGraph.cpp:227-236 | one neighbour: an unreached one is labelled one more and queued, and one at the next distance adds the popped node's count and records it as a predecessor, keeping the search and counting invariant |
| Brandes.RelaxScan | src/CenGraph.cpp:229-232 | the label update keeps the breadth-first search invariant, read with the label n+1 as unreached |
| Brandes.RelaxCount | src/CenGraph.cpp:233-236 | the count and predecessor update keeps every count equal to the sum over the predecessors seen so far |
| Brandes.RelaxDistinct | src/CenGraph.cpp:228-236 | the queue never repeats a node, and without parallel edges no predecessor list repeats one |
| Brandes.ScanForward | src/CenGraph.cpp:227-237 | scanning the out-list of the node just popped keeps the invariants and only extends the queue |
| Brandes.ForwardRound | src/CenGraph.cpp:221-237 | one pass of the outer loop keeps the invariant with one more node popped |
| Brandes.Search | src/CenGraph.cpp:216-238 | the loops end with every queued node popped, and the stack S holds the queue's nodes in popping order |
| Brandes.ForwardDone | src/CenGraph.cpp:216-238 | at the end the labels are the distances (n+1 where unreached), the predecessor lists are exact, the counts follow the recurrence, and S holds each reached node exactly once, in nondecreasing distance |
| Brandes.Forward | src/CenGraph.cpp:212-238 | the forward phase from s: labels are distances, `P[w]` holds exactly the neighbours one step closer to s, `sp[s]` is 1 and each other count is the sum over `P[w]`, `S` holds each reached node exactly once in nondecreasing distance, and without parallel edges no predecessor list repeats a node and each count is the number of shortest walks |
| Brandes.PathCounts | src/CenGraph.cpp:212-238 | after the forward phase a node has a count of at least one exactly when s reaches it, and 0 otherwise |
| Brandes.ReachedCounted | src/CenGraph.cpp:233-236 | by induction on the distance, a reached node has a count of at least one |
| Brandes.CountsArePaths | src/CenGraph.cpp:233-236 | with no repeated predecessors, the count of every node equals the number of shortest walks from s defined by the predecessor recurrence |
| Brandes.PredSums | src/CenGraph.cpp:233-236 | summing counts over the predecessor mask gives the sum of the predecessors' numbers of shortest walks |
| Brandes.SumSpMask | src/CenGraph.cpp:233-236 | summing over a list without repeats is summing over the set of nodes it holds |
| Brandes.IncreasingRowsDistinct | src/Graph.cpp:196-218 | strictly increasing lists, as `sortEdgeList` leaves them, hold no node twice, so the graph has no parallel edges |
| Centrality.ClosenessSum | src/CenGraph.cpp:16-37 | the total is the sum of the distances from u to the nodes it reaches |
| Centrality.ScanSum | src/CenGraph.cpp:27-34 | scanning one popped node keeps the search invariant and keeps the total equal to the sum of the positive labels |
| Centrality.SumOne | src/CenGraph.cpp:28-33 | a newly labelled neighbour adds its label to the total |
| Centrality.Closenesses | src/CenGraph.cpp:41-62 | returns the distances from u, and adds each reached node's positive distance into its own accumulator entry |
| Centrality.ScanAdd | src/CenGraph.cpp:51-58 | scanning one popped node keeps the search invariant and the accumulator in step with the labels |
| Centrality.AddOne | src/CenGraph.cpp:52-57 | a newly labelled neighbour adds its label to its own accumulator entry |
| Centrality.FarnessTotals | src/CenGraph.cpp:90-121 | after searches from the in-scope sources below `maxi`, each node's entry is the sum of their distances to it, unreached sources adding nothing |
| Centrality.FarnessIsClosenessSum | src/CenGraph.cpp:66-130 | on an undirected graph, when the scope holds every node x reaches, x's total over all in-scope sources is `closenessSum(x)` |
| Centrality.FarnessOutside | src/CenGraph.cpp:104-108 | a node outside the component is reached from no component source, so its total stays 0 |
| Centrality.TwoPartsShape | src/CenGraph.cpp:90 | the two-component example is undirected and its largest component has 3 nodes |
| Centrality.TwoPartsApart | src/CenGraph.cpp:16-37 | in that example, node 3 does not reach nodes 0 and 1 |
| Centrality.LwccClosenessAsWritten | src/CenGraph.cpp:90-108 | in that example, sources below `nodes(LWCC)` = 3 credit node 3 with a total of 1, while `closenessSum(3)` is 2 |
| Centrality.LwccClosenessIntended | src/CenGraph.cpp:90-108 | searching from every in-scope node credits node 3 with `closenessSum(3)` = 2 |
| Centrality.Degrees | src/CenGraph.cpp:138-153 | each of the first n entries is the length of that node's list, and together they sum to the lists' total length |
| Centrality.InSkipSame | src/BDGraph.cpp:32 | a search that can never reach the skipped nodes reaches the same nodes at each step as a search that skips nothing |
| Centrality.EccSkipSame | src/BDGraph.cpp:20-40 | then the eccentricity is the same too |
| Centrality.OutsideUnpruned | src/CenGraph.cpp:166-167 | a node outside the component never reaches a pruned node, so `eccentricity(i)` is its eccentricity in the whole graph |
| Centrality.EccentricityFill | src/CenGraph.cpp:161-167 | component nodes take the eccentricity BoundingDiameters left; in scope FULL every other node takes its pruned-graph `eccentricity(i)`; in scope LWCC those stay -1 |
| Centrality.EccentricityCentralityExact | src/CenGraph.cpp:156-169 | after a BoundingDiameters run on a component of two or more nodes, every node in scope gets its whole-graph eccentricity, and the others get -1 |
| GraphStore.Graph.ClosenessSum | src/CenGraph.cpp:16-37 | `closenessSum(u)` on the stored out-lists, as `Centrality.ClosenessSum` states |
| GraphStore.Graph.Closenesses | src/CenGraph.cpp:41-62 | `closenesses(u, dtotals)` on the stored out-lists, as `Centrality.Closenesses` states |
| GraphStore.Graph.ClosenessTotals | src/CenGraph.cpp:66-121 | all -1 where closeness does not apply; otherwise the merged totals (corrected loop) credit each node in scope with `closenessSum` of itself, and every other node with 0 |
| GraphStore.Graph.OutdegreeCentrality | src/CenGraph.cpp:133-144 | every node's out-degree; together they sum to `edges()` |
| GraphStore.Graph.IndegreeCentrality | src/CenGraph.cpp:147-153 | every node's in-degree; together they sum to the in-lists' total length |
| GraphStore.Graph.BetweennessForward | src/CenGraph.cpp:172-238 | all -1 where betweenness does not apply (directed graph, scope LSCC, or fewer than two nodes in scope); otherwise the forward phase from s on the stored lists: distances as labels (n+1 unreached), exact predecessor lists without repeats, S holding each reached node once by nondecreasing distance, and every count the number of shortest paths from s |
| GraphStore.Graph.EccentricityCentrality | src/CenGraph.cpp:156-169 | all -1 where the measure does not apply; with a component of two or more nodes, every node's eccentricity in scope FULL and each component node's in scope LWCC, -1 elsewhere; with a smaller component, -1 on it and the stale pruned-graph eccentricity elsewhere |

## Left out

- GraphStore.Graph.MapPair: C++ leaves the order of the two `mapNode` calls in `addEdge(mapNode(u), mapNode(v))` unspecified, and a compiler may evaluate them right to left. The model maps the source identifier first, so its ids match a left-to-right build. A right-to-left build numbers a pair's two new identifiers the other way round, and this shows through `revMapNode`, every id-indexed result, the component label order and the index tie-breaks.
- GraphStore.Graph.ReadPairs: the ids it assigns follow MapPair's source-first order, one of the two orders C++ allows. Whether a pair is skipped (at most `maxn` distinct identifiers) does not depend on that order.
- File input of `loadDirected`: opening the file, skipping header lines and parsing. The model reads a sequence of identifier pairs instead.
- All logging to `clog` and `cerr`, and the `edgesAdded` counter, which is only logged. The one status test that can fail, the division in the APSP loops, is a finding below.
- GraphStore.Graph.MirrorEdges raises `undirected` before `SortEdgeList` runs, where the source raises it after; `sortEdgeList` never reads the flag, so the resulting state is the same.
- GraphStore.Graph.RevMapNode: the default identifier 0 stands for a default-constructed `nodeidtype`.
- GraphStore.Graph.TrianglesWedgesAround: each `edge` call is modelled by its answer, membership in the list; the sort that the first `edge` call triggers on an unsorted graph is not modelled here (`GraphStore.Graph.Edge` models it).
- The graph-wide sums `triangles`, `wedges`, `graphClusteringCoefficient` and `averageClusteringCoefficient`: they spread the nodes over OpenMP threads and divide in floating point.
- `distanceDistribution` and `averageDistance`: they draw sample nodes with `rand` and divide in floating point; the per-source search `distances` they call is modelled.
- DistanceSearch.Distances: the `long` counters of `dtotals` are unbounded integers.
- GraphStore.Graph.Edges: only scope FULL. The per-component edge counts `wccEdges` and `sccEdges` are not modelled, because the halving and double counting in the source give them no clean meaning.
- The working vector `d`, `ecc_upper` and `candidate` of `extremaBounding` are locals of the methods, not fields of the class. `eccentricity` returns `d` instead of leaving it in the object. `pruned` and `ecc_lower` are fields.
- The status output of `extremaBounding` and the iteration counter `it`, which is only printed.
- The random probe selection that is commented out in `extremaBounding`.
- GraphStore.Graph.ExtremaBounding: reports the corrected eccentricity for a representative leaf (see the star finding). `Extrema.ExtremaBounding` with `fix` unset reproduces the source's report, but not its first probe: every run takes the corrected first probe.
- GraphStore.Graph.ExtremaBounding: takes the corrected first probe, the first live component node of highest degree (see the first-probe finding). Where the source's probe is node 0 outside the component, the source goes on to call `eccentricity(-1)`; that run is not modelled.
- Extrema.ExtremaBounding: takes the corrected first probe `Bounding.FirstProbe` whatever `fix` is; the probe as written is `Bounding.FirstProbeAsWritten`, whose failure is shown on its own (`Bounding.FirstProbeOutside`).
- Bounding.BoundStep: the first round probes `Bounding.FirstProbe`, the corrected choice, not `Bounding.FirstProbeAsWritten`; the bounds are sound only for a live component probe.
- GraphStore.Graph.DiameterAPSP: returns the diameter on graphs of 1 to 99 nodes, where the source divides by zero in its status test (see the APSP status finding); the model takes the guarded test.
- GraphStore.Graph.RadiusAPSP: returns the radius on graphs of 1 to 99 nodes, where the source divides by zero in its status test; the model takes the guarded test.
- Extrema.DiameterApsp: the corrected half of the APSP status finding; it returns on graphs of 1 to 99 nodes, where the source crashes.
- Extrema.RadiusApsp: the corrected half of the APSP status finding, as for `Extrema.DiameterApsp`.
- GraphStore.Graph.EccentricityCentrality: requires the pruning table to cover the n nodes only where the source would read a stale one. That case is scope FULL on an undirected graph whose largest weakly connected component has fewer than two nodes. There `eccentricitiesBD` leaves the table of an earlier run, which is empty on a fresh object, and `eccentricity` reads it at every node.
- Floating point: `closeness`, the quotients of `closenessCentrality`, the backward phase and normalisation of `betweennessCentrality` (src/CenGraph.cpp:240-273), and `pageRank`. The integer quantities under them are modelled: the distance sums, the degrees, the eccentricities, the distances, the predecessor lists and the shortest-path counts.
- The sampling branches of `closenessCentrality` and `betweennessCentrality` (`samplesize` below 1) draw nodes with `rand`.
- The OpenMP thread arrays of `closenessCentrality` and their merge are one accumulator. Their sum is the same.
- The unused running total `total` of `closenessCentrality`.
- GraphStore.Graph.ClosenessTotals: returns the merged integer totals, or -1 where the source returns its -1 vector. The closeness value of a node is `maxi` over its total, and in scope FULL a node outside the LWCC takes `closeness(i)` instead.
- `betweennessCentrality`'s loop over the sources: in scope LWCC it runs s below `nodes(LWCC)` with no scope test (src/CenGraph.cpp:191). That is the same indexing as the closeness finding, but its effect shows only in the floating-point scores.
- Brandes.Forward: the counts `sp` are unbounded integers where the source holds them in `double`. The stack `S` is the sequence of pushed nodes, top last.
- Brandes.Forward: the counts equal the numbers of shortest walks only for graphs without parallel edges (`RowsDistinct`). With parallel edges the source adds a predecessor once per parallel edge, and the contract then states only the recurrence. The sorted lists of an undirected `Graph` never have parallel edges, so `GraphStore.Graph.BetweennessForward` states the exact counts.
- Centrality.ClosenessSum: the running `int total` is an unbounded integer here. The source's 32-bit total wraps once the distance sum passes 2^31-1, as on an undirected path of 65537 nodes summed from one end; the contract states the exact sum.
- Centrality.ScanSum: the same unbounded total as `Centrality.ClosenessSum`, kept equal to the exact sum of the labels so far.
- GraphStore.Graph.ClosenessSum: the `int` result is the unbounded sum of `Centrality.ClosenessSum`, with no 32-bit wrap-around.
- Centrality.Closenesses: the `long` entries of `dtotals` are unbounded integers.
- Centrality.Degrees: the centralities are doubles in the source; the degrees are whole numbers.

## Findings

| source | as written | input that shows it | evidently intended | confidence | as-written member | corrected member |
|---|---|---|---|---|---|---|
| src/Graph.cpp:270-272 | `selfEdges(FULL)` returns `selfm`, which counts every self-loop line read, duplicates included, while `sortEdgeList` removes the duplicate edges | the edge list `1 1` / `1 1`: `edges()` is 1 but `selfEdges()` is 2 | the number of self-loop edges, one per node with a self-loop, as the LWCC and LSCC branches count | not executed | GraphStore.Graph.DuplicateSelfLoops | GraphStore.Graph.SelfEdgesPerNode |
| src/Graph.cpp:326-341 | `wccNodes` has n entries, indexed by labels up to the number of components | one node with a self-loop (the pair `5 5`): label 1 = n is counted in `wccNodes[1]` | n+1 entries, one per label 0..n | not executed | Connectivity.WccArraysTooShort | Connectivity.LabelWeak |
| src/Graph.cpp:455-457 | `sccNodes` has n entries, indexed by labels up to the number of components | the edge 0->1: two singleton components, label 2 = n is counted in `sccNodes[2]` | n+1 entries, one per label 0..n | not executed | StrongComponents.SccArraysTooShort | StrongComponents.LabelStrong |
| src/Graph.cpp:674-677 | `wedgePotential` is an `int`, so `wedgePotential * (wedgePotential - 1)` is a 32-bit product | a node with 46342 distinct neighbours and no self-loop: the product 2147534622 wraps to a negative value | 1073767311 wedges, the product formed in `long` | not executed | Triangles.WedgesOverflow | Triangles.TrianglesWedges |
| src/BDGraph.cpp:213-305 | the bounds bracket the eccentricity found by `eccentricity`, a search that never enters a pruned node; a representative leaf then no longer sees its pruned twins, two steps away, so when they were its farthest nodes its eccentricity comes out too small | the star with centre 0 and leaves 1 and 2, as an undirected graph: leaf 2 is pruned onto leaf 1, nodes 0 and 1 then have eccentricity 1, and `diameterBD` returns 1 | the diameter 2, found by crediting a representative with at least 2, the distance to its twins through the hub | not executed | Extrema.StarDiameterAsWritten | Extrema.DiameterExact |
| src/BDGraph.cpp:197-206 | the first probe starts at node 0 without asking whether node 0 is in the LWCC or pruned | node 0 of highest degree outside the LWCC (the graph `Bounding.Detached`): the first search reaches no component node, no next probe is chosen, and the second round calls `eccentricity(-1)` | start the running choice at the first live component node | not executed | Bounding.FirstProbeOutside | Bounding.FirstProbe |
| src/CenGraph.cpp:90-108 | the exhaustive loop of `closenessCentrality` runs i below `maxi` = `nodes(LWCC)` and skips the nodes out of scope, so in scope LWCC only the component nodes among the first `nodes(LWCC)` ids are sources | the undirected edges 0-1, 2-3 and 3-4: `nodes(LWCC)` is 3, node 2 is the only source, and node 3 gets a total of 1 where `closenessSum(3)` is 2 | every node in scope is a source (i below `nodes(FULL)`), so each component node's total is its `closenessSum` | not executed | Centrality.LwccClosenessAsWritten | GraphStore.Graph.ClosenessTotals |
| src/BDGraph.cpp:49-68 | the status test of `diameterAPSP` and `radiusAPSP` divides by `nodes(FULL) / 100`, which is 0 below 100 nodes | any graph of 1 to 99 nodes: the first pass, i = 0, computes `0 % 0`, undefined behaviour that usually stops the program | the divisor `max(1, nodes(FULL) / 100)`, as every other status line of the library has it | not executed | Extrema.ApspSmallGraphs | Extrema.DiameterApsp |
