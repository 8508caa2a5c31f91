# grafik in Dafny

This project models the core of the Go graph library `grafik` in Dafny:

- **The graph container.** Vertices are keyed by label, and edges are indexed by source and then destination. `AddEdge` always joins both directions, so a graph built through the API is undirected.
- **Vertex and edge records.** Each carries option-built weight properties.
- **The Dijkstra pathfinder, both variants.**
  - The simple variant scans a vertex listing for the closest unvisited vertex.
  - The standard variant keeps tentative distances in an indexed binary min-heap, the vertex priority queue.
- **The breadth-first and depth-first iterators.**
- **Dijkstra centrality.** Every vertex gets the average of its shortest distances, and the list is sorted by that average.

Modelling choices:

- Vertices and edges are values, and a neighbour is named by its label.
- The graph, the priority queue and the iterators are classes whose fields the operations update in place.
- Distances are reals with an explicit `Infinity`, which stands for the library's `math.MaxFloat64` "not reached" sentinel.

Module layout:

| file | module |
|---|---|
| `wrappers.dfy` | `Option` and `Result` |
| `options.dfy` | vertex, edge and Dijkstra options |
| `vertex.dfy`, `edge.dfy` | vertex and edge records |
| `grafik.dfy` | the graph and its invariants |
| `paths.dfy` | walks, reachability and shortest distances |
| `queue.dfy` | the priority queue |
| `dijkstra_invariants.dfy`, `dijkstra.dfy` | the pathfinder |
| `iterator.dfy`, `bfs.dfy`, `dfs.dfy` | the iterators |
| `centrality.dfy` | centrality |

Main results:

- **Graph invariant.** Every operation of the graph keeps it well keyed: keys match labels, and every edge slot joins two stored vertices. Building through the API keeps it undirected: every neighbour entry has its edge slot and a reverse slot of the same weight, and in-degree equals out-degree.
- **Pathfinder, any weights.** Both variants terminate, and every finite distance they report is the weight of a real walk.
- **Pathfinder, non-negative weights.** Both variants report exactly the shortest distances, so the two variants agree.
- **Iterators.** Each one yields every vertex reachable from its start exactly once, and nothing else. The breadth-first iterator yields them in level order: hop distance from the start never decreases.
- **Centrality.**
  - Each average belongs to one Dijkstra run from its vertex with the caller's options. That run's distance at the vertex itself is 0 under the standard variant and at most 0 otherwise. With non-negative weights the average is determined by the graph, whatever the options.
  - The result lists every vertex once and is sorted by average.
  - Any two sorted results have the same sequence of averages.

## Model

| member | source | states |
|---|---|---|
| Options.ApplyVertexOption | options/vertex_options.go:37-41 | a vertex weight option sets the weight to its own value |
| Options.VertexProperties.Weight | options/vertex_options.go:31-34 | the weight read back: writing it again with WithVertexWeight leaves the record unchanged |
| Options.ApplyVertexOptions | vertex.go:35-42 | after the option loop the weight is that of the last option, or unchanged when there is none |
| Options.VertexOptionLastWins | options/vertex_options.go:37-41 | of two weight options the later one wins |
| Options.VertexOptionIdempotent | options/vertex_options.go:37-41 | applying the same vertex option twice equals applying it once |
| Options.ApplyEdgeOption | options/edge_options.go:39-43 | an edge weight option sets the weight to its own value |
| Options.EdgeProperties.Weight | options/edge_options.go:32-35 | the weight read back: writing it again with WithEdgeWeight leaves the record unchanged |
| Options.ApplyEdgeOptions | edge.go:33-43 | after the option loop the edge weight is that of the last option, or unchanged when there is none |
| Options.EdgeOptionLastWins | options/edge_options.go:39-43 | of two edge weight options the later one wins |
| Options.EdgeOptionIdempotent | options/edge_options.go:39-43 | applying the same edge option twice equals applying it once |
| Options.DijkstraProperties.UseStandard | options/dijkstra_options.go:32-34 | afterwards the standard variant is selected |
| Options.DijkstraProperties.GetUseStandard | options/dijkstra_options.go:36-39 | true exactly when applying WithDijkstraStandard would change nothing, i.e. the standard variant is already selected |
| Options.ApplyDijkstraOption | options/dijkstra_options.go:42-46 | WithDijkstraStandard always selects the standard variant |
| Options.ApplyDijkstraOptions | pathfinder/dijkstra_pathfinder.go:76-79 | the standard variant is selected iff it already was or at least one option was given (no option clears it) |
| Options.DijkstraOptionIdempotent | options/dijkstra_options.go:42-46 | WithDijkstraStandard applied twice equals applying it once |
| Vertices.Vertex.Label | vertex.go:64-67 | the label read back: writing it again leaves the vertex unchanged |
| Vertices.Vertex.InDegree | vertex.go:69-72 | the in-degree counter read back: writing it again leaves the vertex unchanged |
| Vertices.Vertex.OutDegree | vertex.go:75-78 | the out-degree is the number of neighbour entries |
| Vertices.Vertex.Degree | vertex.go:80-83 | the degree is in-degree plus out-degree |
| Vertices.Vertex.Weight | vertex.go:97-100 | the weight of the vertex's properties: writing it again with WithVertexWeight leaves them unchanged |
| Vertices.Vertex.NeighborByLabel | vertex.go:44-56 | the scan finds a neighbour exactly when the label is in the neighbour list, and returns that label |
| Vertices.Vertex.HasNeighbor | vertex.go:58-63 | true exactly when the vertex's label is among the neighbours |
| Vertices.Vertex.Neighbors | vertex.go:85-95 | the copy has the same length and the same entries in the same order |
| Vertices.NewVertex | vertex.go:35-42 | a new vertex has the label, in-degree 0, no neighbours and the last option's weight (0 without options) |
| Edges.Edge.Source | edge.go:45-48 | the source label read back: writing it again leaves the edge unchanged |
| Edges.Edge.Destination | edge.go:50-53 | the destination label read back: writing it again leaves the edge unchanged |
| Edges.Edge.Weight | edge.go:55-58 | the weight of the edge's properties: writing it again with WithEdgeWeight leaves them unchanged |
| Edges.NewEdge | edge.go:33-43 | a new edge keeps its two endpoints and takes the last option's weight (0 without options) |
| Grafik.PutEdge | grafik.go:201-210 | the slot from→to holds the new edge, every other slot is unchanged, and no other slot appears |
| Grafik.AdmitKeepsUndirected | grafik.go:123-131 | inserting a bare vertex under a new label keeps the graph undirected |
| Grafik.LinkKeepsWellKeyed | grafik.go:240-252 | joining two stored vertices keeps keys and edge slots consistent |
| Grafik.LinkKeepsNeighborEdges | grafik.go:240-252 | joining two stored vertices gives every neighbour entry, old and new, its edge slot |
| Grafik.LinkKeepsEdgeNeighbors | grafik.go:240-252 | joining two stored, not yet joined vertices keeps every edge slot matched by a neighbour entry and by a reverse slot of the same weight |
| Grafik.EdgesMakeNeighborsStored | grafik.go:240-252 | in a well-keyed graph where every neighbour entry has its edge slot, every neighbour label names a stored vertex |
| Grafik.LinkKeepsUndirected | grafik.go:235-252 | joining two stored, not yet joined vertices keeps every neighbour/edge/reverse-edge correspondence and balanced degrees |
| Grafik.Graph.constructor | grafik.go:112-117 | a new graph is empty and undirected |
| Grafik.Graph.InsertVertex | grafik.go:123-131 | a taken label returns nil and changes nothing; otherwise the vertex is stored under its label and returned; edges untouched |
| Grafik.Graph.AddVertexByLabel | grafik.go:143-152 | a taken label returns nil and changes nothing; otherwise a bare vertex with the options' weight is stored and returned; undirectedness kept |
| Grafik.Graph.AddVertex | grafik.go:157-163 | nil changes nothing; otherwise the vertex is stored unless its label is taken |
| Grafik.Graph.GetVertexByLabel | grafik.go:168-170 | returns the vertex stored under the label, and nil exactly when the label is absent |
| Grafik.Graph.GetAllVertices | grafik.go:173-180 | one entry per stored label, each the stored vertex, no label twice |
| Grafik.Graph.ContainsVertex | grafik.go:185-191 | true exactly for a non-nil vertex whose label is stored |
| Grafik.Graph.AddToEdgeMap | grafik.go:201-210 | creates the edge with the options and stores it in slot from→to; vertices untouched |
| Grafik.Graph.ContainsEdge | grafik.go:326-346 | true exactly when both vertices are non-nil and the slot from→to is set |
| Grafik.Graph.GetEdge | grafik.go:263-281 | returns the edge exactly when ContainsEdge holds; it runs from `from` to `to` |
| Grafik.Graph.GetAllEdges | grafik.go:291-319 | nil iff an endpoint is nil or absent; otherwise the from→to edge if set, then the to→from edge if set; zero or two edges in an undirected graph |
| Grafik.Graph.Link | grafik.go:240-252 | both neighbour lists, both in-degrees and both edge slots updated, the from→to edge returned |
| Grafik.Graph.AddEdge | grafik.go:222-253 | ErrNilVertices for a nil endpoint; ErrEdgeAlreadyExists iff the slot was set, and then nothing changes; otherwise absent endpoints are inserted, both directions are joined, the edge is contained both ways and undirectedness is kept |
| Paths.Dist.Plus | pathfinder/dijkstra_pathfinder.go:110 | extending a finite distance adds the weight; the sentinel stays the sentinel |
| Paths.EdgeWeight | pathfinder/dijkstra_pathfinder.go:146 | with non-negative weights an edge weighs at least 0 |
| Paths.WalkWeight | pathfinder/dijkstra_pathfinder.go:61-74 | a one-vertex walk weighs 0; with non-negative weights every walk weighs at least 0 |
| Paths.WalkExtend | pathfinder/dijkstra_pathfinder.go:107-113 | appending a neighbour to a walk gives a walk whose weight grows by that edge's weight |
| Paths.ShortestUnique | pathfinder/dijkstra_pathfinder.go:72-74 | the shortest-distance map of a start vertex is unique, so both variants return the same map |
| Paths.ShortestFiniteIffReachable | pathfinder/dijkstra_pathfinder.go:72-74 | a shortest distance is finite exactly when the vertex is reachable from the start |
| Paths.ShortestStartIsZero | pathfinder/dijkstra_pathfinder.go:95 | with non-negative weights the start's shortest distance is 0 |
| Paths.Frontier | pathfinder/dijkstra_pathfinder.go:97-114 | every walk from the start to an unvisited vertex leaves the visited set at a vertex whose tentative distance is at most the walk's weight |
| Paths.MinimumIsSettled | pathfinder/dijkstra_pathfinder.go:98-105 | with non-negative weights the unvisited vertex of least tentative distance already has its shortest distance |
| Queue.NewVertexWithPriority | queue/priority_queue.go:77-79 | the entry carries the given vertex and priority |
| Queue.VertexWithPriority.Priority | queue/priority_queue.go:81-84 | the priority half of the (vertex, priority) pair the entry stands for |
| Queue.VertexWithPriority.Vertex | queue/priority_queue.go:86-89 | the vertex half of the (vertex, priority) pair the entry stands for |
| Queue.RootIsMin | queue/priority_queue.go:91-93 | in a min-heap the root's priority is at most every other entry's |
| Queue.PeekIsMin | queue/priority_queue.go:56-62 | the root of a non-empty heap is held and has the least priority |
| Queue.DownStep | queue/priority_queue.go:98-102 | swapping a node with its smaller child moves the only order violation one level down |
| Queue.UpStep | queue/priority_queue.go:98-102 | swapping a node with a larger parent moves the only order violation one level up |
| Queue.DropLast | queue/priority_queue.go:126-134 | dropping the last slot keeps heap order and indices, and removes exactly that entry |
| Queue.VertexPriorityQueue.constructor | queue/priority_queue.go:35-41 | a new queue is empty and a valid heap |
| Queue.VertexPriorityQueue.Len | queue/priority_queue.go:64-67 | the length is the number of entries held |
| Queue.VertexPriorityQueue.Less | queue/priority_queue.go:98-102 | true exactly when slot i's priority is below slot j's (a strict order); in a heap-ordered queue no entry sorts before its parent or before the root |
| Queue.VertexPriorityQueue.Swap | queue/priority_queue.go:105-109 | the two slots are exchanged and both entries record their new slots |
| Queue.VertexPriorityQueue.Append | queue/priority_queue.go:112-121 | an entry is appended and records its slot; a value of another type is ignored |
| Queue.VertexPriorityQueue.RemoveLast | queue/priority_queue.go:126-134 | the last entry is removed and returned with slot -1 |
| Queue.VertexPriorityQueue.SiftUp | queue/priority_queue.go:44-46 | restores heap order after an append without changing the entries held |
| Queue.VertexPriorityQueue.LeastChild | queue/priority_queue.go:50-53 | the chosen slot is a child of i within the heap prefix whose priority is no greater than either child's, the left one on a tie |
| Queue.VertexPriorityQueue.SiftDownStep | queue/priority_queue.go:50-53 | either the slot already has no smaller child and the heap prefix is ordered, or it is swapped with its least child, entries unchanged, and the violation moves down to that child |
| Queue.VertexPriorityQueue.SiftDown | queue/priority_queue.go:50-53 | restores heap order below a slot without changing the entries held or the slots past the heap |
| Queue.VertexPriorityQueue.Push | queue/priority_queue.go:43-46 | the heap stays valid and holds one more copy of the entry; a foreign value changes nothing |
| Queue.VertexPriorityQueue.Pop | queue/priority_queue.go:48-53 | the heap stays valid; the returned entry is the former root's (vertex, priority) pair, is removed once, has the least priority and slot -1 |
| Queue.VertexPriorityQueue.RootToEnd | queue/priority_queue.go:50-53 | the root is moved to the last slot and the rest is re-heaped, entries unchanged |
| Queue.VertexPriorityQueue.Peek | queue/priority_queue.go:55-62 | nil iff the queue is empty; otherwise the root entry, which has the least priority |
| Iterators.Unvisited | iterator/breadth_first_iterator.go:78-85 | the labels enqueued are exactly the neighbours not yet visited, each once |
| Iterators.ClosedContainsReachable | iterator/iterator.go:37-59 | a set that holds the start and is closed under neighbours holds every reachable vertex |
| Iterators.ListingMultiset | grafik.go:173-180 | a duplicate-free listing that covers a key set and holds nothing else has exactly those keys, each once |
| BreadthFirst.HopsLeast | iterator/breadth_first_iterator.go:65-88 | the hop distance Hops: some walk from the start takes that many steps and none takes fewer |
| BreadthFirst.HopsZero | iterator/breadth_first_iterator.go:45-56 | only the start is at hop distance 0 |
| BreadthFirst.HopsStep | iterator/breadth_first_iterator.go:78-85 | a neighbour is at most one hop farther than the vertex it is reached from |
| BreadthFirst.HopsPred | iterator/breadth_first_iterator.go:78-85 | every vertex other than the start has a neighbour-predecessor exactly one hop closer |
| BreadthFirst.Covered | iterator/breadth_first_iterator.go:68-88 | when a label is dequeued every vertex no farther from the start has already been queued |
| BreadthFirst.LevelStep | iterator/breadth_first_iterator.go:68-88 | expanding the dequeued label keeps hop distances non-decreasing along the queue and at most one above the next label's |
| BreadthFirst.BreadthFirstIterator.constructor | iterator/breadth_first_iterator.go:45-56 | the queue holds only the start, head is -1 and only the start is visited |
| BreadthFirst.BreadthFirstIterator.HasNextIffUnyielded | iterator/breadth_first_iterator.go:58-63 | HasNext holds exactly while some visited label has not yet been yielded |
| BreadthFirst.BreadthFirstIterator.Next | iterator/breadth_first_iterator.go:65-88 | nil and no change when exhausted; otherwise head advances, the vertex at head is returned and its unvisited neighbours are queued and marked |
| BreadthFirst.BreadthFirstIterator.EnqueueUnvisited | iterator/breadth_first_iterator.go:78-85 | appends exactly the unvisited neighbours, in order, and marks them visited |
| BreadthFirst.BreadthFirstIterator.NextKeepsValid | iterator/breadth_first_iterator.go:68-88 | one step keeps the queue duplicate-free, within the reachable vertices, closed under neighbours of yielded labels and in level order |
| BreadthFirst.BreadthFirstIterator.Iterate | iterator/breadth_first_iterator.go:90-101 | calls the callback on each yielded vertex until it fails or the traversal ends; returns the first error |
| BreadthFirst.BreadthFirstIterator.Reset | iterator/breadth_first_iterator.go:103-108 | back to the initial state |
| BreadthFirst.BreadthFirstIterator.Exhausted | iterator/breadth_first_iterator.go:58-63 | once HasNext is false the queue holds exactly the vertices reachable from the start, each once, with hop distances from the start never decreasing along it |
| BreadthFirst.NewBreadthFirstIterator | iterator/breadth_first_iterator.go:34-43 | ErrVertexDoesNotExist iff the start is absent; otherwise a fresh iterator in its initial state |
| DepthFirst.DepthFirstIterator.constructor | iterator/depth_first_iterator.go:44-54 | the stack holds only the start and only the start is visited |
| DepthFirst.DepthFirstIterator.HasNextIffUnyielded | iterator/depth_first_iterator.go:56-61 | HasNext holds exactly while some visited label has not yet been yielded |
| DepthFirst.DepthFirstIterator.Next | iterator/depth_first_iterator.go:63-86 | nil and no change when empty; otherwise the top is popped and returned and its unvisited neighbours are pushed and marked |
| DepthFirst.DepthFirstIterator.PushUnvisited | iterator/depth_first_iterator.go:76-83 | pushes exactly the unvisited neighbours, in order, and marks them visited |
| DepthFirst.DepthFirstIterator.NextKeepsValid | iterator/depth_first_iterator.go:66-86 | one step keeps yielded and stacked labels duplicate-free, reachable and closed under neighbours of yielded labels |
| DepthFirst.StepFacts | iterator/depth_first_iterator.go:71-83 | popping a label and pushing its unvisited neighbours keeps labels unique, visited labels reachable and yielded labels closed under neighbours |
| DepthFirst.DepthFirstIterator.Iterate | iterator/depth_first_iterator.go:88-99 | calls the callback on each yielded vertex until it fails or the traversal ends; returns the first error |
| DepthFirst.DepthFirstIterator.Reset | iterator/depth_first_iterator.go:101-105 | back to the initial state |
| DepthFirst.DepthFirstIterator.Exhausted | iterator/depth_first_iterator.go:56-61 | once the stack is empty the yielded labels are exactly the vertices reachable from the start, each once |
| DepthFirst.NewDepthFirstIterator | iterator/depth_first_iterator.go:33-42 | ErrVertexDoesNotExist iff the start is absent; otherwise a fresh iterator in its initial state |
| DijkstraInvariants.WitnessedAttained | pathfinder/dijkstra_pathfinder.go:61-74 | recorded walks make every finite distance the weight of a walk from the start |
| DijkstraInvariants.StandardInit | pathfinder/dijkstra_pathfinder.go:119-133 | the initial heap and records satisfy the standard loop invariant |
| DijkstraInvariants.PopFacts | pathfinder/dijkstra_pathfinder.go:136-139 | after popping the least entry and marking it visited the invariant holds before relaxing |
| DijkstraInvariants.LowerKeepsHeap | pathfinder/dijkstra_pathfinder.go:147-150 | lowering a distance and pushing it keeps every queued entry sound and every finite unvisited distance queued |
| DijkstraInvariants.RelaxLowers | pathfinder/dijkstra_pathfinder.go:143-151 | a strict improvement lowers the distance, records the walk and keeps the invariant for the next neighbour |
| DijkstraInvariants.RelaxKeeps | pathfinder/dijkstra_pathfinder.go:143-152 | a visited neighbour or one not improved keeps the invariant for the next neighbour |
| DijkstraInvariants.RelaxDone | pathfinder/dijkstra_pathfinder.go:142-153 | after all neighbours the main-loop invariant holds again |
| DijkstraInvariants.StandardDone | pathfinder/dijkstra_pathfinder.go:136-154 | an empty heap under the invariant gives attained distances with start 0, shortest under non-negative weights |
| Pathfinder.NewDijkstraVertex | pathfinder/dijkstra_pathfinder.go:53-59 | a new record is unreached (the sentinel), unvisited and without predecessor |
| Pathfinder.SelectClosest | pathfinder/dijkstra_pathfinder.go:98-103 | returns a listed unvisited vertex whose distance is at most every unvisited vertex's |
| Pathfinder.RelaxEdge | pathfinder/dijkstra_pathfinder.go:109-112 | only the destination's distance changes: it becomes the source's distance plus the edge weight when that is strictly smaller and stays as it was otherwise, so it never rises and is witnessed by a walk |
| Pathfinder.RelaxNeighbors | pathfinder/dijkstra_pathfinder.go:107-113 | every neighbour of the visited vertex ends relaxed and distances stay attained |
| Pathfinder.SimpleStep | pathfinder/dijkstra_pathfinder.go:97-114 | one round keeps the simple variant's invariant with one more vertex visited |
| Pathfinder.ClosestIsSettled | pathfinder/dijkstra_pathfinder.go:98-105 | the selected closest vertex is settled at its shortest distance under non-negative weights |
| Pathfinder.VisitClosest | pathfinder/dijkstra_pathfinder.go:97-114 | one round of the simple loop keeps its invariant and visits exactly one more vertex |
| Pathfinder.Visit | pathfinder/dijkstra_pathfinder.go:105-113 | marks the vertex visited and relaxes its edges: the simple invariant is kept, distances only decrease, visited distances stay put and every neighbour ends no farther than through the vertex (non-negative weights) |
| Pathfinder.AllInfinite | pathfinder/dijkstra_pathfinder.go:90-93 | every listed vertex starts at the sentinel |
| Pathfinder.SimpleDone | pathfinder/dijkstra_pathfinder.go:97-116 | once every vertex is visited the distances are attained, and shortest under non-negative weights |
| Pathfinder.SimpleDijkstra | pathfinder/dijkstra_pathfinder.go:89-117 | one distance per vertex, each finite one attained by a walk, start at most 0, shortest under non-negative weights |
| Pathfinder.InitRecords | pathfinder/dijkstra_pathfinder.go:124-128 | one fresh record per listed vertex |
| Pathfinder.LowerTo | pathfinder/dijkstra_pathfinder.go:147-151 | the improving case: the neighbour's record gets the new distance and the popped vertex as predecessor, exactly that (label, distance) pair is pushed, and heap, records and invariant stay in step |
| Pathfinder.RelaxTo | pathfinder/dijkstra_pathfinder.go:144-151 | relaxes one neighbour, keeping heap, records and invariant in step; when the neighbour is unvisited and the popped priority plus the edge weight is strictly below its record, the record is lowered to that value with the popped vertex as predecessor and exactly that pair is pushed; otherwise records and queue are unchanged |
| Pathfinder.RelaxUnvisited | pathfinder/dijkstra_pathfinder.go:142-153 | relaxes every neighbour of the popped vertex, keeping heap, records and invariant in step |
| Pathfinder.Settle | pathfinder/dijkstra_pathfinder.go:136-153 | one iteration keeps the invariant and either visits a new vertex or shrinks the heap |
| Pathfinder.SettleAll | pathfinder/dijkstra_pathfinder.go:136-154 | the main loop terminates with an empty heap under the invariant |
| Pathfinder.CollectDistances | pathfinder/dijkstra_pathfinder.go:157-160 | the result holds each record's distance under its label |
| Pathfinder.StartRecords | pathfinder/dijkstra_pathfinder.go:124-130 | one record per vertex, all fresh except the start at distance 0 |
| Pathfinder.StandardDijkstra | pathfinder/dijkstra_pathfinder.go:119-162 | one distance per vertex, each finite one attained by a walk, start 0, shortest under non-negative weights |
| Pathfinder.Dijkstra | pathfinder/dijkstra_pathfinder.go:75-163 | empty map for an absent start; otherwise one attained distance per vertex, the start at most 0 and exactly 0 when the options select the standard variant, and the shortest distances under non-negative weights whichever variant runs |
| Centrality.Add | centrality/dijkstra_centrality.go:53-56 | a sum is finite iff both terms are, and then it is their real sum |
| Centrality.SumRemove | centrality/dijkstra_centrality.go:53-56 | the total over a key set is one value plus the total over the rest, whichever key is taken: map order does not matter |
| Centrality.SumLengths | centrality/dijkstra_centrality.go:53-56 | the loop computes the total of all distances, finite iff every distance is |
| Centrality.SumFinite | centrality/dijkstra_centrality.go:53-56 | a total is finite iff every summed distance is |
| Centrality.AverageDetermined | centrality/dijkstra_centrality.go:50-58 | under non-negative weights two results for the same vertex have the same average, even when run with different options |
| Centrality.MapPermutation | centrality/dijkstra_centrality.go:73-77 | permuted inputs give permuted projections |
| Centrality.SortedUnique | centrality/dijkstra_centrality.go:79-81 | two ascending permutations of the same distances are equal |
| Centrality.OrderIndependent | centrality/dijkstra_centrality.go:73-81 | whatever order the results arrive in, the sorted list has the same sequence of averages |
| Centrality.SwapDown | centrality/dijkstra_centrality.go:79-81 | exchanges two adjacent entries, a permutation |
| Centrality.Insert | centrality/dijkstra_centrality.go:79-81 | extends the sorted prefix by one entry, a permutation |
| Centrality.SortByAverage | centrality/dijkstra_centrality.go:79-81 | the array ends sorted by average and is a permutation of the input |
| Centrality.RunOne | centrality/dijkstra_centrality.go:49-62 | the result carries the vertex's label and the average of one Dijkstra run from it with `opts`: its distance at the vertex itself is at most 0, and exactly 0 when `opts` select the standard variant |
| Centrality.RunAll | centrality/dijkstra_centrality.go:46-77 | one result per listed vertex, in listing order, each the average of a Dijkstra run from that vertex with the same `opts` |
| Centrality.CoverLabels | centrality/dijkstra_centrality.go:38-77 | the results name every stored vertex exactly once |
| Centrality.SortedCopy | centrality/dijkstra_centrality.go:79-81 | the output is sorted by average and a permutation of the input |
| Centrality.DijkstraCentrality | centrality/dijkstra_centrality.go:37-84 | every stored vertex appears once, each with the average of a Dijkstra run from it with the caller's `opts` (start distance 0 under the standard variant), sorted ascending by average |

## Left out

- Floating point. Distances and weights are reals.
  - The `math.MaxFloat64` sentinel is the explicit `Infinity`, and `Infinity + w` stays `Infinity`. In IEEE-754, `MaxFloat64 + w` rounds back to `MaxFloat64` for ordinary `w`, but a huge negative weight would make it finite.
  - Overflow to `+Inf` and rounding in sums are not modelled.
  - Division in the centrality average is exact. An average over a run that leaves some vertex unreached is `Infinity`; Go gives `+Inf` or a huge finite value.
- Go's map iteration order. GetAllVertices lists the vertices in an arbitrary order, and the model proves nothing that depends on that order. The centrality sum is proved independent of the order (SumRemove).
- Concurrency in DijkstraCentrality. The goroutines, the channel, the mutex and the wait group are replaced by a sequential loop over the vertex listing. The arrival order of results is arbitrary in Go. OrderIndependent shows that the sorted averages do not depend on it.
- `sort.Slice`. Its algorithm and its order among equal averages are unspecified. The model sorts by in-place insertion sort and proves sortedness and permutation only; ties may come out in any order.
- The internals of `container/heap`. Its sift-up and sift-down are written out in `queue.dfy` as the textbook binary-heap steps. Push and Pop are specified by the multiset of entries and the least-priority property, not by `container/heap`'s exact slot layout.
- Queue.VertexPriorityQueue.Pop requires a non-empty queue. Go's `heap.Pop` on an empty queue indexes out of range and panics.
- Pointer identity and aliasing.
  - Vertices and edges are values that name their endpoints by label.
  - Go's `Neighbors()` returns cloned vertex structs, and the model returns the neighbour labels.
  - A caller that keeps a `*Vertex` and mutates it after insertion is not modelled.
- Graph invariants as preconditions.
  - Methods of Grafik.Graph require `Valid()` (keys match labels). The constructor establishes it and every method keeps it.
  - Pathfinder.Dijkstra also requires that every neighbour entry has its edge slot. Where that fails, Go dereferences a nil edge and panics.
  - The iterators never read edges. They require only that every neighbour label names a stored vertex (`NeighborsStored`). Where that fails, Go calls `Neighbors()` on a nil vertex and panics.
  - Both conditions hold for every graph built through the API; Grafik.EdgesMakeNeighborsStored derives the second from the first.
- Pathfinder.SimpleDijkstra: with negative weights, only attained distances are guaranteed, and the start's distance may fall below 0. Go's simple variant relaxes edges into visited vertices too.
- Pathfinder.StandardDijkstra: with negative weights, only attained distances and a start distance of 0 are guaranteed.
- Centrality.RunOne: with negative weights, the average is pinned down only as far as the Dijkstra run behind it is (see the two lines above). The options enter only through that run.
- Centrality.RunAll: the same limit as Centrality.RunOne, for each listed vertex.
- Centrality.DijkstraCentrality: the same limit as Centrality.RunOne, for each stored vertex.
- The `previous` field of a Dijkstra record is written but never read by the library. The model writes it too but states nothing about it. The record's `visited` flag is never updated in Go, and the model does the same.
- Vertices.Vertex.HasNeighbor: Go's `HasNeighbor(nil)` reads the label through a nil pointer and panics (vertex.go:61-63). The model's argument is a vertex value, which cannot be nil, so that panic is not modelled.
- Iterators' `Iterate`. The callback is a pure function from a vertex to an optional error, so callbacks with side effects are not modelled.
- The root file `centrality.go` and the `entity` package are not part of this model. `grafik.VertexPath` is modelled as the pair `Centrality.VertexPath` of a label and an average.
- The duplicate `DijkstraOptionFunc` and `DijkstraProperties` declared inside the pathfinder file behave like those in `options/dijkstra_options.go`, and only the latter are modelled.
