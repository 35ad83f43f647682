# Models of five small systems

This project models the algorithmic parts of a collection of tools and proves what they compute.

- **Spanning trees.** `Graphs` is the theory of undirected weighted multigraphs: paths, cycles, exchange of
  edges and the cut property. `EdgeSort`, `Bitmaps` and `Kruskal` are the in-place quicksort and Kruskal's
  algorithm over records that share arrays; `EdgeHeap` and `Prim` are the binary heap with lazy deletion and
  Prim's algorithm, `RowPaths` what it keeps on directed entries; `Matrices` is the adjacency matrix with the
  depth-first connectivity test. `KruskalRuns` is edge collection and the sort as it is called, `SpanningTrees`
  the agreement of both programs.
- **Time series.** `RowKeys` is the key encoding and its order, `SimpleDb` the store with its cursor scans,
  `FancyDb` the writer and the rule evaluator as interleaved steps, `FancyRuns` what the order
  of Sets decides and `FancySchedules` the runs that show it.
- **Mouse daemon.** `PacketAssembler` is the byte framing, `ThreeButton` the emulation of a third button.
- **Text.** `GrokExpansion` is the recursive pattern expansion, `LineReader` the line reassembly, `CueCat` the
  bar-code decoder.
- **Running jobs.** `TaskPool` is the batching of tokens and the pool of workers, `FifoCache` the
  size-limited dictionary and the memoizer over it.

Objects whose methods change them are classes, algorithms that work in place keep their arrays, and each such
method is proved against a function or predicate of the old and new state about which the laws are then proved.

Where the code does not do what it seems meant to do, the code is modelled and the exact condition is proved:

- The quicksort is called with its end one slot too far (kruskal.c:126). The blank edge of that slot moves to
  the front and a heaviest edge falls out of what Kruskal reads: the one that the sort leaves last, which
  `LastSorted` computes from the weights by position. The result is minimal exactly when that edge is no bridge, so if no
  heaviest edge is one and not if all are. Two runs show that ties go either way.
- Prim follows rows only, while graph generation fills both directions independently (graph.c:30-45). Its tree
  spans the graph exactly when rows lead everywhere from its start. It is minimal from every start exactly when
  each entry is returned: rows lead from its end back to its beginning over entries no heavier than itself.
- A rule's scan is closed at both ends while buckets are half-open (fancydb.py:219-223, 260). An entry exactly on
  the end of a bucket is part of that bucket's reading, but storing it only notifies the next bucket. After Close
  a bucket is up to date in every run exactly when all readings of it since the last Set inside it have the same
  result. A later Set inside the bucket makes up for one at its end.
- A lone click is lost when the button is still delayed and the release comes with the fourth movement in a row
  (moused.c:2174-2189).
- The memoizer's key leaves keyword arguments out, and unhashable positional arguments drop them (cache.py:57-64).
- A read that contains a NUL is cut there (fileobserver.hpp:272).

## Model

| member | source | states |
|---|---|---|
| SpanningTrees.CompareRuns | spanningtree/main.c:27-83 | For every matrix: the connectivity test accepts exactly the graphs where rows lead from vertex 0 everywhere; on these Kruskal, as the program calls it, and Prim report the weight of a minimum spanning tree where every edge is returned, and Prim reports a greater weight where its tree spans, no heaviest edge is a bridge and an edge into its start is not returned |
| KruskalRuns.KruskalQuicksort | spanningtree/kruskal.c:302-311 | As the program calls the sort, on any matrix for which the bitmaps are large enough: the heaviest edge that the sort leaves last, a function of the matrix alone, is dropped; the result is a minimum spanning tree exactly when the graph is connected and that edge is no bridge, so always when no heaviest edge is a bridge and never when all are |
| KruskalRuns.SingleHeaviest | spanningtree/kruskal.c:302-311 | With a single heaviest edge the outcome is minimal exactly when that edge is no bridge |
| KruskalRuns.TieHarmless | spanningtree/kruskal.c:302-311 | A run on three vertices in which a heaviest edge is a bridge and the result is minimal nevertheless |
| KruskalRuns.TieHarmful | spanningtree/kruskal.c:302-311 | A run on three vertices in which a heaviest edge is no bridge and the result is not minimal nevertheless |
| KruskalRuns.BridgeLost | spanningtree/kruskal.c:302-311 | The run on two vertices and one entry: nothing is left of the tree |
| KruskalRuns.FirstDropped | spanningtree/kruskal.c:126 | Among equally heavy edges the first collected one, if heaviest, is the one dropped |
| KruskalRuns.MiddleDropped | spanningtree/kruskal.c:126 | Where the first edge is not a heaviest one: of three heaviest edges on four vertices the middle one, a bridge, is dropped |
| KruskalRuns.CollectsOne | spanningtree/kruskal.c:116-124 | The collected edges are determined by the graph |
| KruskalRuns.KruskalSorted | spanningtree/kruskal.c:177-274 | With only the collected edges sorted, forest 0 holds a minimum spanning tree of n - 1 edges on every connected multigraph, and the reported weight is its weight |
| Prim.PrimFromEveryStart | spanningtree/prim.c:120-174 | On every connected matrix: run from each start in turn, Prim counts a minimum spanning tree every time exactly when every edge is returned by a row path of entries no heavier than itself |
| Prim.ReturningIsMinimum | spanningtree/prim.c:120-174 | Where every edge is returned, in particular on symmetric matrices, the edges counted from any start form a minimum spanning tree |
| Prim.UnreturnedNotMinimum | spanningtree/prim.c:120-174 | From a start where an edge ends that is not returned, whatever edges of equal weight come first, the edges counted form no minimum spanning tree |
| Prim.Judgement | spanningtree/prim.c:172-173 | What the two conditions say about the result from one start |
| RowPaths.NotReturned | spanningtree/prim.c:138-158 | A greedy spanning tree leaves what is near its start by a heavier edge, for which an unreturned edge into the start can be exchanged |
| RowPaths.GreedyGrows | spanningtree/prim.c:138-158 | Taking a lightest leaving edge keeps, for every weight, the tree within what entries of that weight reach or that reach within the tree and not entered from outside |
| RowPaths.CutWeight | spanningtree/prim.c:138-158 | Where every edge is returned, no entry into the marked set is lighter than the lightest out of it |
| RowPaths.ReturnedNoBridge | spanningtree/kruskal.c:126 | A returned edge is no bridge, so dropping it does no harm |
| RowPaths.SymmetricReturns | spanningtree/prim.c:148-157 | In a symmetric matrix every edge is returned |
| SpanningTrees.PrimReaches | spanningtree/prim.c:135-170 | On any matrix the marked vertices are exactly those that rows lead to from the start; the counted edges are a spanning tree exactly when these are all vertices |
| SpanningTrees.KruskalAgreesWithPrim | spanningtree/prim.c:172-173 | Where every edge is returned a minimum spanning tree from Kruskal weighs what Prim counts from whatever start |
| SpanningTrees.AsymmetricFails | spanningtree/graph.c:30-45 | A matrix that graph generation can fill (three vertices, weights below three) on which Prim from vertex 0 counts no minimum spanning tree |
| SpanningTrees.AcceptedGraphs | spanningtree/kruskal.c:16-17 | An accepted graph is connected as an undirected graph and has at least n - 1 entries, so the bitmap sized by the edge count has a bit for every vertex |
| KruskalRuns.CollectRow | spanningtree/kruskal.c:117-124 | One row's positive entries are appended once each, at most n - 1 of them |
| KruskalRuns.CollectEdges | spanningtree/kruskal.c:105-124 | The collected array lists every positive entry once in row order, and the slot behind the last edge is still blank |
| KruskalRuns.SortTooFar | spanningtree/kruskal.c:126-128 | The call with the end on edgecnt moves the blank edge into the part Kruskal reads and out of it a heaviest edge, the one that the positions of the entries decide |
| KruskalRuns.Quicksort | spanningtree/kruskal.c:105-129 | Collecting and sorting: the slots that Kruskal reads hold the edges in order with the blank edge in place of that heaviest one |
| KruskalRuns.SortEdges | spanningtree/kruskal.c:133-140 | The sort with its end on the last edge leaves the collected edges in order |
| KruskalRuns.BlankInFront | spanningtree/kruskal.c:126 | Sorting one blank slot too many: blank edge first, a heaviest edge last, everything else kept |
| KruskalRuns.HeaviestDropped | spanningtree/kruskal.c:126 | A minimum spanning forest of the graph without a heaviest edge is one of the whole graph exactly when that edge is no bridge |
| KruskalRuns.ReplaceHeaviest | spanningtree/kruskal.c:126 | A spanning forest can be rid of a heaviest edge that is no bridge without getting heavier |
| KruskalRuns.DroppedTree | spanningtree/kruskal.c:126 | The edges of forest 0, read with the blank self loop among them, are a minimum spanning tree exactly when the graph is connected and the dropped edge is no bridge |
| Graphs.CutProperty | spanningtree/kruskal.c:211-224 | If every spanning forest can be traded for one holding A that is no heavier, the same is true after adding a lightest edge across a cut that A respects |
| Graphs.CutStep | spanningtree/kruskal.c:211-224 | A spanning forest holding A is turned into one that also holds the lightest edge across the cut and is no heavier |
| Graphs.Exchange | spanningtree/kruskal.c:211-224 | Swapping a critical edge of a spanning forest for another keeps it a spanning forest and changes its weight by the difference |
| Graphs.CriticalEdge | spanningtree/kruskal.c:211-224 | A tree path across a cut has an edge on the cut whose removal separates the ends of the path |
| Graphs.AddEdge | spanningtree/kruskal.c:221-224 | Adding an edge joins exactly the pairs it joins through its two ends |
| Graphs.AcyclicAdd | spanningtree/kruskal.c:221-224 | An edge between two components creates no cycle |
| Graphs.PromisingIsMinimum | spanningtree/kruskal.c:262-274 | A spanning forest that every other can be traded for is minimal |
| Graphs.MinimumTree | spanningtree/kruskal.c:262-274 | On a connected graph minimum spanning trees and minimum spanning forests are the same |
| Graphs.MinimumWeightUnique | spanningtree/prim.c:172-173 | All minimum spanning forests of a graph weigh the same |
| Graphs.TreeSize | spanningtree/kruskal.c:17 | A connected graph on n vertices has at least n - 1 edges, a tree exactly n - 1 |
| EdgeSort.QsortPartition | spanningtree/kruskal.c:142-173 | Returns where the first edge of the range was moved to, with nothing heavier to its left and strictly heavier edges to its right, these by position: a heavier edge already there stays, the others are replaced from the back by the heavier edges from the front in order; the range is rearranged and the rest untouched |
| EdgeSort.Meet | spanningtree/kruskal.c:150-164 | The scans and swaps end with the two sides of the partition complete, the right one in its final order |
| EdgeSort.SwapPlaces | spanningtree/kruskal.c:157-162 | The edge swapped to the right is the one that belongs there by position |
| EdgeSort.RoundKeeps | spanningtree/kruskal.c:150-164 | One round of scans and a swap settles what it passes and nothing else, or ends the partition |
| EdgeSort.CountSplit | spanningtree/kruskal.c:157-162 | As many heavier edges leave the left as lighter ones leave the right |
| EdgeSort.DoQsort | spanningtree/kruskal.c:133-140 | Any inclusive range ends sorted and a rearrangement of itself, everything outside unchanged; which of several heaviest edges ends up last is computed by position from the range alone |
| EdgeSort.FirstHeaviestLast | spanningtree/kruskal.c:133-140 | A first edge that is a heaviest one ends up last |
| EdgeSort.SortedAround | spanningtree/kruskal.c:137-138 | Sorting both sides of a partition sorts the whole range |
| EdgeSort.BoundsSurvive | spanningtree/kruskal.c:137-138 | Bounds on the weights of a range survive any rearrangement of the range |
| Bitmaps.GetBit | spanningtree/kruskal.c:19 | The bit test answers membership in the set the bitmap stands for |
| Bitmaps.SetBit | spanningtree/kruskal.c:18 | Setting a bit adds exactly that vertex to the set |
| Bitmaps.Unite | spanningtree/kruskal.c:234-235 | The combined assignment leaves the union in both bitmaps |
| Kruskal.Kruskal | spanningtree/kruskal.c:177-289 | For any sorted edge array the list of forest 0 is the part of a minimum spanning forest in the component of vertex 0, without repetition, one edge fewer than the component has vertices, with its weight reported; a minimum spanning tree when the graph is connected |
| Kruskal.BuildForests | spanningtree/kruskal.c:211-260 | After the loop the records represent the components of a minimum spanning forest: bit v of u's bitmap is set exactly when chosen edges join u and v, and each list holds its component's edges |
| Kruskal.TakeEdge | spanningtree/kruskal.c:212-259 | An edge is taken exactly when its ends lie in different parts; the records then hold the merged partition, otherwise the old one |
| Kruskal.Merge | spanningtree/kruskal.c:222-258 | Merging in place leaves the records of exactly the two components' vertices sharing the united arrays, and all others as they were |
| Kruskal.Combine | spanningtree/kruskal.c:224-235 | x's arrays absorb y's in place; afterwards exactly the vertices of the two components have a bitmap touched by the edge |
| Kruskal.Absorb | spanningtree/kruskal.c:224-235 | The list becomes x's edges, the new edge and y's edges; both bitmaps become the union |
| Kruskal.AppendEdges | spanningtree/kruskal.c:230-232 | y's edges are appended to x's in order |
| Kruskal.Redirect | spanningtree/kruskal.c:237-258 | Exactly the records whose bitmap holds an end of the edge become the merged record |
| Kruskal.RedirectAll | spanningtree/kruskal.c:237-258 | After the copying loop the records hold the merged partition |
| Kruskal.InitForests | spanningtree/kruskal.c:192-209 | At the start every vertex is a part of its own on arrays of its own |
| Kruskal.Report | spanningtree/kruskal.c:270-281 | The edges printed are the list of forest 0 and the sum is its total weight |
| Kruskal.MergedPartition | spanningtree/kruskal.c:222-258 | Merging two parts keeps a partition whose lists have one edge fewer than the parts have vertices, and the merged list fits its array |
| Kruskal.RepresentsMerge | spanningtree/kruskal.c:222-258 | Merging two parts is adding the edge to the chosen set: parts stay its components, lists its edges by component |
| Kruskal.AllTouched | spanningtree/kruskal.c:244-245 | The bitmap test of the copying loop picks exactly the vertices of the two merged components |
| Kruskal.GreedyStep | spanningtree/kruskal.c:211-224 | With the edges sorted, one iteration keeps the chosen edges an acyclic set that can be completed to a minimum spanning forest and joins the ends of all edges passed |
| Kruskal.GreedyEnd | spanningtree/kruskal.c:262 | After the last edge the chosen set is a minimum spanning forest |
| Kruskal.ProgressStep | spanningtree/kruskal.c:212-260 | One iteration keeps the partition, what it represents, and the promise of minimality together |
| Kruskal.SeqWeightIsWeight | spanningtree/kruskal.c:272-277 | The sum over a list without repetition is the weight of its edge set |
| Kruskal.ForestZero | spanningtree/kruskal.c:283 | Forest 0 holds the component of vertex 0 of the whole graph; on a connected graph that is every vertex and every chosen edge |
| Matrices.DfsMark | spanningtree/graph.c:63-76 | Terminates, marks what is reachable through unmarked vertices and nothing else, and returns the number of row entries followed less the vertices newly marked plus one |
| Matrices.IsConnected | spanningtree/graph.c:47-61 | Returns 1 exactly when every vertex is reachable from vertex 0 |
| Matrices.ReachedMarked | spanningtree/graph.c:51-57 | The vertices marked from vertex 0 are exactly the reachable ones |
| Matrices.AllMarked | spanningtree/graph.c:54-60 | Returns 1 exactly when every vertex is marked |
| Matrices.ClosedHolds | spanningtree/graph.c:69-73 | A set closed under rows holds whatever is reachable from inside it |
| Matrices.StepReach | spanningtree/graph.c:69-73 | One recursive call keeps what the loop over a row has explored |
| Matrices.StepCount | spanningtree/graph.c:69-75 | One recursive call keeps the law of the count |
| EdgeHeap.Heap.constructor | spanningtree/prim.c:48-54 | An empty heap with the given number of slots |
| EdgeHeap.Heap.Enqueue | spanningtree/prim.c:56-61 | Keeps heap order and adds exactly the given edge; the root changes only for a strictly lighter one, so after insertions into an empty heap it is the earliest of the lightest |
| EdgeHeap.Heap.BuildHeap | spanningtree/prim.c:73-88 | Restores heap order when only the last slot's link may be broken, and keeps the edges |
| EdgeHeap.Heap.Heapify | spanningtree/prim.c:90-113 | Restores heap order when only the links below a slot may be broken, keeps the edges, and says which edge moves up |
| EdgeHeap.Heap.Least | spanningtree/prim.c:91-105 | The slot whose edge moves up: its own unless a child is lighter, of equally light children the one in the odd slot |
| EdgeHeap.Heap.Dequeue | spanningtree/prim.c:63-71 | Takes out the root, an edge no heavier than any held, keeping the rest and heap order, and says which edge is the next root; none exactly when the heap is empty |
| EdgeHeap.Heap.Drain | spanningtree/prim.c:285-293 | Draining any heap yields all its edges in order of weight |
| EdgeHeap.RootIsLightest | spanningtree/prim.c:35-41 | In an ordered heap the root is no heavier than any slot |
| EdgeHeap.SiftDown | spanningtree/prim.c:107-111 | Swapping with the lighter child moves the broken links down and breaks no other |
| EdgeHeap.SiftUp | spanningtree/prim.c:80-86 | Swapping with the heavier parent moves the broken link up and breaks no other |
| EdgeHeap.TakeRoot | spanningtree/prim.c:64-68 | Moving the last edge to the root removes exactly the old root and breaks links at the root only |
| Prim.PrimAdjMatrix | spanningtree/prim.c:120-174 | Terminates on any matrix within the n * n heap slots, having counted a tree that no row edge leaves, grown by lightest edges first; minimal where every edge is returned, not minimal where one into the start is not |
| Prim.GrowFrom | spanningtree/prim.c:135-170 | The loop: unmarked vertices, then heap size, decrease; it ends with the finished tree |
| Prim.Iterate | spanningtree/prim.c:135-170 | One iteration keeps tree, heap, bitmap and weight in step and the tree greedy, and either makes progress or ends with the finished tree |
| Prim.VisitVertex | spanningtree/prim.c:138-158 | The first half of an iteration, with its effect on the tree: marks an unmarked vertex by the pending edge, skips a stale edge |
| Prim.Mark | spanningtree/prim.c:138-157 | Marks the vertex and adds its row to the heap, for which there is always room |
| Prim.Visit | spanningtree/prim.c:138-158 | Counts the pending edge's weight exactly when it leads to an unmarked vertex |
| Prim.Advance | spanningtree/prim.c:160-170 | The next pending edge is a lightest one held, and the next vertex its unmarked end if it has one |
| Prim.EnqueueRow | spanningtree/prim.c:147-157 | Exactly the positive entries of the row are added, at most n - 1 |
| Prim.TreeGrows | spanningtree/prim.c:138-145 | A pending edge to an unmarked vertex is a lightest edge out of the marked set: taking it keeps a greedy tree, which where every edge is returned can be completed to a minimum spanning tree |
| Prim.MarkVertex | spanningtree/prim.c:138-158 | After marking, the heap again holds every row edge that leaves the marked set |
| Prim.Visited | spanningtree/prim.c:138-158 | The first half of an iteration leaves no edge pending and the weight equal to that of the tree, also when the edge is stale and skipped |
| Prim.Advanced | spanningtree/prim.c:160-170 | The second half makes a lightest edge pending or finds the tree finished |
| Prim.SquareIsRoomy | spanningtree/prim.c:131 | n * n slots hold the entries of all rows |
| FancyDb.NeverSilentlyStale | stats/storageutils/fancydb.py:249-276 | In every state of every interleaving, cascaded rules included, a bucket that is not pending, queued, taken or in evaluation is up to date exactly when it is empty or its last evaluation saw a reading with the same result, in particular if the entry at its end is as last seen |
| FancyDb.InteriorNeverStale | stats/storageutils/fancydb.py:249-276 | Without a source entry exactly on its end, a bucket is always due, in hand or up to date |
| FancyDb.UpToDateAfterClose | stats/storageutils/fancydb.py:292-297 | Once the evaluator has ended every bucket without an entry on its end is up to date |
| FancyDb.NothingLeftBehind | stats/storageutils/fancydb.py:51-68 | The evaluator ends only when closing, with nothing to notify, queued or being worked on |
| FancyDb.EmptyStoreStarts | stats/storageutils/fancydb.py:279-290 | Runs may start from the empty store; they may start from any store whose evaluations are not behind |
| FancySchedules.UpToDateAfterCloseExactly | stats/storageutils/fancydb.py:292-297 | For rules that do not listen to derived rows and from any stored contents: after every run with given Sets and Close, a bucket is up to date exactly when the Sets settle it, that is when every reading of it that was possible since the last Set inside it has the same result as the last one |
| FancySchedules.UpToDateExactly | stats/storageutils/fancydb.py:51-90 | The same for any rules in every state in which the bucket is neither due nor in hand |
| FancyRuns.SettledIsUpToDate | stats/storageutils/fancydb.py:249-276 | Where the Sets settle a bucket it is up to date in every such state of every run |
| FancySchedules.StaleRun | stats/storageutils/fancydb.py:219-223 | Where they do not, some run leaves it stale |
| FancySchedules.StaleAfterClose | stats/storageutils/fancydb.py:292-297 | Without cascades that run goes on to the end of Close |
| FancyRuns.EndCoveredSettles | stats/storageutils/fancydb.py:219-223 | Sets exactly at the end of a bucket do no harm when a later Set lies inside it |
| FancySchedules.EndGoesUnnoticed | stats/storageutils/fancydb.py:155-156 | With the LAST rule: a run to the end of Close in which an entry exactly on a bucket's end leaves that bucket's derived entry stale |
| FancyRuns.TracedStep | stats/storageutils/fancydb.py:51-90 | Every step keeps: unless a bucket is due, what has been read of it is what it held after some of the Sets since the last one inside it, and its derived entry is the result of such a reading |
| FancySchedules.Finish | stats/storageutils/fancydb.py:292-297 | From any state without a Set in progress Close ends, with everything worked off |
| FancyDb.StepKeeps | stats/storageutils/fancydb.py:51-90 | Every step of writer and evaluator keeps the invariant |
| FancyDb.RunInv | stats/storageutils/fancydb.py:51-90 | The invariant holds in every state of every run |
| FancyDb.WriterSetKeeps | stats/storageutils/fancydb.py:330-341 | Storing an entry makes every bucket it belongs to due before it can count as up to date |
| FancyDb.PickKeeps | stats/storageutils/fancydb.py:77-82 | Picking a notification puts its bucket in hand |
| FancyDb.ScanEntryKeeps | stats/storageutils/fancydb.py:260-271 | What has been read of a bucket agrees with the store as long as the bucket is not due again |
| FancyDb.StoreResultKeeps | stats/storageutils/fancydb.py:273-276 | The stored result is the rule's function of the entries read; rules listening on derived rows are notified |
| FancyDb.HistoryKept | stats/storageutils/fancydb.py:260-276 | What evaluations have read stays stored, and a bucket never evaluated on entries has no derived entry |
| FancyDb.WriteElsewhere | stats/storageutils/fancydb.py:219-223 | An entry changes the reading of a bucket that is not notified only at the bucket's end |
| FancyDb.BucketOf | stats/storageutils/fancydb.py:219-223 | The bucket of a timestamp in microseconds starts at the multiple of 1000000 times the steps at or before it |
| FancyDb.SameQuotient | stats/storageutils/fancydb.py:219-223 | Two timestamps share a bucket exactly when their quotients by 1000000 times the steps agree |
| FancyDb.SetNotifies | stats/storageutils/fancydb.py:210-217 | A Set notifies exactly the rules on its row, each for the multiple of its bucket length at or before the timestamp |
| FancyDb.StoredAtNext | stats/storageutils/fancydb.py:269-272 | The evaluation of the bucket of a timestamp stores the rule's function of what it read at the next multiple |
| FancyDb.DerivedRow | stats/storageutils/fancydb.py:245-272 | After Close, in every run: a derived row has an entry exactly at those multiples of its bucket length before which the source row has entries in the bucket, and it is the rule's function of them, wherever the source row has no entry exactly there |
| FancyDb.RunDerives | stats/storageutils/fancydb.py:269-272 | In every run the entries of derived rows lie on multiples of the bucket length |
| FancyDb.BucketHolds | stats/storageutils/fancydb.py:219-223 | A timestamp lies in its half-open bucket, which starts at a multiple of the period |
| FancyDb.SameBucket | stats/storageutils/fancydb.py:92-104 | Two buckets of a rule that share an instant are the same, so notifications can be told apart by their start |
| FancyDb.Listeners | stats/storageutils/fancydb.py:340-341 | A stored entry notifies exactly the rules on its row, each for the bucket of the timestamp |
| RowKeys.KeyRoundTrip | stats/storageutils/simpledb.py:39-43 | Encoding and decoding of keys are inverse to each other in both directions |
| RowKeys.KeyBytes | stats/storageutils/simpledb.py:25-43 | The bytes of a key: the row, 0xFF, and eight bytes that in base 256 read 2^63 less the timestamp; keys exist for the timestamps above -2^63 up to 2^63 |
| RowKeys.RoundTrip64 | stats/storageutils/simpledb.py:33-37 | Packing and unpacking of 64-bit numbers are inverse to each other |
| RowKeys.LessIsLess | stats/storageutils/simpledb.py:32-34 | Byte-wise order of packed numbers is their numeric order |
| RowKeys.DistinctRows | stats/storageutils/simpledb.py:177-183 | Keys of distinct 0xFF-free rows are ordered by the terminated row names alone |
| RowKeys.SameRow | stats/storageutils/simpledb.py:177-183 | Keys of one row are ordered by strictly descending timestamp |
| RowKeys.Contiguous | stats/storageutils/simpledb.py:177-183 | No key of another 0xFF-free row lies between two keys of a 0xFF-free row |
| SimpleDb.Seek | stats/storageutils/simpledb.py:277-285 | The cursor finds the least stored key at or after (or strictly after) a key, or that there is none |
| SimpleDb.SimpleDB.Set | stats/storageutils/simpledb.py:230-236 | Afterwards exactly this row and time has the value and every other is as before; a timestamp that cannot be packed is refused |
| SimpleDb.SimpleDB.Delete | stats/storageutils/simpledb.py:238-242 | Afterwards exactly this row and time is missing; deleting what is not there is an error |
| SimpleDb.SimpleDB.ItemIterator | stats/storageutils/simpledb.py:263-307 | Yields in key order exactly the entries from the start key on up to the first that is older than the lesser bound |
| SimpleDb.SimpleDB.RowItems | stats/storageutils/simpledb.py:313-320 | Yields the part of such a scan before the first entry of another row |
| SimpleDb.SimpleDB.ItemIteratorByRows | stats/storageutils/simpledb.py:309-320 | For 0xFF-free stores, each non-empty 0xFF-free row contributes in turn exactly its stored entries between the two bounds inclusive, newest first |
| SimpleDb.SimpleDB.GetNewest | stats/storageutils/simpledb.py:249-261 | In any store the result is the first entry from the row's start key on if it is of the row and no older than 0; where rows are free of 0xFF that is the entry with the greatest timestamp from 0 on, and the row is reported missing exactly when there is none |
| SimpleDb.ScanStarts | stats/storageutils/simpledb.py:277-295 | A scan starts at the first key from its start on, if that is no older than its end |
| SimpleDb.RowPartKeys | stats/storageutils/simpledb.py:309-320 | A key is in the row part of a scan exactly when it is stored, of the row and between the bounds |
| SimpleDb.RowPartIsFilter | stats/storageutils/simpledb.py:309-320 | The row part of a scan agrees with a filter of the store |
| SimpleDb.ReadingStep | stats/storageutils/simpledb.py:286-305 | One cursor step keeps the keys read so far the beginning of the scan, and leaves fewer keys |
| PacketAssembler.EventsAreLocal | moused-vscroll/moused.c:1724-1837 | From the fourth byte of any stream on, whatever the buffer held, a packet is reported exactly where header, data, data end, and an extra byte exactly where a valid one follows |
| PacketAssembler.StreamReported | moused-vscroll/moused.c:1724-1837 | From any buffer contents a stream of well-formed packets is reported packet by packet, extra bytes included |
| PacketAssembler.Assembler.Receive | moused-vscroll/moused.c:1724-1837 | One byte changes the buffer and is reported as the specification of the framing says; the index never exceeds the packet size |
| PacketAssembler.Feed | moused-vscroll/moused.c:1724-1837 | Feeding a stream causes the events of its bytes in order; for a mouse of the Microsoft family a stream of the packets it sends, given by byte values, is reported packet by packet whatever the buffer held |
| PacketAssembler.RowBytes | moused-vscroll/moused.c:1240-1257 | By value: headers are 0x40-0x7f and 0xc0-0xff, data 0x00-0x3f and 0x81-0xbf; the fourth byte is 0x00-0x03 or 0x20-0x23, on MouseMan also 0x10-0x13 or 0x30-0x33, on IntelliMouse anything below 0x40 |
| PacketAssembler.SendsWellFormed | moused-vscroll/moused.c:1240-1257 | What a mouse sends by byte values is exactly what its row of the table accepts |
| PacketAssembler.EventsAreReports | moused-vscroll/moused.c:1724-1837 | The events of a stream are those that its bytes cause one by one |
| PacketAssembler.FamilySynchronises | moused-vscroll/moused.c:1240-1257 | In the Microsoft-family rows no byte is both header and data, and 0x80 alone is neither |
| PacketAssembler.HeldBytes | moused-vscroll/moused.c:1724-1837 | What is held is always the last bytes of the stream, a packet begun, or what was held at first followed by everything since |
| PacketAssembler.InitialGone | moused-vscroll/moused.c:1724-1730 | After three bytes nothing of the initial buffer is left |
| ThreeButton.Emulator.Transition | moused-vscroll/moused.c:2149-2203 | One call moves state and delay counter as the specification says, drops the movement exactly when it is delayed, and reports a change exactly when the state changed or a timeout was forced |
| ThreeButton.ReportsExactly | moused-vscroll/moused.c:439-465 | In every run, from the history of inputs alone: button 1, likewise 3, is reported exactly when it has been held until a timeout without a chord since all were up, or right after the release of a press held back; button 2 exactly while both are down in a chord; and the counter is the number of movements dropped in a row |
| ThreeButton.ChordSilences | moused-vscroll/moused.c:449-464 | Once the chord has been entered neither outer button is reported until all buttons are up |
| ThreeButton.RunState | moused-vscroll/moused.c:2149-2203 | The state after any run is the one that its history, with the timeouts forced by the fourth movement, leads to |
| ThreeButton.StateOfNext | moused-vscroll/moused.c:439-465 | One more input moves the state of a history as the table says |
| ThreeButton.StateMatchesInput | moused-vscroll/moused.c:439-465 | In every run the state matches the last physical input, and button 2 is reported exactly in the chord state |
| ThreeButton.ChordEntered | moused-vscroll/moused.c:439-465 | Without a forced timeout the chord state is entered exactly by both buttons while neither is reported on its own |
| ThreeButton.AllUpRests | moused-vscroll/moused.c:439-465 | Two all-up inputs, with any timeouts around them, lead from any state back to rest |
| ThreeButton.DiscardsCounted | moused-vscroll/moused.c:2174-2184 | The counter is at most three and counts the movements dropped in a row |
| ThreeButton.AtMostThreeDiscarded | moused-vscroll/moused.c:2174-2184 | Of four events in a row at most three lose their movement |
| ThreeButton.ClickReported | moused-vscroll/moused.c:2149-2203 | A lone press and release of button 1 or 3 is reported down at least once, except exactly when the button is still delayed and the release comes with the fourth delayed movement |
| ThreeButton.LostClick | moused-vscroll/moused.c:2174-2189 | A lone click that is never reported |
| ThreeButton.Holding | moused-vscroll/moused.c:439-465 | While an outer button alone is held it is either still delayed or reported |
| GrokExpansion.GrokRegex.RecursiveGenerateRegex | cppgrok/grokregex.hpp:146-258 | Terminates and appends exactly the numbered pieces of the recursive substitution, each added group opened and closed under the counter's value at its opening, and raises the counter by the number of groups |
| GrokExpansion.GrokRegex.AppendToken | cppgrok/grokregex.hpp:178-244 | One token: text as it stands, an unknown reference as %name%, a known one as its expansion in one group numbered by the raised counter |
| GrokExpansion.GrokRegex.GenerateRegex | cppgrok/grokregex.hpp:122-143 | On every acyclic pattern set the generated text is that of its pieces, whose groups are balanced and numbered in the order in which they open, from 1 to the final value of the counter |
| GrokExpansion.RankExists | cppgrok/grokregex.hpp:140-141 | A pattern set can be ranked, so that the recursion ends, exactly when no pattern refers to itself, directly or through others |
| GrokExpansion.AnyOrder | cppgrok/grokregex.hpp:146-258 | Substituting known references one at a time in whatever order until none is left gives the generated text; unknown references stay as %name% |
| GrokExpansion.SubstitutionKeeps | cppgrok/grokregex.hpp:185-248 | Substituting one known reference by its body in a group does not change the expansion |
| GrokExpansion.GroupsBalanced | cppgrok/grokregex.hpp:190-236 | The added groups are balanced, each closed where its reference ends, and numbered in the order in which they open |
| GrokExpansion.PiecesRender | cppgrok/grokregex.hpp:197-236 | The numbered pieces say the generated text |
| GrokExpansion.NothingToExpand | cppgrok/grokregex.hpp:238-243 | A pattern without known references expands to its own text |
| LineReader.FileObserver.ReadLinesFromInput | cppgrok/fileobserver.hpp:237-304 | Over all calls, the lines given out on each descriptor and the saved remainder are the split of everything received there at newlines; reading stops exactly at the end of input or over the limit, and other descriptors are untouched |
| LineReader.ChunkingIrrelevant | cppgrok/fileobserver.hpp:237-304 | Two observers that received the same stream, in whatever reads and calls, gave out the same lines and saved the same remainder |
| LineReader.SplitUnique | cppgrok/fileobserver.hpp:286-300 | A text splits into newline-free lines and remainder in one way only |
| LineReader.SplitContinues | cppgrok/fileobserver.hpp:241-300 | Splitting the remainder with more text continues the split of the whole |
| LineReader.Cut | cppgrok/fileobserver.hpp:286-300 | The lines found and the remainder are the split of the buffer, also when the unsigned size wraps around on an empty buffer |
| LineReader.FileObserver.Fill | cppgrok/fileobserver.hpp:253-283 | Reads until the descriptor is not ready, the input ends or the buffer exceeds its limit |
| LineReader.AllReceived | cppgrok/fileobserver.hpp:271-277 | Nothing delivered is lost exactly when it contains no NUL |
| CueCat.Decoder.ProcessCode | cuecat/decode.c:139-163 | An encoding of at most 60 bytes without zero leaves exactly these bytes in the buffer, nothing carried and the input after the dot |
| CueCat.Decoder.DecodeCat | cuecat/decode.c:187-255 | Four codes encoded one after the other are decoded to header, device, type and barcode |
| CueCat.Decoder.FourEncoded | cuecat/decode.c:187-255 | Four encodings in a row are an input of that kind |
| CueCat.Decoder.EncodedInput | cuecat/decode.c:37-59 | Reading translates an encoding in the input back into the digits of the alphabet |
| CueCat.Decoder.GetByte | cuecat/decode.c:83-127 | For any characters: combines the carry with the value of one character, or of two, into a byte and the next carry, consuming digits only; at the end of a code with nothing carried there is no byte |
| CueCat.Decoder.Get64 | cuecat/decode.c:61-81 | The value of a digit, which is consumed; anything else counts zero and stays |
| CueCat.Decoder.PrintNext | cuecat/decode.c:149-156 | In step with an encoding, appends the next data byte |
| CueCat.Decoder.PrintCode | cuecat/decode.c:165-185 | In the buffer of 80 the string grows by a byte other than zero while it is shorter than 78, and always keeps a terminator |
| CueCat.Decoder.FirstOfThree | cuecat/decode.c:98-105 | Where a group of three bytes starts the two digits read are those encoded, and give byte and carry |
| CueCat.Decoder.OtherOfThree | cuecat/decode.c:106-121 | The same for the other two bytes of a group |
| CueCat.Rebuilt | cuecat/decode.c:96-122 | The carry and the next digits give back the byte that was encoded |
| CueCat.XorIsXor | cuecat/decode.c:29 | On every byte the arithmetic is the exclusive or with the letter C |
| CueCat.XorTwice | cuecat/decode.c:29 | XORing with the constant twice gives the byte back |
| CueCat.WireDigits | cuecat/decode.c:37-70 | The value of every character on the wire: letters 0 to 51, figures 52 to 61, plus or comma 62, slash or minus 63, and nothing else is a digit |
| CueCat.LetterScanned | cuecat/decode.c:83-127 | The code iq. is that of the letter b |
| TaskPool.Batch | dxargs/dxargs.py:311-335 | Whenever it ends: the argument lists concatenate to the input tokens, all but the last have exactly n arguments, none is empty, and numbers are consecutive |
| TaskPool.NeverEnds | dxargs/dxargs.py:321 | The test of the inner loop holds of all tokens, so that it never ends, exactly for batch sizes below 1 |
| TaskPool.BatchesUnique | dxargs/dxargs.py:311-335 | There is one such batching only |
| TaskPool.Split | dxargs/dxargs.py:321-325 | Full batches are split off until fewer than n tokens are left, losing none |
| TaskPool.Completion | dxargs/dxargs.py:41-68 | Wherever a run of the pool can go no further, every worker has stopped and been joined and every job was taken by one worker, in order, and returned once |
| TaskPool.NoDeadlock | dxargs/dxargs.py:117-133 | With at least one worker some event is possible as long as anything is left to do |
| TaskPool.RunsAreBounded | dxargs/dxargs.py:117-133 | Every step does one unit of the work, so no run is longer than three times jobs plus workers |
| TaskPool.StopsComeLast | dxargs/dxargs.py:62-64 | When any worker has stopped every job has been taken |
| TaskPool.RunInv | dxargs/dxargs.py:41-68 | In every state of every interleaving the queue, the workers and the log of takers agree |
| TaskPool.StepKeeps | dxargs/dxargs.py:117-133 | Every step keeps that invariant |
| TaskPool.NobodyWorks | dxargs/dxargs.py:41-51 | Without workers nothing is ever run |
| FifoCache.Transparent | stats/storageutils/cache.py:57-64 | Every memoized call in every run answers as the direct call does exactly when calls with one key have one outcome and keywords are idle for unhashable arguments |
| FifoCache.ReplyExactly | stats/storageutils/cache.py:57-64 | Every call in every run, for any function: answered with the value stored under its key when that is among the last insertions that fit, else directly, without keywords where the arguments are unhashable |
| FifoCache.StoredPairs | stats/storageutils/cache.py:19-32 | The dictionary holds exactly the last insertions that fit, in order |
| FifoCache.PositionalTransparent | stats/storageutils/cache.py:57-64 | In runs without keywords memoizing is transparent for any function that gives equal arguments equal outcomes |
| FifoCache.KeywordsForgotten | stats/storageutils/cache.py:59-61 | Of two calls with the same hashable arguments the second is answered with the first one's value, whatever the keywords |
| FifoCache.HoldsMostRecent | stats/storageutils/cache.py:19-32 | Whatever the cache held before, a run of assignments leaves exactly the most recent of its keys and insertions, as many as its size allows, in order |
| FifoCache.KeysInOrder | stats/storageutils/cache.py:19-32 | In every run of assignments and deletions the key list is in the order in which its keys were added |
| FifoCache.OldestLeaves | stats/storageutils/cache.py:29-32 | An assignment pushes a key out only if its own key is new and the cache full, and then the one added before all others |
| FifoCache.HoldsLatest | stats/storageutils/cache.py:19-27 | In every run of assignments and deletions each key held has the value last stored under it and not deleted since |
| FifoCache.AfterConsistent | stats/storageutils/cache.py:19-32 | In every run of assignments and deletions the key list is free of duplicates, is the dictionary's key set and respects the size |
| FifoCache.StoredGenuine | stats/storageutils/cache.py:57-64 | Every entry of a memoizer is the value of some call with its key |
| FifoCache.NoRoom | stats/storageutils/cache.py:31-32 | With size 0 or less a hashable call that should return raises KeyError instead |
| FifoCache.Cache.SetItem | stats/storageutils/cache.py:19-22 | Keeps the cache consistent and makes its contents those of the specification; KeyError exactly for a new key without room |
| FifoCache.Cache.AddKey | stats/storageutils/cache.py:29-32 | Appends the key and pushes out the oldest key and its entry when there are too many |
| FifoCache.Cache.DelItem | stats/storageutils/cache.py:24-27 | Removes the key from list and dictionary; KeyError and no change when it is missing |
| FifoCache.Memoize.Invoke | stats/storageutils/cache.py:57-64 | Answers and changes the cache as the specification of a memoized call says |

## Left out

- `KruskalRuns.KruskalQuicksort`: needs as many entries as vertices less one, for which graph generation provides and without which the bitmaps are too short. Of several equally heavy edges only the one left last is followed through the sort.
- `Prim.PrimAdjMatrix`: which of several lightest edges is counted, and with it the weight where not every edge is returned, is fixed by the heap's operations one by one but not stated of the whole run.
- `FancySchedules.UpToDateAfterCloseExactly`: rules that do not listen to derived rows; where they do, evaluations may go on for ever and Close never return, and `FancySchedules.UpToDateExactly` holds without the end of Close.
- `GrokExpansion.GrokRegex.GenerateRegex`: acyclic pattern sets; on a cycle the program recurses without end.
- countsort (spanningtree/kruskal.c:41-102): its placement loop decrements the count of the edge after the one it placed, so a slot of the result stays unwritten; not modelled as a sort.
- Memory management in spanningtree: arrays are garbage collected, the byte written past the bitmap at kruskal.c:234 is ignored, and Prim's bitmap (prim.c:129, 187) has a zeroed bit for every vertex.
- prim_adjlist (prim.c:176-245): the same loop over copied rows; its end marker is written one place past the row.
- The heap checks its count before it reads slot 1 (prim.c:64-66 read the slot first); heap slots hold edges, not addresses of edges, so the freeing of edges is not captured.
- The width of C integers: weights and their sums are unbounded.
- Random graph generation, printing and timing; the guard of ten vertices on printing (kruskal.c:270) and the random start of Prim, which is a parameter.
- Berkeley DB, pickling, files and environments: the B-tree is a map read through Seek, whose search stands for the library's cursor.
- Generators run to their end: iterators return whole sequences, so changes of the store between two entries are modelled in FancyDb only.
- The key database (encode_keys), DeleteRow, FetchAggregate and float timestamps of simpledb.
- The numpy functions of rules: each is an uninterpreted function of the entries read; values are real numbers.
- Rules that count steps: the original refuses them.
- FancyDb and TaskPool are state machines over values, not classes: what matters there is the interleaving of threads, and updates in place within one lock-protected section are one step. There is one writer thread, it writes no derived row, and it deletes nothing (deleting notifies no rule).
- Crashes, exceptions in rule functions, failing jobs, ssh sessions and output locking.
- moused: devices, acceleration, virtual scrolling, the decoding of packets into movement and buttons, protocols without resynchronisation; the clock of r_timeout is a timeout event that may come at any time. The mask column of the states table has no effect, since the three buttons are cleared first.
- Regular-expression matching, predicates and named sub-expressions of grok: patterns come already split into text and references, and only the generated string and the counter are modelled.
- Line reading: select and fgets are a list of reads that are ready. A descriptor number that is reused keeps its saved remainder, as in the original, and an unfinished last line is never given out.
- CueCat: printing, the translation of barcodes of type CC, and reading beyond the terminator of the input.
- Memoized functions are deterministic and without side effects; what they raise is passed on and not stored.
