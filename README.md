# Percolation shortest-path engines, modelled in Dafny

The percolation simulator grows a random subgraph of a diamond-shaped square
lattice of radius r (vs = r² + (r+1)² vertices). It reports, threshold by
threshold, how many hops separate every vertex from the root at the origin.
Each edge carries a threshold `epn`, drawn once per run from `[0, div]`. The
edge is on while `epn <= pn`, and the current threshold `pn` only rises
(`from`, `from + step`, …).

This project models the core of that simulator:

- **`Graph`** (graph.dfy, with pure geometry in lattice.dfy) is a class over
  `array2` tables:
  - the coordinate map `ax` and its inverse `xy`;
  - the neighbour table `next` (-1 at the border);
  - the threshold table `epn`, whose L/U slots mirror the R/D slots of the
    neighbour (MAX_VALUE marks a slot without an edge);
  - `pn`;
  - `findGreater`, a resumable binary search over an index array sorted by
    threshold.
- **`IntQueue`** (intqueue.dfy) is a FIFO over a fixed array with `start` and
  `end` cursors and no wrap-around.
- **`BFS`** (bfs.dfy) resets the distances and relaxes outward from the root
  over the edges that are on.
- **`IBFS`** (ibfs.dfy) is the incremental engine:
  - it keeps `se[R]` and `se[D]`, the vertices sorted by threshold, with two
    cursors `sei`;
  - at each later threshold it queues the ends of the edges just turned on,
    sorts them by distance and sweeps a BFS from each.
- **`ProbFormatter`** (probformatter.dfy) chooses the precision of the
  printed percentages and formats a threshold.
- auxoverflow.dfy shows that the auxiliary queue IBFS allocates is too small
  for one update on the smallest lattice (see "Findings").

The correctness argument lives on the value `Net` (graph.dfy), which holds
the threshold and neighbour tables as sequences. paths.dfy defines `Reach`
(reached from the root within k hops over edges that are on) and
`IsShortest` (every entry is the hop distance, or MAX_VALUE for vertices that
cannot be reached). The BFS drain is proved as a label-correcting loop:

- `Sound`: every finite entry is backed by a walk;
- `ClosedExcept(pending)`: every edge that is on is relaxed except out of
  pending vertices;
- the FIFO frontier, whose layer order bounds the queue by vs.

Once nothing is pending, `ShortestFromClosed` turns Sound and Closed into
IsShortest. IBFS reuses the same tools:

- shortest distances at the old threshold stay sound at the new one;
- they are closed except at the ends of the newly activated edges
  (activation.dfy);
- those ends are exactly what `enqueueActivated` queues;
- the cursors split each sorted `se` at the threshold.

The proof does not need the distance order that IBFS sorts its auxiliary
queue into: any order of the seeds reaches the same distances. The model
still sorts, as the code does, and proves what the sort promises.

Java's arithmetic is written out wherever it matters:

- the truncating `%` in the neighbour offsets and in the down-slot test;
- `/` and `%` in the coordinate map;
- 32-bit `int` and 64-bit `long` wrap-around in the formatter.

Random draws, fastutil's indirect sort, logging and console output are
modelled as described under "Left out".

## Model

| member | source | states |
|---|---|---|
| Lattice.Nb | src/main/java/percolation/Graph.java:175-180 | a neighbour entry is a vertex id when the vertex is not at the border in that direction, and -1 at the border |
| Lattice.OffsetsAgree | src/main/java/percolation/Graph.java:178 | the offsets `-(dir-1)%2` and `-(2-dir)%2`, with Java's truncating `%`, are the unit steps (+1,0), (0,-1), (-1,0), (0,+1) of R, D, L, U |
| Lattice.NotAtStaysInside | src/main/java/percolation/Graph.java:145-153 | a step that isNotAt allows keeps the vertex inside the diamond \|x\|+\|y\| <= r |
| Lattice.NotAtBack | src/main/java/percolation/Graph.java:145-153 | after a step allowed in direction d, the opposite direction is allowed and undoes it |
| Lattice.PartIs | src/main/java/percolation/Graph.java:45-47 | `isInner = vid / outer` is 0 on the first (r+1)² ids and 1 on the rest, and the index within the grid is non-negative |
| Lattice.QuotRem | src/main/java/percolation/Graph.java:49 | quotient and remainder by repeated subtraction are Java's `/` and `%` on non-negative operands, and they split the dividend |
| Lattice.JavaCoords | src/main/java/percolation/Graph.java:44-52 | the coordinates computed with Java's `/` and `%` are X and Y of the model |
| Lattice.Decompose | src/main/java/percolation/Graph.java:45-49 | every id is a row and column of its grid, with r+1 columns in the outer grid and r in the inner one |
| Lattice.VidAtXY | src/main/java/percolation/Graph.java:44-54 | every vertex lies in the diamond \|x\|+\|y\| <= r, and the point-to-id map sends its coordinates back to it |
| Lattice.XYVidAt | src/main/java/percolation/Graph.java:133-135 | every point of the diamond is the position of a vertex id, so vid(x, y) is defined on the whole diamond and inverts (x, y) |
| Lattice.VidAtInjective | src/main/java/percolation/Graph.java:44-54 | different points of the diamond get different ids |
| Lattice.CoordsDistinct | src/main/java/percolation/Graph.java:44-54 | different ids sit at different points |
| Lattice.RootAtOrigin | src/main/java/percolation/Graph.java:61 | `root = vid(0, 0)` is a vertex and sits at the origin |
| Lattice.NbSpec | src/main/java/percolation/Graph.java:175-180 | next(v, d) is -1 exactly when isNotAt(d, v) is false; otherwise it is the vertex at (x+1,y), (x,y-1), (x-1,y) or (x,y+1) for R, D, L, U |
| Lattice.NbBack | src/main/java/percolation/Graph.java:175-180 | stepping in d and then in the opposite direction returns to the start |
| Lattice.NbDistinct | src/main/java/percolation/Graph.java:175-180 | the neighbours of a vertex in two different directions are different, and none is the vertex itself |
| Graphs.OpenR | src/main/java/percolation/Graph.java:65 | a right slot can hold an edge exactly when the vertex is not at the right border |
| Graphs.OpenD | src/main/java/percolation/Graph.java:66 | a down slot can hold an edge exactly when the vertex is not at the lower border and x+y is a multiple of skip+1 |
| Graphs.JRemZero | src/main/java/percolation/Graph.java:66 | Java's `(x+y) % (skip+1) == 0` holds exactly for multiples, including negative x+y |
| Graphs.CoordsOf | src/main/java/percolation/Graph.java:45-52 | one iteration of the coordinate loop yields X and Y of the vertex |
| Graphs.InitXy | src/main/java/percolation/Graph.java:159-173 | afterwards ax holds every vertex's coordinates and xy holds at each point of the diamond the vertex there; points outside are untouched |
| Graphs.PlaceVertex | src/main/java/percolation/Graph.java:161-171 | one iteration stores vid's coordinates and puts vid at its point, keeping what the earlier iterations stored |
| Graphs.XyFromCoords | src/main/java/percolation/Graph.java:170 | once every vertex is stored at its own point, xy inverts the coordinate map on the whole diamond |
| Graphs.InitDirCacheVars | src/main/java/percolation/Graph.java:175-180 | the row of the neighbour table for dir holds the neighbour of every vertex, or -1 at the border, and the other rows are unchanged |
| Graphs.LinkVertex | src/main/java/percolation/Graph.java:177-178 | the lookup `xy[x + r - off][y + r - off]` is the neighbour of vid in direction dir and changes only that entry |
| Graphs.MarkSlots | src/main/java/percolation/Graph.java:64-67 | epn[R][v] is INIT iff the right slot can hold an edge and MAX_VALUE otherwise; the same for epn[D][v] with the skip test |
| Graphs.DrawSlots | src/main/java/percolation/Graph.java:122-125 | every right/down slot that is not MAX_VALUE takes the next draw in id order (right before down), so it lies in [0, div]; MAX_VALUE slots stay; L/U rows are untouched |
| Graphs.CopyLeftUp | src/main/java/percolation/Graph.java:70-73 | every left/up slot copies the right/down slot of its neighbour, or is MAX_VALUE at the border; R/D rows are untouched |
| Graphs.DrawnThresholds | src/main/java/percolation/Graph.java:127-130 | after drawing and copying, the threshold tables are MAX_VALUE exactly where there is no edge and the L/U slots mirror their neighbours |
| Graphs.BuildTables | src/main/java/percolation/Graph.java:40-59 | the constructor's coordinate and neighbour tables are fresh and agree with the lattice geometry |
| Graphs.Graph.constructor | src/main/java/percolation/Graph.java:32-74 | the graph is valid, vs = r²+(r+1)², root is the origin vertex, and the R/D slots are INIT exactly where an edge can be |
| Graphs.Graph.Init | src/main/java/percolation/Graph.java:115-131 | pn becomes from, every R/D slot with an edge holds its draw, the MAX_VALUE slots stay, and the graph stays valid (mirrored L/U slots) |
| Graphs.Graph.Vid | src/main/java/percolation/Graph.java:133-135 | on the diamond, vid(x, y) is the vertex at (x, y) |
| Graphs.Graph.Update | src/main/java/percolation/Graph.java:137-139 | update(pn) sets pn and changes nothing else |
| Graphs.Graph.Have | src/main/java/percolation/Graph.java:141-143 | have(d, v) means epn[d][v] <= pn; when pn < MAX_VALUE an enabled slot is not at the border and next(v, d) != -1 |
| Graphs.Graph.IsEdgeEnabled | src/main/java/percolation/Graph.java:197-199 | isEdgeEnabled(v, d) holds iff epn[d][v] <= pn; on linked tables with pn < MAX_VALUE an enabled slot leads to another vertex, so next(v, d) is a valid index for the caller |
| Graphs.Graph.EnabledIsHave | src/main/java/percolation/Graph.java:197-199 | isEdgeEnabled(v, d) and have(d, v) agree, and an enabled slot leads to a vertex |
| Graphs.Graph.IsNotAtDir | src/main/java/percolation/Graph.java:145-153 | isNotAt on the coordinate table is the border test of the lattice at the vertex's point |
| Graphs.Graph.Next | src/main/java/percolation/Graph.java:155-157 | on linked tables a slot with an edge leads to another vertex |
| Graphs.Graph.NextSpec | src/main/java/percolation/Graph.java:155-157 | next(v, d) is -1 exactly when isNotAt(d, v) fails, and otherwise the vertex one step away in direction d |
| Graphs.Graph.GetX | src/main/java/percolation/Graph.java:201-203 | x(v) is the vertex's x coordinate, inside the diamond, and vid(x(v), y(v)) == v |
| Graphs.Graph.GetY | src/main/java/percolation/Graph.java:205-207 | y(v) is the vertex's y coordinate, inside the diamond, and vid(x(v), y(v)) == v |
| Graphs.Graph.Dir | src/main/java/percolation/Graph.java:182-187 | the result is the first direction whose neighbour is dst; it is None (the source throws) exactly when no direction leads to dst |
| Graphs.Graph.FirstAbove | src/main/java/percolation/Graph.java:209-224 | the reference answer of findGreater lies between the start position and the length |
| Graphs.Graph.FirstAboveSpec | src/main/java/percolation/Graph.java:209-224 | the reference answer is the least position >= from whose threshold exceeds val, or the length if there is none |
| Graphs.Graph.FirstAboveIs | src/main/java/percolation/Graph.java:209-224 | conversely, any position with that property is the reference answer |
| Graphs.Graph.FirstAboveSorted | src/main/java/percolation/Graph.java:209-224 | on a sorted array, every position from the answer on has a threshold above val |
| Graphs.Graph.FirstAboveSuffix | src/main/java/percolation/Graph.java:209-224 | the answer depends only on the positions from `from` on, which findGreater never reads before |
| Graphs.Graph.FindGreater | src/main/java/percolation/Graph.java:209-224 | the binary search on a non-empty array sorted by threshold returns the least i >= from with i == length or epn(a[i]) > val |
| Graphs.Graph.EdgeSymmetric | src/main/java/percolation/Graph.java:70-73 | after construction and init, the slot of v in direction d and the opposite slot of its neighbour hold the same threshold |
| Graphs.Graph.EnabledHasNeighbour | src/main/java/percolation/Graph.java:197-199 | when pn < MAX_VALUE, a slot that is on is never at the border |
| Graphs.Graph.BorderIsMax | src/main/java/percolation/Graph.java:64-73 | every slot across the border holds MAX_VALUE |
| Graphs.Graph.TableEdge | src/main/java/percolation/Graph.java:70-73 | an enabled slot leads to a vertex whose opposite slot leads back with the same threshold |
| Graphs.Graph.TableDistinct | src/main/java/percolation/Graph.java:175-180 | two enabled slots of one vertex lead to two different vertices, neither of them the vertex |
| Graphs.Graph.RootIsOrigin | src/main/java/percolation/Graph.java:61 | root is a vertex at the origin and vid(0, 0) == root |
| Queues.IntQueue.constructor | src/main/java/percolation/util/IntQueue.java:15-20 | the queue wraps the given array, both cursors at 0, empty |
| Queues.IntQueue.Dequeue | src/main/java/percolation/util/IntQueue.java:23-25 | returns the oldest live element and drops it; only start moves |
| Queues.IntQueue.Enqueue | src/main/java/percolation/util/IntQueue.java:28-30 | appends x; the array changes only at the old end, and only end moves, by 1 |
| Queues.IntQueue.EnqueuePair | src/main/java/percolation/util/IntQueue.java:33-36 | appends x then y; only a[end] and a[end+1] change and end moves by 2 |
| Queues.IntQueue.First | src/main/java/percolation/util/IntQueue.java:39-41 | the oldest live element |
| Queues.IntQueue.Last | src/main/java/percolation/util/IntQueue.java:44-46 | the newest live element |
| Queues.IntQueue.Clear | src/main/java/percolation/util/IntQueue.java:49-51 | both cursors return to 0, size 0, and the array is untouched |
| Queues.IntQueue.Size | src/main/java/percolation/util/IntQueue.java:69-71 | end - start is the number of live elements |
| Queues.FifoOrder | src/test/java/percolation/IntQueueTest.java:17-23 | enqueue 3, 1, 2 and then three dequeues give 3, 1, 2 and size 0 |
| Queues.FirstAndLast | src/test/java/percolation/IntQueueTest.java:27-35 | after enqueue 1, 2, 3, first is 1 and last is 3; after one dequeue, first is 2 |
| Paths.Fresh | src/main/java/percolation/spts/BFS.java:41-46 | the reset distances: 0 at the root, MAX_VALUE elsewhere |
| Paths.FreshStart | src/main/java/percolation/spts/BFS.java:41-46 | the reset distances are sound at any threshold and closed everywhere except at the root |
| Paths.ReachMonoP | src/main/java/percolation/Graph.java:141-143 | raising pn only turns edges on, so whatever was reached stays reached |
| Paths.ReachStep | src/main/java/percolation/spts/BFS.java:62-68 | one more enabled edge out of a reached vertex reaches its neighbour in one more hop |
| Paths.StepIsEnabled | src/main/java/percolation/Graph.java:197-199 | on linked tables the walk step of the model is exactly isEdgeEnabled |
| Paths.ReachShort | src/main/java/percolation/spts/BFS.java:55-60 | a vertex that can be reached at all is reached within vs-1 hops, so a distance never reaches the MAX_VALUE sentinel |
| Paths.ClosedBoundsAll | src/main/java/percolation/spts/BFS.java:55-60 | under closure with the root at 0, a walk of k hops bounds a vertex's distance by k, below MAX_VALUE |
| Paths.ShortestFromClosed | src/main/java/percolation/spts/BFS.java:55-60 | sound, fully closed distances with the root at 0 are the shortest hop counts, MAX_VALUE for unreachable vertices |
| Paths.ShortestUnique | src/test/java/percolation/SPT_CompareTest.java:96-113 | two distance arrays that are both shortest at the same pn are equal, so any two correct engines agree vertex by vertex |
| Paths.ShortestMono | src/main/java/percolation/spts/IBFS.java:48-61 | the shortest distances only shrink as pn rises, which lets IBFS keep the previous ones |
| Paths.ClosedFromShortest | src/main/java/percolation/spts/IBFS.java:55-60 | the shortest distances are sound and closed everywhere, with the root at 0 |
| Paths.DistinctBound | src/main/java/percolation/spts/BFS.java:21 | a repetition-free sequence of vertex ids fits in an array of vs entries |
| Relaxation.Targets | src/main/java/percolation/spts/BFS.java:62-68 | the vertices neighbors hands to neighbor are vertex ids, one per relaxing direction |
| Relaxation.RelaxDirsSpec | src/main/java/percolation/spts/BFS.java:65-67 | each listed direction is enabled and lowers the far end's distance |
| Relaxation.RelaxDirsSorted | src/main/java/percolation/spts/BFS.java:65 | the directions are visited in increasing order |
| Relaxation.RelaxDirsHas | src/main/java/percolation/spts/BFS.java:65-67 | conversely, every enabled direction that lowers the far end is listed |
| Relaxation.NoDistNoTargets | src/main/java/percolation/spts/BFS.java:63-64 | a vertex at MAX_VALUE relaxes nothing |
| Relaxation.TargetsNext | src/main/java/percolation/spts/BFS.java:65-67 | direction k adds its far end to the targets exactly when it relaxes |
| Relaxation.NotYetTarget | src/main/java/percolation/spts/BFS.java:66 | an enabled direction leads to a vertex that the earlier directions have not handed out |
| Relaxation.RelaxDir | src/main/java/percolation/spts/BFS.java:66-67 | one direction either hands its far end to neighbor, lowering it to dists[src]+1 as one array write, or leaves everything as it was |
| Relaxation.TargetsAreRelaxing | src/main/java/percolation/spts/BFS.java:62-68 | w is a target iff some enabled direction of u leads to w with dists[u]+1 < dists[w]; a target's source has a finite distance |
| Relaxation.TargetsDistinct | src/main/java/percolation/spts/BFS.java:65-67 | neighbors never hands the same vertex, or src itself, twice |
| Relaxation.RelaxSound | src/main/java/percolation/spts/BFS.java:70-74 | every write by neighbor gives a vertex one more than a reached neighbour across an enabled edge, so the distances stay backed by walks and never rise |
| Relaxation.RelaxFrontier | src/main/java/percolation/spts/BFS.java:55-60 | the queue stays distinct and ordered by layer after a round, and the array of vs entries has room for the targets |
| Relaxation.FrontierAppend | src/main/java/percolation/spts/BFS.java:56-58 | appending distinct vertices that are further than dists[head]+1 and lowering them keeps the layer order |
| Relaxation.RelaxClosed | src/main/java/percolation/spts/BFS.java:57-58 | dequeuing a vertex and relaxing its edges closes it: what stays pending is the rest of the queue and the targets |
| Relaxation.RelaxKeeps | src/main/java/percolation/spts/BFS.java:57-58 | a round keeps soundness and the layer order, never raises a distance, and keeps the queue within vs |
| Relaxation.RelaxStep | src/main/java/percolation/spts/BFS.java:57-58 | one round of the drain loop keeps the loop invariant (sound, layered, closed except at the queue), never raises a distance, and fits the queue |
| Relaxation.QueueRoom | src/main/java/percolation/spts/BFS.java:21 | the queue of vs entries has room for the targets of its head |
| BfsSpt.Bfs.constructor | src/main/java/percolation/spts/BFS.java:20-30 | create: fresh distance and queue arrays of vs entries, the queue empty |
| BfsSpt.Bfs.Init | src/main/java/percolation/spts/BFS.java:37-39 | init draws the graph's thresholds (as Graph.init) and sets pn to from |
| BfsSpt.Bfs.Reset | src/main/java/percolation/spts/BFS.java:41-46 | with the queue empty (the source asserts it), every distance becomes MAX_VALUE except 0 at the root |
| BfsSpt.Bfs.PreUpdate | src/main/java/percolation/spts/BFS.java:48-52 | reset, then record pn; the distances are then sound and closed except at the root |
| BfsSpt.Bfs.Neighbor | src/main/java/percolation/spts/BFS.java:70-74 | writes only dists[dst] := dist, appends dst to the queue and returns true |
| BfsSpt.Bfs.Enqueue | src/main/java/percolation/spts/BFS.java:76-78 | appends vid to the queue |
| BfsSpt.Bfs.Dequeue | src/main/java/percolation/spts/BFS.java:80-82 | returns and drops the queue's oldest live entry |
| BfsSpt.Bfs.Neighbors | src/main/java/percolation/spts/BFS.java:62-68 | afterwards exactly the targets of src have distance dists[src]+1 and were appended to the queue in direction order; nothing at MAX_VALUE |
| BfsSpt.Bfs.NeighborDir | src/main/java/percolation/spts/BFS.java:65-67 | one iteration of the direction loop extends the relaxation by direction dir |
| BfsSpt.Bfs.NeighborOn | src/main/java/percolation/spts/BFS.java:66-67 | when the slot is enabled, its far end w is lowered and queued exactly when dist < dists[w], which extends the relaxation by direction dir |
| BfsSpt.Bfs.Sweep | src/main/java/percolation/spts/IBFS.java:66-69 | a BFS from one seed s closes s and everything it lowers, keeping the distances sound and never raising one |
| BfsSpt.Bfs.Drain | src/main/java/percolation/spts/BFS.java:57-58 | the drain loop empties the queue, keeps its invariant and never raises a distance |
| BfsSpt.Bfs.DrainOne | src/main/java/percolation/spts/BFS.java:58 | one iteration of the drain loop keeps its invariant with the head moved by one |
| BfsSpt.Bfs.RelaxHead | src/main/java/percolation/spts/BFS.java:58 | dequeues the head and relaxes it: the distances and the written queue become those of the relaxation |
| BfsSpt.Bfs.Update | src/main/java/percolation/spts/BFS.java:55-60 | starting from the reset distances, the result is the shortest hop count over enabled edges (MAX_VALUE when unreachable), the queue ends empty at 0 and no distance rose |
| BfsSpt.Bfs.Dist | src/main/java/percolation/spts/BFS.java:84-86 | once the distances are the shortest ones at pn (as update leaves them), dist(vid) is the least hop count of a walk from the root over enabled edges, or MAX_VALUE when no walk exists |
| BfsSpt.Bfs.QSize | src/main/java/percolation/spts/BFS.java:88-90 | the number of live queue entries |
| BfsSpt.FillDists | src/main/java/percolation/spts/BFS.java:44-45 | MAX_VALUE everywhere, then 0 at the root |
| BfsSpt.StepFromScratch | src/main/java/percolation/spts/BFS.java:48-60 | preUpdate(pn) then update(pn) gives the shortest distances at pn, whatever the engine held before |
| Sorting.SortIndirect | src/main/java/percolation/spts/IBFS.java:39-40 | the range holds the same entries (a permutation), ordered by key, and nothing outside it changes |
| Sorting.InsertOne | src/main/java/percolation/spts/IBFS.java:39-40 | one insertion pass extends the sorted prefix by one entry and keeps the permutation |
| Activation.SameElems | src/main/java/percolation/spts/IBFS.java:57 | reordering the auxiliary queue keeps its set of vertices |
| Activation.PermKept | src/main/java/percolation/spts/IBFS.java:39-40 | reordering a permutation of the vertices gives a permutation |
| Activation.Pairs | src/main/java/percolation/spts/IBFS.java:87-88 | the entries appended for the positions lo to hi: two per position |
| Activation.PairsHas | src/main/java/percolation/spts/IBFS.java:87-88 | both ends of every slot between the cursors are among the appended entries |
| Activation.PairsAreVertices | src/main/java/percolation/spts/IBFS.java:87-88 | when the slots between the cursors are on, every appended entry is a vertex id |
| Activation.SplitFromFirst | src/main/java/percolation/spts/IBFS.java:53-54 | a cursor that stops at the first slot above pn splits the sorted se at pn: every slot before it is on, every slot from it on is off |
| Activation.SplitAdvance | src/main/java/percolation/spts/IBFS.java:87-89 | a cursor moved on from a split at p0 to the first slot above p1 >= p0 splits se at p1 |
| Activation.SplitUnique | src/main/java/percolation/spts/IBFS.java:87-89 | the split at a threshold is unique, so an unchanged threshold leaves the cursor where it was |
| Activation.Crossing | src/main/java/percolation/spts/IBFS.java:83-90 | a slot turned on between two thresholds lies between the two cursors, and both its ends are appended |
| Activation.Activated | src/main/java/percolation/spts/IBFS.java:74-78 | every edge on at the new pn but off at the old one has its source among the queued vertices (in whichever direction it is seen) |
| Activation.Raise | src/main/java/percolation/spts/IBFS.java:80-82 | shortest distances at the old pn stay sound at the new one and are closed except at the ends of the newly activated edges |
| Activation.Enqueued | src/main/java/percolation/spts/IBFS.java:74-90 | what enqueueActivated queues leaves the old distances sound and closed except at the queued vertices, all of them vertex ids; an unchanged threshold queues nothing |
| IbfsSpt.Ibfs.constructor | src/main/java/percolation/spts/IBFS.java:19-28 | create: the BFS arrays, an auxiliary queue on an array of its own with 4·vs entries (the source allocates vs; see "Findings"), and se[R], se[D] the identity permutation |
| IbfsSpt.Range | src/main/java/percolation/spts/IBFS.java:26-27 | `IntStream.range(0, n).toArray()`: a fresh array holding 0 .. n-1 at their own positions, a permutation of the vertices |
| IbfsSpt.Ibfs.RoomAlways | src/main/java/percolation/spts/IBFS.java:83-89 | on an empty auxiliary queue of 4·vs entries, the slots both cursors pass at any pn fit, two entries each |
| IbfsSpt.Ibfs.Init | src/main/java/percolation/spts/IBFS.java:30-33 | the graph draws its thresholds, then reset: the distances are reset and both se arrays sorted |
| IbfsSpt.Ibfs.Reset | src/main/java/percolation/spts/IBFS.java:35-42 | the BFS reset, then se[R] and se[D] reordered, still permutations of the vertices, into ascending epn[R] and epn[D] |
| IbfsSpt.Ibfs.SortSe | src/main/java/percolation/spts/IBFS.java:39-40 | parallelQuickSortIndirect(se[d], epn[d]) leaves a permutation ordered by threshold |
| IbfsSpt.Ibfs.PreUpdate | src/main/java/percolation/spts/IBFS.java:44-46 | only records pn; the distances carry over |
| IbfsSpt.Ibfs.Update | src/main/java/percolation/spts/IBFS.java:48-61 | afterwards the distances are the shortest ones at pn, both queues empty at 0 and each cursor splitting its se at pn; no distance rose; repeating an update at the same pn changes neither distances nor cursors |
| IbfsSpt.Ibfs.FirstUpdate | src/main/java/percolation/spts/IBFS.java:50-54 | at pn == from: both cursors restart at 0, a BFS from the root gives the shortest distances, and each cursor stops at the first slot above pn |
| IbfsSpt.Ibfs.PassActive | src/main/java/percolation/spts/IBFS.java:53-54 | the two while loops move each cursor from 0 past the slots on at pn, so each cursor splits its sorted se at pn |
| IbfsSpt.Ibfs.SkipActive | src/main/java/percolation/spts/IBFS.java:53-54 | the while loop moves sei[d] to findGreater's answer from its old value, leaving the other cursor |
| IbfsSpt.Ibfs.EnqueueActivatedDir | src/main/java/percolation/spts/IBFS.java:83-90 | appends (se[i], next(se[i], dir)) for i from the old cursor to the first slot above pn, in cursor order, then moves the cursor there; cursors never move back |
| IbfsSpt.Ibfs.EnqueueActivated | src/main/java/percolation/spts/IBFS.java:74-78 | on an empty auxiliary queue: direction R, then D; the queue then holds the pairs of the R slots passed followed by those of the D slots, each cursor is at findGreater from its old value, and the returned size is the queue's length |
| IbfsSpt.Ibfs.Incremental | src/main/java/percolation/spts/IBFS.java:55-60 | at a later pn the result is the shortest distances at pn, both queues empty; with no edge crossing, distances and cursors are unchanged |
| IbfsSpt.Ibfs.Activate | src/main/java/percolation/spts/IBFS.java:55 | the call enqueueActivated(pn): the queued vertices leave the distances sound at pn and closed except at them; an unchanged pn queues none |
| IbfsSpt.Ibfs.SortAux | src/main/java/percolation/spts/IBFS.java:57 | the live range of the auxiliary queue keeps its vertices and is ordered by current distance |
| IbfsSpt.Ibfs.ProcessAuxQueue | src/main/java/percolation/spts/IBFS.java:63-72 | a BFS from each auxiliary entry in turn gives the shortest distances, then both queues are empty at 0; no distance rose |
| IbfsSpt.Ibfs.CursorIsFindGreater | src/main/java/percolation/spts/IBFS.java:53-54 | after an update each cursor is findGreater(se[d], d, 0, pn) |
| IbfsSpt.StartSplits | src/main/java/percolation/spts/IBFS.java:51-54 | a cursor at findGreater(se, d, 0, pn) splits the sorted se at pn |
| IbfsSpt.AdvanceSplits | src/main/java/percolation/spts/IBFS.java:87-89 | a cursor that split se at p0 and moved on to p1 >= p0 splits se at p1 |
| IbfsSpt.ActivateSpan | src/main/java/percolation/spts/IBFS.java:55 | moving both cursors from p0 to p1 splits at p1, and the entries between them leave the old shortest distances sound and closed except at those entries |
| IbfsSpt.IncrementalStep | src/main/java/percolation/spts/IBFS.java:48-61 | in a run of preUpdate/update calls with pn = from first and non-decreasing after, each step leaves the shortest distances at pn, the from-scratch BFS result |
| IbfsSpt.EnqueueFrom | src/main/java/percolation/spts/IBFS.java:87-89 | the for loop stops at findGreater(se, dir, lo, pn) and appends exactly the pairs of the positions it passed |
| ProbFormat.Int32 | src/main/java/percolation/util/ProbFormatter.java:33 | a Java int result: within 32 bits, congruent modulo 2³², and unchanged when no overflow |
| ProbFormat.Long | src/main/java/percolation/util/ProbFormatter.java:26-27 | a Java long result: within 64 bits, congruent modulo 2⁶⁴, and unchanged when no overflow |
| ProbFormat.JDiv | src/main/java/percolation/util/ProbFormatter.java:27 | Java's `/` by a positive divisor truncates toward zero: with Java's `%` it splits the dividend, and both take the dividend's sign |
| ProbFormat.GetPrec | src/main/java/percolation/util/ProbFormatter.java:24-30 | the result is the largest p in 1..4 whose multiplier 10^(p+3) gives a non-zero hundredths part of from/div or (from+step)/div, or 0 when none; so it lies in [0, 4] |
| ProbFormat.NoLongOverflow | src/main/java/percolation/util/ProbFormatter.java:26-27 | an int times a multiplier of at most 10^7 never wraps in long arithmetic |
| ProbFormat.Digits | src/main/java/percolation/util/ProbFormatter.java:33 | the decimal digits of a natural number, without a leading zero |
| ProbFormat.DigitsValue | src/main/java/percolation/util/ProbFormatter.java:33 | reading the digits back gives the number |
| ProbFormat.Decimal | src/main/java/percolation/util/ProbFormatter.java:33 | `%d`: a minus sign for a negative value, then digits that read back as the magnitude |
| ProbFormat.Padded | src/main/java/percolation/util/ProbFormatter.java:14 | `%0wd`: at least w characters; for a natural number, only digits, reading back as the number |
| ProbFormat.FmtRenders | src/main/java/percolation/util/ProbFormatter.java:14 | the derived format prints the first value, then for prec > 0 a point and the second value zero-padded to prec places, then a percent sign |
| ProbFormat.NewFormatter | src/main/java/percolation/util/ProbFormatter.java:10-15 | the constructor's prec satisfies getPrec's specification, mul == 10^prec, and fmt has the padded fraction field only when prec > 0 |
| ProbFormat.Format | src/main/java/percolation/util/ProbFormatter.java:32-34 | format(pn) is null exactly when pn < 0 or pn == MAX_VALUE, and a string otherwise |
| ProbFormat.FormatText | src/main/java/percolation/util/ProbFormatter.java:33 | the printed text is the whole percent 100*pn/div, then for prec > 0 a point and the prec-digit fraction, then "%" |
| ProbFormat.FracTruncates | src/main/java/percolation/util/ProbFormatter.java:33 | the corrected fields print pn/div as a percentage truncated to prec decimals: the fraction has at most prec digits, and whole·10^prec + frac == 100·pn·10^prec/div |
| ProbFormat.FracAsWrittenVanishes | src/main/java/percolation/util/ProbFormatter.java:33 | as written, `pn*mul%100/mul` is 0 whenever mul >= 100, that is for every prec >= 2 |
| ProbFormat.ExamplePrec | src/main/java/percolation/util/ProbFormatter.java:24-30 | from = 0, step = 1, div = 10000 give prec 2 |
| ProbFormat.FormatAsWrittenExample | src/main/java/percolation/util/ProbFormatter.java:33 | with that formatter, format(1234) as written prints "12.00%" |
| ProbFormat.FormatExample | src/main/java/percolation/util/ProbFormatter.java:33 | with the corrected fraction, format(1234) prints "12.34%" |
| ProbFormat.FormatAsWritten | src/main/java/percolation/util/ProbFormatter.java:32-34 | format(pn) as written, with the `pn * mul % 100 / mul` fraction field: null exactly when pn < 0 or pn == MAX_VALUE |
| AuxOverflow.AsWrittenOverflows | src/main/java/percolation/spts/IBFS.java:20 | on the diamond of radius 1 with skip 0 and every draw 1, the first update at 0 leaves both cursors at 0 and the update at 1 appends more than vs entries, so an auxiliary queue of vs entries overflows |
| AuxOverflow.Overflows | src/main/java/percolation/spts/IBFS.java:83-89 | on five vertices with right slots at 2 and 4 and down slots at 0 and 4, all drawn 1, the cursors split at 0 start at 0 and those split at 1 have passed two slots each |
| AuxOverflow.RightSlots | src/main/java/percolation/Graph.java:65 | on the diamond of radius 1 there are 5 vertices and vertices 2 and 4 have a right slot |
| AuxOverflow.DownSlots | src/main/java/percolation/Graph.java:66 | on the diamond of radius 1 with skip 0, vertices 0 and 4 have a down slot |

## Left out

- PIBFS.java is not part of this model. It is the parallel engine: thread pool, barriers, atomic counter and CAS. Concurrency is out of scope.
- Graphs.Graph.Init: `java.util.Random` is replaced by a `draws` parameter of values in [0, div]. The slots consume the draws in the source's order, but the generator itself is not modelled.
- Graph.targets (src/main/java/percolation/Graph.java:76-113) is not modelled. It uses floating-point `Math.log`, `Math.ceil` and `Math.pow`, and it only picks the reporting vertices.
- Graph.epn(vid, dir) and Graph.pn() are trivial accessors. They are read inside Graphs.Graph.IsEdgeEnabled.
- Graphs.Graph.EpnRow is the accessor `g.epn[dir]` (src/main/java/percolation/spts/IBFS.java:85) as a sequence. It has no property of its own beyond that.
- Logging and the `Main.print`/`Main.clear` console calls are not modelled. They are output only.
- IntQueue.arr(), start(), end() and toString() are not modelled. They are accessors and display; the model reads the fields directly.
- The `Queue` interface and the decorator hooks (`dec`, `set`) are not modelled. Every call goes directly to the engine itself.
- Config is not modelled (file loading and floating-point checks). r, skip, from, step and div are parameters.
- Graphs.Graph.constructor requires vs < INIT and div < INIT. A hop count and a drawn threshold then never collide with the INIT or MAX_VALUE sentinels.
- Queues.IntQueue.Enqueue, Queues.IntQueue.EnqueuePair and Queues.IntQueue.Dequeue require room or a live element. The source does no bounds check: it throws ArrayIndexOutOfBoundsException, or returns a stale entry on an empty dequeue.
- BfsSpt.Bfs.Reset requires an empty queue. The source asserts it.
- BfsSpt.Bfs.Update requires the reset distances (sound and closed except at the root), which preUpdate leaves, and pn < MAX_VALUE. Its correctness is stated for that calling order only.
- IbfsSpt.Ibfs.Update has three requirements:
  - pn == g.pn, i.e. preUpdate(pn) has just run;
  - an update at pn == from comes right after reset;
  - later thresholds do not decrease.
  The source does not check the last one.
- IbfsSpt.Ibfs.constructor gives the auxiliary queue 4·vs entries, not the source's vs, so that no update overflows it (see "Findings").
- IbfsSpt.Ibfs.constructor gives the auxiliary queue its own array, as the code does. The comment at src/main/java/percolation/spts/IBFS.java:25 says it shares the main queue's array; the model follows the code.
- IbfsSpt.Ibfs keeps se[R] and se[D] as two arrays, and the threshold of the last update as a ghost field, which the source does not have.
- Sorting.SortIndirect models fastutil's parallelQuickSortIndirect (a foreign, parallel library sort) by an insertion sort. It has the same postcondition: a permutation of the range, sorted by key. The order of equal keys is left unspecified, which the source does not rely on.
- The second ProbFormatter constructor (src/main/java/percolation/util/ProbFormatter.java:17-22) is not modelled. It wraps the format in caller-supplied console markup through a nested String.format.
- ProbFormat.Render models String.format only for `%d`, `%0wd` and `%%`, the directives the formatter produces. Locales and other directives are left out.
- ProbFormat.NewFormatter computes `(int) Math.pow(10, prec)` as the exact power 10^prec, which the double value equals for prec <= 4.
- ProbFormat.Format uses the corrected fraction field, per the finding below. The code as written is ProbFormat.FormatAsWritten.
- ProbFormat.FracTruncates states the truncation only while 100·pn fits in an int. Beyond that the whole part wraps, as in Java, and the model keeps the wrap in ProbFormat.Whole.

## Findings

| source | as written | input that shows it | evidently intended | confidence | as-written member | corrected member |
|---|---|---|---|---|---|---|
| src/main/java/percolation/spts/IBFS.java:20 | create gives the auxiliary queue `new int[gc.vs]`, but enqueueActivated appends two entries per slot turned on (lines 87-88) and can pass up to vs slots in each of R and D | r = 1, skip = 0 (vs = 5), div = 1, from = 0, step = 1, every draw 1: the update at pn = 1 turns on 4 slots and appends 8 entries to the array of 5, throwing ArrayIndexOutOfBoundsException | an auxiliary queue with room for two entries per right and down slot, 4·vs | not executed | AuxOverflow.AsWrittenOverflows | IbfsSpt.Ibfs.RoomAlways |
| src/main/java/percolation/util/ProbFormatter.java:33 | the fraction field is `pn * mul % 100 / mul`: a remainder below 100 divided by mul = 10^prec, so it is 0 for every prec >= 2 | from = 0, step = 1, div = 10000 (prec 2), pn = 1234 prints "12.00%" | the first prec decimals of 100·pn/div, i.e. `100L * pn * mul / div % mul`, printing "12.34%" | not executed | ProbFormat.FracAsWrittenVanishes | ProbFormat.FracTruncates |
