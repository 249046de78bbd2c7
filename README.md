# LuxemburgMap road network, modelled in Dafny

LuxemburgMap loads the road map of Luxembourg (nodes with an integer id and
an integer position, arcs with an integer length) into an undirected graph.
It can turn the map a quarter turn to the right about the centre of its
bounding box, and it finds a shortest route between two nodes with
Dijkstra's algorithm. This project models the graph core: `Graph::addNode`,
`Graph::addEdge`, the record handling of `Graph::loadFromXml`,
`Graph::rotateGraph90Right` and `Graph::dijkstra`, plus the `Node` and `Edge`
classes. It proves that the model keeps the graph invariant, that rotation
is a rigid motion about the truncated centre, and that Dijkstra returns a
shortest walk or nothing.

Design of the model:

- `Graph` (module `GraphEngine`, `graph.dfy`) is a class. Its fields are the
  node arena `nodes`, the edge arena `edges` and `adjacency`, a map from a
  node handle to its list of (neighbour, edge) pairs in insertion order. A
  `Node*` becomes a handle, the node's index in `nodes`. `Ref` adds null.
  An `Edge*` becomes an index in `edges`. The methods update these fields
  in place, loop by loop as the source does. Each method is proved against
  a value-level function of the state: `InsertNode`, `InsertEdge`, `Load`,
  `Rotated`, and the search invariant `SearchInv`.
- `Network.Valid` is the invariant kept by every operation. Ids are
  distinct. Every edge joins two existing nodes. Exactly the existing nodes
  have an adjacency list. Every adjacency entry names an edge joining the
  two nodes. Every edge is listed under both of its ends. No two edges join
  the same pair of nodes.
- C++ `int` arithmetic is modelled on unbounded integers. The
  preconditions that rule out overflow are stated (see "Left out"). The
  centre uses `Basics.Half`, which truncates toward zero like C++ `/`.
- The `std::priority_queue` of `dijkstra` is a sequence of
  (distance, handle) entries. `top` is its least entry in pair order
  (`MinQueue.ArgMin`), and `pop` removes that entry (`MinQueue.RemoveAt`).
- `Nodes.Node` and `Edges.Edge` model the classes of node.cpp and edge.cpp
  on their own. Inside the graph a node is stored as the value
  `NodeState`, which is what `Node.State()` returns, and an edge as
  `EdgeRec`, whose ends are handles instead of `Node*`. A `setPos` call
  on a graph node becomes the update `nodes[i].(pos := ...)` in
  `GraphEngine.Graph.TurnAbout`.
- The XML loader is modelled from the parsed records onward. `NodeRecord`
  and `ArcRecord` hold the attributes after `toInt`. `None` stands for a
  missing `<nodes>` or `<arcs>` element.

Files: `basics.dfy` (Option, `int` range, truncating halving, min/max),
`node.dfy`, `edge.dfy`, `network.dfy` (graph state and invariant),
`loader.dfy`, `rotation.dfy`, `walks.dfy` (walks along edges), `pqueue.dfy`,
`shortest.dfy` (Dijkstra's invariant and its lemmas), `graph.dfy` (the
`Graph` class).

## Model

| member | source | states |
|---|---|---|
| Nodes.Node.constructor | LuxemburgMap/graph.cpp:38-40 | a node created with an id and a position carries exactly those |
| Nodes.Node.GetValue | LuxemburgMap/node.cpp:8-11 | returns the id and changes nothing |
| Nodes.Node.GetPos | LuxemburgMap/node.cpp:13-16 | returns the position and changes nothing |
| Nodes.Node.SetValue | LuxemburgMap/node.cpp:18-21 | afterwards the id is `n` and the position is unchanged |
| Nodes.Node.SetPos | LuxemburgMap/node.cpp:23-26 | afterwards the position is `p` and the id is unchanged |
| Nodes.Node.Equals | LuxemburgMap/node.cpp:28-31 | `==` holds exactly when both nodes stand at the same position |
| Nodes.SamePlaceIgnoresIds | LuxemburgMap/node.cpp:28-31 | two nodes at one position compare equal whatever their ids |
| Nodes.SamePlaceIsEquivalence | LuxemburgMap/node.cpp:28-31 | `==` is reflexive, symmetric and transitive |
| Edges.Edge.constructor | LuxemburgMap/edge.cpp:8 | the new edge has first end `f`, second end `s` and length `len` |
| Edges.Edge.GetFirst | LuxemburgMap/edge.cpp:10-13 | returns the first end and changes nothing |
| Edges.Edge.SetFirst | LuxemburgMap/edge.cpp:15-18 | changes the first end only; second end and length unchanged |
| Edges.Edge.GetSecond | LuxemburgMap/edge.cpp:20-23 | returns the second end and changes nothing |
| Edges.Edge.SetSecond | LuxemburgMap/edge.cpp:25-28 | changes the second end only; first end and length unchanged |
| Edges.Edge.GetLength | LuxemburgMap/edge.cpp:30-33 | returns the length and changes nothing |
| Edges.Edge.SetLength | LuxemburgMap/edge.cpp:35-38 | changes the length only; both ends unchanged |
| Edges.OtherEnd | LuxemburgMap/graph.cpp:250-253 | the neighbour reached over an edge is joined by it to the node left |
| Network.FindNode | LuxemburgMap/graph.cpp:30-35 | the first node carrying the id, or none exactly when no node carries it |
| Network.FindEdge | LuxemburgMap/graph.cpp:55-60 | the first edge joining the pair in either orientation, or none exactly when no edge does |
| Network.InsertNode | LuxemburgMap/graph.cpp:28-45 | the returned node carries the id; a present id leaves the graph unchanged (position not updated); a fresh id appends one node with an empty adjacency list and nothing else |
| Network.InsertEdge | LuxemburgMap/graph.cpp:47-69 | a null end or an existing edge between the pair (either orientation) leaves the graph unchanged; otherwise one edge is appended and listed under both ends |
| Network.LinkEntries | LuxemburgMap/graph.cpp:65-66 | `from` gains `(to, e)`, `to` gains `(from, e)` (a loop gains both), every other list is unchanged |
| Network.AdjacencySymmetric | LuxemburgMap/graph.cpp:65-66 | in a valid graph `(b, e)` is listed under `a` exactly when `(a, e)` is listed under `b` |
| Network.InsertNodeKeepsValid | LuxemburgMap/graph.cpp:28-45 | `addNode` keeps the graph invariant |
| Network.InsertEdgeKeepsValid | LuxemburgMap/graph.cpp:47-69 | `addEdge` between nodes of the graph keeps the graph invariant |
| Network.AppendKeepsNoParallel | LuxemburgMap/graph.cpp:55-63 | appending an edge for a pair no edge joins creates no parallel edge |
| Network.LinkKeepsSound | LuxemburgMap/graph.cpp:62-66 | after the append every adjacency entry still names an edge joining its two nodes |
| Network.LinkKeepsComplete | LuxemburgMap/graph.cpp:62-66 | after the append every edge is listed under both of its ends |
| Network.LinkKeepsDomain | LuxemburgMap/graph.cpp:65-66 | linking two nodes of the graph gives no other node an adjacency list |
| Network.ListGrows | LuxemburgMap/graph.cpp:65-66 | linking only appends: every entry already listed stays listed |
| GraphEngine.Graph.constructor | LuxemburgMap/graph.cpp:3-4 | a new graph is empty and satisfies the invariant |
| GraphEngine.Graph.AddNode | LuxemburgMap/graph.cpp:28-45 | the scan and append give exactly `InsertNode`; the handle returned carries the id; the invariant is kept |
| GraphEngine.Graph.AddEdge | LuxemburgMap/graph.cpp:47-69 | the null check, scan, append and two list updates give exactly `InsertEdge`; the invariant is kept |
| Loader.Load | LuxemburgMap/graph.cpp:99-144 | the loader returns true exactly when both `<nodes>` and `<arcs>` are present; without `<nodes>` the graph is unchanged |
| GraphEngine.Graph.LoadRecords | LuxemburgMap/graph.cpp:99-144 | the new graph and the value returned are exactly `Load` of the records; the invariant is kept |
| GraphEngine.Graph.LoadNodeRecords | LuxemburgMap/graph.cpp:101-113 | the node loop yields exactly `LoadNodes`: `addNode` per record, id mapped to the node returned |
| GraphEngine.Graph.LoadArcRecords | LuxemburgMap/graph.cpp:121-142 | the arc loop yields exactly `LoadArcs`: `addEdge` for each arc whose two ids are mapped, the others skipped |
| Loader.DeclaresLast | LuxemburgMap/graph.cpp:101-113 | the ids of a record list are those of all but the last record plus the last record's id |
| Loader.LoadNodesKeepsValid | LuxemburgMap/graph.cpp:101-113 | loading nodes keeps the invariant, adds no edge, keeps every existing node, and each added node carries a record's id |
| Loader.LoadNodesMap | LuxemburgMap/graph.cpp:101-113 | the id map holds exactly the record ids, each mapped to a node carrying that id |
| Loader.LoadNodesKeepsExisting | LuxemburgMap/graph.cpp:108-109 | an id the graph already held maps to that existing node |
| Loader.LoadNodesFirstWins | LuxemburgMap/graph.cpp:108-109 | a duplicate id maps to the node created for its first record, at that record's position |
| Loader.FirstWinsStep | LuxemburgMap/graph.cpp:108-109 | a later record with an id already declared changes neither its handle nor its node |
| Loader.FirstWinsFresh | LuxemburgMap/graph.cpp:108-109 | the first record of an id the graph lacks appends a node at that record's position |
| Loader.NewNodeFirstDeclared | LuxemburgMap/graph.cpp:101-113 | every node a load appends carries an id that has a first declaring record |
| Loader.LastRecordFirst | LuxemburgMap/graph.cpp:107-108 | when the last record appends a node, no earlier record carries its id |
| Loader.FirstDeclarationLift | LuxemburgMap/graph.cpp:101-113 | the first record of an id among all but the last stays first when one more record follows |
| Loader.LoadNodesKeepsOrder | LuxemburgMap/graph.cpp:101-113 | appended nodes keep document order: when node `i` comes before node `j`, the first record of `i`'s id comes before the first record of `j`'s id |
| Loader.LoadArcsKeepsValid | LuxemburgMap/graph.cpp:121-142 | loading arcs keeps the invariant, adds no node, and keeps every existing edge |
| Loader.LoadArcsConnects | LuxemburgMap/graph.cpp:126-138 | every arc whose two ids are mapped ends up with an edge joining its nodes, whatever arcs before it were skipped |
| Loader.LoadArcsGrows | LuxemburgMap/graph.cpp:121-142 | each arc step only appends edges |
| Loader.LoadArcsOnlyFromArcs | LuxemburgMap/graph.cpp:126-138 | every added edge comes from the first resolvable arc for its pair of nodes, with that arc's length; unresolved arcs add nothing |
| Loader.LastArcFirst | LuxemburgMap/graph.cpp:126-136 | when the last arc appends an edge, it is the first resolvable arc for that pair of nodes and the edge carries its ends and length |
| Loader.FirstArcForLift | LuxemburgMap/graph.cpp:121-142 | the first arc for an edge among all but the last arc stays first when one more arc follows |
| Loader.LoadArcsKeepsOrder | LuxemburgMap/graph.cpp:121-142 | appended edges keep document order: when edge `i` comes before edge `j`, the arc that produced `i` comes before the arc that produced `j` |
| Loader.LoadKeepsNodes | LuxemburgMap/graph.cpp:115-119 | nodes loaded before a missing `<arcs>` element stay; without arcs no edge is added; the invariant holds either way |
| Basics.Half | LuxemburgMap/graph.cpp:192-193 | `a / 2` truncated toward zero: twice the quotient is within 1 of `a`, on the side of zero |
| Basics.MinOf | LuxemburgMap/graph.cpp:184-190 | the minimum bounds every element and is one of them |
| Basics.MaxOf | LuxemburgMap/graph.cpp:184-190 | the maximum bounds every element and is one of them |
| GraphEngine.Graph.BoundingBox | LuxemburgMap/graph.cpp:181-190 | the scan from `INT_MAX` / `INT_MIN` yields the minimum and maximum of the x and y coordinates |
| Rotation.BoxIsBounds | LuxemburgMap/graph.cpp:181-190 | values that bound all coordinates and are attained are the minimum and maximum |
| Rotation.MinOfUnique | LuxemburgMap/graph.cpp:184-190 | a lower bound that is attained is the minimum |
| Rotation.MaxOfUnique | LuxemburgMap/graph.cpp:184-190 | an upper bound that is attained is the maximum |
| Rotation.TurnAll | LuxemburgMap/graph.cpp:195-208 | every node keeps its id and moves to `(y - cy + cx, cx + cy - x)` |
| Rotation.Rotated | LuxemburgMap/graph.cpp:177-209 | rotation keeps the number of nodes and every id; where each node moves is stated by `Rotation.RotatedAt`, and that the motion is rigid by `Rotation.RotatedIsRigid` |
| GraphEngine.Graph.TurnAbout | LuxemburgMap/graph.cpp:195-208 | the translate, turn and translate-back loop moves every node exactly as `TurnAll`; edges and adjacency untouched |
| GraphEngine.Graph.Rotate90Right | LuxemburgMap/graph.cpp:177-209 | the nodes become `Rotated(old nodes)`: unchanged when empty, else turned about the truncated centre; edges and adjacency untouched |
| Rotation.RotatePreservesDistance | LuxemburgMap/graph.cpp:198-205 | a quarter turn about a common centre preserves squared distances |
| Rotation.RotateFourTimes | LuxemburgMap/graph.cpp:198-205 | four quarter turns about the same centre restore a point |
| Rotation.RotatedIsRigid | LuxemburgMap/graph.cpp:195-208 | rotation keeps the node count and every id, and the squared distance between any two nodes |
| GraphEngine.RotationKeepsValid | LuxemburgMap/graph.cpp:177-209 | rotation keeps the graph invariant |
| Rotation.CenterInBox | LuxemburgMap/graph.cpp:192-193 | the truncated centre lies inside the bounding box |
| Rotation.BoundsInRange | LuxemburgMap/graph.cpp:184-190 | coordinates in range give a minimum and maximum in range |
| Rotation.RotationFitsInt32 | LuxemburgMap/graph.cpp:181-205 | with coordinates in range, `minX + maxX`, the translated and the final coordinates all fit a 32-bit `int` |
| Rotation.RotatedAt | LuxemburgMap/graph.cpp:195-208 | the rotated node at each index is that node turned about the centre |
| Rotation.ShiftedBounds | LuxemburgMap/graph.cpp:184-190 | shifting all values by `k` shifts minimum and maximum by `k` |
| Rotation.ReflectedBounds | LuxemburgMap/graph.cpp:184-190 | reflecting all values about `k` swaps and reflects minimum and maximum |
| Rotation.RotatedKeepsCenter | LuxemburgMap/graph.cpp:192-205 | for a box with even coordinate sums the rotated box has the same centre and again even sums |
| Rotation.CenterOfEvenBox | LuxemburgMap/graph.cpp:192-193 | a box whose sums are twice `c` is even and centred on `c` |
| Rotation.HalfExact | LuxemburgMap/graph.cpp:192-193 | halving an even number is exact |
| Rotation.TurnAllFourTimes | LuxemburgMap/graph.cpp:195-208 | four turns of all positions about one point restore them |
| Rotation.RotatedFourTimesRestores | LuxemburgMap/graph.cpp:177-209 | for a box with even coordinate sums, four rotations restore every node |
| MinQueue.ArgMin | LuxemburgMap/graph.cpp:219-220 | `top()` is an entry no other entry is smaller than |
| MinQueue.RemoveAt | LuxemburgMap/graph.cpp:238 | `pop()` removes exactly that entry and keeps the others in order |
| MinQueue.RemoveAtKeeps | LuxemburgMap/graph.cpp:238 | popping one entry keeps every other entry |
| MinQueue.RemoveAtOnlyRemoves | LuxemburgMap/graph.cpp:238 | popping adds no entry |
| Walks.Step | LuxemburgMap/graph.cpp:250-253 | crossing an edge from a node reaches a node it joins, and is defined for every edge touching the node |
| Walks.FollowAppend | LuxemburgMap/graph.cpp:273 | a walk extended by one edge ends where that edge leads, and is longer by its length |
| Walks.FollowPrepend | LuxemburgMap/graph.cpp:279 | a walk starting with an edge is a step across it and the rest |
| Walks.Reverse | LuxemburgMap/graph.cpp:279 | `std::reverse`: same length, and element `i` of the result is element `n - 1 - i` of the input |
| Walks.StepBack | LuxemburgMap/graph.cpp:270-273 | crossing an edge back returns to the node left |
| Walks.FollowReverse | LuxemburgMap/graph.cpp:279 | a reversed walk from `s` to `t` runs from `t` to `s` with the same length |
| Walks.FollowStaysInGraph | LuxemburgMap/graph.cpp:250-253 | a walk in a valid graph stays on its nodes |
| Walks.StepIsAdjacency | LuxemburgMap/graph.cpp:250-253 | in a valid graph, crossing edge `e` from `a` to `b` is exactly an adjacency entry `(b, e)` under `a` |
| Walks.WalkFollowsAdjacency | LuxemburgMap/graph.cpp:270-275 | each edge of a walk is taken from the adjacency list of the node it leaves |
| ShortestPaths.MaxLength | LuxemburgMap/graph.cpp:255-256 | a non-negative bound on every edge length, used for the `INT_MAX` overflow bound |
| ShortestPaths.SubsetOfRangeSize | LuxemburgMap/graph.cpp:224 | the visited set holds at most as many nodes as the graph |
| ShortestPaths.SameNeighbourSameEdge | LuxemburgMap/graph.cpp:270-275 | in a valid graph two entries of one list naming the same neighbour name the same edge |
| ShortestPaths.InitInv | LuxemburgMap/graph.cpp:226-233 | the initial distances, predecessors and queue satisfy the search invariant |
| GraphEngine.Graph.InitialLabels | LuxemburgMap/graph.cpp:226-230 | every node gets distance `INT_MAX` and no predecessor |
| ShortestPaths.Frontier | LuxemburgMap/graph.cpp:235-264 | every walk from `start` to an unvisited node is at least as long as some queued distance |
| ShortestPaths.PopQueue | LuxemburgMap/graph.cpp:237-244 | popping the least entry of an unvisited node keeps the queue invariant |
| ShortestPaths.PopVisitedInv | LuxemburgMap/graph.cpp:240-242 | popping an already visited node keeps the search invariant |
| ShortestPaths.LeastEntry | LuxemburgMap/graph.cpp:237 | the least entry of an unvisited node carries its current distance, at least every visited distance |
| ShortestPaths.LeastIsFinal | LuxemburgMap/graph.cpp:237-244 | the distance of the least queued unvisited node is the shortest walk length |
| ShortestPaths.VisitedGrows | LuxemburgMap/graph.cpp:244 | visiting that node keeps every visited distance final |
| ShortestPaths.PredsGrow | LuxemburgMap/graph.cpp:244 | visiting a node keeps every recorded predecessor valid |
| ShortestPaths.BoundGrows | LuxemburgMap/graph.cpp:244 | the distance bound stays valid with one more visited node |
| ShortestPaths.VisitInv | LuxemburgMap/graph.cpp:237-248 | visiting the least queued unvisited node keeps the invariant and its distance is final |
| ShortestPaths.RelaxedUpToMono | LuxemburgMap/graph.cpp:250-263 | relaxation facts survive a smaller distance |
| ShortestPaths.RelaxQueue | LuxemburgMap/graph.cpp:258-261 | pushing the improved entry keeps the queue invariant |
| ShortestPaths.RelaxPreds | LuxemburgMap/graph.cpp:258-260 | the new predecessor satisfies the predecessor invariant |
| ShortestPaths.RelaxBound | LuxemburgMap/graph.cpp:255-256 | `distances[current] + edgeLength` is a non-negative `int` below `INT_MAX` |
| ShortestPaths.RelaxStep | LuxemburgMap/graph.cpp:252-262 | one neighbour step, taken or not, keeps the relaxation state |
| ShortestPaths.RelaxUpdate | LuxemburgMap/graph.cpp:258-261 | the update of distance, predecessor and queue keeps the relaxation state |
| ShortestPaths.RelaxedExtend | LuxemburgMap/graph.cpp:250-263 | one more relaxed neighbour extends the relaxed prefix |
| ShortestPaths.RelaxMaps | LuxemburgMap/graph.cpp:259-260 | the updated maps still hold every node |
| ShortestPaths.RelaxBounded | LuxemburgMap/graph.cpp:259 | the new distance respects the distance bound |
| ShortestPaths.RelaxVisited | LuxemburgMap/graph.cpp:259 | relaxing an unvisited neighbour keeps every visited distance final |
| GraphEngine.Graph.RelaxNeighbours | LuxemburgMap/graph.cpp:250-263 | after relaxing every neighbour of `current` the search invariant holds and all visited nodes are relaxed |
| GraphEngine.Graph.Visit | LuxemburgMap/graph.cpp:244-263 | visiting a new node keeps the search invariant and grows the visited set by one |
| GraphEngine.Graph.VisitNext | LuxemburgMap/graph.cpp:237-263 | one turn of the loop keeps the invariant; it visits one more node or shrinks the queue; it stops exactly when `end` is visited |
| ShortestPaths.ExhaustedUnreachable | LuxemburgMap/graph.cpp:235-264 | when the queue runs empty before `end` is visited, `end` is unreachable and has no predecessor |
| GraphEngine.Graph.Search | LuxemburgMap/graph.cpp:222-264 | the search ends with the invariant, and `end` visited or unreachable without predecessor |
| ShortestPaths.PredFacts | LuxemburgMap/graph.cpp:267-268 | a predecessor was visited earlier and lists the node in its adjacency |
| GraphEngine.Graph.FirstEntryTo | LuxemburgMap/graph.cpp:270-276 | the position of the first entry of `prev`'s list leading to `at`, or the list length when none does |
| ShortestPaths.BackStep | LuxemburgMap/graph.cpp:268-276 | the edge found extends the backward walk from `end` to `prev` and accounts for the distance difference |
| ShortestPaths.TraceComplete | LuxemburgMap/graph.cpp:266-280 | the predecessor chain stops at `start`, and the reversed edges form a shortest walk from `start` to `end` |
| GraphEngine.Graph.Dijkstra | LuxemburgMap/graph.cpp:211-281 | empty for a null end, for `start == end` and exactly when `end` is unreachable; otherwise the edges of a shortest walk from `start` to `end` |

## Left out

- File handling and XML parsing of `loadFromXml` (`QFile`, `QDomDocument`, the `map` root check, attribute `toInt`, graph.cpp:71-97) are foreign library calls; the model starts from parsed records, and a missing `<nodes>` element is the only parse outcome it keeps.
- `LoadArcRecords`: the null check of graph.cpp:130-134 is not modelled, because every handle in the id map comes from `addNode`, which never returns null.
- `scaleGraph` (graph.cpp:147-175) is double-precision arithmetic with truncating casts and is not modelled.
- The `qDebug()` diagnostics are output only and are not modelled.
- The destructor and the `new`/`delete` memory management are replaced by the arenas. Nodes and edges are stored by value, so aliasing of `Node` objects outside the graph is not captured. The getters that return the containers are not modelled.
- `Nodes.Node.constructor` stands for `new Node()` followed by `setValue` and `setPos`; the default constructors leave fields uninitialised and are not modelled.
- `MinQueue.ArgMin` breaks ties between equal distances by the smaller handle. The source compares `Node*` addresses, which is implementation-defined, so no contract depends on the tie order.
- `GraphEngine.Graph.Rotate90Right` requires every coordinate within ±2^29 (`CoordsInRange`), because larger coordinates can overflow `int` in `minX + maxX` or in the final coordinates, which is undefined behaviour in C++.
- `GraphEngine.Graph.Dijkstra` requires non-negative edge lengths and `|nodes| * maxLength < INT_MAX` (`LengthsFit`), because the source adds lengths in `int` with `INT_MAX` as infinity; it also requires the graph invariant and end nodes that belong to the graph.
- `Rotation.RotatedFourTimesRestores` is proved only when both bounding-box sums are even; with an odd sum the truncated centre can move between rotations.
- `GraphEngine.Graph.Dijkstra` reverses the edge list with the `Reverse` function instead of an in-place `std::reverse`.
