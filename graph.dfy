/** `Graph`: the road network as an object whose node list, edge list and
    adjacency list are updated in place.  Node and edge objects are kept in
    two arenas (`nodes`, `edges`); a `Node*` or `Edge*` is a handle into
    them.  Every method is proved against the value-level definitions of
    the modules it imports. */
module GraphEngine {
  import opened Basics
  import opened Nodes
  import opened Edges
  import opened Network
  import opened Rotation
  import opened Walks
  import opened MinQueue
  import opened ShortestPaths
  import opened Loader

  class Graph {
    var nodes: seq<NodeState>
    var edges: seq<EdgeRec>
    var adjacency: Adjacency

    /** The whole state as a value. */
    function Data(): GraphData
      reads this
    {
      GraphData(nodes, edges, adjacency)
    }

    /** The invariant every method keeps. */
    ghost predicate Valid()
      reads this
    {
      Network.Valid(Data())
    }

    /** `Graph::Graph()`: no nodes, no edges. */
    constructor ()
      ensures nodes == [] && edges == [] && adjacency == map[]
      ensures Valid()
    {
      nodes := [];
      edges := [];
      adjacency := map[];
    }

    /** `Graph::addNode`: the node already carrying `id`, or a new node
        appended with an empty adjacency list. */
    method AddNode(id: int, pos: Point) returns (h: nat)
      requires Valid()
      modifies this
      ensures Data() == InsertNode(old(Data()), id, pos).0
      ensures h == InsertNode(old(Data()), id, pos).1
      ensures h < |nodes| && nodes[h].value == id
      ensures Valid()
    {
      ghost var g := Data();
      var i := 0;
      while i < |nodes|
        invariant 0 <= i <= |nodes|
        invariant forall j :: 0 <= j < i ==> nodes[j].value != id
      {
        if nodes[i].value == id {
          h := i;
          return;
        }
        i := i + 1;
      }
      h := |nodes|;
      nodes := nodes + [NodeState(id, pos)];
      adjacency := adjacency[h := []];
      InsertNodeKeepsValid(g, id, pos);
    }

    /** `Graph::addEdge`: nothing happens for a null end or when an edge
        already joins the two nodes (in either orientation); otherwise one
        edge is appended and listed under both ends. */
    method AddEdge(from: Ref, to: Ref, length: int)
      requires Valid()
      requires RefIn(from, |nodes|) && RefIn(to, |nodes|)
      modifies this
      ensures Data() == InsertEdge(old(Data()), from, to, length)
      ensures Valid()
    {
      ghost var g := Data();
      if from.Null? || to.Null? {
        return;
      }
      var i := 0;
      while i < |edges|
        invariant 0 <= i <= |edges| && Data() == g
        invariant forall j :: 0 <= j < i ==> !Joins(edges[j], from.index, to.index)
      {
        if (edges[i].first == from.index && edges[i].second == to.index) ||
           (edges[i].first == to.index && edges[i].second == from.index) {
          assert Joins(g.edges[i], from.index, to.index);
          return;
        }
        i := i + 1;
      }
      var e := |edges|;
      edges := edges + [EdgeRec(from.index, to.index, length)];
      adjacency := adjacency[from.index := adjacency[from.index] + [(to.index, e)]];
      adjacency := adjacency[to.index := adjacency[to.index] + [(from.index, e)]];
      assert adjacency == Link(g.adjacency, from.index, to.index, e);
      InsertEdgeKeepsValid(g, from, to, length);
    }

    /** The record part of `Graph::loadFromXml`: `None` stands for a
        missing `<nodes>` or `<arcs>` element.  Nodes added before a missing
        `<arcs>` element stay in the graph. */
    method LoadRecords(nodeRecs: Option<seq<NodeRecord>>, arcRecs: Option<seq<ArcRecord>>) returns (ok: bool)
      requires Valid()
      modifies this
      ensures (Data(), ok) == Load(old(Data()), nodeRecs, arcRecs)
      ensures Valid()
    {
      if nodeRecs.None? {
        return false;
      }
      ghost var g := Data();
      var nodeMap := LoadNodeRecords(nodeRecs.value);
      if arcRecs.None? {
        return false;
      }
      LoadNodesMap(g, nodeRecs.value, Data(), nodeMap);
      LoadArcRecords(arcRecs.value, nodeMap);
      return true;
    }

    /** The `<node>` loop of `Graph::loadFromXml`: `addNode` for each
        record, and the id mapped to the node returned. */
    method LoadNodeRecords(recs: seq<NodeRecord>) returns (nodeMap: Handles)
      requires Valid()
      modifies this
      ensures (Data(), nodeMap) == LoadNodes(old(Data()), recs)
      ensures Valid()
    {
      ghost var g := Data();
      nodeMap := map[];
      var i := 0;
      while i < |recs|
        invariant 0 <= i <= |recs|
        invariant Valid()
        invariant (Data(), nodeMap) == LoadNodes(g, recs[..i])
      {
        var newNode := AddNode(recs[i].id, Point(recs[i].latitude, recs[i].longitude));
        nodeMap := nodeMap[recs[i].id := newNode];
        assert recs[..i + 1][..i] == recs[..i];
        i := i + 1;
      }
      assert recs[..i] == recs;
    }

    /** The `<arc>` loop of `Graph::loadFromXml`: `addEdge` for each arc
        whose two ids are in the map; an arc naming an unknown id is skipped
        and the loop goes on. */
    method LoadArcRecords(arcs: seq<ArcRecord>, nodeMap: Handles)
      requires Valid() && HandlesIn(nodeMap, |nodes|)
      modifies this
      ensures Data() == LoadArcs(old(Data()), arcs, nodeMap)
      ensures Valid()
    {
      ghost var g := Data();
      var i := 0;
      while i < |arcs|
        invariant 0 <= i <= |arcs|
        invariant Valid() && nodes == g.nodes
        invariant Data() == LoadArcs(g, arcs[..i], nodeMap)
      {
        var arc := arcs[i];
        if arc.from in nodeMap && arc.to in nodeMap {
          var fromNode, toNode := At(nodeMap[arc.from]), At(nodeMap[arc.to]);
          AddEdge(fromNode, toNode, arc.length);
        }
        assert arcs[..i + 1][..i] == arcs[..i];
        i := i + 1;
      }
      assert arcs[..i] == arcs;
    }

    /** The first loop of `Graph::rotateGraph90Right`: the bounding box of
        all positions, scanned from `INT_MAX` / `INT_MIN`. */
    method BoundingBox() returns (minX: int, minY: int, maxX: int, maxY: int)
      requires |nodes| > 0 && CoordsInRange(nodes)
      ensures minX == MinOf(Xs(nodes)) && maxX == MaxOf(Xs(nodes))
      ensures minY == MinOf(Ys(nodes)) && maxY == MaxOf(Ys(nodes))
    {
      minX, minY := IntMax, IntMax;
      maxX, maxY := IntMin, IntMin;
      var i := 0;
      while i < |nodes|
        invariant 0 <= i <= |nodes|
        invariant i == 0 ==> minX == IntMax && minY == IntMax && maxX == IntMin && maxY == IntMin
        invariant forall j :: 0 <= j < i ==> minX <= nodes[j].pos.x <= maxX && minY <= nodes[j].pos.y <= maxY
        invariant i > 0 ==> exists j :: 0 <= j < i && minX == nodes[j].pos.x
        invariant i > 0 ==> exists j :: 0 <= j < i && maxX == nodes[j].pos.x
        invariant i > 0 ==> exists j :: 0 <= j < i && minY == nodes[j].pos.y
        invariant i > 0 ==> exists j :: 0 <= j < i && maxY == nodes[j].pos.y
      {
        var p := nodes[i].pos;
        assert InCoordRange(p);
        minX := if p.x < minX then p.x else minX;
        minY := if p.y < minY then p.y else minY;
        maxX := if p.x > maxX then p.x else maxX;
        maxY := if p.y > maxY then p.y else maxY;
        i := i + 1;
      }
      BoxIsBounds(nodes, minX, minY, maxX, maxY);
    }

    /** `Graph::rotateGraph90Right`: every position turned a quarter turn
        about the truncated centre of the bounding box; ids, edges and
        adjacency untouched. */
    method Rotate90Right()
      requires CoordsInRange(nodes)
      modifies this
      ensures nodes == Rotated(old(nodes))
      ensures edges == old(edges) && adjacency == old(adjacency)
    {
      if |nodes| == 0 {
        return;
      }
      var minX, minY, maxX, maxY := BoundingBox();
      var centerX := Half(minX + maxX);
      var centerY := Half(minY + maxY);
      assert Point(centerX, centerY) == Center(nodes);
      TurnAbout(centerX, centerY);
    }

    /** The second loop of `Graph::rotateGraph90Right`: each position is
        translated so that the centre is the origin, turned, and translated
        back. */
    method TurnAbout(centerX: int, centerY: int)
      modifies this
      ensures nodes == TurnAll(old(nodes), Point(centerX, centerY))
      ensures edges == old(edges) && adjacency == old(adjacency)
    {
      ghost var source := nodes;
      ghost var c := Point(centerX, centerY);
      var i := 0;
      while i < |nodes|
        invariant 0 <= i <= |nodes| == |source|
        invariant edges == old(edges) && adjacency == old(adjacency)
        invariant forall j :: 0 <= j < i ==> nodes[j] == source[j].(pos := RotatePoint(source[j].pos, c))
        invariant forall j :: i <= j < |nodes| ==> nodes[j] == source[j]
      {
        var pos := nodes[i].pos;
        var translatedX := pos.x - centerX;
        var translatedY := pos.y - centerY;
        var rotatedX := translatedY;
        var rotatedY := -translatedX;
        var finalX := rotatedX + centerX;
        var finalY := rotatedY + centerY;
        nodes := nodes[i := nodes[i].(pos := Point(finalX, finalY))];
        i := i + 1;
      }
      assert nodes == TurnAll(source, c);
    }

    /** The first loop of `Graph::dijkstra`: every node at distance
        `INT_MAX` and without predecessor. */
    method InitialLabels() returns (dist: map<nat, int>, pred: map<nat, Ref>)
      ensures forall v: nat :: v in dist <==> v < |nodes|
      ensures forall v: nat :: v in pred <==> v < |nodes|
      ensures forall v :: v in dist ==> dist[v] == IntMax
      ensures forall v :: v in pred ==> pred[v] == Null
    {
      dist, pred := map[], map[];
      var i := 0;
      while i < |nodes|
        invariant 0 <= i <= |nodes|
        invariant forall v: nat :: v in dist <==> v < i
        invariant forall v: nat :: v in pred <==> v < i
        invariant forall v :: v in dist ==> dist[v] == IntMax
        invariant forall v :: v in pred ==> pred[v] == Null
      {
        dist := dist[i := IntMax];
        pred := pred[i := Null];
        i := i + 1;
      }
    }

    /** The search loop of `Graph::dijkstra` (lines before the path is
        rebuilt): distances and predecessors of every node, the set of
        visited nodes, and ghost witnesses of the search invariant.  The
        search stops when `end` is visited or the queue runs empty, and in
        the latter case `end` is unreachable. */
    method Search(start: nat, end: nat)
      returns (dist: map<nat, int>, pred: map<nat, Ref>, visited: set<nat>,
               ghost pq: seq<Entry>, ghost rank: map<nat, nat>, ghost t: nat)
      requires Valid() && start < |nodes| && end < |nodes| && LengthsFit(Data())
      ensures SearchInv(Data(), start, dist, pred, visited, pq, rank, t)
      ensures end in visited || (!Reachable(Data(), start, end) && pred[end] == Null)
    {
      ghost var g := Data();
      dist, pred := InitialLabels();
      dist := dist[start := 0];
      var queue: seq<Entry> := [(0, start)];
      visited := {};
      rank, t := map[], 0;
      InitInv(g, start, dist, pred);
      while queue != []
        invariant SearchInv(g, start, dist, pred, visited, queue, rank, t)
        invariant AllRelaxed(g, dist, visited)
        invariant end !in visited
        decreases |nodes| - |visited|, |queue|
      {
        var found;
        dist, pred, visited, queue, rank, t, found := VisitNext(g, start, end, dist, pred, visited, queue, rank, t);
        if found {
          pq := queue;
          return;
        }
      }
      ExhaustedUnreachable(g, start, dist, pred, visited, rank, t, end);
      pq := queue;
    }

    /** One turn of the search loop of `Graph::dijkstra`: the least queue
        entry is popped; an already visited node is passed over, otherwise
        it is visited and, unless it is `end`, its neighbours are relaxed.
        Either more nodes are visited or the queue shrinks. */
    method VisitNext(ghost g: GraphData, ghost start: nat, end: nat,
                     dist0: map<nat, int>, pred0: map<nat, Ref>, visited0: set<nat>, queue0: seq<Entry>,
                     ghost rank0: map<nat, nat>, ghost t0: nat)
      returns (dist: map<nat, int>, pred: map<nat, Ref>, visited: set<nat>, queue: seq<Entry>,
               ghost rank: map<nat, nat>, ghost t: nat, found: bool)
      requires g == Data() && queue0 != []
      requires SearchInv(g, start, dist0, pred0, visited0, queue0, rank0, t0)
      requires AllRelaxed(g, dist0, visited0)
      requires end !in visited0
      ensures SearchInv(g, start, dist, pred, visited, queue, rank, t)
      ensures found <==> end in visited
      ensures !found ==> AllRelaxed(g, dist, visited)
      ensures (visited == visited0 || |visited| == |visited0| + 1) && |visited| <= |nodes|
      ensures visited == visited0 ==> |queue| < |queue0|
    {
      var k := ArgMin(queue0);
      var cur := queue0[k].1;
      queue := RemoveAt(queue0, k);
      if cur in visited0 {
        PopVisitedInv(g, start, dist0, pred0, visited0, queue0, rank0, t0, k);
        dist, pred, visited, rank, t, found := dist0, pred0, visited0, rank0, t0, false;
        SubsetOfRangeSize(visited, |nodes|);
        return;
      }
      dist, pred, visited, queue, rank, t, found := Visit(g, start, end, dist0, pred0, visited0, queue0, rank0, t0, k);
    }

    /** The part of a turn of the search loop for a node `cur` not visited
        yet: it is marked visited, and unless it is `end` its neighbours are
        relaxed. */
    method Visit(ghost g: GraphData, ghost start: nat, end: nat,
                 dist0: map<nat, int>, pred0: map<nat, Ref>, visited0: set<nat>, queue0: seq<Entry>,
                 ghost rank0: map<nat, nat>, ghost t0: nat, k: nat)
      returns (dist: map<nat, int>, pred: map<nat, Ref>, visited: set<nat>, queue: seq<Entry>,
               ghost rank: map<nat, nat>, ghost t: nat, found: bool)
      requires g == Data() && queue0 != [] && k == ArgMin(queue0) && queue0[k].1 !in visited0
      requires end !in visited0
      requires SearchInv(g, start, dist0, pred0, visited0, queue0, rank0, t0)
      requires AllRelaxed(g, dist0, visited0)
      ensures SearchInv(g, start, dist, pred, visited, queue, rank, t)
      ensures found <==> end in visited
      ensures !found ==> AllRelaxed(g, dist, visited)
      ensures |visited| == |visited0| + 1 && |visited| <= |nodes|
    {
      var cur := queue0[k].1;
      VisitInv(g, start, dist0, pred0, visited0, queue0, rank0, t0, k, cur);
      visited := visited0 + {cur};
      SubsetOfRangeSize(visited, |nodes|);
      queue := RemoveAt(queue0, k);
      rank := rank0[cur := t0];
      t := t0 + 1;
      if cur == end {
        dist, pred, found := dist0, pred0, true;
        return;
      }
      found := false;
      dist, pred, queue := RelaxNeighbours(g, start, cur, dist0, pred0, visited, queue, rank, t);
    }

    /** The inner loop of `Graph::dijkstra`: every neighbour of the node
        `cur` just visited gets the distance through `cur` when that is
        smaller, with `cur` as its predecessor and a new queue entry. */
    method RelaxNeighbours(ghost g: GraphData, ghost start: nat, cur: nat,
                           dist0: map<nat, int>, pred0: map<nat, Ref>, visited: set<nat>,
                           queue0: seq<Entry>, ghost rank: map<nat, nat>, ghost t: nat)
      returns (dist: map<nat, int>, pred: map<nat, Ref>, queue: seq<Entry>)
      requires g == Data() && cur in dist0
      requires RelaxState(g, start, dist0, pred0, visited, queue0, rank, t, cur, dist0[cur], 0)
      ensures SearchInv(g, start, dist, pred, visited, queue, rank, t)
      ensures AllRelaxed(g, dist, visited)
    {
      dist, pred, queue := dist0, pred0, queue0;
      ghost var dcur := dist0[cur];
      var neighbours := adjacency[cur];
      var j := 0;
      while j < |neighbours|
        invariant neighbours == g.adjacency[cur]
        invariant RelaxState(g, start, dist, pred, visited, queue, rank, t, cur, dcur, j)
      {
        var neighbour, edge := neighbours[j].0, neighbours[j].1;
        RelaxBound(g, start, dist, pred, visited, queue, rank, t, cur, dcur, j);
        var newDist := dist[cur] + edges[edge].length;
        RelaxStep(g, start, dist, pred, visited, queue, rank, t, cur, dcur, j, neighbour, newDist);
        if newDist < dist[neighbour] {
          dist := dist[neighbour := newDist];
          pred := pred[neighbour := At(cur)];
          queue := queue + [(newDist, neighbour)];
        }
        j := j + 1;
      }
    }

    /** The scan of `prev`'s adjacency list in the path rebuilding of
        `Graph::dijkstra`: the position of the first entry leading to `at`,
        or the list's length when there is none. */
    method FirstEntryTo(prev: nat, at: nat) returns (i: nat)
      requires prev in adjacency
      ensures i <= |adjacency[prev]|
      ensures i < |adjacency[prev]| ==> adjacency[prev][i].0 == at
      ensures forall i' :: 0 <= i' < i ==> adjacency[prev][i'].0 != at
    {
      i := 0;
      while i < |adjacency[prev]| && adjacency[prev][i].0 != at
        invariant 0 <= i <= |adjacency[prev]|
        invariant forall i' :: 0 <= i' < i ==> adjacency[prev][i'].0 != at
      {
        i := i + 1;
      }
    }

    /** `Graph::dijkstra`: no edges for a null argument, for `start == end`
        and for an unreachable `end`; otherwise the edges of a shortest walk
        from `start` to `end`, in order. */
    method Dijkstra(startNode: Ref, endNode: Ref) returns (path: seq<nat>)
      requires Valid() && RefIn(startNode, |nodes|) && RefIn(endNode, |nodes|)
      requires LengthsFit(Data())
      ensures startNode.Null? || endNode.Null? ==> path == []
      ensures startNode == endNode ==> path == []
      ensures path != [] ==>
        startNode.At? && endNode.At? && IsShortestWalk(Data(), startNode.index, endNode.index, path)
      ensures startNode.At? && endNode.At? && startNode != endNode ==>
        (path == [] <==> !Reachable(Data(), startNode.index, endNode.index))
    {
      if startNode.Null? || endNode.Null? {
        return [];
      }
      ghost var g := Data();
      var start, end := startNode.index, endNode.index;
      var dist, pred, visited, pq, rank, t := Search(start, end);
      var back: seq<nat> := [];
      var at := end;
      while pred[at].At?
        invariant at < |nodes|
        invariant Follow(g.edges, end, back) == Some(at)
        invariant WalkLength(g.edges, back) + dist[at] == dist[end]
        invariant back == [] ==> at == end
        invariant at in visited || back == []
        invariant end !in visited ==> back == []
        invariant end == start ==> back == []
        decreases if at in visited then rank[at] else t
      {
        var prev := pred[at].index;
        PredFacts(g, start, dist, pred, visited, pq, rank, t, at, prev);
        var i := FirstEntryTo(prev, at);
        if i < |adjacency[prev]| {
          BackStep(g, start, dist, pred, visited, pq, rank, t, end, back, at, prev, i);
          back := back + [adjacency[prev][i].1];
        }
        at := prev;
      }
      if back != [] {
        TraceComplete(g, start, dist, pred, visited, pq, rank, t, end, back, at);
      }
      path := Reverse(back);
    }
  }

  /** Rotation moves nodes only: the graph invariant survives it. */
  lemma RotationKeepsValid(g: GraphData)
    requires Network.Valid(g)
    ensures Network.Valid(GraphData(Rotated(g.nodes), g.edges, g.adjacency))
  {
    RotatedIsRigid(g.nodes);
  }
}
