/** The graph's state as a value, and the two construction steps
    (`addNode`, `addEdge`) as functions on it.  Node handles index `nodes`,
    edge handles index `edges`; `adjacency` maps a node handle to its list
    of (neighbour handle, edge handle) pairs, in insertion order. */
module Network {
  import opened Basics
  import opened Nodes
  import opened Edges

  type Adjacency = map<nat, seq<(nat, nat)>>

  datatype GraphData = GraphData(nodes: seq<NodeState>, edges: seq<EdgeRec>, adjacency: Adjacency)

  /** Node ids are pairwise distinct. */
  ghost predicate UniqueIds(nodes: seq<NodeState>)
  {
    forall i, j :: 0 <= i < j < |nodes| ==> nodes[i].value != nodes[j].value
  }

  /** Every adjacency entry (b, e) listed under a names an existing edge joining a and b. */
  ghost predicate AdjacencySound(g: GraphData)
  {
    forall a, k :: a in g.adjacency && 0 <= k < |g.adjacency[a]| ==>
      g.adjacency[a][k].1 < |g.edges| && Joins(g.edges[g.adjacency[a][k].1], a, g.adjacency[a][k].0)
  }

  /** Every edge is listed under both of its ends, paired with the opposite end. */
  ghost predicate AdjacencyComplete(g: GraphData)
  {
    forall i :: 0 <= i < |g.edges| ==>
      g.edges[i].first in g.adjacency && g.edges[i].second in g.adjacency &&
      (g.edges[i].second, i) in g.adjacency[g.edges[i].first] &&
      (g.edges[i].first, i) in g.adjacency[g.edges[i].second]
  }

  /** At most one edge joins any unordered pair of nodes. */
  ghost predicate NoParallelEdges(edges: seq<EdgeRec>)
  {
    forall i, j :: 0 <= i < j < |edges| ==> !Joins(edges[j], edges[i].first, edges[i].second)
  }

  /** The graph invariant that `addNode` and `addEdge` maintain. */
  ghost predicate Valid(g: GraphData)
  {
    && UniqueIds(g.nodes)
    && (forall i :: 0 <= i < |g.edges| ==> g.edges[i].first < |g.nodes| && g.edges[i].second < |g.nodes|)
    && (forall v: nat :: v in g.adjacency <==> v < |g.nodes|)
    && AdjacencySound(g)
    && AdjacencyComplete(g)
    && NoParallelEdges(g.edges)
  }

  /** A reference that is null or names a node of a graph with `n` nodes. */
  predicate RefIn(r: Ref, n: nat)
  {
    r.At? ==> r.index < n
  }

  /** `adjacencyList[v]`, which yields an empty list for a node without an entry. */
  function Neighbours(adj: Adjacency, v: nat): seq<(nat, nat)>
  {
    if v in adj then adj[v] else []
  }

  /** The scan of `addNode`: the first node carrying `id`. */
  function FindNode(nodes: seq<NodeState>, id: int): (r: Option<nat>)
    ensures r.Some? ==> r.value < |nodes| && nodes[r.value].value == id
    ensures r.Some? ==> forall j :: 0 <= j < r.value ==> nodes[j].value != id
    ensures r.None? <==> forall j :: 0 <= j < |nodes| ==> nodes[j].value != id
  {
    if nodes == [] then None
    else if nodes[0].value == id then Some(0)
    else
      match FindNode(nodes[1..], id)
      case None => None
      case Some(k) => Some(k + 1)
  }

  /** The scan of `addEdge`: the first edge joining `a` and `b` in either orientation. */
  function FindEdge(edges: seq<EdgeRec>, a: nat, b: nat): (r: Option<nat>)
    ensures r.Some? ==> r.value < |edges| && Joins(edges[r.value], a, b)
    ensures r.Some? ==> forall j :: 0 <= j < r.value ==> !Joins(edges[j], a, b)
    ensures r.None? <==> forall j :: 0 <= j < |edges| ==> !Joins(edges[j], a, b)
  {
    if edges == [] then None
    else if Joins(edges[0], a, b) then Some(0)
    else
      match FindEdge(edges[1..], a, b)
      case None => None
      case Some(k) => Some(k + 1)
  }

  /** `Graph::addNode(id, pos)`: the new graph and the handle returned. */
  function InsertNode(g: GraphData, id: int, pos: Point): (r: (GraphData, nat))
    ensures r.1 < |r.0.nodes| && r.0.nodes[r.1].value == id
    ensures (exists i :: 0 <= i < |g.nodes| && g.nodes[i].value == id) ==>
      r.0 == g
    ensures (forall i :: 0 <= i < |g.nodes| ==> g.nodes[i].value != id) ==>
      && r.0.nodes == g.nodes + [NodeState(id, pos)]
      && r.1 == |g.nodes|
      && r.0.edges == g.edges
      && r.0.adjacency == g.adjacency[|g.nodes| := []]
  {
    match FindNode(g.nodes, id)
    case Some(k) => (g, k)
    case None =>
      (GraphData(g.nodes + [NodeState(id, pos)], g.edges, g.adjacency[|g.nodes| := []]), |g.nodes|)
  }

  /** The adjacency after appending the mirrored entries of a new edge `e`
      between `f` and `t`: first under `f`, then under `t`. */
  function Link(adj: Adjacency, f: nat, t: nat, e: nat): Adjacency
  {
    var adj1 := adj[f := Neighbours(adj, f) + [(t, e)]];
    adj1[t := Neighbours(adj1, t) + [(f, e)]]
  }

  /** `Graph::addEdge(from, to, length)`. */
  function InsertEdge(g: GraphData, from: Ref, to: Ref, length: int): (r: GraphData)
    ensures from.Null? || to.Null? ==> r == g
    ensures from.At? && to.At? && (exists i :: 0 <= i < |g.edges| && Joins(g.edges[i], from.index, to.index)) ==>
      r == g
    ensures from.At? && to.At? && (forall i :: 0 <= i < |g.edges| ==> !Joins(g.edges[i], from.index, to.index)) ==>
      && r.nodes == g.nodes
      && r.edges == g.edges + [EdgeRec(from.index, to.index, length)]
      && r.adjacency == Link(g.adjacency, from.index, to.index, |g.edges|)
  {
    if from.Null? || to.Null? then g
    else if FindEdge(g.edges, from.index, to.index).Some? then g
    else
      GraphData(g.nodes, g.edges + [EdgeRec(from.index, to.index, length)],
                Link(g.adjacency, from.index, to.index, |g.edges|))
  }

  /** What `Link` does to each list: `f` gains (t, e), `t` gains (f, e)
      (a loop gains both), every other list is left as it was. */
  lemma LinkEntries(adj: Adjacency, f: nat, t: nat, e: nat)
    ensures f in Link(adj, f, t, e) && t in Link(adj, f, t, e)
    ensures f != t ==> Link(adj, f, t, e)[f] == Neighbours(adj, f) + [(t, e)]
    ensures f != t ==> Link(adj, f, t, e)[t] == Neighbours(adj, t) + [(f, e)]
    ensures f == t ==> Link(adj, f, t, e)[f] == Neighbours(adj, f) + [(t, e), (f, e)]
    ensures forall v :: v != f && v != t ==> (v in Link(adj, f, t, e) <==> v in adj)
    ensures forall v :: v != f && v != t && v in adj ==> Link(adj, f, t, e)[v] == adj[v]
  {
  }

  /** Adjacency symmetry: (b, e) is listed under a exactly when (a, e) is listed under b. */
  lemma AdjacencySymmetric(g: GraphData, a: nat, b: nat, e: nat)
    requires Valid(g)
    requires a in g.adjacency && b in g.adjacency
    ensures (b, e) in g.adjacency[a] <==> (a, e) in g.adjacency[b]
  {
    if (b, e) in g.adjacency[a] {
      var k :| 0 <= k < |g.adjacency[a]| && g.adjacency[a][k] == (b, e);
      assert Joins(g.edges[e], a, b);
    }
    if (a, e) in g.adjacency[b] {
      var k :| 0 <= k < |g.adjacency[b]| && g.adjacency[b][k] == (a, e);
      assert Joins(g.edges[e], b, a);
    }
  }

  /** `addNode` keeps the graph invariant. */
  lemma InsertNodeKeepsValid(g: GraphData, id: int, pos: Point)
    requires Valid(g)
    ensures Valid(InsertNode(g, id, pos).0)
  {
    var r := InsertNode(g, id, pos).0;
    if FindNode(g.nodes, id).None? {
      assert r.adjacency == g.adjacency[|g.nodes| := []];
      forall i | 0 <= i < |r.edges|
        ensures (r.edges[i].second, i) in r.adjacency[r.edges[i].first]
        ensures (r.edges[i].first, i) in r.adjacency[r.edges[i].second]
      {
        assert r.edges[i].first < |g.nodes| && r.edges[i].second < |g.nodes|;
      }
    }
  }

  /** `addEdge` between two nodes of the graph keeps the graph invariant,
      in particular adjacency symmetry and the absence of parallel edges. */
  lemma InsertEdgeKeepsValid(g: GraphData, from: Ref, to: Ref, length: int)
    requires Valid(g)
    requires RefIn(from, |g.nodes|) && RefIn(to, |g.nodes|)
    ensures Valid(InsertEdge(g, from, to, length))
  {
    if from.At? && to.At? && FindEdge(g.edges, from.index, to.index).None? {
      var f, t := from.index, to.index;
      LinkKeepsSound(g, f, t, length);
      LinkKeepsComplete(g, f, t, length);
      LinkKeepsDomain(g.adjacency, |g.nodes|, f, t, |g.edges|);
      AppendKeepsNoParallel(g.edges, f, t, length);
    }
  }

  /** Linking two nodes of a graph with `n` nodes gives no other node a list. */
  lemma LinkKeepsDomain(adj: Adjacency, n: nat, f: nat, t: nat, e: nat)
    requires forall v: nat :: v in adj <==> v < n
    requires f < n && t < n
    ensures forall v: nat :: v in Link(adj, f, t, e) <==> v < n
  {
    LinkEntries(adj, f, t, e);
  }

  /** An edge between two nodes no edge joins yet creates no parallel edge. */
  lemma AppendKeepsNoParallel(edges: seq<EdgeRec>, f: nat, t: nat, length: int)
    requires NoParallelEdges(edges)
    requires forall j :: 0 <= j < |edges| ==> !Joins(edges[j], f, t)
    ensures NoParallelEdges(edges + [EdgeRec(f, t, length)])
  {
    var r := edges + [EdgeRec(f, t, length)];
    forall i, j | 0 <= i < j < |r|
      ensures !Joins(r[j], r[i].first, r[i].second)
    {
      if j == |edges| {
        assert !Joins(edges[i], f, t);
      }
    }
  }

  lemma LinkKeepsSound(g: GraphData, f: nat, t: nat, length: int)
    requires AdjacencySound(g)
    ensures AdjacencySound(GraphData(g.nodes, g.edges + [EdgeRec(f, t, length)], Link(g.adjacency, f, t, |g.edges|)))
  {
    var e := |g.edges|;
    var r := GraphData(g.nodes, g.edges + [EdgeRec(f, t, length)], Link(g.adjacency, f, t, e));
    LinkEntries(g.adjacency, f, t, e);
    forall a, k | a in r.adjacency && 0 <= k < |r.adjacency[a]|
      ensures r.adjacency[a][k].1 < |r.edges| && Joins(r.edges[r.adjacency[a][k].1], a, r.adjacency[a][k].0)
    {
      if a == f || a == t {
        if k < |Neighbours(g.adjacency, a)| {
          assert r.adjacency[a][k] == g.adjacency[a][k];
        }
      } else {
        assert r.adjacency[a] == g.adjacency[a];
      }
    }
  }

  lemma LinkKeepsComplete(g: GraphData, f: nat, t: nat, length: int)
    requires AdjacencyComplete(g)
    ensures AdjacencyComplete(GraphData(g.nodes, g.edges + [EdgeRec(f, t, length)], Link(g.adjacency, f, t, |g.edges|)))
  {
    var e := |g.edges|;
    var r := GraphData(g.nodes, g.edges + [EdgeRec(f, t, length)], Link(g.adjacency, f, t, e));
    LinkEntries(g.adjacency, f, t, e);
    forall i | 0 <= i < |r.edges|
      ensures r.edges[i].first in r.adjacency && r.edges[i].second in r.adjacency
      ensures (r.edges[i].second, i) in r.adjacency[r.edges[i].first]
      ensures (r.edges[i].first, i) in r.adjacency[r.edges[i].second]
    {
      if i < e {
        var x, y := g.edges[i].first, g.edges[i].second;
        assert (y, i) in g.adjacency[x] && (x, i) in g.adjacency[y];
        ListGrows(g.adjacency, f, t, e, x);
        ListGrows(g.adjacency, f, t, e, y);
      }
    }
  }

  /** `Link` only appends, so every entry already listed stays listed. */
  lemma ListGrows(adj: Adjacency, f: nat, t: nat, e: nat, v: nat)
    requires v in adj
    ensures v in Link(adj, f, t, e) && adj[v] <= Link(adj, f, t, e)[v]
  {
    LinkEntries(adj, f, t, e);
  }
}
