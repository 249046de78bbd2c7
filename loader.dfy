/** The record-processing part of `Graph::loadFromXml`, over records that
    have already been read from the XML document: every `<node>` record goes
    through `addNode` and its id is mapped to the node returned; every
    `<arc>` record whose two ids are mapped goes through `addEdge`, and the
    others are skipped. */
module Loader {
  import opened Basics
  import opened Nodes
  import opened Edges
  import opened Network

  /** A `<node id latitude longitude>` element after `toInt`. */
  datatype NodeRecord = NodeRecord(id: int, latitude: int, longitude: int)

  /** An `<arc from to length>` element after `toInt`. */
  datatype ArcRecord = ArcRecord(from: int, to: int, length: int)

  /** The loader's `QMap<int, Node*> nodeMap`: id to node handle. */
  type Handles = map<int, nat>

  /** The position a node record asks for: `QPoint(latitude, longitude)`. */
  function Pos(rec: NodeRecord): Point
  {
    Point(rec.latitude, rec.longitude)
  }

  /** Some record carries `id`. */
  ghost predicate Declares(recs: seq<NodeRecord>, id: int)
  {
    exists k :: 0 <= k < |recs| && recs[k].id == id
  }

  /** Record `k` is the first one carrying `id`. */
  ghost predicate FirstDeclaration(recs: seq<NodeRecord>, id: int, k: nat)
  {
    k < |recs| && recs[k].id == id && forall k' :: 0 <= k' < k ==> recs[k'].id != id
  }

  /** Both ids of an arc are in the map, so the arc is not skipped. */
  predicate Resolves(arc: ArcRecord, m: Handles)
  {
    arc.from in m && arc.to in m
  }

  /** The ids of a sequence of records are those of all but the last, and the last one's. */
  lemma {:induction false} DeclaresLast(recs: seq<NodeRecord>, id: int)
    requires recs != []
    ensures Declares(recs, id) <==> Declares(recs[..|recs| - 1], id) || recs[|recs| - 1].id == id
  {
    var p := recs[..|recs| - 1];
    if Declares(recs, id) && recs[|recs| - 1].id != id {
      var k :| 0 <= k < |recs| && recs[k].id == id;
      assert p[k] == recs[k];
    }
    if Declares(p, id) {
      var k :| 0 <= k < |p| && p[k].id == id;
      assert recs[k] == p[k];
    }
  }

  /** Every handle of the map names a node of a graph with `n` nodes. */
  ghost predicate HandlesIn(m: Handles, n: nat)
  {
    forall id :: id in m ==> m[id] < n
  }

  /** The node loop: `addNode` for each record in order, then `nodeMap[id] = node`. */
  function LoadNodes(g: GraphData, recs: seq<NodeRecord>): (GraphData, Handles)
  {
    if recs == [] then (g, map[])
    else
      var prev := LoadNodes(g, recs[..|recs| - 1]);
      var rec := recs[|recs| - 1];
      var added := InsertNode(prev.0, rec.id, Pos(rec));
      (added.0, prev.1[rec.id := added.1])
  }

  /** The arc loop: `addEdge` for each arc whose two ids are mapped, in order. */
  function LoadArcs(g: GraphData, arcs: seq<ArcRecord>, m: Handles): GraphData
  {
    if arcs == [] then g
    else
      var prev := LoadArcs(g, arcs[..|arcs| - 1], m);
      var arc := arcs[|arcs| - 1];
      if Resolves(arc, m) then InsertEdge(prev, At(m[arc.from]), At(m[arc.to]), arc.length)
      else prev
  }

  /** The record part of `loadFromXml`: `None` stands for a missing
      `<nodes>` or `<arcs>` element.  The result is the new graph and the
      value returned. */
  function Load(g: GraphData, nodeRecs: Option<seq<NodeRecord>>, arcRecs: Option<seq<ArcRecord>>): (r: (GraphData, bool))
    ensures r.1 <==> nodeRecs.Some? && arcRecs.Some?
    ensures nodeRecs.None? ==> r.0 == g
  {
    match nodeRecs
    case None => (g, false)
    case Some(recs) =>
      var loaded := LoadNodes(g, recs);
      match arcRecs
      case None => (loaded.0, false)
      case Some(arcs) => (LoadArcs(loaded.0, arcs, loaded.1), true)
  }

  /** Loading nodes keeps the graph invariant, adds no edge, keeps every
      existing node, and every node it adds carries the id of some record. */
  lemma {:induction false} LoadNodesKeepsValid(g: GraphData, recs: seq<NodeRecord>, r: GraphData, m: Handles)
    requires Valid(g)
    requires (r, m) == LoadNodes(g, recs)
    ensures Valid(r)
    ensures r.edges == g.edges
    ensures g.nodes <= r.nodes
    ensures forall j :: |g.nodes| <= j < |r.nodes| ==> Declares(recs, r.nodes[j].value)
    decreases |recs|
  {
    if recs != [] {
      var p, rec := recs[..|recs| - 1], recs[|recs| - 1];
      var (r1, m1) := LoadNodes(g, p);
      LoadNodesKeepsValid(g, p, r1, m1);
      InsertNodeKeepsValid(r1, rec.id, Pos(rec));
      forall j | |g.nodes| <= j < |r.nodes|
        ensures Declares(recs, r.nodes[j].value)
      {
        if j < |r1.nodes| {
          var k :| 0 <= k < |p| && p[k].id == r1.nodes[j].value;
          assert recs[k] == p[k];
        } else {
          assert r.nodes[j].value == recs[|recs| - 1].id;
        }
      }
    }
  }

  /** The map holds exactly the ids of the records, each mapped to a node
      carrying that id. */
  lemma {:induction false} LoadNodesMap(g: GraphData, recs: seq<NodeRecord>, r: GraphData, m: Handles)
    requires (r, m) == LoadNodes(g, recs)
    ensures forall id :: id in m <==> Declares(recs, id)
    ensures forall id :: id in m ==> m[id] < |r.nodes| && r.nodes[m[id]].value == id
    decreases |recs|
  {
    if recs != [] {
      var p, rec := recs[..|recs| - 1], recs[|recs| - 1];
      var (r1, m1) := LoadNodes(g, p);
      LoadNodesMap(g, p, r1, m1);
      assert r1.nodes <= r.nodes;
      forall id
        ensures id in m <==> Declares(recs, id)
      {
        DeclaresLast(recs, id);
      }
    }
  }

  /** An id the graph already held maps to that node. */
  lemma {:induction false} LoadNodesKeepsExisting(g: GraphData, recs: seq<NodeRecord>, r: GraphData, m: Handles, id: int, j: nat)
    requires Valid(g)
    requires (r, m) == LoadNodes(g, recs)
    requires Declares(recs, id)
    requires j < |g.nodes| && g.nodes[j].value == id
    ensures id in m && m[id] == j
  {
    LoadNodesMap(g, recs, r, m);
    LoadNodesKeepsValid(g, recs, r, m);
    assert r.nodes[j] == g.nodes[j];
  }

  /** A duplicate id maps to the first node created for it: for an id the
      graph did not hold, the node keeps the position of the first record
      carrying the id. */
  lemma {:induction false} LoadNodesFirstWins(g: GraphData, recs: seq<NodeRecord>, r: GraphData, m: Handles, id: int)
    requires Valid(g)
    requires (r, m) == LoadNodes(g, recs)
    requires Declares(recs, id)
    requires forall j :: 0 <= j < |g.nodes| ==> g.nodes[j].value != id
    ensures id in m && m[id] < |r.nodes|
    ensures exists k: nat :: FirstDeclaration(recs, id, k) && r.nodes[m[id]] == NodeState(id, Pos(recs[k]))
    decreases |recs|
  {
    LoadNodesMap(g, recs, r, m);
    var p, rec := recs[..|recs| - 1], recs[|recs| - 1];
    var (r1, m1) := LoadNodes(g, p);
    assert r1.nodes <= r.nodes;
    if Declares(p, id) {
      LoadNodesFirstWins(g, p, r1, m1, id);
      LoadNodesKeepsValid(g, p, r1, m1);
      FirstWinsStep(g, recs, r, m, r1, m1, id);
    } else {
      FirstWinsFresh(g, recs, r, m, r1, m1, id);
    }
  }

  /** The id was declared before the last record: the last record changes
      neither its handle nor its node. */
  lemma {:induction false} FirstWinsStep(g: GraphData, recs: seq<NodeRecord>, r: GraphData, m: Handles, r1: GraphData, m1: Handles, id: int)
    requires recs != [] && UniqueIds(r1.nodes)
    requires (r, m) == LoadNodes(g, recs)
    requires (r1, m1) == LoadNodes(g, recs[..|recs| - 1])
    requires id in m1 && m1[id] < |r1.nodes|
    requires exists k: nat :: FirstDeclaration(recs[..|recs| - 1], id, k) && r1.nodes[m1[id]] == NodeState(id, Pos(recs[k]))
    ensures id in m && m[id] < |r.nodes|
    ensures exists k: nat :: FirstDeclaration(recs, id, k) && r.nodes[m[id]] == NodeState(id, Pos(recs[k]))
  {
    var p, rec := recs[..|recs| - 1], recs[|recs| - 1];
    var k: nat :| FirstDeclaration(p, id, k) && r1.nodes[m1[id]] == NodeState(id, Pos(recs[k]));
    assert recs[k] == p[k];
    assert FirstDeclaration(recs, id, k);
    assert r1.nodes <= r.nodes;
    if rec.id == id {
      var h := InsertNode(r1, id, Pos(rec)).1;
      assert r1.nodes[h].value == id;
    }
  }

  /** The last record is the first to carry the id: a node is appended with
      that record's position. */
  lemma {:induction false} FirstWinsFresh(g: GraphData, recs: seq<NodeRecord>, r: GraphData, m: Handles, r1: GraphData, m1: Handles, id: int)
    requires Valid(g) && recs != []
    requires (r, m) == LoadNodes(g, recs)
    requires (r1, m1) == LoadNodes(g, recs[..|recs| - 1])
    requires Declares(recs, id) && !Declares(recs[..|recs| - 1], id)
    requires forall j :: 0 <= j < |g.nodes| ==> g.nodes[j].value != id
    ensures id in m && m[id] < |r.nodes|
    ensures FirstDeclaration(recs, id, |recs| - 1) && r.nodes[m[id]] == NodeState(id, Pos(recs[|recs| - 1]))
  {
    var p, rec := recs[..|recs| - 1], recs[|recs| - 1];
    LoadNodesKeepsValid(g, p, r1, m1);
    DeclaresLast(recs, id);
    forall k' | 0 <= k' < |p|
      ensures recs[k'].id != id
    {
      assert recs[k'] == p[k'];
    }
    forall j | 0 <= j < |r1.nodes|
      ensures r1.nodes[j].value != id
    {
      if j >= |g.nodes| {
        assert Declares(p, r1.nodes[j].value);
      }
    }
  }

  /** The first record carrying `a` comes before the first record carrying `b`. */
  ghost predicate DeclaredBefore(recs: seq<NodeRecord>, a: int, b: int)
  {
    exists k: nat, k': nat :: k < k' && FirstDeclaration(recs, a, k) && FirstDeclaration(recs, b, k')
  }

  /** A first declaration in all but the last record stays first in the whole list. */
  lemma FirstDeclarationLift(recs: seq<NodeRecord>, id: int, k: nat)
    requires recs != [] && FirstDeclaration(recs[..|recs| - 1], id, k)
    ensures FirstDeclaration(recs, id, k)
  {
    var p := recs[..|recs| - 1];
    assert forall k' :: 0 <= k' <= k ==> recs[k'] == p[k'];
  }

  /** The nodes a load appends keep the document order: node `i` before node
      `j` means the first record of node `i`'s id comes before the first
      record of node `j`'s id. */
  lemma {:induction false} LoadNodesKeepsOrder(g: GraphData, recs: seq<NodeRecord>, r: GraphData, m: Handles)
    requires Valid(g)
    requires (r, m) == LoadNodes(g, recs)
    ensures forall i, j :: |g.nodes| <= i < j < |r.nodes| ==> DeclaredBefore(recs, r.nodes[i].value, r.nodes[j].value)
    decreases |recs|
  {
    if recs != [] {
      var p, rec := recs[..|recs| - 1], recs[|recs| - 1];
      var (r1, m1) := LoadNodes(g, p);
      LoadNodesKeepsOrder(g, p, r1, m1);
      LoadNodesKeepsValid(g, p, r1, m1);
      LoadNodesMap(g, p, r1, m1);
      assert r1.nodes <= r.nodes;
      forall i, j | |g.nodes| <= i < j < |r.nodes|
        ensures DeclaredBefore(recs, r.nodes[i].value, r.nodes[j].value)
      {
        var a, b := r.nodes[i].value, r.nodes[j].value;
        if j < |r1.nodes| {
          var k: nat, k': nat :| k < k' && FirstDeclaration(p, a, k) && FirstDeclaration(p, b, k');
          FirstDeclarationLift(recs, a, k);
          FirstDeclarationLift(recs, b, k');
        } else {
          NewNodeFirstDeclared(g, p, r1, m1, i);
          var k: nat :| FirstDeclaration(p, a, k);
          FirstDeclarationLift(recs, a, k);
          LastRecordFirst(g, recs, r, m, r1, m1);
        }
      }
    }
  }

  /** Every node a load appends carries an id whose first record exists. */
  lemma NewNodeFirstDeclared(g: GraphData, recs: seq<NodeRecord>, r: GraphData, m: Handles, i: nat)
    requires Valid(g) && (r, m) == LoadNodes(g, recs)
    requires |g.nodes| <= i < |r.nodes|
    ensures exists k: nat :: FirstDeclaration(recs, r.nodes[i].value, k)
  {
    var id := r.nodes[i].value;
    LoadNodesKeepsValid(g, recs, r, m);
    forall j | 0 <= j < |g.nodes|
      ensures g.nodes[j].value != id
    {
      assert g.nodes[j] == r.nodes[j];
    }
    LoadNodesFirstWins(g, recs, r, m, id);
  }

  /** When the last record appends a node, it is the first record carrying its id. */
  lemma LastRecordFirst(g: GraphData, recs: seq<NodeRecord>, r: GraphData, m: Handles, r1: GraphData, m1: Handles)
    requires recs != [] && (r, m) == LoadNodes(g, recs)
    requires (r1, m1) == LoadNodes(g, recs[..|recs| - 1])
    requires forall id :: id in m1 ==> m1[id] < |r1.nodes| && r1.nodes[m1[id]].value == id
    requires forall id :: id in m1 <==> Declares(recs[..|recs| - 1], id)
    requires |r1.nodes| < |r.nodes|
    ensures |r.nodes| == |r1.nodes| + 1
    ensures FirstDeclaration(recs, r.nodes[|r1.nodes|].value, |recs| - 1)
  {
    var p, rec := recs[..|recs| - 1], recs[|recs| - 1];
    assert forall j :: 0 <= j < |r1.nodes| ==> r1.nodes[j].value != rec.id;
    assert rec.id !in m1;
    assert !Declares(p, rec.id);
    forall k' | 0 <= k' < |recs| - 1
      ensures recs[k'].id != rec.id
    {
      assert recs[k'] == p[k'];
    }
  }

  /** Loading arcs keeps the graph invariant, adds no node and keeps every
      existing edge. */
  lemma {:induction false} LoadArcsKeepsValid(g: GraphData, arcs: seq<ArcRecord>, m: Handles, r: GraphData)
    requires Valid(g) && HandlesIn(m, |g.nodes|)
    requires r == LoadArcs(g, arcs, m)
    ensures Valid(r)
    ensures r.nodes == g.nodes
    ensures g.edges <= r.edges
    decreases |arcs|
  {
    if arcs != [] {
      var p, arc := arcs[..|arcs| - 1], arcs[|arcs| - 1];
      var r1 := LoadArcs(g, p, m);
      LoadArcsKeepsValid(g, p, m, r1);
      if Resolves(arc, m) {
        InsertEdgeKeepsValid(r1, At(m[arc.from]), At(m[arc.to]), arc.length);
      }
    }
  }

  /** No arc whose two ids are mapped is lost, whatever arcs before it were
      skipped: after loading, an edge joins its two nodes. */
  lemma {:induction false} LoadArcsConnects(g: GraphData, arcs: seq<ArcRecord>, m: Handles, r: GraphData)
    requires r == LoadArcs(g, arcs, m)
    ensures forall k :: 0 <= k < |arcs| && Resolves(arcs[k], m) ==>
      exists i :: 0 <= i < |r.edges| && Joins(r.edges[i], m[arcs[k].from], m[arcs[k].to])
    decreases |arcs|
  {
    if arcs != [] {
      var p, arc := arcs[..|arcs| - 1], arcs[|arcs| - 1];
      var r1 := LoadArcs(g, p, m);
      LoadArcsConnects(g, p, m, r1);
      LoadArcsGrows(g, arcs, m, r);
      forall k | 0 <= k < |arcs| && Resolves(arcs[k], m)
        ensures exists i :: 0 <= i < |r.edges| && Joins(r.edges[i], m[arcs[k].from], m[arcs[k].to])
      {
        if k < |p| {
          assert arcs[k] == p[k];
          var i :| 0 <= i < |r1.edges| && Joins(r1.edges[i], m[p[k].from], m[p[k].to]);
          assert r.edges[i] == r1.edges[i];
        } else if FindEdge(r1.edges, m[arc.from], m[arc.to]).None? {
          assert Joins(r.edges[|r1.edges|], m[arc.from], m[arc.to]);
        }
      }
    }
  }

  /** One arc step only appends edges. */
  lemma {:induction false} LoadArcsGrows(g: GraphData, arcs: seq<ArcRecord>, m: Handles, r: GraphData)
    requires arcs != [] && r == LoadArcs(g, arcs, m)
    ensures LoadArcs(g, arcs[..|arcs| - 1], m).edges <= r.edges
  {
  }

  /** Arc `k` has both ids mapped, yields edge `e`, and is the first such
      arc for the pair of nodes `e` joins. */
  ghost predicate FirstArcFor(arcs: seq<ArcRecord>, m: Handles, e: EdgeRec, k: nat)
  {
    && k < |arcs| && Resolves(arcs[k], m)
    && e == EdgeRec(m[arcs[k].from], m[arcs[k].to], arcs[k].length)
    && forall k' :: 0 <= k' < k && Resolves(arcs[k'], m) ==> !Joins(e, m[arcs[k'].from], m[arcs[k'].to])
  }

  /** Some arc is the first to yield edge `e`. */
  ghost predicate FromSomeArc(arcs: seq<ArcRecord>, m: Handles, e: EdgeRec)
  {
    exists k: nat :: FirstArcFor(arcs, m, e, k)
  }

  /** Every edge the arcs add comes from an arc whose two ids are mapped,
      with that arc's length, and it is the first such arc for its pair of
      nodes: a later arc between the same nodes keeps the original length. */
  lemma {:induction false} LoadArcsOnlyFromArcs(g: GraphData, arcs: seq<ArcRecord>, m: Handles, r: GraphData)
    requires r == LoadArcs(g, arcs, m)
    ensures forall i :: |g.edges| <= i < |r.edges| ==> FromSomeArc(arcs, m, r.edges[i])
    decreases |arcs|
  {
    if arcs != [] {
      var p, arc := arcs[..|arcs| - 1], arcs[|arcs| - 1];
      var r1 := LoadArcs(g, p, m);
      LoadArcsOnlyFromArcs(g, p, m, r1);
      LoadArcsConnects(g, p, m, r1);
      LoadArcsGrows(g, arcs, m, r);
      forall i | |g.edges| <= i < |r.edges|
        ensures FromSomeArc(arcs, m, r.edges[i])
      {
        if i < |r1.edges| {
          assert FromSomeArc(p, m, r1.edges[i]);
          var k: nat :| FirstArcFor(p, m, r1.edges[i], k);
          assert r.edges[i] == r1.edges[i];
          assert forall k' :: 0 <= k' <= k ==> arcs[k'] == p[k'];
          assert FirstArcFor(arcs, m, r.edges[i], k);
          assert FromSomeArc(arcs, m, r.edges[i]);
        } else {
          LastArcFirst(g, arcs, m, r, r1);
          assert FirstArcFor(arcs, m, r.edges[i], |arcs| - 1);
        }
      }
    } else {
      assert r == g;
    }
  }

  /** When the last arc appends an edge, it is the first resolvable arc for
      that edge's pair of nodes. */
  lemma LastArcFirst(g: GraphData, arcs: seq<ArcRecord>, m: Handles, r: GraphData, r1: GraphData)
    requires arcs != [] && r == LoadArcs(g, arcs, m)
    requires r1 == LoadArcs(g, arcs[..|arcs| - 1], m)
    requires |r1.edges| < |r.edges|
    ensures |r.edges| == |r1.edges| + 1
    ensures FirstArcFor(arcs, m, r.edges[|r1.edges|], |arcs| - 1)
  {
    var p, arc := arcs[..|arcs| - 1], arcs[|arcs| - 1];
    LoadArcsConnects(g, p, m, r1);
    var k := |arcs| - 1;
    var e := EdgeRec(m[arc.from], m[arc.to], arc.length);
    assert Resolves(arc, m) && FindEdge(r1.edges, m[arc.from], m[arc.to]).None?;
    assert r.edges[|r1.edges|] == e;
    forall k' | 0 <= k' < k && Resolves(arcs[k'], m)
      ensures !Joins(e, m[arcs[k'].from], m[arcs[k'].to])
    {
      assert arcs[k'] == p[k'];
      var j :| 0 <= j < |r1.edges| && Joins(r1.edges[j], m[p[k'].from], m[p[k'].to]);
      assert !Joins(r1.edges[j], m[arc.from], m[arc.to]);
    }
  }

  /** The first resolvable arc for edge `e` comes before the first one for `e'`. */
  ghost predicate ArcBefore(arcs: seq<ArcRecord>, m: Handles, e: EdgeRec, e': EdgeRec)
  {
    exists k: nat, k': nat :: k < k' && FirstArcFor(arcs, m, e, k) && FirstArcFor(arcs, m, e', k')
  }

  /** A first arc for an edge among all but the last arc stays first in the whole list. */
  lemma FirstArcForLift(arcs: seq<ArcRecord>, m: Handles, e: EdgeRec, k: nat)
    requires arcs != [] && FirstArcFor(arcs[..|arcs| - 1], m, e, k)
    ensures FirstArcFor(arcs, m, e, k)
  {
    var p := arcs[..|arcs| - 1];
    assert forall k' :: 0 <= k' <= k ==> arcs[k'] == p[k'];
  }

  /** The edges a load appends keep the document order: edge `i` before edge
      `j` means the arc that produced edge `i` comes before the arc that
      produced edge `j`. */
  lemma {:induction false} LoadArcsKeepsOrder(g: GraphData, arcs: seq<ArcRecord>, m: Handles, r: GraphData)
    requires r == LoadArcs(g, arcs, m)
    ensures forall i, j :: |g.edges| <= i < j < |r.edges| ==> ArcBefore(arcs, m, r.edges[i], r.edges[j])
    decreases |arcs|
  {
    if arcs != [] {
      var p := arcs[..|arcs| - 1];
      var r1 := LoadArcs(g, p, m);
      LoadArcsKeepsOrder(g, p, m, r1);
      LoadArcsOnlyFromArcs(g, p, m, r1);
      LoadArcsGrows(g, arcs, m, r);
      forall i, j | |g.edges| <= i < j < |r.edges|
        ensures ArcBefore(arcs, m, r.edges[i], r.edges[j])
      {
        assert r.edges[i] == r1.edges[i];
        if j < |r1.edges| {
          assert r.edges[j] == r1.edges[j];
          var k: nat, k': nat :| k < k' && FirstArcFor(p, m, r1.edges[i], k) && FirstArcFor(p, m, r1.edges[j], k');
          FirstArcForLift(arcs, m, r.edges[i], k);
          FirstArcForLift(arcs, m, r.edges[j], k');
        } else {
          assert FromSomeArc(p, m, r1.edges[i]);
          var k: nat :| FirstArcFor(p, m, r1.edges[i], k);
          FirstArcForLift(arcs, m, r.edges[i], k);
          LastArcFirst(g, arcs, m, r, r1);
        }
      }
    }
  }

  /** The records of a document with a `<nodes>` element always leave the
      nodes they declare in the graph, also when `<arcs>` is missing and
      `false` is returned; the graph stays valid, and without arcs no edge
      is added. */
  lemma {:induction false} LoadKeepsNodes(g: GraphData, nodeRecs: Option<seq<NodeRecord>>, arcRecs: Option<seq<ArcRecord>>)
    requires Valid(g)
    ensures Valid(Load(g, nodeRecs, arcRecs).0)
    ensures nodeRecs.Some? ==> Load(g, nodeRecs, arcRecs).0.nodes == LoadNodes(g, nodeRecs.value).0.nodes
    ensures arcRecs.None? ==> Load(g, nodeRecs, arcRecs).0.edges == g.edges
  {
    if nodeRecs.Some? {
      var (r1, m1) := LoadNodes(g, nodeRecs.value);
      LoadNodesKeepsValid(g, nodeRecs.value, r1, m1);
      if arcRecs.Some? {
        LoadNodesMap(g, nodeRecs.value, r1, m1);
        LoadArcsKeepsValid(r1, arcRecs.value, m1, LoadArcs(r1, arcRecs.value, m1));
      }
    }
  }
}
