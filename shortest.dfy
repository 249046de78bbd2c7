/** What `Graph::dijkstra` computes and the invariant of its search loop.
    The search state is: `dist` (the `distances` map), `pred` (the
    `predecessors` map), `visited`, and the lazy priority queue `pq`.
    Two ghost quantities only serve the proof: `rank`, the order in which
    nodes were visited, and `t`, the number of visited nodes. */
module ShortestPaths {
  import opened Basics
  import opened Nodes
  import opened Edges
  import opened Network
  import opened Walks
  import opened MinQueue

  /** The largest edge length (0 for no edges). */
  function MaxLength(edges: seq<EdgeRec>): (m: int)
    ensures m >= 0
    ensures forall i :: 0 <= i < |edges| ==> edges[i].length <= m
  {
    if edges == [] then 0
    else
      var m' := MaxLength(edges[..|edges| - 1]);
      if edges[|edges| - 1].length > m' then edges[|edges| - 1].length else m'
  }

  /** Lengths are non-negative and small enough that no distance the search
      computes reaches `INT_MAX`, the value standing for "infinity". */
  ghost predicate LengthsFit(g: GraphData)
  {
    NonNegativeLengths(g.edges) && |g.nodes| * MaxLength(g.edges) < IntMax
  }

  ghost predicate Reachable(g: GraphData, s: nat, t: nat)
  {
    exists es :: Follow(g.edges, s, es) == Some(t)
  }

  /** No walk from `s` to `t` is shorter than `d`. */
  ghost predicate NoShorterWalk(g: GraphData, s: nat, t: nat, d: int)
  {
    forall es :: Follow(g.edges, s, es) == Some(t) ==> d <= WalkLength(g.edges, es)
  }

  /** `es` is a walk from `s` to `t` of minimal total length. */
  ghost predicate IsShortestWalk(g: GraphData, s: nat, t: nat, es: seq<nat>)
  {
    Follow(g.edges, s, es) == Some(t) && NoShorterWalk(g, s, t, WalkLength(g.edges, es))
  }

  /** The predecessor `u` recorded for `v`: visited before `v`, and joined
      to `v` by an adjacency entry whose edge accounts exactly for the
      difference of their distances. */
  ghost predicate PredOk(g: GraphData, start: nat, dist: map<nat, int>, visited: set<nat>,
                         rank: map<nat, nat>, u: nat, v: nat)
  {
    && u in visited && u in rank && u in dist && v in dist && u in g.adjacency
    && v != start && dist[v] < IntMax
    && (v in visited && v in rank ==> rank[u] < rank[v])
    && exists k :: 0 <= k < |g.adjacency[u]| && g.adjacency[u][k].0 == v &&
         dist[v] == dist[u] + EdgeLength(g.edges, g.adjacency[u][k].1)
  }

  /** The first `j` adjacency entries of `u` have been relaxed. */
  ghost predicate RelaxedUpTo(g: GraphData, dist: map<nat, int>, u: nat, j: int)
  {
    && u in g.adjacency && u in dist && 0 <= j <= |g.adjacency[u]|
    && forall k :: 0 <= k < j ==>
         g.adjacency[u][k].0 in dist &&
         dist[u] + EdgeLength(g.edges, g.adjacency[u][k].1) < IntMax &&
         dist[g.adjacency[u][k].0] <= dist[u] + EdgeLength(g.edges, g.adjacency[u][k].1)
  }

  ghost predicate Relaxed(g: GraphData, dist: map<nat, int>, u: nat)
  {
    u in g.adjacency && RelaxedUpTo(g, dist, u, |g.adjacency[u]|)
  }

  ghost predicate AllRelaxed(g: GraphData, dist: map<nat, int>, visited: set<nat>)
  {
    forall u :: u in visited ==> Relaxed(g, dist, u)
  }

  /** A distance and a predecessor are recorded for every node; lengths fit. */
  ghost predicate MapsOk(g: GraphData, start: nat, dist: map<nat, int>, pred: map<nat, Ref>)
  {
    && Valid(g) && start < |g.nodes| && LengthsFit(g)
    && (forall v: nat :: v < |g.nodes| ==> v in dist && v in pred && 0 <= dist[v] <= IntMax)
    && start in dist && dist[start] == 0
  }

  /** After `t` visits every finite distance is at most `t` times the largest length. */
  ghost predicate DistBounded(g: GraphData, dist: map<nat, int>, t: nat)
  {
    forall v: nat :: v < |g.nodes| && v in dist && dist[v] < IntMax ==> dist[v] <= t * MaxLength(g.edges)
  }

  /** The `t` visited nodes carry ranks below `t` and final distances. */
  ghost predicate VisitedOk(g: GraphData, start: nat, dist: map<nat, int>, visited: set<nat>,
                            rank: map<nat, nat>, t: nat)
  {
    && |visited| == t
    && (forall v :: v in visited ==> v < |g.nodes| && v in dist && dist[v] < IntMax && v in rank && rank[v] < t)
    && (forall v :: v in visited && v in dist ==> NoShorterWalk(g, start, v, dist[v]))
  }

  /** Queue entries are valid upper bounds; every unvisited node with a
      finite distance is queued at that distance; visited distances are
      no larger than any queued one. */
  ghost predicate QueueOk(g: GraphData, dist: map<nat, int>, visited: set<nat>, pq: seq<Entry>)
  {
    && (forall j :: 0 <= j < |pq| ==> pq[j].1 < |g.nodes| && pq[j].1 in dist && dist[pq[j].1] <= pq[j].0 < IntMax)
    && (forall v: nat :: v < |g.nodes| && v in dist && v !in visited && dist[v] < IntMax ==> (dist[v], v) in pq)
    && (forall u, j :: u in visited && u in dist && 0 <= j < |pq| ==> dist[u] <= pq[j].0)
  }

  /** Only `start` has a finite distance and no predecessor; every recorded
      predecessor is consistent. */
  ghost predicate PredsOk(g: GraphData, start: nat, dist: map<nat, int>, pred: map<nat, Ref>,
                          visited: set<nat>, rank: map<nat, nat>)
  {
    && (forall v: nat :: v < |g.nodes| && v in pred && v in dist && pred[v].Null? && dist[v] < IntMax ==> v == start)
    && (forall v: nat :: v < |g.nodes| && v in pred && pred[v].At? ==> PredOk(g, start, dist, visited, rank, pred[v].index, v))
  }

  /** The invariant of the search loop, apart from relaxation. */
  ghost predicate SearchInv(g: GraphData, start: nat, dist: map<nat, int>, pred: map<nat, Ref>,
                            visited: set<nat>, pq: seq<Entry>, rank: map<nat, nat>, t: nat)
  {
    && MapsOk(g, start, dist, pred)
    && DistBounded(g, dist, t)
    && VisitedOk(g, start, dist, visited, rank, t)
    && QueueOk(g, dist, visited, pq)
    && PredsOk(g, start, dist, pred, visited, rank)
  }

  /** The state while the neighbours of the node `cur` just visited are
      relaxed: `j` entries of its adjacency list are done. */
  ghost predicate RelaxState(g: GraphData, start: nat, dist: map<nat, int>, pred: map<nat, Ref>,
                             visited: set<nat>, pq: seq<Entry>, rank: map<nat, nat>, t: nat,
                             cur: nat, dcur: int, j: int)
  {
    && SearchInv(g, start, dist, pred, visited, pq, rank, t)
    && cur in visited && cur in dist && dist[cur] == dcur
    && dcur + MaxLength(g.edges) <= t * MaxLength(g.edges)
    && (forall u :: u in visited && u in dist ==> dist[u] <= dcur)
    && (forall u :: u in visited && u != cur ==> Relaxed(g, dist, u))
    && RelaxedUpTo(g, dist, cur, j)
  }

  lemma MulMono(a: nat, b: nat, c: nat)
    requires a <= b
    ensures a * c <= b * c
    decreases b - a
  {
    if a < b {
      MulMono(a + 1, b, c);
    }
  }

  /** A set of handles below `n` has at most `n` elements. */
  lemma {:induction false} SubsetOfRangeSize(s: set<nat>, n: nat)
    requires forall v :: v in s ==> v < n
    ensures |s| <= n
  {
    if n > 0 {
      var s' := s - {n - 1};
      SubsetOfRangeSize(s', n - 1);
      assert s <= s' + {n - 1};
      assert |s| <= |s' + {n - 1}| <= |s'| + 1;
    } else {
      assert s == {};
    }
  }

  /** With no parallel edges, all adjacency entries of `u` for the same
      neighbour carry the same edge. */
  lemma SameNeighbourSameEdge(g: GraphData, u: nat, k1: nat, k2: nat)
    requires Valid(g) && u in g.adjacency
    requires k1 < |g.adjacency[u]| && k2 < |g.adjacency[u]|
    requires g.adjacency[u][k1].0 == g.adjacency[u][k2].0
    ensures g.adjacency[u][k1].1 == g.adjacency[u][k2].1
  {
    var v, e1, e2 := g.adjacency[u][k1].0, g.adjacency[u][k1].1, g.adjacency[u][k2].1;
    assert Joins(g.edges[e1], u, v) && Joins(g.edges[e2], u, v);
    if e1 < e2 {
      assert false;
    } else if e2 < e1 {
      assert false;
    }
  }

  /** The state the search starts from: every distance `INT_MAX` except
      0 for `start`, no predecessors, nothing visited, `start` queued. */
  lemma InitInv(g: GraphData, start: nat, dist: map<nat, int>, pred: map<nat, Ref>)
    requires Valid(g) && start < |g.nodes| && LengthsFit(g)
    requires forall v: nat :: v < |g.nodes| ==> v in dist && v in pred && pred[v] == Null
    requires forall v: nat :: v < |g.nodes| ==> dist[v] == if v == start then 0 else IntMax
    ensures SearchInv(g, start, dist, pred, {}, [(0, start)], map[], 0)
    ensures AllRelaxed(g, dist, {})
  {
    assert (dist[start], start) == [(0, start)][0];
  }

  /** Every walk from `start` to a node not yet visited is at least as long
      as some queued distance. */
  lemma {:induction false} Frontier(g: GraphData, start: nat, dist: map<nat, int>, pred: map<nat, Ref>,
                                    visited: set<nat>, pq: seq<Entry>, rank: map<nat, nat>, t: nat,
                                    es: seq<nat>, x: nat)
    requires SearchInv(g, start, dist, pred, visited, pq, rank, t) && AllRelaxed(g, dist, visited)
    requires Follow(g.edges, start, es) == Some(x) && x !in visited
    ensures exists j :: 0 <= j < |pq| && pq[j].0 <= WalkLength(g.edges, es)
    decreases |es|
  {
    if es == [] {
      assert (dist[start], start) in pq;
      var j :| 0 <= j < |pq| && pq[j] == (dist[start], start);
    } else {
      var p, e := es[..|es| - 1], es[|es| - 1];
      assert es == p + [e];
      FollowAppend(g.edges, start, p, e);
      var y := Follow(g.edges, start, p).value;
      FollowStaysInGraph(g, start, p);
      FollowStaysInGraph(g, start, es);
      assert Step(g.edges, y, e) == Some(x);
      assert EdgeLength(g.edges, e) >= 0;
      if y in visited {
        assert dist[y] <= WalkLength(g.edges, p);
        StepIsAdjacency(g, y, x, e);
        var k :| 0 <= k < |g.adjacency[y]| && g.adjacency[y][k] == (x, e);
        assert Relaxed(g, dist, y);
        assert dist[x] <= dist[y] + EdgeLength(g.edges, e) < IntMax;
        assert (dist[x], x) in pq;
        var j :| 0 <= j < |pq| && pq[j] == (dist[x], x);
      } else {
        Frontier(g, start, dist, pred, visited, pq, rank, t, p, y);
      }
    }
  }

  /** Popping the entry at `k` and marking its node visited keeps the queue
      facts when that node was queued at its own distance. */
  lemma PopQueue(g: GraphData, dist: map<nat, int>, visited: set<nat>, pq: seq<Entry>, k: nat)
    requires QueueOk(g, dist, visited, pq)
    requires |pq| > 0 && k == ArgMin(pq)
    requires pq[k].1 in dist && dist[pq[k].1] == pq[k].0
    ensures QueueOk(g, dist, visited + {pq[k].1}, RemoveAt(pq, k))
  {
    var cur := pq[k].1;
    var pq' := RemoveAt(pq, k);
    forall j | 0 <= j < |pq'|
      ensures pq'[j] in pq
    {
      RemoveAtOnlyRemoves(pq, k, j);
    }
    forall v: nat | v < |g.nodes| && v in dist && v !in visited + {cur} && dist[v] < IntMax
      ensures (dist[v], v) in pq'
    {
      RemoveAtKeeps(pq, k, (dist[v], v));
    }
    forall u, j | u in visited + {cur} && u in dist && 0 <= j < |pq'|
      ensures dist[u] <= pq'[j].0
    {
      var j' :| 0 <= j' < |pq| && pq[j'] == pq'[j];
      assert EntryLe(pq[k], pq[j']);
    }
  }

  /** Popping an entry whose node was already visited keeps the invariant
      (the `continue` of the lazy deletion). */
  lemma PopVisitedInv(g: GraphData, start: nat, dist: map<nat, int>, pred: map<nat, Ref>,
                      visited: set<nat>, pq: seq<Entry>, rank: map<nat, nat>, t: nat, k: nat)
    requires SearchInv(g, start, dist, pred, visited, pq, rank, t)
    requires |pq| > 0 && k == ArgMin(pq) && pq[k].1 in visited
    ensures SearchInv(g, start, dist, pred, visited, RemoveAt(pq, k), rank, t)
  {
    var pq' := RemoveAt(pq, k);
    forall j | 0 <= j < |pq'|
      ensures pq'[j] in pq
    {
      RemoveAtOnlyRemoves(pq, k, j);
    }
    forall v: nat | v < |g.nodes| && v in dist && v !in visited && dist[v] < IntMax
      ensures (dist[v], v) in pq'
    {
      RemoveAtKeeps(pq, k, (dist[v], v));
    }
  }

  /** The least entry of the queue names an unvisited node at its recorded
      distance, which no visited distance exceeds. */
  lemma LeastEntry(g: GraphData, dist: map<nat, int>, visited: set<nat>, pq: seq<Entry>, k: nat)
    requires QueueOk(g, dist, visited, pq)
    requires |pq| > 0 && k == ArgMin(pq) && pq[k].1 !in visited
    ensures pq[k].1 < |g.nodes| && pq[k].1 in dist && dist[pq[k].1] == pq[k].0 < IntMax
    ensures forall u :: u in visited && u in dist ==> dist[u] <= pq[k].0
  {
    var cur := pq[k].1;
    assert (dist[cur], cur) in pq;
    var i :| 0 <= i < |pq| && pq[i] == (dist[cur], cur);
    assert EntryLe(pq[k], pq[i]);
  }

  /** The distance of the least queued unvisited node is final. */
  lemma LeastIsFinal(g: GraphData, start: nat, dist: map<nat, int>, pred: map<nat, Ref>,
                     visited: set<nat>, pq: seq<Entry>, rank: map<nat, nat>, t: nat, k: nat)
    requires SearchInv(g, start, dist, pred, visited, pq, rank, t) && AllRelaxed(g, dist, visited)
    requires |pq| > 0 && k == ArgMin(pq) && pq[k].1 !in visited
    requires pq[k].1 in dist && dist[pq[k].1] == pq[k].0
    ensures NoShorterWalk(g, start, pq[k].1, pq[k].0)
  {
    var cur := pq[k].1;
    forall es | Follow(g.edges, start, es) == Some(cur)
      ensures pq[k].0 <= WalkLength(g.edges, es)
    {
      Frontier(g, start, dist, pred, visited, pq, rank, t, es, cur);
      var j :| 0 <= j < |pq| && pq[j].0 <= WalkLength(g.edges, es);
      assert EntryLe(pq[k], pq[j]);
    }
  }

  /** Marking `cur` visited with rank `t`. */
  lemma VisitedGrows(g: GraphData, start: nat, dist: map<nat, int>, visited: set<nat>,
                     rank: map<nat, nat>, t: nat, cur: nat)
    requires VisitedOk(g, start, dist, visited, rank, t)
    requires cur < |g.nodes| && cur !in visited && cur in dist && dist[cur] < IntMax
    requires NoShorterWalk(g, start, cur, dist[cur])
    ensures VisitedOk(g, start, dist, visited + {cur}, rank[cur := t], t + 1)
  {
  }

  /** Recorded predecessors stay consistent when `cur` is visited after all
      nodes visited so far. */
  lemma PredsGrow(g: GraphData, start: nat, dist: map<nat, int>, pred: map<nat, Ref>,
                  visited: set<nat>, rank: map<nat, nat>, t: nat, cur: nat)
    requires PredsOk(g, start, dist, pred, visited, rank)
    requires VisitedOk(g, start, dist, visited, rank, t)
    requires cur !in visited
    ensures PredsOk(g, start, dist, pred, visited + {cur}, rank[cur := t])
  {
    var visited', rank' := visited + {cur}, rank[cur := t];
    forall v: nat | v < |g.nodes| && v in pred && pred[v].At?
      ensures PredOk(g, start, dist, visited', rank', pred[v].index, v)
    {
      assert PredOk(g, start, dist, visited, rank, pred[v].index, v);
    }
  }

  /** One more visit raises the distance bound by one largest length. */
  lemma BoundGrows(g: GraphData, dist: map<nat, int>, t: nat, d: int)
    requires DistBounded(g, dist, t) && d <= t * MaxLength(g.edges)
    ensures DistBounded(g, dist, t + 1)
    ensures d + MaxLength(g.edges) <= (t + 1) * MaxLength(g.edges)
  {
    var L := MaxLength(g.edges);
    assert (t + 1) * L == t * L + L;
  }

  /** Visiting the node of the least entry: its distance is final (no walk
      is shorter), and the invariant holds with it added to `visited`. */
  lemma VisitInv(g: GraphData, start: nat, dist: map<nat, int>, pred: map<nat, Ref>,
                 visited: set<nat>, pq: seq<Entry>, rank: map<nat, nat>, t: nat, k: nat, cur: nat)
    requires SearchInv(g, start, dist, pred, visited, pq, rank, t) && AllRelaxed(g, dist, visited)
    requires |pq| > 0 && k == ArgMin(pq) && cur == pq[k].1 && cur !in visited
    ensures cur < |g.nodes| && cur in dist && dist[cur] == pq[k].0
    ensures NoShorterWalk(g, start, cur, dist[cur])
    ensures RelaxState(g, start, dist, pred, visited + {cur}, RemoveAt(pq, k), rank[cur := t], t + 1,
                       cur, dist[cur], 0)
  {
    LeastEntry(g, dist, visited, pq, k);
    LeastIsFinal(g, start, dist, pred, visited, pq, rank, t, k);
    PopQueue(g, dist, visited, pq, k);
    VisitedGrows(g, start, dist, visited, rank, t, cur);
    PredsGrow(g, start, dist, pred, visited, rank, t, cur);
    BoundGrows(g, dist, t, dist[cur]);
  }

  /** Lowering distances of nodes other than `u` keeps the relaxed prefix of `u`. */
  lemma RelaxedUpToMono(g: GraphData, dist: map<nat, int>, dist': map<nat, int>, u: nat, j: int)
    requires RelaxedUpTo(g, dist, u, j)
    requires u in dist' && dist'[u] == dist[u]
    requires forall v :: v in dist ==> v in dist' && dist'[v] <= dist[v]
    ensures RelaxedUpTo(g, dist', u, j)
  {
  }

  /** A lowered distance `nd` of an unvisited node `nb`, with its new queue
      entry, keeps the queue facts. */
  lemma RelaxQueue(g: GraphData, dist: map<nat, int>, visited: set<nat>, pq: seq<Entry>, nb: nat, nd: int)
    requires QueueOk(g, dist, visited, pq)
    requires nb < |g.nodes| && nb in dist && nd < dist[nb] && nd < IntMax && nb !in visited
    requires forall u :: u in visited && u in dist ==> dist[u] <= nd
    ensures QueueOk(g, dist[nb := nd], visited, pq + [(nd, nb)])
  {
    var dist', pq' := dist[nb := nd], pq + [(nd, nb)];
    forall v: nat | v < |g.nodes| && v in dist' && v !in visited && dist'[v] < IntMax
      ensures (dist'[v], v) in pq'
    {
      if v != nb {
        assert (dist[v], v) in pq;
      } else {
        assert pq'[|pq|] == (dist'[v], v);
      }
    }
  }

  /** Recording `cur` as predecessor of `nb` through adjacency entry `j`
      keeps the predecessor facts. */
  lemma RelaxPreds(g: GraphData, start: nat, dist: map<nat, int>, pred: map<nat, Ref>,
                   visited: set<nat>, rank: map<nat, nat>, cur: nat, j: nat, nd: int)
    requires PredsOk(g, start, dist, pred, visited, rank)
    requires cur in visited && cur in rank && cur in dist && cur in g.adjacency && j < |g.adjacency[cur]|
    requires var nb := g.adjacency[cur][j].0;
      nb in dist && nb !in visited && nb != start && nd < IntMax && nb != cur &&
      nd == dist[cur] + EdgeLength(g.edges, g.adjacency[cur][j].1)
    ensures var nb := g.adjacency[cur][j].0;
      PredsOk(g, start, dist[nb := nd], pred[nb := At(cur)], visited, rank)
  {
    var nb := g.adjacency[cur][j].0;
    var dist', pred' := dist[nb := nd], pred[nb := At(cur)];
    forall v: nat | v < |g.nodes| && v in pred' && pred'[v].At?
      ensures PredOk(g, start, dist', visited, rank, pred'[v].index, v)
    {
      if v == nb {
        assert g.adjacency[cur][j].0 == v && dist'[v] == dist'[cur] + EdgeLength(g.edges, g.adjacency[cur][j].1);
      } else {
        var u := pred[v].index;
        assert PredOk(g, start, dist, visited, rank, u, v);
        var k :| 0 <= k < |g.adjacency[u]| && g.adjacency[u][k].0 == v &&
                 dist[v] == dist[u] + EdgeLength(g.edges, g.adjacency[u][k].1);
        assert dist'[v] == dist'[u] + EdgeLength(g.edges, g.adjacency[u][k].1);
      }
    }
  }

  /** The new distance through entry `j` of `cur` is a proper distance below `INT_MAX`. */
  lemma RelaxBound(g: GraphData, start: nat, dist: map<nat, int>, pred: map<nat, Ref>,
                   visited: set<nat>, pq: seq<Entry>, rank: map<nat, nat>, t: nat,
                   cur: nat, dcur: int, j: nat)
    requires RelaxState(g, start, dist, pred, visited, pq, rank, t, cur, dcur, j)
    requires j < |g.adjacency[cur]|
    ensures var nb, e := g.adjacency[cur][j].0, g.adjacency[cur][j].1;
      var nd := dcur + EdgeLength(g.edges, e);
      && nb < |g.nodes| && e < |g.edges| && 0 <= dcur <= nd <= t * MaxLength(g.edges) && nd < IntMax
  {
    var e := g.adjacency[cur][j].1;
    var L := MaxLength(g.edges);
    assert 0 <= EdgeLength(g.edges, e) <= L;
    SubsetOfRangeSize(visited, |g.nodes|);
    MulMono(t, |g.nodes|, L);
  }

  /** Relaxing the `j`-th neighbour entry of `cur` keeps the state, with
      one more entry done; the new distance stays below `INT_MAX`. */
  lemma RelaxStep(g: GraphData, start: nat, dist: map<nat, int>, pred: map<nat, Ref>,
                  visited: set<nat>, pq: seq<Entry>, rank: map<nat, nat>, t: nat,
                  cur: nat, dcur: int, j: nat, nb: nat, nd: int)
    requires RelaxState(g, start, dist, pred, visited, pq, rank, t, cur, dcur, j)
    requires j < |g.adjacency[cur]| && g.adjacency[cur][j].0 == nb
    requires nd == dcur + EdgeLength(g.edges, g.adjacency[cur][j].1)
    ensures nb < |g.nodes| && g.adjacency[cur][j].1 < |g.edges| && 0 <= nd < IntMax
    ensures nd < dist[nb] ==>
      RelaxState(g, start, dist[nb := nd], pred[nb := At(cur)], visited, pq + [(nd, nb)],
                 rank, t, cur, dcur, j + 1)
    ensures nd >= dist[nb] ==> RelaxState(g, start, dist, pred, visited, pq, rank, t, cur, dcur, j + 1)
  {
    RelaxBound(g, start, dist, pred, visited, pq, rank, t, cur, dcur, j);
    if nd < dist[nb] {
      RelaxUpdate(g, start, dist, pred, visited, pq, rank, t, cur, dcur, j, nb, nd);
    } else {
      RelaxedExtend(g, dist, cur, j);
    }
  }

  /** The update when the new distance is smaller. */
  lemma RelaxUpdate(g: GraphData, start: nat, dist: map<nat, int>, pred: map<nat, Ref>,
                    visited: set<nat>, pq: seq<Entry>, rank: map<nat, nat>, t: nat,
                    cur: nat, dcur: int, j: nat, nb: nat, nd: int)
    requires RelaxState(g, start, dist, pred, visited, pq, rank, t, cur, dcur, j)
    requires j < |g.adjacency[cur]| && g.adjacency[cur][j].0 == nb
    requires nd == dcur + EdgeLength(g.edges, g.adjacency[cur][j].1)
    requires nb < |g.nodes| && 0 <= dcur <= nd <= t * MaxLength(g.edges) && nd < IntMax && nd < dist[nb]
    ensures RelaxState(g, start, dist[nb := nd], pred[nb := At(cur)], visited, pq + [(nd, nb)],
                       rank, t, cur, dcur, j + 1)
  {
    var dist', pred', pq' := dist[nb := nd], pred[nb := At(cur)], pq + [(nd, nb)];
    assert nb !in visited && nb != start && nb != cur;
    RelaxMaps(g, start, dist, pred, nb, nd, cur);
    RelaxBounded(g, dist, t, nb, nd);
    RelaxVisited(g, start, dist, visited, rank, t, nb, nd);
    RelaxQueue(g, dist, visited, pq, nb, nd);
    RelaxPreds(g, start, dist, pred, visited, rank, cur, j, nd);
    forall u | u in visited && u != cur
      ensures Relaxed(g, dist', u)
    {
      assert Relaxed(g, dist, u);
      RelaxedUpToMono(g, dist, dist', u, |g.adjacency[u]|);
    }
    RelaxedUpToMono(g, dist, dist', cur, j);
    RelaxedExtend(g, dist', cur, j);
  }

  /** Entry `j` of `u` relaxed extends the relaxed prefix by one. */
  lemma RelaxedExtend(g: GraphData, dist: map<nat, int>, u: nat, j: nat)
    requires RelaxedUpTo(g, dist, u, j) && j < |g.adjacency[u]|
    requires g.adjacency[u][j].0 in dist
    requires dist[u] + EdgeLength(g.edges, g.adjacency[u][j].1) < IntMax
    requires dist[g.adjacency[u][j].0] <= dist[u] + EdgeLength(g.edges, g.adjacency[u][j].1)
    ensures RelaxedUpTo(g, dist, u, j + 1)
  {
  }

  lemma RelaxMaps(g: GraphData, start: nat, dist: map<nat, int>, pred: map<nat, Ref>, nb: nat, nd: int, cur: nat)
    requires MapsOk(g, start, dist, pred)
    requires nb < |g.nodes| && nb != start && 0 <= nd < IntMax
    ensures MapsOk(g, start, dist[nb := nd], pred[nb := At(cur)])
  {
  }

  lemma RelaxBounded(g: GraphData, dist: map<nat, int>, t: nat, nb: nat, nd: int)
    requires DistBounded(g, dist, t) && nd <= t * MaxLength(g.edges)
    ensures DistBounded(g, dist[nb := nd], t)
  {
  }

  lemma RelaxVisited(g: GraphData, start: nat, dist: map<nat, int>, visited: set<nat>,
                     rank: map<nat, nat>, t: nat, nb: nat, nd: int)
    requires VisitedOk(g, start, dist, visited, rank, t) && nb !in visited
    ensures VisitedOk(g, start, dist[nb := nd], visited, rank, t)
  {
  }

  /** Once the loop has ended without reaching `end` (the queue is empty),
      `end` is unreachable. */
  lemma ExhaustedUnreachable(g: GraphData, start: nat, dist: map<nat, int>, pred: map<nat, Ref>,
                             visited: set<nat>, rank: map<nat, nat>, t: nat, end: nat)
    requires SearchInv(g, start, dist, pred, visited, [], rank, t) && AllRelaxed(g, dist, visited)
    requires end < |g.nodes| && end !in visited
    ensures !Reachable(g, start, end)
    ensures dist[end] == IntMax && pred[end] == Null
  {
    if Reachable(g, start, end) {
      var es :| Follow(g.edges, start, es) == Some(end);
      Frontier(g, start, dist, pred, visited, [], rank, t, es, end);
    }
  }

  /** What the search recorded about the predecessor `prev` of `at`. */
  lemma PredFacts(g: GraphData, start: nat, dist: map<nat, int>, pred: map<nat, Ref>,
                  visited: set<nat>, pq: seq<Entry>, rank: map<nat, nat>, t: nat, at: nat, prev: nat)
    requires SearchInv(g, start, dist, pred, visited, pq, rank, t)
    requires at < |g.nodes| && pred[at] == At(prev)
    ensures prev < |g.nodes| && prev in visited && prev in g.adjacency && prev in rank && rank[prev] < t
    ensures at in visited ==> at in rank && rank[prev] < rank[at]
    ensures at != start && dist[at] < IntMax
    ensures exists k :: 0 <= k < |g.adjacency[prev]| && g.adjacency[prev][k].0 == at
  {
    assert PredOk(g, start, dist, visited, rank, prev, at);
  }

  /** One step of the path reconstruction: the edge of the first adjacency
      entry of `prev` that leads to `at` extends the backward walk from
      `end` to `prev`, and accounts for the difference of distances. */
  lemma BackStep(g: GraphData, start: nat, dist: map<nat, int>, pred: map<nat, Ref>,
                 visited: set<nat>, pq: seq<Entry>, rank: map<nat, nat>, t: nat,
                 end: nat, path: seq<nat>, at: nat, prev: nat, i: nat)
    requires SearchInv(g, start, dist, pred, visited, pq, rank, t)
    requires at < |g.nodes| && pred[at] == At(prev)
    requires prev in g.adjacency && i < |g.adjacency[prev]| && g.adjacency[prev][i].0 == at
    requires end in dist && Follow(g.edges, end, path) == Some(at)
    requires WalkLength(g.edges, path) + dist[at] == dist[end]
    ensures Follow(g.edges, end, path + [g.adjacency[prev][i].1]) == Some(prev)
    ensures WalkLength(g.edges, path + [g.adjacency[prev][i].1]) + dist[prev] == dist[end]
  {
    assert PredOk(g, start, dist, visited, rank, prev, at);
    var k :| 0 <= k < |g.adjacency[prev]| && g.adjacency[prev][k].0 == at &&
             dist[at] == dist[prev] + EdgeLength(g.edges, g.adjacency[prev][k].1);
    SameNeighbourSameEdge(g, prev, i, k);
    var e := g.adjacency[prev][i].1;
    assert (at, e) in g.adjacency[prev];
    StepIsAdjacency(g, prev, at, e);
    StepBack(g.edges, prev, e);
    FollowAppend(g.edges, end, path, e);
  }

  /** When the reconstruction stops at a visited node without predecessor,
      that node is `start`, and the reversed edge list is a shortest walk
      from `start` to `end`. */
  lemma TraceComplete(g: GraphData, start: nat, dist: map<nat, int>, pred: map<nat, Ref>,
                      visited: set<nat>, pq: seq<Entry>, rank: map<nat, nat>, t: nat,
                      end: nat, path: seq<nat>, at: nat)
    requires SearchInv(g, start, dist, pred, visited, pq, rank, t)
    requires end in visited && at in visited && pred[at].Null?
    requires Follow(g.edges, end, path) == Some(at)
    requires WalkLength(g.edges, path) + dist[at] == dist[end]
    ensures at == start
    ensures IsShortestWalk(g, start, end, Reverse(path))
  {
    FollowReverse(g.edges, end, path, start);
  }
}
