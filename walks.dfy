/** Walks through the road network: a sequence of edge handles followed
    from a start node, each edge leaving the node the previous one reached.
    Edges are undirected, so an edge may be crossed in either direction. */
module Walks {
  import opened Basics
  import opened Edges
  import opened Network

  /** Crossing edge `e` from node `a`: the node reached, or None when `e`
      is no edge or does not touch `a`. */
  function Step(edges: seq<EdgeRec>, a: nat, e: nat): (r: Option<nat>)
    ensures r.Some? ==> e < |edges| && Joins(edges[e], a, r.value)
    ensures e < |edges| && (edges[e].first == a || edges[e].second == a) ==> r.Some?
  {
    if e < |edges| && (edges[e].first == a || edges[e].second == a) then Some(OtherEnd(edges[e], a))
    else None
  }

  /** The node reached by following `es` from `s`, or None when the edges
      do not form a chain starting at `s`. */
  function Follow(edges: seq<EdgeRec>, s: nat, es: seq<nat>): Option<nat>
  {
    if es == [] then Some(s)
    else
      match Follow(edges, s, es[..|es| - 1])
      case None => None
      case Some(v) => Step(edges, v, es[|es| - 1])
  }

  /** Length of an edge handle; a handle outside the edge list counts 0. */
  function EdgeLength(edges: seq<EdgeRec>, e: nat): int
  {
    if e < |edges| then edges[e].length else 0
  }

  /** Total length of the edges of a walk. */
  function WalkLength(edges: seq<EdgeRec>, es: seq<nat>): int
  {
    if es == [] then 0 else WalkLength(edges, es[..|es| - 1]) + EdgeLength(edges, es[|es| - 1])
  }

  /** The walk backwards: the edges in the opposite order. */
  function Reverse(es: seq<nat>): (r: seq<nat>)
    ensures |r| == |es|
    ensures forall i :: 0 <= i < |es| ==> r[i] == es[|es| - 1 - i]
  {
    if es == [] then [] else [es[|es| - 1]] + Reverse(es[..|es| - 1])
  }

  ghost predicate NonNegativeLengths(edges: seq<EdgeRec>)
  {
    forall i :: 0 <= i < |edges| ==> edges[i].length >= 0
  }

  lemma FollowAppend(edges: seq<EdgeRec>, s: nat, es: seq<nat>, e: nat)
    ensures Follow(edges, s, es + [e]) ==
      (match Follow(edges, s, es) case None => None case Some(v) => Step(edges, v, e))
    ensures WalkLength(edges, es + [e]) == WalkLength(edges, es) + EdgeLength(edges, e)
  {
    assert (es + [e])[..|es|] == es;
  }

  /** A walk that begins with edge `e` is a step across `e` and then the rest. */
  lemma {:induction false} FollowPrepend(edges: seq<EdgeRec>, s: nat, e: nat, es: seq<nat>)
    ensures Follow(edges, s, [e] + es) ==
      (match Step(edges, s, e) case None => None case Some(v) => Follow(edges, v, es))
    ensures WalkLength(edges, [e] + es) == EdgeLength(edges, e) + WalkLength(edges, es)
    decreases |es|
  {
    if es == [] {
      assert [e] + es == [] + [e];
      FollowAppend(edges, s, [], e);
    } else {
      var p, last := es[..|es| - 1], es[|es| - 1];
      assert es == p + [last];
      assert [e] + es == ([e] + p) + [last];
      FollowPrepend(edges, s, e, p);
      FollowAppend(edges, s, [e] + p, last);
      match Step(edges, s, e)
      case None =>
      case Some(v) =>
        FollowAppend(edges, v, p, last);
    }
  }

  /** Crossing an edge is undone by crossing it back. */
  lemma StepBack(edges: seq<EdgeRec>, a: nat, e: nat)
    requires Step(edges, a, e).Some?
    ensures Step(edges, Step(edges, a, e).value, e) == Some(a)
  {
  }

  /** A walk from `s` to `t`, taken backwards, is a walk from `t` to `s` of the same length. */
  lemma {:induction false} FollowReverse(edges: seq<EdgeRec>, s: nat, es: seq<nat>, t: nat)
    requires Follow(edges, s, es) == Some(t)
    ensures Follow(edges, t, Reverse(es)) == Some(s)
    ensures WalkLength(edges, Reverse(es)) == WalkLength(edges, es)
    decreases |es|
  {
    if es != [] {
      var p, last := es[..|es| - 1], es[|es| - 1];
      var v := Follow(edges, s, p).value;
      assert Step(edges, v, last) == Some(t);
      StepBack(edges, v, last);
      FollowReverse(edges, s, p, v);
      FollowPrepend(edges, t, last, Reverse(p));
    }
  }

  /** In a valid graph a walk from a node of the graph stays inside the graph. */
  lemma {:induction false} FollowStaysInGraph(g: GraphData, s: nat, es: seq<nat>)
    requires Valid(g) && s < |g.nodes|
    requires Follow(g.edges, s, es).Some?
    ensures Follow(g.edges, s, es).value < |g.nodes|
    decreases |es|
  {
    if es != [] {
      FollowStaysInGraph(g, s, es[..|es| - 1]);
    }
  }

  /** Each step of a walk in a valid graph follows an adjacency entry, and
      each adjacency entry is a step. */
  lemma StepIsAdjacency(g: GraphData, a: nat, b: nat, e: nat)
    requires Valid(g) && a < |g.nodes|
    ensures Step(g.edges, a, e) == Some(b) <==> (b, e) in g.adjacency[a]
  {
    if Step(g.edges, a, e) == Some(b) {
      assert (g.edges[e].second, e) in g.adjacency[g.edges[e].first];
      assert (g.edges[e].first, e) in g.adjacency[g.edges[e].second];
    }
    if (b, e) in g.adjacency[a] {
      var k :| 0 <= k < |g.adjacency[a]| && g.adjacency[a][k] == (b, e);
      assert Joins(g.edges[e], a, b);
    }
  }

  /** The i-th edge of a walk from `s` joins the node reached after i edges
      to the node reached after i + 1 edges through an adjacency entry. */
  lemma {:induction false} WalkFollowsAdjacency(g: GraphData, s: nat, es: seq<nat>, i: nat)
    requires Valid(g) && s < |g.nodes|
    requires Follow(g.edges, s, es).Some? && i < |es|
    ensures Follow(g.edges, s, es[..i]).Some? && Follow(g.edges, s, es[..i + 1]).Some?
    ensures Follow(g.edges, s, es[..i]).value < |g.nodes|
    ensures (Follow(g.edges, s, es[..i + 1]).value, es[i]) in g.adjacency[Follow(g.edges, s, es[..i]).value]
    decreases |es|
  {
    if i + 1 < |es| {
      var p := es[..|es| - 1];
      assert p[..i] == es[..i] && p[..i + 1] == es[..i + 1];
      WalkFollowsAdjacency(g, s, p, i);
    } else {
      assert es[..i + 1] == es;
      assert es[..i] == es[..|es| - 1];
      FollowStaysInGraph(g, s, es[..i]);
      StepIsAdjacency(g, Follow(g.edges, s, es[..i]).value, Follow(g.edges, s, es).value, es[i]);
    }
  }
}
