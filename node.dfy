/** A map node: an integer id (`m_value`) and an integer position (`m_pos`).
    Inside the graph a `Node*` becomes a handle, the node's index in the
    graph's node arena; `Ref` is a handle that may also be null. */
module Nodes {

  datatype Point = Point(x: int, y: int)

  /** A `Node*`: null, or the handle of a node of the graph. */
  datatype Ref = Null | At(index: nat)

  /** The field values of one node, as the graph's arena stores them. */
  datatype NodeState = NodeState(value: int, pos: Point)

  /** `operator==`: two nodes compare equal exactly when they stand at the
      same position; their ids play no part. */
  predicate SamePlace(a: NodeState, b: NodeState)
  {
    a.pos == b.pos
  }

  /** Equality by position identifies nodes that carry different ids. */
  lemma SamePlaceIgnoresIds(p: Point, id1: int, id2: int)
    ensures SamePlace(NodeState(id1, p), NodeState(id2, p))
  {
  }

  /** Being position equality, `operator==` is reflexive, symmetric and transitive. */
  lemma SamePlaceIsEquivalence(a: NodeState, b: NodeState, c: NodeState)
    ensures SamePlace(a, a)
    ensures SamePlace(a, b) ==> SamePlace(b, a)
    ensures SamePlace(a, b) && SamePlace(b, c) ==> SamePlace(a, c)
  {
  }

  class Node {
    var value: int
    var pos: Point

    function State(): NodeState
      reads this
    {
      NodeState(value, pos)
    }

    /** Graph::addNode creates a node and at once sets its id and position;
        this constructor stands for that sequence. */
    constructor (id: int, p: Point)
      ensures value == id && pos == p
    {
      value := id;
      pos := p;
    }

    method GetValue() returns (v: int)
      ensures v == value
    {
      v := value;
    }

    method GetPos() returns (p: Point)
      ensures p == pos
    {
      p := pos;
    }

    method SetValue(n: int)
      modifies this
      ensures value == n && pos == old(pos)
    {
      value := n;
    }

    method SetPos(p: Point)
      modifies this
      ensures pos == p && value == old(value)
    {
      pos := p;
    }

    /** `operator==` */
    method Equals(other: Node) returns (eq: bool)
      ensures eq <==> SamePlace(State(), other.State())
    {
      eq := pos == other.pos;
    }
  }
}
