/** A road: two node references and an integer length. */
module Edges {
  import opened Nodes

  /** The field values of one edge as the graph's arena stores them; the
      graph only ever creates edges between two existing nodes, so both ends
      are handles. */
  datatype EdgeRec = EdgeRec(first: nat, second: nat, length: int)

  /** The edge runs between `a` and `b`, in either orientation. */
  predicate Joins(e: EdgeRec, a: nat, b: nat)
  {
    (e.first == a && e.second == b) || (e.first == b && e.second == a)
  }

  /** The end of `e` opposite to `a` (for a loop, `a` itself). */
  function OtherEnd(e: EdgeRec, a: nat): (b: nat)
    requires a == e.first || a == e.second
    ensures Joins(e, a, b)
  {
    if e.first == a then e.second else e.first
  }

  class Edge {
    var first: Ref
    var second: Ref
    var length: int

    /** `Edge(f, s, length)` */
    constructor (f: Ref, s: Ref, len: int)
      ensures first == f && second == s && length == len
    {
      first, second, length := f, s, len;
    }

    method GetFirst() returns (f: Ref)
      ensures f == first
    {
      f := first;
    }

    method SetFirst(f: Ref)
      modifies this
      ensures first == f && second == old(second) && length == old(length)
    {
      first := f;
    }

    method GetSecond() returns (s: Ref)
      ensures s == second
    {
      s := second;
    }

    method SetSecond(s: Ref)
      modifies this
      ensures second == s && first == old(first) && length == old(length)
    {
      second := s;
    }

    method GetLength() returns (len: int)
      ensures len == length
    {
      len := length;
    }

    method SetLength(len: int)
      modifies this
      ensures length == len && first == old(first) && second == old(second)
    {
      length := len;
    }
  }
}
