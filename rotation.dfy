/** `Graph::rotateGraph90Right` as a function on the node states: every
    node is turned a quarter turn about the truncated centre of the
    bounding box of all positions, using integer arithmetic only. */
module Rotation {
  import opened Basics
  import opened Nodes

  /** Coordinates of at most this magnitude keep every intermediate value
      of the rotation (`minX + maxX`, the translated and the final
      coordinates) inside a 32-bit `int`. */
  const CoordLimit: int := 0x2000_0000

  predicate InCoordRange(p: Point)
  {
    -CoordLimit <= p.x <= CoordLimit && -CoordLimit <= p.y <= CoordLimit
  }

  predicate CoordsInRange(ns: seq<NodeState>)
  {
    forall i :: 0 <= i < |ns| ==> InCoordRange(ns[i].pos)
  }

  function Xs(ns: seq<NodeState>): (xs: seq<int>)
    ensures |xs| == |ns| && forall i :: 0 <= i < |ns| ==> xs[i] == ns[i].pos.x
  {
    seq(|ns|, i requires 0 <= i < |ns| => ns[i].pos.x)
  }

  function Ys(ns: seq<NodeState>): (ys: seq<int>)
    ensures |ys| == |ns| && forall i :: 0 <= i < |ns| ==> ys[i] == ns[i].pos.y
  {
    seq(|ns|, i requires 0 <= i < |ns| => ns[i].pos.y)
  }

  /** `(minX + maxX) / 2`, `(minY + maxY) / 2` with C++ truncation. */
  function Center(ns: seq<NodeState>): Point
    requires |ns| > 0
  {
    Point(Half(MinOf(Xs(ns)) + MaxOf(Xs(ns))), Half(MinOf(Ys(ns)) + MaxOf(Ys(ns))))
  }

  /** Translate so that `c` is the origin, map (dx, dy) to (dy, -dx), translate back. */
  function RotatePoint(p: Point, c: Point): Point
  {
    var dx := p.x - c.x;
    var dy := p.y - c.y;
    Point(dy + c.x, -dx + c.y)
  }

  function SquaredDistance(p: Point, q: Point): int
  {
    (p.x - q.x) * (p.x - q.x) + (p.y - q.y) * (p.y - q.y)
  }

  /** Every position turned about the same point `c`; ids unchanged. */
  function TurnAll(ns: seq<NodeState>, c: Point): (r: seq<NodeState>)
    ensures |r| == |ns|
    ensures forall i :: 0 <= i < |ns| ==> r[i] == ns[i].(pos := RotatePoint(ns[i].pos, c))
  {
    seq(|ns|, i requires 0 <= i < |ns| => ns[i].(pos := RotatePoint(ns[i].pos, c)))
  }

  /** The node states after `rotateGraph90Right`: unchanged when there are
      no nodes, otherwise every position turned about the same centre. */
  function Rotated(ns: seq<NodeState>): (r: seq<NodeState>)
    ensures |r| == |ns|
    ensures forall i :: 0 <= i < |ns| ==> r[i].value == ns[i].value
  {
    if |ns| == 0 then ns else TurnAll(ns, Center(ns))
  }

  /** A quarter turn about a common centre preserves the squared distance of two points. */
  lemma RotatePreservesDistance(p: Point, q: Point, c: Point)
    ensures SquaredDistance(RotatePoint(p, c), RotatePoint(q, c)) == SquaredDistance(p, q)
  {
    var a, b := p.x - q.x, p.y - q.y;
    assert RotatePoint(p, c).x - RotatePoint(q, c).x == b;
    assert RotatePoint(p, c).y - RotatePoint(q, c).y == -a;
    assert (-a) * (-a) == a * a;
  }

  /** Four quarter turns about the same centre give back the point. */
  lemma RotateFourTimes(p: Point, c: Point)
    ensures RotatePoint(RotatePoint(RotatePoint(RotatePoint(p, c), c), c), c) == p
  {
  }

  /** Rotation keeps every id and the number of nodes, and moves all nodes
      rigidly: the squared distance between any two of them is unchanged. */
  lemma RotatedIsRigid(ns: seq<NodeState>)
    ensures |Rotated(ns)| == |ns|
    ensures forall i :: 0 <= i < |ns| ==> Rotated(ns)[i].value == ns[i].value
    ensures forall i, j :: 0 <= i < |ns| && 0 <= j < |ns| ==>
      SquaredDistance(Rotated(ns)[i].pos, Rotated(ns)[j].pos) == SquaredDistance(ns[i].pos, ns[j].pos)
  {
    if |ns| > 0 {
      var c := Center(ns);
      forall i, j | 0 <= i < |ns| && 0 <= j < |ns|
        ensures SquaredDistance(Rotated(ns)[i].pos, Rotated(ns)[j].pos) == SquaredDistance(ns[i].pos, ns[j].pos)
      {
        RotatePreservesDistance(ns[i].pos, ns[j].pos, c);
      }
    }
  }

  /** The centre of the bounding box lies inside it. */
  lemma CenterInBox(ns: seq<NodeState>)
    requires |ns| > 0
    ensures MinOf(Xs(ns)) <= Center(ns).x <= MaxOf(Xs(ns))
    ensures MinOf(Ys(ns)) <= Center(ns).y <= MaxOf(Ys(ns))
  {
  }

  /** With coordinates in range, no value the rotation computes leaves the
      32-bit `int` range. */
  lemma RotationFitsInt32(ns: seq<NodeState>)
    requires |ns| > 0 && CoordsInRange(ns)
    ensures IsInt32(MinOf(Xs(ns)) + MaxOf(Xs(ns))) && IsInt32(MinOf(Ys(ns)) + MaxOf(Ys(ns)))
    ensures forall i :: 0 <= i < |ns| ==>
      && IsInt32(ns[i].pos.x - Center(ns).x) && IsInt32(ns[i].pos.y - Center(ns).y)
      && IsInt32(Rotated(ns)[i].pos.x) && IsInt32(Rotated(ns)[i].pos.y)
  {
    var xs, ys := Xs(ns), Ys(ns);
    BoundsInRange(xs);
    BoundsInRange(ys);
    CenterInBox(ns);
    var c := Center(ns);
    assert -CoordLimit <= c.x <= CoordLimit && -CoordLimit <= c.y <= CoordLimit;
    forall i | 0 <= i < |ns|
      ensures IsInt32(ns[i].pos.x - c.x) && IsInt32(ns[i].pos.y - c.y)
      ensures IsInt32(Rotated(ns)[i].pos.x) && IsInt32(Rotated(ns)[i].pos.y)
    {
      assert InCoordRange(ns[i].pos);
      RotatedAt(ns, i);
    }
  }

  /** The minimum and the maximum of values within the coordinate limit are within it. */
  lemma BoundsInRange(s: seq<int>)
    requires |s| > 0 && forall i :: 0 <= i < |s| ==> -CoordLimit <= s[i] <= CoordLimit
    ensures -CoordLimit <= MinOf(s) <= MaxOf(s) <= CoordLimit
  {
    var i :| 0 <= i < |s| && s[i] == MinOf(s);
    var j :| 0 <= j < |s| && s[j] == MaxOf(s);
  }

  /** The `i`-th node after the rotation. */
  lemma RotatedAt(ns: seq<NodeState>, i: nat)
    requires i < |ns|
    ensures Rotated(ns)[i] == ns[i].(pos := RotatePoint(ns[i].pos, Center(ns)))
  {
  }

  /** Values that bound all positions and are attained are the bounding box. */
  lemma BoxIsBounds(ns: seq<NodeState>, minX: int, minY: int, maxX: int, maxY: int)
    requires |ns| > 0
    requires forall j :: 0 <= j < |ns| ==> minX <= ns[j].pos.x <= maxX && minY <= ns[j].pos.y <= maxY
    requires exists j :: 0 <= j < |ns| && minX == ns[j].pos.x
    requires exists j :: 0 <= j < |ns| && maxX == ns[j].pos.x
    requires exists j :: 0 <= j < |ns| && minY == ns[j].pos.y
    requires exists j :: 0 <= j < |ns| && maxY == ns[j].pos.y
    ensures minX == MinOf(Xs(ns)) && maxX == MaxOf(Xs(ns))
    ensures minY == MinOf(Ys(ns)) && maxY == MaxOf(Ys(ns))
  {
    var xs, ys := Xs(ns), Ys(ns);
    var a :| 0 <= a < |ns| && minX == ns[a].pos.x;
    var b :| 0 <= b < |ns| && maxX == ns[b].pos.x;
    var c :| 0 <= c < |ns| && minY == ns[c].pos.y;
    var d :| 0 <= d < |ns| && maxY == ns[d].pos.y;
    MinOfUnique(xs, minX);
    MaxOfUnique(xs, maxX);
    MinOfUnique(ys, minY);
    MaxOfUnique(ys, maxY);
  }

  /** Any value that is a lower bound of `s` and occurs in `s` is its minimum. */
  lemma MinOfUnique(s: seq<int>, m: int)
    requires |s| > 0
    requires forall i :: 0 <= i < |s| ==> m <= s[i]
    requires exists i :: 0 <= i < |s| && m == s[i]
    ensures MinOf(s) == m
  {
    var i :| 0 <= i < |s| && m == s[i];
    var j :| 0 <= j < |s| && MinOf(s) == s[j];
    assert MinOf(s) <= s[i] && m <= s[j];
  }

  lemma MaxOfUnique(s: seq<int>, m: int)
    requires |s| > 0
    requires forall i :: 0 <= i < |s| ==> s[i] <= m
    requires exists i :: 0 <= i < |s| && m == s[i]
    ensures MaxOf(s) == m
  {
    var i :| 0 <= i < |s| && m == s[i];
    var j :| 0 <= j < |s| && MaxOf(s) == s[j];
    assert MaxOf(s) >= s[i] && m >= s[j];
  }

  /** Both sides of the bounding box have an even coordinate sum, so the
      truncating halving is exact. */
  predicate EvenBox(ns: seq<NodeState>)
    requires |ns| > 0
  {
    (MinOf(Xs(ns)) + MaxOf(Xs(ns))) % 2 == 0 && (MinOf(Ys(ns)) + MaxOf(Ys(ns))) % 2 == 0
  }

  /** Shifting every element by `k` shifts the minimum and the maximum by `k`. */
  lemma ShiftedBounds(s: seq<int>, t: seq<int>, k: int)
    requires |s| > 0 && |t| == |s|
    requires forall i :: 0 <= i < |s| ==> t[i] == s[i] + k
    ensures MinOf(t) == MinOf(s) + k && MaxOf(t) == MaxOf(s) + k
  {
    var i0 :| 0 <= i0 < |s| && s[i0] == MinOf(s);
    var i1 :| 0 <= i1 < |s| && s[i1] == MaxOf(s);
    assert t[i0] == MinOf(s) + k && t[i1] == MaxOf(s) + k;
    MinOfUnique(t, MinOf(s) + k);
    MaxOfUnique(t, MaxOf(s) + k);
  }

  /** Reflecting every element about `k` swaps and reflects the minimum and the maximum. */
  lemma ReflectedBounds(s: seq<int>, t: seq<int>, k: int)
    requires |s| > 0 && |t| == |s|
    requires forall i :: 0 <= i < |s| ==> t[i] == k - s[i]
    ensures MinOf(t) == k - MaxOf(s) && MaxOf(t) == k - MinOf(s)
  {
    var i0 :| 0 <= i0 < |s| && s[i0] == MinOf(s);
    var i1 :| 0 <= i1 < |s| && s[i1] == MaxOf(s);
    assert t[i1] == k - MaxOf(s) && t[i0] == k - MinOf(s);
    MinOfUnique(t, k - MaxOf(s));
    MaxOfUnique(t, k - MinOf(s));
  }

  /** When the box sums are even the rotated box has the same centre and
      again even sums. */
  lemma RotatedKeepsCenter(ns: seq<NodeState>)
    requires |ns| > 0 && EvenBox(ns)
    ensures |Rotated(ns)| > 0 && EvenBox(Rotated(ns)) && Center(Rotated(ns)) == Center(ns)
  {
    var c := Center(ns);
    var r := Rotated(ns);
    var xs, ys, rxs, rys := Xs(ns), Ys(ns), Xs(r), Ys(r);
    assert 2 * c.x == MinOf(xs) + MaxOf(xs) && 2 * c.y == MinOf(ys) + MaxOf(ys);
    forall i | 0 <= i < |ns|
      ensures rxs[i] == ys[i] + (c.x - c.y) && rys[i] == (c.x + c.y) - xs[i]
    {
    }
    ShiftedBounds(ys, rxs, c.x - c.y);
    ReflectedBounds(xs, rys, c.x + c.y);
    assert MinOf(rxs) + MaxOf(rxs) == 2 * c.x;
    assert MinOf(rys) + MaxOf(rys) == 2 * c.y;
    CenterOfEvenBox(r, c);
  }

  /** A box whose sums are twice the coordinates of `c` is even and centred on `c`. */
  lemma CenterOfEvenBox(ns: seq<NodeState>, c: Point)
    requires |ns| > 0
    requires MinOf(Xs(ns)) + MaxOf(Xs(ns)) == 2 * c.x
    requires MinOf(Ys(ns)) + MaxOf(Ys(ns)) == 2 * c.y
    ensures EvenBox(ns) && Center(ns) == c
  {
    HalfExact(MinOf(Xs(ns)) + MaxOf(Xs(ns)), c.x);
    HalfExact(MinOf(Ys(ns)) + MaxOf(Ys(ns)), c.y);
  }

  lemma HalfExact(a: int, k: int)
    requires a == 2 * k
    ensures Half(a) == k && a % 2 == 0
  {
  }

  /** Four turns of every position about the same point restore them all. */
  lemma TurnAllFourTimes(ns: seq<NodeState>, c: Point)
    ensures TurnAll(TurnAll(TurnAll(TurnAll(ns, c), c), c), c) == ns
  {
    var r := TurnAll(TurnAll(TurnAll(TurnAll(ns, c), c), c), c);
    forall i | 0 <= i < |ns|
      ensures r[i] == ns[i]
    {
      RotateFourTimes(ns[i].pos, c);
    }
  }

  /** For a box with even sums, four rotations of the graph restore every node. */
  lemma RotatedFourTimesRestores(ns: seq<NodeState>)
    requires |ns| > 0 && EvenBox(ns)
    ensures Rotated(Rotated(Rotated(Rotated(ns)))) == ns
  {
    var c := Center(ns);
    RotatedKeepsCenter(ns);
    var r1 := TurnAll(ns, c);
    RotatedKeepsCenter(r1);
    var r2 := TurnAll(r1, c);
    RotatedKeepsCenter(r2);
    var r3 := TurnAll(r2, c);
    assert Rotated(ns) == r1 && Rotated(r1) == r2 && Rotated(r2) == r3 && Rotated(r3) == TurnAll(r3, c);
    TurnAllFourTimes(ns, c);
  }
}
