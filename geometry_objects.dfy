/** The geometry value types: coordinate triples with tolerant comparisons,
    segments and polylines. */
module GeometryObjects {
  import opened RealArithmetic

  /** The tolerance used by every tolerant comparison, 1e-9. */
  const Eps: real := 0.000000001

  /** A coordinate triple. Points and vectors are both triples and copied by value,
      so a setter yields the updated triple (`p := p.SetX(v)`). */
  datatype Primitive3D = Primitive3D(x: real, y: real, z: real)
  {
    function SetX(value: real): (r: Primitive3D)
      ensures r.x == value && r.y == y && r.z == z
    {
      this.(x := value)
    }

    function SetY(value: real): (r: Primitive3D)
      ensures r.x == x && r.y == value && r.z == z
    {
      this.(y := value)
    }

    function SetZ(value: real): (r: Primitive3D)
      ensures r.x == x && r.y == y && r.z == value
    {
      this.(z := value)
    }

    /** Tolerant lexicographic order: a coordinate closer than Eps is skipped. */
    predicate Less(other: Primitive3D)
    {
      if Abs(x - other.x) > Eps then x < other.x
      else if Abs(y - other.y) > Eps then y < other.y
      else if Abs(z - other.z) > Eps then z < other.z
      else false
    }

    /** Tolerant equality: every coordinate differs by strictly less than Eps. */
    predicate Equal(other: Primitive3D)
    {
      Abs(x - other.x) < Eps && Abs(y - other.y) < Eps && Abs(z - other.z) < Eps
    }
  }

  /** A location in space. */
  type Point3D = Primitive3D

  /** A displacement; the same triple, read as components. */
  type Vector3D = Primitive3D

  /** What the default constructors build. */
  const Origin: Primitive3D := Primitive3D(0.0, 0.0, 0.0)

  /** The vector from pointA to pointB. */
  function VectorBetween(pointA: Point3D, pointB: Point3D): (v: Vector3D)
  {
    Primitive3D(pointB.x - pointA.x, pointB.y - pointA.y, pointB.z - pointA.z)
  }

  /** The point p moved by v. */
  function Translate(p: Point3D, v: Vector3D): (r: Point3D)
  {
    Primitive3D(p.x + v.x, p.y + v.y, p.z + v.z)
  }

  lemma VectorBetweenRoundTrip(pointA: Point3D, pointB: Point3D)
    ensures Translate(pointA, VectorBetween(pointA, pointB)) == pointB
    ensures VectorBetween(pointA, pointA) == Origin
    ensures VectorBetween(Primitive3D(1.0, 2.0, 3.0), Primitive3D(4.0, 5.0, 6.0)) == Primitive3D(3.0, 3.0, 3.0)
  {
  }

  /** The vector between two points is zero exactly when they are the same point. */
  lemma VectorBetweenZero(pointA: Point3D, pointB: Point3D)
    ensures VectorBetween(pointA, pointB) == Origin <==> pointA == pointB
  {
  }

  lemma LessIrreflexive(a: Primitive3D)
    ensures !a.Less(a)
  {
  }

  lemma LessAsymmetric(a: Primitive3D, b: Primitive3D)
    ensures !(a.Less(b) && b.Less(a))
  {
  }

  /** Two triples are unordered by Less exactly when every coordinate is within Eps. */
  lemma UnorderedIffClose(a: Primitive3D, b: Primitive3D)
    ensures (!a.Less(b) && !b.Less(a)) <==>
            (Abs(a.x - b.x) <= Eps && Abs(a.y - b.y) <= Eps && Abs(a.z - b.z) <= Eps)
  {
  }

  /** Less decides on x first, then y, then z. */
  lemma LessLexicographic(a: Primitive3D, b: Primitive3D)
    ensures Abs(a.x - b.x) > Eps ==> (a.Less(b) <==> a.x < b.x)
    ensures Abs(a.x - b.x) <= Eps && Abs(a.y - b.y) > Eps ==> (a.Less(b) <==> a.y < b.y)
    ensures Abs(a.x - b.x) <= Eps && Abs(a.y - b.y) <= Eps ==> (a.Less(b) <==> Abs(a.z - b.z) > Eps && a.z < b.z)
  {
  }

  lemma LessExamples()
    ensures Primitive3D(1.0, 2.0, 3.0).Less(Primitive3D(2.0, 2.0, 3.0))
    ensures !Primitive3D(2.0, 2.0, 3.0).Less(Primitive3D(1.0, 2.0, 3.0))
    ensures Primitive3D(1.0, 2.0, 3.0).Less(Primitive3D(1.0, 2.0, 4.0))
    ensures !Primitive3D(1.0, 2.0, 4.0).Less(Primitive3D(1.0, 2.0, 3.0))
  {
  }

  lemma EqualReflexiveSymmetric(a: Primitive3D, b: Primitive3D)
    ensures a.Equal(a)
    ensures a.Equal(b) <==> b.Equal(a)
  {
  }

  /** Tolerant equality is stricter than being unordered: at a difference of exactly Eps
      two triples are unordered but not equal. */
  lemma EqualImpliesUnordered(a: Primitive3D, b: Primitive3D)
    ensures a.Equal(b) ==> !a.Less(b) && !b.Less(a)
    ensures var c := Primitive3D(Eps, 0.0, 0.0);
            !Origin.Less(c) && !c.Less(Origin) && !Origin.Equal(c)
  {
  }

  lemma EqualExamples()
    ensures Primitive3D(1.0, 2.0, 3.0).Equal(Primitive3D(1.0, 2.0, 3.0))
    ensures !Primitive3D(1.0, 2.0, 3.0).Equal(Primitive3D(3.0, 2.0, 1.0))
  {
  }

  /** A line segment between two points; it may be degenerate. */
  datatype Segment3D = Segment3D(start: Point3D, end: Point3D)
  {
    function SetStart(point: Point3D): (r: Segment3D)
      ensures r.start == point && r.end == end
    {
      this.(start := point)
    }

    function SetEnd(point: Point3D): (r: Segment3D)
      ensures r.start == start && r.end == point
    {
      this.(end := point)
    }
  }

  /** What the default Segment3D constructor builds. */
  const DefaultSegment: Segment3D := Segment3D(Origin, Origin)

  /** The number of segments a polyline with these nodes has: node j starts a segment
      exactly when it is not the last node. */
  function SegmentCount(nodes: seq<Point3D>): (c: nat)
    ensures c <= |nodes|
    ensures forall j {:trigger nodes[j]} :: 0 <= j < |nodes| ==> (j < c <==> j + 1 < |nodes|)
    ensures |nodes| < 2 ==> c == 0
    ensures 2 <= |nodes| ==> c + 1 == |nodes|
  {
    if |nodes| < 2 then 0 else |nodes| - 1
  }

  /** A polyline: an ordered sequence of nodes, built up in place. */
  class Polyline3D {
    var nodes: seq<Point3D>

    constructor ()
      ensures nodes == []
    {
      nodes := [];
    }

    constructor FromPoints(points: seq<Point3D>)
      ensures nodes == points
    {
      nodes := points;
    }

    function GetNodesCount(): nat
      reads this
    {
      |nodes|
    }

    function GetNodes(): seq<Point3D>
      reads this
    {
      nodes
    }

    method SetNodes(points: seq<Point3D>)
      modifies this
      ensures nodes == points
    {
      nodes := points;
    }

    method AddPoint(point: Point3D)
      modifies this
      ensures nodes == old(nodes) + [point]
      ensures GetNodesCount() == old(GetNodesCount()) + 1
      ensures GetNodes()[GetNodesCount() - 1] == point
      ensures GetNodes()[..old(GetNodesCount())] == old(GetNodes())
    {
      nodes := nodes + [point];
    }
  }
}
