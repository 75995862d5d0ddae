/** The search: for a query point and a polyline, the nearest point of every segment,
    kept in a map keyed by the tolerant point order, and the segments whose nearest
    point lies within Eps of the smallest distance found. */
module NearestPointsAlgorithm {
  import opened RealArithmetic
  import opened GeometryObjects
  import opened MathOperations

  datatype Option<T> = None | Some(value: T)

  /** std::min on doubles: the first argument unless the second is smaller. */
  function Min(a: real, b: real): (r: real)
    ensures r <= a && r <= b && (r == a || r == b)
  {
    if b < a then b else a
  }

  /** std::max on doubles: the first argument unless the second is larger. */
  function Max(a: real, b: real): (r: real)
    ensures a <= r && b <= r && (r == a || r == b)
  {
    if a < b then b else a
  }

  // ---------------------------------------------------------------------------
  // The bounding-box test

  /** Every coordinate of point lies in the closed range spanned by the segment's ends
      (exact comparisons, no tolerance). */
  predicate IsProjectionInSegment(point: Point3D, seg: Segment3D)
  {
    Min(seg.start.x, seg.end.x) <= point.x && Max(seg.start.x, seg.end.x) >= point.x &&
    Min(seg.start.y, seg.end.y) <= point.y && Max(seg.start.y, seg.end.y) >= point.y &&
    Min(seg.start.z, seg.end.z) <= point.z && Max(seg.start.z, seg.end.z) >= point.z
  }

  /** v lies between a and b, in whichever order they come. */
  predicate Between(a: real, b: real, v: real)
  {
    (a <= v && v <= b) || (b <= v && v <= a)
  }

  /** The box test is "each coordinate lies between the ends", and both ends pass it. */
  lemma InSegmentIffBetween(point: Point3D, seg: Segment3D)
    ensures IsProjectionInSegment(point, seg) <==>
              Between(seg.start.x, seg.end.x, point.x) &&
              Between(seg.start.y, seg.end.y, point.y) &&
              Between(seg.start.z, seg.end.z, point.z)
    ensures IsProjectionInSegment(seg.start, seg) && IsProjectionInSegment(seg.end, seg)
  {
  }

  /** On one axis: a + (b - a) * t lies between a and b for t in [0, 1]. */
  lemma BetweenInside(a: real, b: real, t: real)
    requires 0.0 <= t <= 1.0
    ensures Between(a, b, a + (b - a) * t)
  {
    var m := (b - a) * t;
    if a <= b {
      ProductNonNegative(b - a, t);
      ProductNonNegative(b - a, 1.0 - t);
      assert (b - a) * (1.0 - t) == (b - a) - m;
    } else {
      ProductNonNegative(a - b, t);
      ProductNonNegative(a - b, 1.0 - t);
      assert (a - b) * t == -m;
      assert (a - b) * (1.0 - t) == m - (b - a);
    }
  }

  /** On one axis with a != b: a + (b - a) * t is not between a and b for t < 0. */
  lemma NotBetweenBefore(a: real, b: real, t: real)
    requires a != b && t < 0.0
    ensures !Between(a, b, a + (b - a) * t)
  {
    var c := b - a;
    ProductNegated(c, t);
    if a < b {
      ProductPositive(c, -t);
      assert a + c * t < a;
    } else {
      ProductPositive(-c, -t);
      assert a < a + c * t;
    }
  }

  /** On one axis with a != b: a + (b - a) * t is not between a and b for t > 1. */
  lemma NotBetweenBeyond(a: real, b: real, t: real)
    requires a != b && 1.0 < t
    ensures !Between(a, b, a + (b - a) * t)
  {
    var m := (b - a) * t;
    var n := (b - a) * (t - 1.0);
    assert m - (b - a) == n;
    if a < b {
      ProductPositive(b - a, t - 1.0);
      assert b < a + m;
    } else {
      ProductPositive(a - b, t - 1.0);
      assert (a - b) * (t - 1.0) == -n;
      assert a + m < b;
    }
  }

  /** a + (b - a) * t lies between a and b for t in [0, 1], and only then when a and
      b differ. */
  lemma BetweenAlongLine(a: real, b: real, t: real)
    ensures 0.0 <= t <= 1.0 ==> Between(a, b, a + (b - a) * t)
    ensures a != b && Between(a, b, a + (b - a) * t) ==> 0.0 <= t <= 1.0
  {
    if 0.0 <= t <= 1.0 {
      BetweenInside(a, b, t);
    } else if a != b && t < 0.0 {
      NotBetweenBefore(a, b, t);
    } else if a != b {
      NotBetweenBeyond(a, b, t);
    }
  }

  /** For a point of the line through a proper segment, the box test holds exactly
      when the point lies on the segment itself: its parameter t is in [0, 1]. This is
      why the test may ignore the two directions across the line. */
  lemma InSegmentOnLine(seg: Segment3D, t: real)
    requires seg.start != seg.end
    ensures IsProjectionInSegment(PointAt(seg, t), seg) <==> 0.0 <= t <= 1.0
  {
    var a, b := seg.start, seg.end;
    BetweenAlongLine(a.x, b.x, t);
    BetweenAlongLine(a.y, b.y, t);
    BetweenAlongLine(a.z, b.z, t);
    assert PointAt(seg, t) == Primitive3D(a.x + (b.x - a.x) * t, a.y + (b.y - a.y) * t, a.z + (b.z - a.z) * t);
    InSegmentIffBetween(PointAt(seg, t), seg);
  }

  // ---------------------------------------------------------------------------
  // The nearest point of one segment

  /** What the loop body computes for one segment: the point it offers to the map and
      that point's distance from the query. */
  datatype Candidate = Candidate(point: Point3D, dist: real)

  /** The candidate of segment i (from nodes[i] to nodes[i + 1]): none when the two
      nodes are tolerantly equal; the projection of the query when it passes the box
      test; otherwise the end that is strictly nearer, the far end on a tie. */
  function SegmentCandidate(nodes: seq<Point3D>, i: nat, query: Point3D, sqrt: real -> real): Option<Candidate>
    requires i + 1 < |nodes|
  {
    if nodes[i].Equal(nodes[i + 1]) then None
    else
      var seg := Segment3D(nodes[i], nodes[i + 1]);
      var proj := PointProjectionOnLineThroughSegment(query, seg, sqrt);
      if IsProjectionInSegment(proj, seg) then
        Some(Candidate(proj, DistanceBetweenPoints(proj, query, sqrt)))
      else
        var dist1 := DistanceBetweenPoints(nodes[i], query, sqrt);
        var dist2 := DistanceBetweenPoints(nodes[i + 1], query, sqrt);
        if dist1 < dist2 then Some(Candidate(nodes[i], dist1))
        else Some(Candidate(nodes[i + 1], dist2))
  }

  /** t cut back into [0, 1]. */
  function Clamp(t: real): (r: real)
    ensures 0.0 <= r <= 1.0
    ensures 0.0 <= t <= 1.0 ==> r == t
    ensures t < 0.0 ==> r == 0.0
    ensures 1.0 < t ==> r == 1.0
  {
    if t < 0.0 then 0.0 else if 1.0 < t then 1.0 else t
  }

  /** The squared distance between two points. */
  function SquaredDistance(point1: Point3D, point2: Point3D): real
  {
    SumOfSquares(point2.x - point1.x, point2.y - point1.y, point2.z - point1.z)
  }

  /** One coordinate of |w - s d|^2, expanded around the parameter t:
      (w - s d)^2 == (w - t d)^2 + 2 (t - s) (w - t d) d + (s - t)^2 d^2. */
  lemma CoordinateAlongLine(wc: real, dc: real, s: real, t: real)
    ensures (wc - dc * s) * (wc - dc * s) ==
            (wc - t * dc) * (wc - t * dc) + 2.0 * (t - s) * ((wc - t * dc) * dc) + (s - t) * (s - t) * (dc * dc)
  {
    var a, u := wc - t * dc, t - s;
    assert wc - dc * s == a + dc * u;
    assert (a + dc * u) * (a + dc * u) == a * a + 2.0 * u * (a * dc) + u * u * (dc * dc);
    assert u * u == (s - t) * (s - t);
  }

  /** A common factor comes out of a sum of three products. */
  lemma Distribute(k: real, p: real, q: real, r: real)
    ensures k * p + k * q + k * r == k * (p + q + r)
  {
  }

  /** Scaling three terms that sum to zero by a common factor keeps the sum zero. */
  lemma VanishingCombination(k: real, p: real, q: real, r: real)
    requires p + q + r == 0.0
    ensures k * p + k * q + k * r == 0.0
  {
    Distribute(k, p, q, r);
  }

  /** h + (s - t)^2 dd: the squared distance from the point at parameter s of a line
      whose direction has squared length dd, to a point at squared distance h from the
      line and projecting onto it at parameter t. */
  function AlongLine(h: real, dd: real, t: real, s: real): real
  {
    h + (s - t) * (s - t) * dd
  }

  /** The coordinate form of the split below. */
  lemma SplitCoordinates(wx: real, wy: real, wz: real, dx: real, dy: real, dz: real, s: real, t: real)
    requires (wx - t * dx) * dx + (wy - t * dy) * dy + (wz - t * dz) * dz == 0.0
    ensures SumOfSquares(wx - dx * s, wy - dy * s, wz - dz * s) ==
            SumOfSquares(wx - dx * t, wy - dy * t, wz - dz * t) + (s - t) * (s - t) * (dx * dx + dy * dy + dz * dz)
  {
    assert wx - t * dx == wx - dx * t && wy - t * dy == wy - dy * t && wz - t * dz == wz - dz * t;
    CoordinateAlongLine(wx, dx, s, t);
    CoordinateAlongLine(wy, dy, s, t);
    CoordinateAlongLine(wz, dz, s, t);
    VanishingCombination(2.0 * (t - s), (wx - t * dx) * dx, (wy - t * dy) * dy, (wz - t * dz) * dz);
    Distribute((s - t) * (s - t), dx * dx, dy * dy, dz * dz);
  }

  /** The squared distance from the point of the line at s to the query,
      as |w - s d|^2 with w = query - start and d = end - start. */
  lemma SquaredDistanceAt(query: Point3D, seg: Segment3D, s: real)
    ensures SquaredDistance(PointAt(seg, s), query) ==
            SumOfSquares(VectorBetween(seg.start, query).x - VectorBetween(seg.start, seg.end).x * s,
                         VectorBetween(seg.start, query).y - VectorBetween(seg.start, seg.end).y * s,
                         VectorBetween(seg.start, query).z - VectorBetween(seg.start, seg.end).z * s)
  {
    var d := VectorBetween(seg.start, seg.end);
    var w := VectorBetween(seg.start, query);
    var p := PointAt(seg, s);
    assert query.x - p.x == w.x - d.x * s;
    assert query.y - p.y == w.y - d.y * s;
    assert query.z - p.z == w.z - d.z * s;
  }

  /** With w = query - start and d = end - start: |w - s d|^2 == |w - t d|^2 + (s - t)^2 |d|^2
      when w - t d is orthogonal to d. */
  lemma OrthogonalSplit(query: Point3D, seg: Segment3D, s: real, t: real)
    requires ScalarProduct(Primitive3D(VectorBetween(seg.start, query).x - t * VectorBetween(seg.start, seg.end).x,
                                       VectorBetween(seg.start, query).y - t * VectorBetween(seg.start, seg.end).y,
                                       VectorBetween(seg.start, query).z - t * VectorBetween(seg.start, seg.end).z),
                           VectorBetween(seg.start, seg.end)) == 0.0
    ensures SumOfSquares(VectorBetween(seg.start, query).x - VectorBetween(seg.start, seg.end).x * s,
                         VectorBetween(seg.start, query).y - VectorBetween(seg.start, seg.end).y * s,
                         VectorBetween(seg.start, query).z - VectorBetween(seg.start, seg.end).z * s) ==
            AlongLine(SumOfSquares(VectorBetween(seg.start, query).x - VectorBetween(seg.start, seg.end).x * t,
                                   VectorBetween(seg.start, query).y - VectorBetween(seg.start, seg.end).y * t,
                                   VectorBetween(seg.start, query).z - VectorBetween(seg.start, seg.end).z * t),
                      ScalarProduct(VectorBetween(seg.start, seg.end), VectorBetween(seg.start, seg.end)), t, s)
  {
    var d := VectorBetween(seg.start, seg.end);
    var w := VectorBetween(seg.start, query);
    SplitCoordinates(w.x, w.y, w.z, d.x, d.y, d.z, s, t);
  }

  /** When the residual at t is orthogonal to the direction, the squared distance at s
      is the one at t plus (s - t)^2 |d|^2. */
  lemma SplitAt(query: Point3D, seg: Segment3D, s: real, t: real)
    requires ScalarProduct(Primitive3D(VectorBetween(seg.start, query).x - t * VectorBetween(seg.start, seg.end).x,
                                       VectorBetween(seg.start, query).y - t * VectorBetween(seg.start, seg.end).y,
                                       VectorBetween(seg.start, query).z - t * VectorBetween(seg.start, seg.end).z),
                           VectorBetween(seg.start, seg.end)) == 0.0
    ensures SquaredDistance(PointAt(seg, s), query) ==
            AlongLine(SquaredDistance(PointAt(seg, t), query),
                      ScalarProduct(VectorBetween(seg.start, seg.end), VectorBetween(seg.start, seg.end)), t, s)
  {
    SquaredDistanceAt(query, seg, s);
    SquaredDistanceAt(query, seg, t);
    OrthogonalSplit(query, seg, s, t);
  }

  /** Along the line through a proper segment the squared distance to the query grows
      with the square of the distance from the projection parameter t:
      |query - P(s)|^2 == |query - P(t)|^2 + (s - t)^2 |d|^2. */
  lemma SquaredDistanceAlongLine(query: Point3D, seg: Segment3D, s: real)
    requires seg.start != seg.end
    ensures SquaredDistance(PointAt(seg, s), query) ==
            AlongLine(SquaredDistance(PointAt(seg, ProjectionParameter(query, seg)), query),
                      ScalarProduct(VectorBetween(seg.start, seg.end), VectorBetween(seg.start, seg.end)),
                      ProjectionParameter(query, seg), s)
  {
    var d := VectorBetween(seg.start, seg.end);
    var w := VectorBetween(seg.start, query);
    var t := ProjectionParameter(query, seg);
    ParameterIsQuotient(query, seg);
    ResidualIsOrthogonal(w, d, t, ScalarProduct(d, d), ScalarProduct(d, w));
    SplitAt(query, seg, s, t);
  }

  /** The end of a cut-back parameter is never farther along the line than any point of
      the segment: (Clamp(t) - t)^2 <= (s - t)^2 for s in [0, 1]. */
  lemma ClampIsNearest(t: real, s: real)
    requires 0.0 <= s <= 1.0
    ensures (Clamp(t) - t) * (Clamp(t) - t) <= (s - t) * (s - t)
  {
    if t < 0.0 {
      SquaresOrdered(-t, s - t);
    } else if 1.0 < t {
      SquaresOrdered(t - 1.0, t - s);
    } else {
      SquareNonNegative(s - t);
    }
  }

  /** Distances compare as their squares do. */
  lemma DistancesCompare(point1: Point3D, point2: Point3D, query: Point3D, sqrt: real -> real)
    requires IsSqrt(sqrt)
    ensures DistanceBetweenPoints(point1, query, sqrt) == Root(sqrt, SquaredDistance(point1, query))
    ensures SquaredDistance(point1, query) <= SquaredDistance(point2, query) ==>
              DistanceBetweenPoints(point1, query, sqrt) <= DistanceBetweenPoints(point2, query, sqrt)
    ensures SquaredDistance(point1, query) < SquaredDistance(point2, query) ==>
              DistanceBetweenPoints(point1, query, sqrt) < DistanceBetweenPoints(point2, query, sqrt)
  {
    var q := query;
    SumOfSquaresZero(q.x - point1.x, q.y - point1.y, q.z - point1.z);
    SqrtMonotone(sqrt, SquaredDistance(point1, query), SquaredDistance(point2, query));
  }

  lemma EndsOfLine(seg: Segment3D)
    ensures PointAt(seg, 0.0) == seg.start && PointAt(seg, 1.0) == seg.end
  {
  }

  /** Along the line, the cut-back parameter gives the least value over [0, 1], and the
      end nearer to t gives strictly less than the other when t lies outside [0, 1]. */
  lemma NearestAlongLine(h: real, dd: real, t: real, s: real)
    requires 0.0 < dd && 0.0 <= s <= 1.0
    ensures AlongLine(h, dd, t, Clamp(t)) <= AlongLine(h, dd, t, s)
    ensures t < 0.0 ==> AlongLine(h, dd, t, 0.0) < AlongLine(h, dd, t, 1.0)
    ensures 1.0 < t ==> AlongLine(h, dd, t, 1.0) < AlongLine(h, dd, t, 0.0)
  {
    ClampIsNearest(t, s);
    ProductNonNegative((s - t) * (s - t) - (Clamp(t) - t) * (Clamp(t) - t), dd);
    if t < 0.0 {
      SquaresOrdered(-t, 1.0 - t);
      assert (-t) * (-t) == (0.0 - t) * (0.0 - t);
      ProductPositive((1.0 - t) * (1.0 - t) - (0.0 - t) * (0.0 - t), dd);
    }
    if 1.0 < t {
      SquaresOrdered(t - 1.0, t);
      assert (t - 1.0) * (t - 1.0) == (1.0 - t) * (1.0 - t);
      assert t * t == (0.0 - t) * (0.0 - t);
      ProductPositive((0.0 - t) * (0.0 - t) - (1.0 - t) * (1.0 - t), dd);
    }
  }

  /** The candidate of a proper segment is its nearest point to the query: the point of
      the segment at the cut-back projection parameter, no farther from the query than
      any point of the segment. On exact arithmetic the two ends tie only when the
      projection lies on the segment, so the tie rule of the fallback never decides. */
  lemma {:induction false} CandidateIsNearestPointOfSegment(nodes: seq<Point3D>, i: nat, query: Point3D, sqrt: real -> real, s: real)
    requires IsSqrt(sqrt) && i + 1 < |nodes| && !nodes[i].Equal(nodes[i + 1]) && 0.0 <= s <= 1.0
    ensures SegmentCandidate(nodes, i, query, sqrt).Some?
    ensures var c := SegmentCandidate(nodes, i, query, sqrt).value;
            var seg := Segment3D(nodes[i], nodes[i + 1]);
            c.point == PointAt(seg, Clamp(ProjectionParameter(query, seg))) &&
            c.dist == DistanceBetweenPoints(c.point, query, sqrt) &&
            c.dist <= DistanceBetweenPoints(PointAt(seg, s), query, sqrt)
  {
    var seg := Segment3D(nodes[i], nodes[i + 1]);
    var t := ProjectionParameter(query, seg);
    var proj := PointProjectionOnLineThroughSegment(query, seg, sqrt);
    var d := VectorBetween(seg.start, seg.end);
    var dd := ScalarProduct(d, d);
    var h := SquaredDistance(PointAt(seg, t), query);
    var best := PointAt(seg, Clamp(t));
    assert seg.start != seg.end && proj == PointAt(seg, t) by {
      LengthAtLeastEps(seg.start, seg.end, sqrt);
      ProjectionFormula(query, seg, sqrt);
    }
    assert 0.0 < dd by {
      DirectionNonZero(seg);
    }
    InSegmentOnLine(seg, t);
    EndsOfLine(seg);
    NearestAlongLine(h, dd, t, s);
    SquaredDistanceAlongLine(query, seg, s);
    SquaredDistanceAlongLine(query, seg, Clamp(t));
    DistancesCompare(best, PointAt(seg, s), query, sqrt);
    if !IsProjectionInSegment(proj, seg) {
      SquaredDistanceAlongLine(query, seg, 0.0);
      SquaredDistanceAlongLine(query, seg, 1.0);
      DistancesCompare(seg.start, seg.end, query, sqrt);
      DistancesCompare(seg.end, seg.start, query, sqrt);
    }
  }

  // ---------------------------------------------------------------------------
  // The map from points to (segment index, distance)

  /** One entry of the map: the key point and the segment index and distance stored
      under it. */
  datatype Entry = Entry(key: Point3D, index: nat, dist: real)

  /** Two keys the map cannot tell apart: neither is Less than the other. */
  predicate Equivalent(a: Point3D, b: Point3D)
  {
    !a.Less(b) && !b.Less(a)
  }

  /** The map holds a key equivalent to p. */
  predicate HasKey(m: seq<Entry>, p: Point3D)
  {
    exists j :: 0 <= j < |m| && Equivalent(m[j].key, p)
  }

  /** std::map::insert: adds the entry when no equivalent key is present and otherwise
      leaves the map as it was; an entry once stored is never replaced. */
  function Insert(m: seq<Entry>, e: Entry): (r: seq<Entry>)
    ensures HasKey(r, e.key)
    ensures m <= r && |r| <= |m| + 1
    ensures |r| == |m| + 1 <==> !HasKey(m, e.key)
    ensures |r| == |m| + 1 ==> r[|m|] == e
  {
    if HasKey(m, e.key) then m
    else
      LessIrreflexive(e.key);
      assert Equivalent((m + [e])[|m|].key, e.key);
      m + [e]
  }

  // ---------------------------------------------------------------------------
  // The loop, as two reductions over the candidates of the segments

  /** The candidates of all segments of the polyline, segment j at position j. */
  function CandidatesOf(nodes: seq<Point3D>, query: Point3D, sqrt: real -> real): (cands: seq<Option<Candidate>>)
    ensures |cands| == SegmentCount(nodes)
    ensures forall j :: 0 <= j < |cands| ==> cands[j] == SegmentCandidate(nodes, j, query, sqrt)
    ensures forall j :: 0 <= j < |cands| ==> (cands[j].None? <==> nodes[j].Equal(nodes[j + 1]))
  {
    seq(SegmentCount(nodes), j requires 0 <= j < SegmentCount(nodes) => SegmentCandidate(nodes, j, query, sqrt))
  }

  /** The map after the loop has offered the candidates of the first |cands| segments. */
  function DistancesOf(cands: seq<Option<Candidate>>): seq<Entry>
  {
    if cands == [] then []
    else
      var prev := DistancesOf(cands[..|cands| - 1]);
      match cands[|cands| - 1]
      case None => prev
      case Some(c) => Insert(prev, Entry(c.point, |cands| - 1, c.dist))
  }

  /** min_distance after the same segments; None stands for the initial
      std::numeric_limits<double>::max(). Every candidate may lower it, also one whose
      insertion the map refused. */
  function MinDistanceOf(cands: seq<Option<Candidate>>): Option<real>
  {
    if cands == [] then None
    else
      var prev := MinDistanceOf(cands[..|cands| - 1]);
      match cands[|cands| - 1]
      case None => prev
      case Some(c) => if prev.None? || c.dist < prev.value then Some(c.dist) else prev
  }

  /** One turn of the loop: the map and min_distance after segment i follow from
      those before it and segment i's candidate alone. */
  lemma FoldStep(cands: seq<Option<Candidate>>, i: nat)
    requires i < |cands|
    ensures var prev, c := DistancesOf(cands[..i]), cands[i];
            DistancesOf(cands[..i + 1]) ==
              if c.None? then prev else Insert(prev, Entry(c.value.point, i, c.value.dist))
    ensures var prev, c := MinDistanceOf(cands[..i]), cands[i];
            MinDistanceOf(cands[..i + 1]) ==
              if c.None? then prev
              else if prev.None? || c.value.dist < prev.value then Some(c.value.dist)
              else prev
  {
    assert cands[..i + 1][..i] == cands[..i];
    assert cands[..i + 1][i] == cands[i];
  }

  // ---------------------------------------------------------------------------
  // The answer

  /** An answer: a segment index and the point of that segment. */
  type IndexedPoint = (nat, Point3D)

  /** A distance within Eps of the minimum; nothing is, before there is one. */
  predicate CloseTo(dist: real, min: Option<real>)
  {
    min.Some? && Abs(dist - min.value) < Eps
  }

  /** The entries of m whose distance is close to min, as (index, point), in m's order. */
  function Survivors(m: seq<Entry>, min: Option<real>): seq<IndexedPoint>
  {
    if m == [] then []
    else
      var last := m[|m| - 1];
      Survivors(m[..|m| - 1], min) + (if CloseTo(last.dist, min) then [(last.index, last.key)] else [])
  }

  /** What FindNearestPointsToPolyline returns for these nodes and this query. */
  function NearestPoints(nodes: seq<Point3D>, query: Point3D, sqrt: real -> real): seq<IndexedPoint>
  {
    var cands := CandidatesOf(nodes, query, sqrt);
    Survivors(DistancesOf(cands), MinDistanceOf(cands))
  }

  predicate Ascending(s: seq<IndexedPoint>)
  {
    forall p, q :: 0 <= p < q < |s| ==> s[p].0 <= s[q].0
  }

  predicate StrictlyAscending(s: seq<IndexedPoint>)
  {
    forall p, q :: 0 <= p < q < |s| ==> s[p].0 < s[q].0
  }

  // ---------------------------------------------------------------------------
  // The search, as the source runs it

  /** std::sort of the answer by segment index (the comparator elem1.first <
      elem2.first), here an insertion sort by adjacent swaps. */
  method SortByIndex(a: array<IndexedPoint>)
    modifies a
    ensures Ascending(a[..])
    ensures multiset(a[..]) == multiset(old(a[..]))
  {
    if a.Length == 0 {
      return;
    }
    for i := 1 to a.Length
      invariant forall p, q :: 0 <= p < q < i ==> a[p].0 <= a[q].0
      invariant multiset(a[..]) == multiset(old(a[..]))
    {
      InsertIntoSorted(a, i);
    }
  }

  /** One pass of the insertion sort: a[i] moves down past the larger indices before it,
      so that a[..i + 1] is sorted, a permutation of what it was, and the rest of the
      array is untouched. */
  method InsertIntoSorted(a: array<IndexedPoint>, i: nat)
    requires i < a.Length
    requires forall p, q :: 0 <= p < q < i ==> a[p].0 <= a[q].0
    modifies a
    ensures forall p, q :: 0 <= p < q <= i ==> a[p].0 <= a[q].0
    ensures multiset(a[..i + 1]) == multiset(old(a[..i + 1]))
    ensures a[i + 1..] == old(a[i + 1..])
    ensures multiset(a[..]) == multiset(old(a[..]))
  {
    var j := i;
    while 0 < j && a[j].0 < a[j - 1].0
      invariant 0 <= j <= i
      invariant SortedAround(a[..], i, j) && BelowLater(a[..], i, j)
      invariant multiset(a[..i + 1]) == multiset(old(a[..i + 1]))
      invariant a[i + 1..] == old(a[i + 1..])
    {
      ghost var before := a[..];
      SwapAdjacent(a, j);
      InsertStep(before, a[..], i, j);
      j := j - 1;
    }
    InsertDone(a[..], i, j);
    PrefixAndSuffix(old(a[..]), a[..], i + 1);
  }

  /** The elements of s[..i + 1] other than s[j] are in ascending index order. */
  predicate SortedAround(s: seq<IndexedPoint>, i: nat, j: nat)
    requires i < |s|
  {
    forall p, q :: 0 <= p < q <= i && p != j && q != j ==> s[p].0 <= s[q].0
  }

  /** s[j] has a smaller index than every element after it up to s[i]. */
  predicate BelowLater(s: seq<IndexedPoint>, i: nat, j: nat)
    requires j <= i < |s|
  {
    forall q :: j < q <= i ==> s[j].0 < s[q].0
  }

  /** One turn of the insertion loop: exchanging s[j] with its larger left neighbour
      moves the gap down by one, permutes the prefix and leaves the rest alone. */
  lemma InsertStep(before: seq<IndexedPoint>, after: seq<IndexedPoint>, i: nat, j: nat)
    requires 0 < j <= i < |before|
    requires SortedAround(before, i, j) && BelowLater(before, i, j)
    requires before[j].0 < before[j - 1].0
    requires after == before[j - 1 := before[j]][j := before[j - 1]]
    ensures SortedAround(after, i, j - 1) && BelowLater(after, i, j - 1)
    ensures multiset(after[..i + 1]) == multiset(before[..i + 1])
    ensures after[i + 1..] == before[i + 1..]
  {
    assert after[..i + 1] == before[..i + 1][j - 1 := before[j]][j := before[j - 1]];
  }

  /** The loop ends with the prefix sorted: either s[j] reached the front or its left
      neighbour is not larger. */
  lemma InsertDone(s: seq<IndexedPoint>, i: nat, j: nat)
    requires j <= i < |s|
    requires SortedAround(s, i, j) && BelowLater(s, i, j)
    requires j == 0 || s[j - 1].0 <= s[j].0
    ensures forall p, q :: 0 <= p < q <= i ==> s[p].0 <= s[q].0
  {
  }

  /** Two sequences whose first k elements are permutations of each other and whose
      remaining elements agree are permutations of each other. */
  lemma PrefixAndSuffix(s: seq<IndexedPoint>, t: seq<IndexedPoint>, k: nat)
    requires k <= |s| && k <= |t|
    requires multiset(t[..k]) == multiset(s[..k]) && t[k..] == s[k..]
    ensures multiset(t) == multiset(s)
  {
    assert s == s[..k] + s[k..];
    assert t == t[..k] + t[k..];
  }

  /** Exchanges a[j - 1] and a[j]. */
  method SwapAdjacent(a: array<IndexedPoint>, j: nat)
    requires 0 < j < a.Length
    modifies a
    ensures a[..] == old(a[..])[j - 1 := old(a[j])][j := old(a[j - 1])]
    ensures multiset(a[..]) == multiset(old(a[..]))
  {
    a[j - 1], a[j] := a[j], a[j - 1];
  }

  /** The loop over the segments of FindNearestPointsToPolyline: the map and
      min_distance after every segment has been offered. */
  method ScanSegments(nodes: seq<Point3D>, point: Point3D, sqrt: real -> real)
    returns (distances: seq<Entry>, minDistance: Option<real>)
    requires 2 <= |nodes|
    ensures distances == DistancesOf(CandidatesOf(nodes, point, sqrt))
    ensures minDistance == MinDistanceOf(CandidatesOf(nodes, point, sqrt))
    ensures forall p, q :: 0 <= p < q < |distances| ==> distances[p].index < distances[q].index
  {
    var n := |nodes|;
    ghost var cands := CandidatesOf(nodes, point, sqrt);
    distances := [];
    minDistance := None;
    for i := 0 to n - 1
      invariant distances == DistancesOf(cands[..i])
      invariant minDistance == MinDistanceOf(cands[..i])
    {
      FoldStep(cands, i);
      if nodes[i].Equal(nodes[i + 1]) {
        continue;
      }
      var segI := Segment3D(nodes[i], nodes[i + 1]);
      var proj := PointProjectionOnLineThroughSegment(point, segI, sqrt);
      if IsProjectionInSegment(proj, segI) {
        var dist := DistanceBetweenPoints(proj, point, sqrt);
        assert cands[i] == Some(Candidate(proj, dist));
        distances := Insert(distances, Entry(proj, i, dist));
        if minDistance.None? || dist < minDistance.value {
          minDistance := Some(dist);
        }
      } else {
        var dist1 := DistanceBetweenPoints(nodes[i], point, sqrt);
        var dist2 := DistanceBetweenPoints(nodes[i + 1], point, sqrt);
        if dist1 < dist2 {
          assert cands[i] == Some(Candidate(nodes[i], dist1));
          distances := Insert(distances, Entry(nodes[i], i, dist1));
          if minDistance.None? || dist1 < minDistance.value {
            minDistance := Some(dist1);
          }
        } else {
          assert cands[i] == Some(Candidate(nodes[i + 1], dist2));
          distances := Insert(distances, Entry(nodes[i + 1], i, dist2));
          if minDistance.None? || dist2 < minDistance.value {
            minDistance := Some(dist2);
          }
        }
      }
    }
    assert cands[..n - 1] == cands;
    DistancesOfInvariant(cands);
  }

  /** The loop over the map of FindNearestPointsToPolyline: the (index, point) of
      every entry whose distance is within Eps of min_distance, in map order. */
  method FilterAtMinimum(distances: seq<Entry>, minDistance: Option<real>) returns (answer: seq<IndexedPoint>)
    ensures answer == Survivors(distances, minDistance)
  {
    answer := [];
    for j := 0 to |distances|
      invariant answer == Survivors(distances[..j], minDistance)
    {
      var entry := distances[j];
      SurvivorsPrefixStep(distances, minDistance, j);
      if minDistance.Some? && Abs(entry.dist - minDistance.value) < Eps {
        answer := answer + [(entry.index, entry.key)];
      }
    }
    assert distances[..|distances|] == distances;
  }

  /** One turn of the filter loop: the answer after entry j follows from the answer
      before it and entry j alone. */
  lemma SurvivorsPrefixStep(m: seq<Entry>, min: Option<real>, j: nat)
    requires j < |m|
    ensures Survivors(m[..j + 1], min) ==
              Survivors(m[..j], min) + (if CloseTo(m[j].dist, min) then [(m[j].index, m[j].key)] else [])
  {
    assert m[..j + 1][..j] == m[..j];
    assert m[..j + 1][j] == m[j];
  }

  /** FindNearestPointsToPolyline: the segments of poly whose nearest point to point
      lies within Eps of the smallest distance, each with that point, by ascending
      segment index. */
  method FindNearestPointsToPolyline(poly: Polyline3D, point: Point3D, sqrt: real -> real)
    returns (answer: seq<IndexedPoint>)
    ensures answer == NearestPoints(poly.nodes, point, sqrt)
  {
    var n := poly.GetNodesCount();
    var nodes := poly.GetNodes();
    answer := [];
    if n < 2 {
      return;
    }
    var distances, minDistance := ScanSegments(nodes, point, sqrt);
    answer := FilterAtMinimum(distances, minDistance);
    var sorted := new IndexedPoint[|answer|](p requires 0 <= p < |answer| => answer[p]);
    assert sorted[..] == answer;
    SortByIndex(sorted);
    SurvivorsAscending(distances, minDistance);
    SortedPermutationUnique(sorted[..], answer);
    answer := sorted[..];
  }

  // ---------------------------------------------------------------------------
  // What the map holds

  /** Every entry is the candidate of its own segment; the entries stand in ascending
      segment order; no two keys are equivalent. */
  predicate MapInvariant(m: seq<Entry>, cands: seq<Option<Candidate>>)
  {
    (forall p :: 0 <= p < |m| ==>
       m[p].index < |cands| && cands[m[p].index] == Some(Candidate(m[p].key, m[p].dist))) &&
    (forall p, q :: 0 <= p < q < |m| ==> m[p].index < m[q].index) &&
    (forall p, q :: 0 <= p < q < |m| ==> !Equivalent(m[p].key, m[q].key))
  }

  /** Offering one more segment whose candidate is refused, or who has none, keeps
      the invariant. */
  lemma InvariantExtends(m: seq<Entry>, cands: seq<Option<Candidate>>)
    requires 0 < |cands| && MapInvariant(m, cands[..|cands| - 1])
    ensures MapInvariant(m, cands)
  {
    var init := cands[..|cands| - 1];
    assert forall j :: 0 <= j < |init| ==> init[j] == cands[j];
  }

  /** Storing the candidate of the newest segment under a key with no equivalent keeps
      the invariant. */
  lemma InvariantAfterAppend(m: seq<Entry>, cands: seq<Option<Candidate>>, c: Candidate)
    requires 0 < |cands| && MapInvariant(m, cands[..|cands| - 1])
    requires cands[|cands| - 1] == Some(c) && !HasKey(m, c.point)
    ensures MapInvariant(m + [Entry(c.point, |cands| - 1, c.dist)], cands)
  {
    InvariantExtends(m, cands);
    var e := Entry(c.point, |cands| - 1, c.dist);
    var r := m + [e];
    assert forall p :: 0 <= p < |m| ==> !Equivalent(m[p].key, e.key);
    assert forall p :: 0 <= p < |m| ==> r[p] == m[p];
    assert r[|m|] == e;
    forall p, q | 0 <= p < q < |r| ensures !Equivalent(r[p].key, r[q].key) {
      if q == |m| {
        assert !Equivalent(m[p].key, e.key);
      }
    }
  }

  lemma {:induction false} DistancesOfInvariant(cands: seq<Option<Candidate>>)
    ensures MapInvariant(DistancesOf(cands), cands)
  {
    if cands != [] {
      var init := cands[..|cands| - 1];
      DistancesOfInvariant(init);
      var prev := DistancesOf(init);
      var last := cands[|cands| - 1];
      if last.None? || HasKey(prev, last.value.point) {
        assert DistancesOf(cands) == prev;
        InvariantExtends(prev, cands);
      } else {
        assert DistancesOf(cands) == prev + [Entry(last.value.point, |cands| - 1, last.value.dist)];
        InvariantAfterAppend(prev, cands, last.value);
      }
    }
  }

  /** The map only grows: the map after the first j segments is a prefix of the final
      one, and what came after it belongs to segments j and later. */
  lemma {:induction false} DistancesGrow(cands: seq<Option<Candidate>>, j: nat)
    requires j <= |cands|
    ensures DistancesOf(cands[..j]) <= DistancesOf(cands)
    ensures forall p :: |DistancesOf(cands[..j])| <= p < |DistancesOf(cands)| ==> j <= DistancesOf(cands)[p].index
  {
    if j < |cands| {
      var init := cands[..|cands| - 1];
      assert init[..j] == cands[..j];
      DistancesGrow(init, j);
    } else {
      assert cands[..j] == cands;
    }
  }

  /** Insert keeps the first entry: segment j has an entry in the final map exactly when
      it has a candidate and no key equivalent to the candidate's point was stored for
      an earlier segment; either way a key equivalent to it ends up stored. */
  lemma {:induction false} KeepsFirstEntry(cands: seq<Option<Candidate>>, j: nat)
    requires j < |cands|
    ensures var m := DistancesOf(cands);
            (exists p :: 0 <= p < |m| && m[p].index == j) <==>
              cands[j].Some? && !HasKey(DistancesOf(cands[..j]), cands[j].value.point)
    ensures cands[j].Some? ==> HasKey(DistancesOf(cands), cands[j].value.point)
  {
    var mj := DistancesOf(cands[..j]);
    var mj1 := DistancesOf(cands[..j + 1]);
    var mk := DistancesOf(cands);
    var c := cands[j];
    assert cands[..j + 1][..j] == cands[..j];
    assert cands[..j + 1][j] == c;
    DistancesOfInvariant(cands[..j]);
    DistancesGrow(cands, j);
    DistancesGrow(cands, j + 1);
    assert forall p :: 0 <= p < |mj| ==> mj[p].index < j;
    assert forall p :: 0 <= p < |mj| ==> mk[p] == mj[p];
    assert forall p :: 0 <= p < |mj1| ==> mk[p] == mj1[p];
    assert c.None? ==> mj1 == mj;
    assert c.Some? ==> mj1 == Insert(mj, Entry(c.value.point, j, c.value.dist));
    assert c.Some? && !HasKey(mj, c.value.point) ==> mk[|mj|].index == j;
    assert c.Some? ==> forall p :: 0 <= p < |mj1| && Equivalent(mj1[p].key, c.value.point) ==> Equivalent(mk[p].key, c.value.point);
  }

  /** min_distance is the least candidate distance, also of candidates whose insertion
      was refused, and is attained by one of them; it keeps its initial value exactly
      when no segment had a candidate. */
  lemma {:induction false} MinDistanceIsMinimum(cands: seq<Option<Candidate>>)
    ensures MinDistanceOf(cands).None? <==> forall j :: 0 <= j < |cands| ==> cands[j].None?
    ensures forall j :: 0 <= j < |cands| && cands[j].Some? ==>
              MinDistanceOf(cands).Some? && MinDistanceOf(cands).value <= cands[j].value.dist
    ensures MinDistanceOf(cands).Some? ==>
              exists j :: 0 <= j < |cands| && cands[j].Some? && cands[j].value.dist == MinDistanceOf(cands).value
  {
    if cands != [] {
      var init := cands[..|cands| - 1];
      MinDistanceIsMinimum(init);
      assert forall j :: 0 <= j < |init| ==> init[j] == cands[j];
    }
  }

  /** The map is empty exactly when min_distance kept its initial value. */
  lemma {:induction false} EmptyMapIffNoMinimum(cands: seq<Option<Candidate>>)
    ensures DistancesOf(cands) == [] <==> MinDistanceOf(cands).None?
  {
    if cands != [] {
      var init := cands[..|cands| - 1];
      EmptyMapIffNoMinimum(init);
    }
  }

  // ---------------------------------------------------------------------------
  // The answer's order

  lemma {:induction false} SurvivorsMembership(m: seq<Entry>, min: Option<real>, r: IndexedPoint)
    ensures r in Survivors(m, min) <==>
              exists p :: 0 <= p < |m| && m[p].index == r.0 && m[p].key == r.1 && CloseTo(m[p].dist, min)
  {
    if m != [] {
      var init := m[..|m| - 1];
      SurvivorsMembership(init, min, r);
      assert forall p :: 0 <= p < |init| ==> init[p] == m[p];
    }
  }

  /** Entries in strictly ascending segment order give an answer in strictly ascending
      segment order. */
  lemma {:induction false} SurvivorsAscending(m: seq<Entry>, min: Option<real>)
    requires forall p, q :: 0 <= p < q < |m| ==> m[p].index < m[q].index
    ensures StrictlyAscending(Survivors(m, min))
  {
    if m != [] {
      var init := m[..|m| - 1];
      var last := m[|m| - 1];
      SurvivorsAscending(init, min);
      var s := Survivors(init, min);
      forall p | 0 <= p < |s| ensures s[p].0 < last.index {
        SurvivorsMembership(init, min, s[p]);
      }
    }
  }

  /** In a sequence strictly sorted by index, only the first element has an index no
      larger than the first one's. */
  lemma LeastIndexFirst(b: seq<IndexedPoint>, j: nat)
    requires StrictlyAscending(b) && j < |b| && b[j].0 <= b[0].0
    ensures j == 0
  {
  }

  /** Of two sequences sorted by index with the same elements, the second strictly,
      the first elements agree. */
  lemma FirstElementsAgree(a: seq<IndexedPoint>, b: seq<IndexedPoint>)
    requires Ascending(a) && StrictlyAscending(b) && multiset(a) == multiset(b) && 0 < |a|
    ensures 0 < |b| && a[0] == b[0]
  {
    assert a[0] in multiset(b);
    var j :| 0 <= j < |b| && b[j] == a[0];
    assert b[0] in multiset(a);
    var i :| 0 <= i < |a| && a[i] == b[0];
    assert a[0].0 <= a[i].0;
    LeastIndexFirst(b, j);
  }

  /** Removing equal first elements keeps two sequences permutations of each other. */
  lemma TailsPermuted(a: seq<IndexedPoint>, b: seq<IndexedPoint>)
    requires 0 < |a| && 0 < |b| && a[0] == b[0] && multiset(a) == multiset(b)
    ensures multiset(a[1..]) == multiset(b[1..])
  {
    assert a == [a[0]] + a[1..] && b == [b[0]] + b[1..];
    assert multiset(a) == multiset{a[0]} + multiset(a[1..]);
    assert multiset(b) == multiset{a[0]} + multiset(b[1..]);
    assert multiset(a[1..]) == multiset(a) - multiset{a[0]};
    assert multiset(b[1..]) == multiset(b) - multiset{a[0]};
  }

  /** A sequence sorted by index that is a permutation of one strictly sorted by index
      is that sequence: the indices are distinct, so the unstable sort has one result. */
  lemma {:induction false} SortedPermutationUnique(a: seq<IndexedPoint>, b: seq<IndexedPoint>)
    requires Ascending(a) && StrictlyAscending(b) && multiset(a) == multiset(b)
    ensures a == b
  {
    if |a| == 0 {
      assert |multiset(b)| == 0;
    } else {
      FirstElementsAgree(a, b);
      TailsPermuted(a, b);
      assert Ascending(a[1..]) && StrictlyAscending(b[1..]);
      SortedPermutationUnique(a[1..], b[1..]);
      assert a == [a[0]] + a[1..] && b == [b[0]] + b[1..];
    }
  }

  // ---------------------------------------------------------------------------
  // What the search returns

  /** Segment j is reported with point pt: its candidate is pt, the candidate's distance
      is within Eps of min_distance, and no earlier segment stored a key equivalent to
      pt. */
  predicate Reported(nodes: seq<Point3D>, query: Point3D, sqrt: real -> real, j: nat, pt: Point3D)
  {
    var cands := CandidatesOf(nodes, query, sqrt);
    j < |cands| && cands[j].Some? && cands[j].value.point == pt &&
    CloseTo(cands[j].value.dist, MinDistanceOf(cands)) &&
    !HasKey(DistancesOf(cands[..j]), pt)
  }

  /** The filtered map holds (j, pt) exactly when segment j offered pt, its distance is
      within Eps of min_distance, and no earlier segment stored a key equivalent to pt. */
  lemma SurvivorsCharacterized(cands: seq<Option<Candidate>>, j: nat, pt: Point3D)
    ensures (j, pt) in Survivors(DistancesOf(cands), MinDistanceOf(cands)) <==>
              j < |cands| && cands[j].Some? && cands[j].value.point == pt &&
              CloseTo(cands[j].value.dist, MinDistanceOf(cands)) &&
              !HasKey(DistancesOf(cands[..j]), pt)
  {
    var m := DistancesOf(cands);
    var min := MinDistanceOf(cands);
    SurvivorsMembership(m, min, (j, pt));
    DistancesOfInvariant(cands);
    if j < |cands| {
      KeepsFirstEntry(cands, j);
      if (j, pt) in Survivors(m, min) {
        var p :| 0 <= p < |m| && m[p].index == j && m[p].key == pt && CloseTo(m[p].dist, min);
        assert cands[j] == Some(Candidate(m[p].key, m[p].dist));
      }
    } else {
      assert forall p :: 0 <= p < |m| ==> m[p].index != j;
    }
  }

  /** The answer holds (j, pt) exactly when segment j is reported with pt. */
  lemma NearestPointsCharacterized(nodes: seq<Point3D>, query: Point3D, sqrt: real -> real, j: nat, pt: Point3D)
    ensures (j, pt) in NearestPoints(nodes, query, sqrt) <==> Reported(nodes, query, sqrt, j, pt)
  {
    SurvivorsCharacterized(CandidatesOf(nodes, query, sqrt), j, pt);
  }

  /** The answer lists segment indices in strictly ascending order, so each segment is
      reported at most once. */
  lemma NearestPointsAscending(nodes: seq<Point3D>, query: Point3D, sqrt: real -> real)
    ensures StrictlyAscending(NearestPoints(nodes, query, sqrt))
  {
    var cands := CandidatesOf(nodes, query, sqrt);
    DistancesOfInvariant(cands);
    SurvivorsAscending(DistancesOf(cands), MinDistanceOf(cands));
  }

  /** Fewer than two nodes, or only degenerate segments, give an empty answer. */
  lemma NoProperSegmentNoAnswer(nodes: seq<Point3D>, query: Point3D, sqrt: real -> real)
    requires forall j :: 0 <= j < SegmentCount(nodes) ==> nodes[j].Equal(nodes[j + 1])
    ensures NearestPoints(nodes, query, sqrt) == []
  {
    var cands := CandidatesOf(nodes, query, sqrt);
    MinDistanceIsMinimum(cands);
    EmptyMapIffNoMinimum(cands);
  }

  /** A degenerate segment is never reported. */
  lemma DegenerateSegmentNotReported(nodes: seq<Point3D>, query: Point3D, sqrt: real -> real, j: nat, pt: Point3D)
    requires j < SegmentCount(nodes) && nodes[j].Equal(nodes[j + 1])
    ensures (j, pt) !in NearestPoints(nodes, query, sqrt)
  {
    NearestPointsCharacterized(nodes, query, sqrt, j, pt);
  }

  /** min_distance is the distance from the query to the polyline: it is attained by a
      candidate, and no point of a proper segment is nearer. */
  lemma MinimumIsDistanceToPolyline(nodes: seq<Point3D>, query: Point3D, sqrt: real -> real, j: nat, s: real)
    requires IsSqrt(sqrt) && j < SegmentCount(nodes) && !nodes[j].Equal(nodes[j + 1]) && 0.0 <= s <= 1.0
    ensures var min := MinDistanceOf(CandidatesOf(nodes, query, sqrt));
            min.Some? && min.value <= DistanceBetweenPoints(PointAt(Segment3D(nodes[j], nodes[j + 1]), s), query, sqrt)
  {
    CandidateIsNearestPointOfSegment(nodes, j, query, sqrt, s);
    MinDistanceIsMinimum(CandidatesOf(nodes, query, sqrt));
  }

  /** Every reported point is the nearest point of its segment, and its distance from
      the query is within Eps of min_distance. */
  lemma ReportedPointsAreNearest(nodes: seq<Point3D>, query: Point3D, sqrt: real -> real, j: nat, pt: Point3D)
    requires IsSqrt(sqrt) && (j, pt) in NearestPoints(nodes, query, sqrt)
    ensures j < SegmentCount(nodes) && !nodes[j].Equal(nodes[j + 1])
    ensures var seg := Segment3D(nodes[j], nodes[j + 1]);
            var min := MinDistanceOf(CandidatesOf(nodes, query, sqrt));
            pt == PointAt(seg, Clamp(ProjectionParameter(query, seg))) &&
            min.Some? && Abs(DistanceBetweenPoints(pt, query, sqrt) - min.value) < Eps
  {
    NearestPointsCharacterized(nodes, query, sqrt, j, pt);
    CandidateIsNearestPointOfSegment(nodes, j, query, sqrt, 0.0);
  }
}
