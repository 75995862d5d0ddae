/** The search's reductions on the candidates of the closed square (0,0,0), (2,0,0),
    (2,2,0), (0,2,0), (0,0,0) of the test suite, and a diagonal polyline whose second
    segment offers a point the map refuses. The square's candidate distances are kept
    symbolic: only how they compare matters to the map, the minimum and the filter. */
module NearestPointsExamples {
  import opened RealArithmetic
  import opened GeometryObjects
  import opened MathOperations
  import opened NearestPointsAlgorithm

  /** One more segment: its candidate, if any, is offered to the map under its index. */
  lemma DistancesStep(cands: seq<Option<Candidate>>, c: Option<Candidate>)
    ensures DistancesOf(cands + [c]) ==
              if c.None? then DistancesOf(cands)
              else Insert(DistancesOf(cands), Entry(c.value.point, |cands|, c.value.dist))
  {
    assert (cands + [c])[..|cands|] == cands;
  }

  /** One more segment: its candidate, if any, may lower the minimum. */
  lemma MinimumStep(cands: seq<Option<Candidate>>, c: Option<Candidate>)
    ensures MinDistanceOf(cands + [c]) ==
              var prev := MinDistanceOf(cands);
              if c.None? then prev
              else if prev.None? || c.value.dist < prev.value then Some(c.value.dist) else prev
  {
    assert (cands + [c])[..|cands|] == cands;
  }

  /** One more entry: it survives the filter when its distance is close to min. */
  lemma SurvivorsStep(m: seq<Entry>, e: Entry, min: Option<real>)
    ensures Survivors(m + [e], min) == Survivors(m, min) + (if CloseTo(e.dist, min) then [(e.index, e.key)] else [])
  {
    assert (m + [e])[..|m|] == m;
  }

  /** An entry whose key is new to the map is appended. */
  lemma InsertFresh(m: seq<Entry>, e: Entry)
    requires forall k :: 0 <= k < |m| ==> !Equivalent(m[k].key, e.key)
    ensures Insert(m, e) == m + [e]
  {
  }

  /** An entry whose key is equivalent to a stored one is refused. */
  lemma InsertRefused(m: seq<Entry>, e: Entry, k: nat)
    requires k < |m| && Equivalent(m[k].key, e.key)
    ensures Insert(m, e) == m
  {
  }

  /** A candidate whose point is new to the map is stored at the end. */
  lemma StoreNext(cands: seq<Option<Candidate>>, m: seq<Entry>, e: Entry)
    requires DistancesOf(cands) == m && e.index == |cands|
    requires forall k :: 0 <= k < |m| ==> !Equivalent(m[k].key, e.key)
    ensures DistancesOf(cands + [Some(Candidate(e.key, e.dist))]) == m + [e]
  {
    DistancesStep(cands, Some(Candidate(e.key, e.dist)));
    InsertFresh(m, e);
  }

  /** A candidate whose point is equivalent to a stored key leaves the map as it is. */
  lemma RefuseNext(cands: seq<Option<Candidate>>, m: seq<Entry>, c: Candidate, k: nat)
    requires DistancesOf(cands) == m && k < |m| && Equivalent(m[k].key, c.point)
    ensures DistancesOf(cands + [Some(c)]) == m
  {
    DistancesStep(cands, Some(c));
    InsertRefused(m, Entry(c.point, |cands|, c.dist), k);
  }

  /** An entry whose distance is close to min is reported after the earlier ones. */
  lemma ReportNext(m: seq<Entry>, e: Entry, min: Option<real>, out: seq<IndexedPoint>)
    requires Survivors(m, min) == out && CloseTo(e.dist, min)
    ensures Survivors(m + [e], min) == out + [(e.index, e.key)]
  {
    SurvivorsStep(m, e, min);
  }

  /** When every segment offers a point and no two points are equivalent, the map
      stores every candidate, in segment order. */
  lemma {:induction false} AllStored(cands: seq<Option<Candidate>>)
    requires forall k :: 0 <= k < |cands| ==> cands[k].Some?
    requires forall k, l :: 0 <= k < l < |cands| ==> !Equivalent(cands[k].value.point, cands[l].value.point)
    ensures |DistancesOf(cands)| == |cands|
    ensures forall k :: 0 <= k < |cands| ==>
              DistancesOf(cands)[k] == Entry(cands[k].value.point, k, cands[k].value.dist)
  {
    if cands != [] {
      var init := cands[..|cands| - 1];
      assert forall k :: 0 <= k < |init| ==> init[k] == cands[k];
      AllStored(init);
      var m := DistancesOf(init);
      var c := cands[|cands| - 1].value;
      assert forall k :: 0 <= k < |m| ==> !Equivalent(m[k].key, c.point) by {
        forall k | 0 <= k < |m|
          ensures !Equivalent(m[k].key, c.point)
        {
          assert m[k].key == cands[k].value.point;
        }
      }
      InsertFresh(m, Entry(c.point, |cands| - 1, c.dist));
    }
  }

  /** Four pairwise distinct points at one distance r: the map stores all four. */
  lemma FourStored(cands: seq<Option<Candidate>>, p0: Point3D, p1: Point3D, p2: Point3D, p3: Point3D, r: real)
    requires cands == [Some(Candidate(p0, r)), Some(Candidate(p1, r)), Some(Candidate(p2, r)), Some(Candidate(p3, r))]
    requires !Equivalent(p0, p1) && !Equivalent(p0, p2) && !Equivalent(p0, p3)
    requires !Equivalent(p1, p2) && !Equivalent(p1, p3) && !Equivalent(p2, p3)
    ensures DistancesOf(cands) == [Entry(p0, 0, r), Entry(p1, 1, r), Entry(p2, 2, r), Entry(p3, 3, r)]
  {
    AllStored(cands);
  }

  /** Equal distances never lower the minimum: it is the first one. */
  lemma FourAtMinimum(cands: seq<Option<Candidate>>, p0: Point3D, p1: Point3D, p2: Point3D, p3: Point3D, r: real)
    requires cands == [Some(Candidate(p0, r)), Some(Candidate(p1, r)), Some(Candidate(p2, r)), Some(Candidate(p3, r))]
    ensures MinDistanceOf(cands) == Some(r)
  {
    var c0, c1, c2, c3 := Some(Candidate(p0, r)), Some(Candidate(p1, r)), Some(Candidate(p2, r)), Some(Candidate(p3, r));
    assert [c0] == [] + [c0] && [c0, c1] == [c0] + [c1] && [c0, c1, c2] == [c0, c1] + [c2];
    assert cands == [c0, c1, c2] + [c3];
    MinimumStep([], c0);
    MinimumStep([c0], c1);
    MinimumStep([c0, c1], c2);
    MinimumStep([c0, c1, c2], c3);
  }

  /** Four entries at the minimum all survive the filter, in map order. */
  lemma FourSurvive(p0: Point3D, p1: Point3D, p2: Point3D, p3: Point3D, r: real)
    ensures Survivors([Entry(p0, 0, r), Entry(p1, 1, r), Entry(p2, 2, r), Entry(p3, 3, r)], Some(r)) ==
              [(0, p0), (1, p1), (2, p2), (3, p3)]
  {
    var e0, e1, e2, e3 := Entry(p0, 0, r), Entry(p1, 1, r), Entry(p2, 2, r), Entry(p3, 3, r);
    assert CloseTo(r, Some(r));
    ReportNext([], e0, Some(r), []);
    assert [] + [e0] == [e0];
    ReportNext([e0], e1, Some(r), [(0, p0)]);
    assert [e0] + [e1] == [e0, e1];
    ReportNext([e0, e1], e2, Some(r), [(0, p0), (1, p1)]);
    assert [e0, e1] + [e2] == [e0, e1, e2];
    ReportNext([e0, e1, e2], e3, Some(r), [(0, p0), (1, p1), (2, p2)]);
    assert [e0, e1, e2] + [e3] == [e0, e1, e2, e3];
  }

  /** A proper segment offers the point p of its line at the cut-back projection
      parameter t, at the root of p's squared distance a from the query. */
  lemma OffersClamped(nodes: seq<Point3D>, i: nat, query: Point3D, sqrt: real -> real, t: real, p: Point3D, a: real)
    requires IsSqrt(sqrt) && i + 1 < |nodes| && !nodes[i].Equal(nodes[i + 1])
    requires ProjectionParameter(query, Segment3D(nodes[i], nodes[i + 1])) == t
    requires PointAt(Segment3D(nodes[i], nodes[i + 1]), Clamp(t)) == p
    requires SumOfSquares(query.x - p.x, query.y - p.y, query.z - p.z) == a
    ensures SegmentCandidate(nodes, i, query, sqrt) == Some(Candidate(p, Root(sqrt, a)))
  {
    CandidateIsNearestPointOfSegment(nodes, i, query, sqrt, 0.0);
  }

  // ---------------------------------------------------------------------------
  // The query above the centre of the square

  const SideA: Point3D := Primitive3D(1.0, 0.0, 0.0)
  const SideB: Point3D := Primitive3D(2.0, 1.0, 0.0)
  const SideC: Point3D := Primitive3D(1.0, 2.0, 0.0)
  const SideD: Point3D := Primitive3D(0.0, 1.0, 0.0)

  /** The midpoints of the four sides are pairwise far apart under the tolerant order. */
  lemma MidpointsDistinct()
    ensures !Equivalent(SideA, SideB) && !Equivalent(SideA, SideC) && !Equivalent(SideA, SideD)
    ensures !Equivalent(SideB, SideC) && !Equivalent(SideB, SideD) && !Equivalent(SideC, SideD)
  {
  }

  /** The query (1, 1, 1) above the centre: each side offers its midpoint, all at the
      same distance r (the root of 2), and all four are reported in side order. */
  lemma CentreOfSquare(cands: seq<Option<Candidate>>, r: real)
    requires cands == [Some(Candidate(SideA, r)), Some(Candidate(SideB, r)),
                       Some(Candidate(SideC, r)), Some(Candidate(SideD, r))]
    ensures Survivors(DistancesOf(cands), MinDistanceOf(cands)) == [(0, SideA), (1, SideB), (2, SideC), (3, SideD)]
  {
    MidpointsDistinct();
    FourStored(cands, SideA, SideB, SideC, SideD, r);
    FourAtMinimum(cands, SideA, SideB, SideC, SideD, r);
    FourSurvive(SideA, SideB, SideC, SideD, r);
  }

  // ---------------------------------------------------------------------------
  // A shared vertex offered twice

  /** Segments 1 and 2 both offer their shared vertex b at distance r, the others
      a and d at s: the map refuses the second b. */
  lemma SharedVertexStored(cands: seq<Option<Candidate>>, a: Point3D, b: Point3D, d: Point3D, r: real, s: real)
    requires cands == [Some(Candidate(a, s)), Some(Candidate(b, r)), Some(Candidate(b, r)), Some(Candidate(d, s))]
    requires !Equivalent(a, b) && !Equivalent(a, d) && !Equivalent(b, d)
    ensures DistancesOf(cands) == [Entry(a, 0, s), Entry(b, 1, r), Entry(d, 3, s)]
  {
    var c0, c1, c2, c3 := Some(Candidate(a, s)), Some(Candidate(b, r)), Some(Candidate(b, r)), Some(Candidate(d, s));
    var e0, e1, e3 := Entry(a, 0, s), Entry(b, 1, r), Entry(d, 3, s);
    AllStored([c0, c1]);
    assert DistancesOf([c0, c1]) == [e0, e1];
    LessIrreflexive(b);
    RefuseNext([c0, c1], [e0, e1], Candidate(b, r), 1);
    assert [c0, c1] + [c2] == [c0, c1, c2];
    StoreNext([c0, c1, c2], [e0, e1], e3);
    assert [c0, c1, c2] + [c3] == cands;
  }

  /** The nearer distance r becomes the minimum at segment 1 and stays. */
  lemma SharedVertexMinimum(cands: seq<Option<Candidate>>, a: Point3D, b: Point3D, d: Point3D, r: real, s: real)
    requires cands == [Some(Candidate(a, s)), Some(Candidate(b, r)), Some(Candidate(b, r)), Some(Candidate(d, s))]
    requires r < s
    ensures MinDistanceOf(cands) == Some(r)
  {
    var c0, c1, c2, c3 := Some(Candidate(a, s)), Some(Candidate(b, r)), Some(Candidate(b, r)), Some(Candidate(d, s));
    MinimumStep([], c0);
    assert [] + [c0] == [c0];
    MinimumStep([c0], c1);
    assert [c0] + [c1] == [c0, c1];
    MinimumStep([c0, c1], c2);
    assert [c0, c1] + [c2] == [c0, c1, c2];
    MinimumStep([c0, c1, c2], c3);
    assert [c0, c1, c2] + [c3] == cands;
  }

  /** Only the stored entry at the minimum survives: the vertex, under the first of
      the two segments that offered it. */
  lemma SharedVertexReported(cands: seq<Option<Candidate>>, a: Point3D, b: Point3D, d: Point3D, r: real, s: real)
    requires cands == [Some(Candidate(a, s)), Some(Candidate(b, r)), Some(Candidate(b, r)), Some(Candidate(d, s))]
    requires !Equivalent(a, b) && !Equivalent(a, d) && !Equivalent(b, d)
    requires Eps <= s - r
    ensures Survivors(DistancesOf(cands), MinDistanceOf(cands)) == [(1, b)]
  {
    SharedVertexStored(cands, a, b, d, r, s);
    SharedVertexMinimum(cands, a, b, d, r, s);
    var e0, e1, e3 := Entry(a, 0, s), Entry(b, 1, r), Entry(d, 3, s);
    assert !CloseTo(s, Some(r)) && CloseTo(r, Some(r));
    SurvivorsStep([], e0, Some(r));
    assert [] + [e0] == [e0];
    SurvivorsStep([e0], e1, Some(r));
    assert [e0] + [e1] == [e0, e1];
    SurvivorsStep([e0, e1], e3, Some(r));
    assert [e0, e1] + [e3] == [e0, e1, e3];
  }

  const CornerB: Point3D := Primitive3D(2.0, 0.0, 0.0)
  const CornerC: Point3D := Primitive3D(2.0, 2.0, 0.0)
  const CornerD: Point3D := Primitive3D(0.0, 2.0, 0.0)

  lemma CornersDistinct()
    ensures !Equivalent(CornerB, CornerC) && !Equivalent(CornerB, CornerD) && !Equivalent(CornerC, CornerD)
  {
  }

  /** The root of 19 exceeds the root of 11 by far more than Eps: 4 < root 19 and
      root 11 < 3.5. */
  lemma CornerDistancesApart(sqrt: real -> real)
    requires IsSqrt(sqrt)
    ensures Eps <= Root(sqrt, 19.0) - Root(sqrt, 11.0)
  {
    SqrtUnique(sqrt, 16.0, 4.0);
    SqrtUnique(sqrt, 12.25, 3.5);
    SqrtMonotone(sqrt, 11.0, 12.25);
    SqrtMonotone(sqrt, 16.0, 19.0);
  }

  /** The query (3, 3, 3) beyond the corner (2, 2, 0): sides 0 and 3 offer their far
      ends at the root of 19, sides 1 and 2 both offer the corner at the root of 11.
      The corner is reported once, under side 1. */
  lemma BeyondCorner(cands: seq<Option<Candidate>>, sqrt: real -> real)
    requires IsSqrt(sqrt)
    requires var r, s := Root(sqrt, 11.0), Root(sqrt, 19.0);
             cands == [Some(Candidate(CornerB, s)), Some(Candidate(CornerC, r)),
                       Some(Candidate(CornerC, r)), Some(Candidate(CornerD, s))]
    ensures Survivors(DistancesOf(cands), MinDistanceOf(cands)) == [(1, CornerC)]
  {
    CornersDistinct();
    CornerDistancesApart(sqrt);
    SharedVertexReported(cands, CornerB, CornerC, CornerD, Root(sqrt, 11.0), Root(sqrt, 19.0));
  }

  // ---------------------------------------------------------------------------
  // A refused key that still lowers the minimum

  /** Segment 0 stores a; segment 1's point b is equivalent to a and is refused. */
  lemma RefusedKeyStored(cands: seq<Option<Candidate>>, a: Point3D, b: Point3D, r: real, s: real)
    requires cands == [Some(Candidate(a, s)), Some(Candidate(b, r))]
    requires Equivalent(a, b)
    ensures DistancesOf(cands) == [Entry(a, 0, s)]
  {
    var c0, c1 := Some(Candidate(a, s)), Some(Candidate(b, r));
    var e0 := Entry(a, 0, s);
    StoreNext([], [], e0);
    assert [] + [c0] == [c0];
    assert [] + [e0] == [e0];
    RefuseNext([c0], [e0], Candidate(b, r), 0);
    assert [c0] + [c1] == cands;
  }

  /** The refused candidate's smaller distance r still becomes the minimum. */
  lemma RefusedKeyMinimum(cands: seq<Option<Candidate>>, a: Point3D, b: Point3D, r: real, s: real)
    requires cands == [Some(Candidate(a, s)), Some(Candidate(b, r))]
    requires r < s
    ensures MinDistanceOf(cands) == Some(r)
  {
    var c0, c1 := Some(Candidate(a, s)), Some(Candidate(b, r));
    MinimumStep([], c0);
    assert [] + [c0] == [c0];
    MinimumStep([c0], c1);
    assert [c0] + [c1] == cands;
  }

  /** Segment 0 offers a at distance s; segment 1 offers a point b the map cannot tell
      from a, at a distance r at least Eps smaller. The map keeps a, the minimum drops
      to r, and a is too far from r to be reported: the answer is empty. */
  lemma RefusedKeyEmptiesAnswer(cands: seq<Option<Candidate>>, a: Point3D, b: Point3D, r: real, s: real)
    requires cands == [Some(Candidate(a, s)), Some(Candidate(b, r))]
    requires Equivalent(a, b) && Eps <= s - r
    ensures DistancesOf(cands) == [Entry(a, 0, s)]
    ensures MinDistanceOf(cands) == Some(r)
    ensures Survivors(DistancesOf(cands), MinDistanceOf(cands)) == []
  {
    RefusedKeyStored(cands, a, b, r, s);
    RefusedKeyMinimum(cands, a, b, r, s);
    var e0 := Entry(a, 0, s);
    assert !CloseTo(s, Some(r));
    SurvivorsStep([], e0, Some(r));
    assert [] + [e0] == [e0];
  }

  /** A proper segment whose line carries the query's projection at or beyond its end
      (d . w >= d . d, with d its direction and w the query's offset from its start)
      offers its end, at the end's distance from the query. */
  lemma OffersEnd(nodes: seq<Point3D>, i: nat, query: Point3D, sqrt: real -> real)
    requires IsSqrt(sqrt) && i + 1 < |nodes| && !nodes[i].Equal(nodes[i + 1])
    requires ScalarProduct(VectorBetween(nodes[i], nodes[i + 1]), VectorBetween(nodes[i], nodes[i + 1])) <=
             ScalarProduct(VectorBetween(nodes[i], nodes[i + 1]), VectorBetween(nodes[i], query))
    ensures SegmentCandidate(nodes, i, query, sqrt) ==
              Some(Candidate(nodes[i + 1], DistanceBetweenPoints(nodes[i + 1], query, sqrt)))
  {
    var seg := Segment3D(nodes[i], nodes[i + 1]);
    var dd := ScalarProduct(VectorBetween(nodes[i], nodes[i + 1]), VectorBetween(nodes[i], nodes[i + 1]));
    var dw := ScalarProduct(VectorBetween(nodes[i], nodes[i + 1]), VectorBetween(nodes[i], query));
    EqualReflexiveSymmetric(nodes[i], nodes[i + 1]);
    DirectionNonZero(seg);
    assert 1.0 <= dw / dd by {
      QuotientOf(1.0, dd, dd);
      QuotientTimesDivisor(dw, dd);
      if dw / dd < 1.0 {
        ProductPositive(1.0 - dw / dd, dd);
      }
    }
    assert Clamp(ProjectionParameter(query, seg)) == 1.0;
    EndsOfLine(seg);
    CandidateIsNearestPointOfSegment(nodes, i, query, sqrt, 0.0);
  }

  /** The point (l, l, l) of the main diagonal. */
  function Diagonal(l: real): Point3D
  {
    Primitive3D(l, l, l)
  }

  /** Two diagonal points at least Eps apart are not tolerantly equal. */
  lemma DiagonalProper(l0: real, l1: real)
    requires Eps <= l1 - l0
    ensures !Diagonal(l0).Equal(Diagonal(l1))
  {
  }

  /** Along the diagonal, a query at or beyond l1 projects at or beyond the end of the
      segment from l0 to l1. */
  lemma DiagonalBeyond(l0: real, l1: real, m: real)
    requires l0 < l1 <= m
    ensures ScalarProduct(VectorBetween(Diagonal(l0), Diagonal(l1)), VectorBetween(Diagonal(l0), Diagonal(l1))) <=
            ScalarProduct(VectorBetween(Diagonal(l0), Diagonal(l1)), VectorBetween(Diagonal(l0), Diagonal(m)))
  {
    ProductNonNegative(l1 - l0, m - l1);
    assert (l1 - l0) * (m - l0) == (l1 - l0) * (l1 - l0) + (l1 - l0) * (m - l1);
  }

  /** The distance between two diagonal points is |m - l| times the root of 3. */
  lemma DiagonalDistance(l: real, m: real, sqrt: real -> real)
    requires IsSqrt(sqrt)
    ensures DistanceBetweenPoints(Diagonal(l), Diagonal(m), sqrt) == Abs(m - l) * Root(sqrt, 3.0)
  {
    SqrtSpec(sqrt, 3.0);
    ScaledRoot(Root(sqrt, 3.0), 3.0, m - l);
    assert SumOfSquares(m - l, m - l, m - l) == (m - l) * (m - l) * 3.0;
    SqrtUnique(sqrt, (m - l) * (m - l) * 3.0, Abs(m - l) * Root(sqrt, 3.0));
  }

  /** A diagonal segment from l0 to l1 at least Eps long, with the query at m beyond
      its end, offers its end at (m - l1) times the root of 3. */
  lemma DiagonalOffersEnd(nodes: seq<Point3D>, i: nat, query: Point3D, sqrt: real -> real, l0: real, l1: real, m: real)
    requires IsSqrt(sqrt) && i + 1 < |nodes|
    requires nodes[i] == Diagonal(l0) && nodes[i + 1] == Diagonal(l1) && query == Diagonal(m)
    requires Eps <= l1 - l0 && l1 <= m
    ensures SegmentCandidate(nodes, i, query, sqrt) == Some(Candidate(Diagonal(l1), (m - l1) * Root(sqrt, 3.0)))
  {
    assert !nodes[i].Equal(nodes[i + 1]) by {
      DiagonalProper(l0, l1);
    }
    assert ScalarProduct(VectorBetween(nodes[i], nodes[i + 1]), VectorBetween(nodes[i], nodes[i + 1])) <=
           ScalarProduct(VectorBetween(nodes[i], nodes[i + 1]), VectorBetween(nodes[i], query)) by {
      DiagonalBeyond(l0, l1, m);
    }
    OffersEnd(nodes, i, query, sqrt);
    assert DistanceBetweenPoints(nodes[i + 1], query, sqrt) == (m - l1) * Root(sqrt, 3.0) by {
      DiagonalDistance(l1, m, sqrt);
    }
  }

  /** Three diagonal nodes at least Eps apart and a query beyond the last: each of the
      two segments offers its end. */
  lemma DiagonalCandidates(nodes: seq<Point3D>, query: Point3D, sqrt: real -> real, l0: real, l1: real, l2: real, m: real)
    requires IsSqrt(sqrt)
    requires nodes == [Diagonal(l0), Diagonal(l1), Diagonal(l2)] && query == Diagonal(m)
    requires Eps <= l1 - l0 && Eps <= l2 - l1 && l2 <= m
    ensures CandidatesOf(nodes, query, sqrt) ==
              [Some(Candidate(Diagonal(l1), (m - l1) * Root(sqrt, 3.0))),
               Some(Candidate(Diagonal(l2), (m - l2) * Root(sqrt, 3.0)))]
  {
    DiagonalOffersEnd(nodes, 0, query, sqrt, l0, l1, m);
    DiagonalOffersEnd(nodes, 1, query, sqrt, l1, l2, m);
  }

  /** A polyline whose two segments offer equivalent points, the second at least Eps
      nearer: the map keeps the first, the second still becomes the minimum, and
      nothing is reported. */
  lemma RefusedKeyAnswer(nodes: seq<Point3D>, query: Point3D, sqrt: real -> real, a: Point3D, b: Point3D, r: real, s: real)
    requires CandidatesOf(nodes, query, sqrt) == [Some(Candidate(a, s)), Some(Candidate(b, r))]
    requires Equivalent(a, b) && Eps <= s - r
    ensures DistancesOf(CandidatesOf(nodes, query, sqrt)) == [Entry(a, 0, s)]
    ensures MinDistanceOf(CandidatesOf(nodes, query, sqrt)) == Some(r)
    ensures NearestPoints(nodes, query, sqrt) == []
  {
    RefusedKeyEmptiesAnswer(CandidatesOf(nodes, query, sqrt), a, b, r, s);
  }

  /** The polyline (-1,-1,-1), (0,0,0), (Eps,Eps,Eps) and the query (1,1,1): both
      segments are proper (the second one's nodes differ by exactly Eps in every
      coordinate), yet the answer is empty. Segment 0 stores the origin at the root of 3;
      segment 1's end (Eps,Eps,Eps) is equivalent to the origin, so the map refuses it,
      but its distance, (1 - Eps) times the root of 3, still becomes the minimum, and the
      stored origin is Eps times the root of 3 away from it, more than Eps. */
  lemma RefusedKeyOnPolyline(nodes: seq<Point3D>, query: Point3D, sqrt: real -> real)
    requires IsSqrt(sqrt)
    requires nodes == [Primitive3D(-1.0, -1.0, -1.0), Origin, Primitive3D(Eps, Eps, Eps)]
    requires query == Primitive3D(1.0, 1.0, 1.0)
    ensures !nodes[0].Equal(nodes[1]) && !nodes[1].Equal(nodes[2])
    ensures DistancesOf(CandidatesOf(nodes, query, sqrt)) == [Entry(Origin, 0, Root(sqrt, 3.0))]
    ensures MinDistanceOf(CandidatesOf(nodes, query, sqrt)) == Some((1.0 - Eps) * Root(sqrt, 3.0))
    ensures NearestPoints(nodes, query, sqrt) == []
  {
    var root := Root(sqrt, 3.0);
    var e := Primitive3D(Eps, Eps, Eps);
    assert nodes == [Diagonal(-1.0), Diagonal(0.0), Diagonal(Eps)] && query == Diagonal(1.0);
    DiagonalProper(-1.0, 0.0);
    DiagonalProper(0.0, Eps);
    assert CandidatesOf(nodes, query, sqrt) == [Some(Candidate(Origin, root)), Some(Candidate(e, (1.0 - Eps) * root))] by {
      DiagonalCandidates(nodes, query, sqrt, -1.0, 0.0, Eps, 1.0);
    }
    assert 1.0 <= root by {
      SqrtSpec(sqrt, 3.0);
      SqrtZeroOne(sqrt);
      SqrtMonotone(sqrt, 1.0, 3.0);
    }
    RefusedKeyAnswer(nodes, query, sqrt, Origin, e, (1.0 - Eps) * root, root);
  }
}
