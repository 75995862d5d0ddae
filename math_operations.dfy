/** Vector algebra on coordinate triples: scalar product, length, distance,
    normalisation, scaling and projection onto the line through a segment.
    Doubles are modelled as exact reals. The square root is a parameter of the
    functions that take one; the lemmas about them ask that it satisfy IsSqrt. */
module MathOperations {
  import opened GeometryObjects
  import opened RealArithmetic

  /** What the model relies on of the square root: on non-negative arguments it is
      non-negative and squares back to its argument. */
  ghost predicate IsSqrt(sqrt: real -> real)
  {
    forall a :: RootAt(sqrt, a)
  }

  /** The square-root property at one argument. It is a predicate of its own so that
      the arithmetic in it is only seen where SqrtSpec asks for it. */
  predicate RootAt(sqrt: real -> real, a: real)
  {
    0.0 <= a ==> 0.0 <= Root(sqrt, a) && Root(sqrt, a) * Root(sqrt, a) == a
  }

  /** The square root of a, as std::sqrt computes it. */
  function Root(sqrt: real -> real, a: real): real
  {
    sqrt(a)
  }

  lemma SqrtSpec(sqrt: real -> real, a: real)
    requires IsSqrt(sqrt) && 0.0 <= a
    ensures 0.0 <= Root(sqrt, a) && Root(sqrt, a) * Root(sqrt, a) == a
  {
    assert RootAt(sqrt, a);
  }

  /** The non-negative square root is unique. */
  lemma SqrtUnique(sqrt: real -> real, a: real, r: real)
    requires IsSqrt(sqrt) && 0.0 <= r && r * r == a
    ensures Root(sqrt, a) == r
  {
    SquareNonNegative(r);
    SqrtSpec(sqrt, a);
    RootsEqual(Root(sqrt, a), r);
  }

  lemma SqrtZeroOne(sqrt: real -> real)
    requires IsSqrt(sqrt)
    ensures Root(sqrt, 0.0) == 0.0 && Root(sqrt, 1.0) == 1.0
  {
    SqrtUnique(sqrt, 0.0, 0.0);
    SqrtUnique(sqrt, 1.0, 1.0);
  }

  lemma SqrtMonotone(sqrt: real -> real, a: real, b: real)
    requires IsSqrt(sqrt) && 0.0 <= a
    ensures a <= b ==> Root(sqrt, a) <= Root(sqrt, b)
    ensures a < b ==> Root(sqrt, a) < Root(sqrt, b)
  {
    if a <= b {
      SqrtSpec(sqrt, a);
      SqrtSpec(sqrt, b);
      SquaresOrdered(Root(sqrt, a), Root(sqrt, b));
    }
  }

  function ScalarProduct(vec1: Vector3D, vec2: Vector3D): real
  {
    vec1.x * vec2.x + vec1.y * vec2.y + vec1.z * vec2.z
  }

  /** The scalar product is additive in each argument. */
  lemma ScalarProductAdditive(u: Vector3D, v: Vector3D, w: Vector3D)
    ensures ScalarProduct(Translate(u, v), w) == ScalarProduct(u, w) + ScalarProduct(v, w)
    ensures ScalarProduct(w, Translate(u, v)) == ScalarProduct(w, u) + ScalarProduct(w, v)
  {
  }

  /** The scalar product is symmetric and vanishes when either argument is the zero vector. */
  lemma ScalarProductSymmetric(vec1: Vector3D, vec2: Vector3D)
    ensures ScalarProduct(vec1, vec2) == ScalarProduct(vec2, vec1)
    ensures ScalarProduct(Origin, vec2) == 0.0 && ScalarProduct(vec1, Origin) == 0.0
  {
  }

  /** A vector's scalar product with itself is zero only for the zero vector. */
  lemma ScalarProductSelf(vec: Vector3D)
    ensures 0.0 <= ScalarProduct(vec, vec)
    ensures ScalarProduct(vec, vec) == 0.0 <==> vec == Origin
  {
    SumOfSquaresZero(vec.x, vec.y, vec.z);
  }

  lemma ScalarProductExamples()
    ensures ScalarProduct(Primitive3D(1.0, 2.0, 3.0), Primitive3D(1.0, 2.0, 3.0)) == 14.0
    ensures ScalarProduct(Primitive3D(1.0, 1.0, 1.0), Primitive3D(1.0, -1.0, 0.0)) == 0.0
    ensures ScalarProduct(Primitive3D(1.0, 2.0, 3.0), Primitive3D(4.0, 5.0, 6.0)) == 32.0
  {
  }

  /** The Euclidean length: the square root of the sum of the squared components. */
  function LengthOfVector(vec: Vector3D, sqrt: real -> real): real
  {
    Root(sqrt, SumOfSquares(vec.x, vec.y, vec.z))
  }

  /** The length is the non-negative number whose square is the vector's scalar square. */
  lemma LengthSquared(vec: Vector3D, sqrt: real -> real)
    requires IsSqrt(sqrt)
    ensures 0.0 <= LengthOfVector(vec, sqrt)
    ensures LengthOfVector(vec, sqrt) * LengthOfVector(vec, sqrt) == ScalarProduct(vec, vec)
  {
    assert ScalarProduct(vec, vec) == SumOfSquares(vec.x, vec.y, vec.z);
    SumOfSquaresZero(vec.x, vec.y, vec.z);
    SqrtSpec(sqrt, SumOfSquares(vec.x, vec.y, vec.z));
  }

  /** The length is non-negative, and zero exactly for the zero vector. */
  lemma LengthZeroIffZeroVector(vec: Vector3D, sqrt: real -> real)
    requires IsSqrt(sqrt)
    ensures 0.0 <= LengthOfVector(vec, sqrt)
    ensures LengthOfVector(vec, sqrt) == 0.0 <==> vec == Origin
  {
    LengthSquared(vec, sqrt);
    RootZeroIff(LengthOfVector(vec, sqrt), ScalarProduct(vec, vec));
    ScalarProductSelf(vec);
  }

  lemma LengthExamples(sqrt: real -> real)
    requires IsSqrt(sqrt)
    ensures LengthOfVector(Origin, sqrt) == 0.0
    ensures LengthOfVector(Primitive3D(1.0, 0.0, 0.0), sqrt) == 1.0
    ensures LengthOfVector(Primitive3D(3.0, 4.0, 0.0), sqrt) == 5.0
    ensures LengthOfVector(Primitive3D(-3.0, -4.0, 0.0), sqrt) == 5.0
  {
    SqrtUnique(sqrt, 0.0, 0.0);
    SqrtUnique(sqrt, 1.0, 1.0);
    SqrtUnique(sqrt, 25.0, 5.0);
  }

  /** The Euclidean distance between two points. */
  function DistanceBetweenPoints(point1: Point3D, point2: Point3D, sqrt: real -> real): real
  {
    Root(sqrt, SumOfSquares(point2.x - point1.x, point2.y - point1.y, point2.z - point1.z))
  }

  /** The distance is the length of the difference vector. */
  lemma DistanceIsLengthOfDifference(point1: Point3D, point2: Point3D, sqrt: real -> real)
    ensures DistanceBetweenPoints(point1, point2, sqrt) == LengthOfVector(VectorBetween(point1, point2), sqrt)
  {
  }

  /** The distance is non-negative, symmetric, and zero exactly for identical points. */
  lemma DistanceProperties(point1: Point3D, point2: Point3D, sqrt: real -> real)
    requires IsSqrt(sqrt)
    ensures 0.0 <= DistanceBetweenPoints(point1, point2, sqrt)
    ensures DistanceBetweenPoints(point1, point2, sqrt) == DistanceBetweenPoints(point2, point1, sqrt)
    ensures DistanceBetweenPoints(point1, point2, sqrt) == 0.0 <==> point1 == point2
  {
    SumOfSquaresOfNegation(point2.x - point1.x, point2.y - point1.y, point2.z - point1.z);
    assert point1.x - point2.x == -(point2.x - point1.x);
    assert point1.y - point2.y == -(point2.y - point1.y);
    assert point1.z - point2.z == -(point2.z - point1.z);
    DistanceIsLengthOfDifference(point1, point2, sqrt);
    LengthZeroIffZeroVector(VectorBetween(point1, point2), sqrt);
    VectorBetweenZero(point1, point2);
  }

  lemma DistanceExamples(sqrt: real -> real)
    requires IsSqrt(sqrt)
    ensures DistanceBetweenPoints(Primitive3D(1.0, 2.0, 3.0), Primitive3D(4.0, 6.0, 8.0), sqrt) == Root(sqrt, 50.0)
    ensures DistanceBetweenPoints(Primitive3D(-1.0, -2.0, -3.0), Primitive3D(1.0, 2.0, 3.0), sqrt) == Root(sqrt, 56.0)
    ensures DistanceBetweenPoints(Primitive3D(1.0, 2.0, 3.0), Primitive3D(1.0, 2.0, 3.0), sqrt) == 0.0
    ensures DistanceBetweenPoints(Primitive3D(0.0, 0.0, 0.0), Primitive3D(3.0, 4.0, 0.0), sqrt) == 5.0
  {
    SqrtUnique(sqrt, 0.0, 0.0);
    SqrtUnique(sqrt, 25.0, 5.0);
  }

  /** The vector divided by its length; a vector shorter than Eps is returned unchanged. */
  function NormalizedVector(vec: Vector3D, sqrt: real -> real): Vector3D
  {
    var length := LengthOfVector(vec, sqrt);
    if Abs(length) < Eps then vec
    else Primitive3D(vec.x / length, vec.y / length, vec.z / length)
  }

  /** Below Eps the input comes back unchanged; otherwise each component is divided by
      the length, so the result scaled back by the length is the input. */
  lemma NormalizedComponents(vec: Vector3D, sqrt: real -> real)
    ensures Abs(LengthOfVector(vec, sqrt)) < Eps ==> NormalizedVector(vec, sqrt) == vec
    ensures !(Abs(LengthOfVector(vec, sqrt)) < Eps) ==>
              VectorMultipliedByScalar(NormalizedVector(vec, sqrt), LengthOfVector(vec, sqrt)) == vec
  {
    var length := LengthOfVector(vec, sqrt);
    if !(Abs(length) < Eps) {
      QuotientTimesDivisor(vec.x, length);
      QuotientTimesDivisor(vec.y, length);
      QuotientTimesDivisor(vec.z, length);
    }
  }

  /** A vector at least Eps long normalises to unit length. */
  lemma NormalizedHasUnitLength(vec: Vector3D, sqrt: real -> real)
    requires IsSqrt(sqrt) && !(Abs(LengthOfVector(vec, sqrt)) < Eps)
    ensures LengthOfVector(NormalizedVector(vec, sqrt), sqrt) == 1.0
  {
    var length := LengthOfVector(vec, sqrt);
    var u := NormalizedVector(vec, sqrt);
    assert u == Primitive3D(vec.x / length, vec.y / length, vec.z / length);
    LengthSquared(vec, sqrt);
    LengthSquared(u, sqrt);
    UnitAfterDivision(vec.x, vec.y, vec.z, length);
    assert ScalarProduct(u, u) == 1.0;
    RootsEqual(LengthOfVector(u, sqrt), 1.0);
  }

  lemma NormalizedExamples(sqrt: real -> real)
    requires IsSqrt(sqrt)
    ensures NormalizedVector(Origin, sqrt) == Origin
    ensures NormalizedVector(Primitive3D(3.0, 4.0, 0.0), sqrt) == Primitive3D(0.6, 0.8, 0.0)
    ensures NormalizedVector(Primitive3D(-3.0, -4.0, 0.0), sqrt) == Primitive3D(-0.6, -0.8, 0.0)
    ensures NormalizedVector(Primitive3D(1.0, 0.0, 0.0), sqrt) == Primitive3D(1.0, 0.0, 0.0)
  {
    LengthExamples(sqrt);
  }

  function VectorMultipliedByScalar(vec: Vector3D, a: real): Vector3D
  {
    Primitive3D(vec.x * a, vec.y * a, vec.z * a)
  }

  /** Scaling by 1 is the identity, by 0 gives the zero vector, two scalings compose,
      and a scalar factor comes out of the scalar product. */
  lemma ScalingLaws(vec: Vector3D, other: Vector3D, a: real, b: real)
    ensures VectorMultipliedByScalar(vec, 1.0) == vec
    ensures VectorMultipliedByScalar(vec, 0.0) == Origin
    ensures VectorMultipliedByScalar(VectorMultipliedByScalar(vec, a), b) == VectorMultipliedByScalar(vec, a * b)
    ensures ScalarProduct(VectorMultipliedByScalar(vec, a), other) == a * ScalarProduct(vec, other)
  {
  }

  /** The length of a scaled vector is the length times the scalar's magnitude. */
  lemma LengthOfScaledVector(vec: Vector3D, a: real, sqrt: real -> real)
    requires IsSqrt(sqrt)
    ensures LengthOfVector(VectorMultipliedByScalar(vec, a), sqrt) == Abs(a) * LengthOfVector(vec, sqrt)
  {
    var w := VectorMultipliedByScalar(vec, a);
    var sv := ScalarProduct(vec, vec);
    ScaledSquares(vec.x, vec.y, vec.z, a);
    assert ScalarProduct(w, w) == a * a * sv;
    LengthSquared(vec, sqrt);
    LengthSquared(w, sqrt);
    ScaledRoot(LengthOfVector(vec, sqrt), sv, a);
    RootsEqual(LengthOfVector(w, sqrt), Abs(a) * LengthOfVector(vec, sqrt));
  }

  lemma ScalingExamples()
    ensures VectorMultipliedByScalar(Primitive3D(2.0, 3.0, 4.0), 2.0) == Primitive3D(4.0, 6.0, 8.0)
    ensures VectorMultipliedByScalar(Primitive3D(5.0, -3.0, 2.0), 0.0) == Origin
    ensures VectorMultipliedByScalar(Primitive3D(1.0, -1.0, 3.0), -2.0) == Primitive3D(-2.0, 2.0, -6.0)
    ensures VectorMultipliedByScalar(Primitive3D(3.0, 4.0, 5.0), 1.0) == Primitive3D(3.0, 4.0, 5.0)
  {
  }

  /** The projection of point onto the infinite line through seg. */
  function PointProjectionOnLineThroughSegment(point: Point3D, seg: Segment3D, sqrt: real -> real): Point3D
  {
    var startToP := VectorBetween(seg.start, point);
    var startToEndNorm := NormalizedVector(VectorBetween(seg.start, seg.end), sqrt);
    var startToProj := VectorMultipliedByScalar(startToEndNorm, ScalarProduct(startToEndNorm, startToP));
    Primitive3D(seg.start.x + startToProj.x, seg.start.y + startToProj.y, seg.start.z + startToProj.z)
  }

  /** The projection is the start moved along the normalised direction u by u . (point - start). */
  lemma ProjectionIsStartPlusOffset(point: Point3D, seg: Segment3D, sqrt: real -> real)
    ensures var u := NormalizedVector(VectorBetween(seg.start, seg.end), sqrt);
            PointProjectionOnLineThroughSegment(point, seg, sqrt) ==
              Translate(seg.start, VectorMultipliedByScalar(u, ScalarProduct(u, VectorBetween(seg.start, point))))
  {
  }

  /** The point of the line through seg at parameter t (start at 0, end at 1). */
  function PointAt(seg: Segment3D, t: real): Point3D
  {
    Translate(seg.start, VectorMultipliedByScalar(VectorBetween(seg.start, seg.end), t))
  }

  /** A segment whose ends differ has a non-zero direction. */
  lemma DirectionNonZero(seg: Segment3D)
    ensures seg.start != seg.end <==> 0.0 < ScalarProduct(VectorBetween(seg.start, seg.end), VectorBetween(seg.start, seg.end))
  {
    var d := VectorBetween(seg.start, seg.end);
    ScalarProductSelf(d);
    VectorBetweenZero(seg.start, seg.end);
  }

  /** The line parameter (d . (point - start)) / (d . d) of the orthogonal projection of
      point, where d = end - start; 0 for a degenerate segment. */
  function ProjectionParameter(point: Point3D, seg: Segment3D): real
  {
    var dd := ScalarProduct(VectorBetween(seg.start, seg.end), VectorBetween(seg.start, seg.end));
    if dd == 0.0 then 0.0
    else ScalarProduct(VectorBetween(seg.start, seg.end), VectorBetween(seg.start, point)) / dd
  }

  /** w - t d is orthogonal to d when t is the projection parameter (d . w) / (d . d). */
  lemma ResidualIsOrthogonal(w: Vector3D, d: Vector3D, t: real, dd: real, dw: real)
    requires dd == ScalarProduct(d, d) && dw == ScalarProduct(d, w) && dd != 0.0 && t == dw / dd
    ensures ScalarProduct(Primitive3D(w.x - t * d.x, w.y - t * d.y, w.z - t * d.z), d) == 0.0
  {
    QuotientTimesDivisor(dw, dd);
    assert ScalarProduct(Primitive3D(w.x - t * d.x, w.y - t * d.y, w.z - t * d.z), d) == dw - t * dd;
  }

  /** The unit direction d / length has scalar product (d . w) / length with w. */
  lemma UnitDirectionScalarProduct(d: Vector3D, w: Vector3D, length: real)
    requires length != 0.0
    ensures ScalarProduct(Primitive3D(d.x / length, d.y / length, d.z / length), w) == ScalarProduct(d, w) / length
  {
    QuotientWeightedSum(d.x, d.y, d.z, w.x, w.y, w.z, length);
  }

  lemma ScaledComponents(u: Vector3D, k: real, d: Vector3D, t: real)
    requires u.x * k == d.x * t && u.y * k == d.y * t && u.z * k == d.z * t
    ensures VectorMultipliedByScalar(u, k) == VectorMultipliedByScalar(d, t)
  {
  }

  /** Scaling the unit direction d / length by dw / length is scaling d by dw / dd,
      when dd = length * length. */
  lemma ScaledUnitDirection(d: Vector3D, length: real, dd: real, dw: real)
    requires length != 0.0 && dd != 0.0 && length * length == dd
    ensures VectorMultipliedByScalar(Primitive3D(d.x / length, d.y / length, d.z / length), dw / length) ==
            VectorMultipliedByScalar(d, dw / dd)
  {
    QuotientBySquare(d.x, dw, length, dd);
    QuotientBySquare(d.y, dw, length, dd);
    QuotientBySquare(d.z, dw, length, dd);
    ScaledComponents(Primitive3D(d.x / length, d.y / length, d.z / length), dw / length, d, dw / dd);
  }

  /** For a vector at least Eps long, the normalised vector is the vector divided by its
      length, a non-zero number whose square is d . d. */
  lemma UnitDirectionOf(d: Vector3D, sqrt: real -> real)
    requires IsSqrt(sqrt) && !(Abs(LengthOfVector(d, sqrt)) < Eps)
    ensures d != Origin
    ensures LengthOfVector(d, sqrt) != 0.0
    ensures LengthOfVector(d, sqrt) * LengthOfVector(d, sqrt) == ScalarProduct(d, d)
    ensures ScalarProduct(d, d) != 0.0
    ensures NormalizedVector(d, sqrt) ==
            Primitive3D(d.x / LengthOfVector(d, sqrt), d.y / LengthOfVector(d, sqrt), d.z / LengthOfVector(d, sqrt))
  {
    var length := LengthOfVector(d, sqrt);
    LengthSquared(d, sqrt);
    LengthZeroIffZeroVector(d, sqrt);
    ProductPositive(length, length);
  }

  /** The unit vector u of d scaled by u . w is d scaled by (d . w) / (d . d). */
  lemma UnitOffset(d: Vector3D, w: Vector3D, sqrt: real -> real)
    requires IsSqrt(sqrt) && !(Abs(LengthOfVector(d, sqrt)) < Eps)
    ensures ScalarProduct(d, d) != 0.0
    ensures VectorMultipliedByScalar(NormalizedVector(d, sqrt), ScalarProduct(NormalizedVector(d, sqrt), w)) ==
            VectorMultipliedByScalar(d, ScalarProduct(d, w) / ScalarProduct(d, d))
  {
    UnitDirectionOf(d, sqrt);
    UnitDirectionScalarProduct(d, w, LengthOfVector(d, sqrt));
    ScaledUnitDirection(d, LengthOfVector(d, sqrt), ScalarProduct(d, d), ScalarProduct(d, w));
  }

  /** For a segment at least Eps long the projection is the point of the line at
      parameter (d . (p - start)) / (d . d), where d = end - start. */
  lemma ProjectionFormula(point: Point3D, seg: Segment3D, sqrt: real -> real)
    requires IsSqrt(sqrt) && !(Abs(LengthOfVector(VectorBetween(seg.start, seg.end), sqrt)) < Eps)
    ensures seg.start != seg.end
    ensures PointProjectionOnLineThroughSegment(point, seg, sqrt) == PointAt(seg, ProjectionParameter(point, seg))
  {
    UnitDirectionOf(VectorBetween(seg.start, seg.end), sqrt);
    VectorBetweenZero(seg.start, seg.end);
    ParameterIsQuotient(point, seg);
    ProjectionIsStartPlusOffset(point, seg, sqrt);
    UnitOffset(VectorBetween(seg.start, seg.end), VectorBetween(seg.start, point), sqrt);
  }

  /** On a proper segment the projection parameter is (d . w) / (d . d). */
  lemma ParameterIsQuotient(query: Point3D, seg: Segment3D)
    requires seg.start != seg.end
    ensures ScalarProduct(VectorBetween(seg.start, seg.end), VectorBetween(seg.start, seg.end)) != 0.0
    ensures ProjectionParameter(query, seg) ==
            ScalarProduct(VectorBetween(seg.start, seg.end), VectorBetween(seg.start, query)) /
            ScalarProduct(VectorBetween(seg.start, seg.end), VectorBetween(seg.start, seg.end))
  {
    DirectionNonZero(seg);
  }

  /** The vector from the point of the line at t to p is the residual w - t d. */
  lemma ResidualVector(point: Point3D, seg: Segment3D, t: real)
    ensures VectorBetween(PointAt(seg, t), point) ==
            Primitive3D(VectorBetween(seg.start, point).x - t * VectorBetween(seg.start, seg.end).x,
                        VectorBetween(seg.start, point).y - t * VectorBetween(seg.start, seg.end).y,
                        VectorBetween(seg.start, point).z - t * VectorBetween(seg.start, seg.end).z)
  {
    var d := VectorBetween(seg.start, seg.end);
    assert t * d.x == d.x * t && t * d.y == d.y * t && t * d.z == d.z * t;
  }

  /** For a segment at least Eps long, the vector from the projection to the point
      is orthogonal to the segment. */
  lemma ProjectionIsOrthogonal(point: Point3D, seg: Segment3D, sqrt: real -> real)
    requires IsSqrt(sqrt) && !(Abs(LengthOfVector(VectorBetween(seg.start, seg.end), sqrt)) < Eps)
    ensures ScalarProduct(VectorBetween(PointProjectionOnLineThroughSegment(point, seg, sqrt), point),
                          VectorBetween(seg.start, seg.end)) == 0.0
  {
    ProjectionFormula(point, seg, sqrt);
    var d := VectorBetween(seg.start, seg.end);
    var w := VectorBetween(seg.start, point);
    var t := ProjectionParameter(point, seg);
    ParameterIsQuotient(point, seg);
    ResidualVector(point, seg, t);
    ResidualIsOrthogonal(w, d, t, ScalarProduct(d, d), ScalarProduct(d, w));
  }

  /** A segment with identical ends projects every point onto its start. */
  lemma ProjectionOnDegenerateSegment(point: Point3D, seg: Segment3D, sqrt: real -> real)
    requires IsSqrt(sqrt) && seg.start == seg.end
    ensures PointProjectionOnLineThroughSegment(point, seg, sqrt) == seg.start
  {
    var d := VectorBetween(seg.start, seg.end);
    var w := VectorBetween(seg.start, point);
    VectorBetweenZero(seg.start, seg.end);
    LengthZeroIffZeroVector(d, sqrt);
    assert d == Origin;
    NormalizedComponents(d, sqrt);
    var u := NormalizedVector(d, sqrt);
    assert u == Origin;
    ScalingLaws(u, w, ScalarProduct(u, w), 0.0);
    assert VectorMultipliedByScalar(u, ScalarProduct(u, w)) == Origin;
    ProjectionIsStartPlusOffset(point, seg, sqrt);
  }

  /** A point on the line through a segment at least Eps long projects to itself,
      also beyond the segment's ends. */
  lemma ProjectionOfPointOnLine(t: real, seg: Segment3D, sqrt: real -> real)
    requires IsSqrt(sqrt) && !(Abs(LengthOfVector(VectorBetween(seg.start, seg.end), sqrt)) < Eps)
    ensures PointProjectionOnLineThroughSegment(PointAt(seg, t), seg, sqrt) == PointAt(seg, t)
  {
    var point := PointAt(seg, t);
    ProjectionFormula(point, seg, sqrt);
    var d := VectorBetween(seg.start, seg.end);
    DirectionNonZero(seg);
    assert VectorBetween(seg.start, point) == VectorMultipliedByScalar(d, t);
    ScalingLaws(d, d, t, 1.0);
    ScalarProductSymmetric(d, VectorMultipliedByScalar(d, t));
    assert ScalarProduct(d, VectorBetween(seg.start, point)) == t * ScalarProduct(d, d);
    QuotientOf(t, t * ScalarProduct(d, d), ScalarProduct(d, d));
  }

  /** On a segment shorter than Eps but not of zero length, the direction is not
      normalised, so the result is start + (d . w) d rather than the projection: the
      point (p, 0, 0) of the line through (0, 0, 0) and (h, 0, 0) is sent to
      (h * h * p, 0, 0), which for p != 0 is neither the point nor the start. */
  lemma ProjectionOnShortSegment(h: real, p: real, sqrt: real -> real)
    requires IsSqrt(sqrt) && 0.0 < h < Eps
    ensures PointProjectionOnLineThroughSegment(Primitive3D(p, 0.0, 0.0), Segment3D(Origin, Primitive3D(h, 0.0, 0.0)), sqrt) ==
              Primitive3D(h * h * p, 0.0, 0.0)
    ensures p != 0.0 ==> h * h * p != p && h * h * p != 0.0
  {
    var d := Primitive3D(h, 0.0, 0.0);
    assert LengthOfVector(d, sqrt) == h by {
      assert SumOfSquares(h, 0.0, 0.0) == h * h;
      SqrtUnique(sqrt, h * h, h);
    }
    NormalizedComponents(d, sqrt);
    ProjectionIsStartPlusOffset(Primitive3D(p, 0.0, 0.0), Segment3D(Origin, d), sqrt);
    if p != 0.0 {
      SmallSquareScales(h, p);
    }
  }

  /** Scaling a non-zero number by the square of a number strictly between 0 and 1
      changes it and keeps it non-zero. */
  lemma SmallSquareScales(h: real, p: real)
    requires 0.0 < h < 1.0 && p != 0.0
    ensures h * h * p != p && h * h * p != 0.0
  {
    var hh := h * h;
    ProductPositive(h, h);
    var g := 1.0 - h;
    ProductPositive(h, g);
    assert h * g == h - hh;
    var q := hh - 1.0;
    ProductNonZero(q, p);
    assert q * p == hh * p - p;
    ProductNonZero(hh, p);
  }

  /** A vector with a component at least Eps in magnitude is at least Eps long. */
  lemma LongComponentGivesLength(v: Vector3D, sqrt: real -> real)
    requires IsSqrt(sqrt) && (Eps <= Abs(v.x) || Eps <= Abs(v.y) || Eps <= Abs(v.z))
    ensures Eps <= LengthOfVector(v, sqrt)
  {
    LengthSquared(v, sqrt);
    RootAtLeast(LengthOfVector(v, sqrt), v.x, v.y, v.z, Eps);
  }

  /** Two points that are not tolerantly equal are at least Eps apart, so the search
      never normalises the direction of a segment it does not skip to the fallback. */
  lemma LengthAtLeastEps(a: Point3D, b: Point3D, sqrt: real -> real)
    requires IsSqrt(sqrt) && !a.Equal(b)
    ensures Eps <= LengthOfVector(VectorBetween(a, b), sqrt)
    ensures !(Abs(LengthOfVector(VectorBetween(a, b), sqrt)) < Eps)
  {
    AbsDifferenceSymmetric(a.x, b.x);
    AbsDifferenceSymmetric(a.y, b.y);
    AbsDifferenceSymmetric(a.z, b.z);
    LongComponentGivesLength(VectorBetween(a, b), sqrt);
  }

  lemma ExampleParameterOnLine()
    ensures ProjectionParameter(Primitive3D(1.0, 0.0, 0.0), Segment3D(Origin, Primitive3D(1.0, 1.0, 1.0))) == 1.0 / 3.0
  {
  }

  lemma ExamplePointOnLine()
    ensures PointAt(Segment3D(Origin, Primitive3D(1.0, 1.0, 1.0)), 1.0 / 3.0) == Primitive3D(1.0 / 3.0, 1.0 / 3.0, 1.0 / 3.0)
  {
  }

  lemma ExamplePointBeyondEnd()
    ensures PointAt(Segment3D(Origin, Primitive3D(2.0, 2.0, 2.0)), 1.5) == Primitive3D(3.0, 3.0, 3.0)
  {
  }

  lemma ExamplePointBeforeStart()
    ensures PointAt(Segment3D(Primitive3D(1.0, 1.0, 1.0), Primitive3D(3.0, 3.0, 3.0)), -0.5) == Origin
  {
  }

  /** The projection test onto the line inside the segment. */
  lemma ProjectionExampleOnLine(point: Point3D, seg: Segment3D, sqrt: real -> real)
    requires IsSqrt(sqrt)
    requires seg == Segment3D(Origin, Primitive3D(1.0, 1.0, 1.0)) && point == Primitive3D(1.0, 0.0, 0.0)
    ensures PointProjectionOnLineThroughSegment(point, seg, sqrt) == Primitive3D(1.0 / 3.0, 1.0 / 3.0, 1.0 / 3.0)
  {
    ExampleParameterOnLine();
    ExamplePointOnLine();
    LengthAtLeastEps(seg.start, seg.end, sqrt);
    ProjectionFormula(point, seg, sqrt);
  }

  /** The projection test with the point beyond the segment's end. */
  lemma ProjectionExampleBeyondEnd(point: Point3D, seg: Segment3D, sqrt: real -> real)
    requires IsSqrt(sqrt)
    requires seg == Segment3D(Origin, Primitive3D(2.0, 2.0, 2.0)) && point == Primitive3D(3.0, 3.0, 3.0)
    ensures PointProjectionOnLineThroughSegment(point, seg, sqrt) == point
  {
    ExamplePointBeyondEnd();
    LengthAtLeastEps(seg.start, seg.end, sqrt);
    ProjectionOfPointOnLine(1.5, seg, sqrt);
  }

  /** The projection test with the point before the segment's start. */
  lemma ProjectionExampleBeforeStart(point: Point3D, seg: Segment3D, sqrt: real -> real)
    requires IsSqrt(sqrt)
    requires seg == Segment3D(Primitive3D(1.0, 1.0, 1.0), Primitive3D(3.0, 3.0, 3.0)) && point == Origin
    ensures PointProjectionOnLineThroughSegment(point, seg, sqrt) == point
  {
    ExamplePointBeforeStart();
    LengthAtLeastEps(seg.start, seg.end, sqrt);
    ProjectionOfPointOnLine(-0.5, seg, sqrt);
  }
}
