/** Small facts about products and quotients of reals, kept apart so that each is
    proved in a context of its own. */
module RealArithmetic {

  /** The magnitude of a real, as std::abs computes it. */
  function Abs(a: real): (r: real)
    ensures 0.0 <= r && (r == a || r == -a)
  {
    if a < 0.0 then -a else a
  }

  /** a * a + b * b + c * c, the radicand of every length and distance. */
  function SumOfSquares(a: real, b: real, c: real): real
  {
    a * a + b * b + c * c
  }

  lemma SquareNonNegative(a: real)
    ensures 0.0 <= a * a
  {
    if a < 0.0 {
      assert a * a == (-a) * (-a);
    }
  }

  lemma ProductZero(a: real, b: real)
    requires a * b == 0.0
    ensures a == 0.0 || b == 0.0
  {
    if a != 0.0 {
      assert b == (a * b) / a;
    }
  }

  /** A product of two non-zero numbers is non-zero. */
  lemma ProductNonZero(a: real, b: real)
    requires a != 0.0 && b != 0.0
    ensures a * b != 0.0
  {
    assert (a * b) / a == b;
  }

  lemma ProductPositive(a: real, b: real)
    requires 0.0 < a && 0.0 < b
    ensures 0.0 < a * b
  {
  }

  lemma ProductNonNegative(a: real, b: real)
    requires 0.0 <= a && 0.0 <= b
    ensures 0.0 <= a * b
  {
  }

  lemma ProductNegated(a: real, b: real)
    ensures a * (-b) == -(a * b)
    ensures (-a) * (-b) == a * b
  {
  }

  lemma SquaresOrdered(a: real, b: real)
    requires 0.0 <= a && 0.0 <= b
    ensures a <= b <==> a * a <= b * b
    ensures a < b <==> a * a < b * b
  {
    assert b * b - a * a == (b - a) * (b + a);
    if a < b {
      ProductPositive(b - a, b + a);
    } else if b < a {
      ProductPositive(a - b, a + b);
      assert a * a - b * b == (a - b) * (a + b);
    }
  }

  /** Non-negative reals with equal squares are equal. */
  lemma RootsEqual(r: real, l: real)
    requires 0.0 <= r && 0.0 <= l && r * r == l * l
    ensures r == l
  {
    SquaresOrdered(r, l);
  }

  /** A sum of squares is non-negative, and zero only when every part is. */
  lemma SumOfSquaresZero(a: real, b: real, c: real)
    ensures 0.0 <= SumOfSquares(a, b, c)
    ensures SumOfSquares(a, b, c) == 0.0 <==> a == 0.0 && b == 0.0 && c == 0.0
  {
    SquareNonNegative(a);
    SquareNonNegative(b);
    SquareNonNegative(c);
    if a * a + b * b + c * c == 0.0 {
      ProductZero(a, a);
      ProductZero(b, b);
      ProductZero(c, c);
    }
  }

  lemma QuotientTimesDivisor(a: real, d: real)
    requires d != 0.0
    ensures (a / d) * d == a
  {
  }

  /** x * d == y with d non-zero makes x the quotient y / d. */
  lemma QuotientOf(x: real, y: real, d: real)
    requires d != 0.0 && x * d == y
    ensures x == y / d
  {
    QuotientTimesDivisor(y, d);
    assert (x - y / d) * d == 0.0;
    ProductZero(x - y / d, d);
  }

  lemma QuotientProduct(a: real, b: real, d: real)
    requires d != 0.0
    ensures (a / d) * (b / d) == (a * b) / (d * d)
  {
    var p, q := a / d, b / d;
    QuotientTimesDivisor(a, d);
    QuotientTimesDivisor(b, d);
    assert (p * q) * (d * d) == (p * d) * (q * d);
    if d * d == 0.0 {
      ProductZero(d, d);
    }
    QuotientOf(p * q, a * b, d * d);
  }

  /** Dividing the three weights of a weighted sum by d divides the sum by d. */
  lemma QuotientWeightedSum(a: real, b: real, c: real, p: real, q: real, r: real, d: real)
    requires d != 0.0
    ensures (a / d) * p + (b / d) * q + (c / d) * r == (a * p + b * q + c * r) / d
  {
    var a', b', c' := a / d, b / d, c / d;
    QuotientTimesDivisor(a, d);
    QuotientTimesDivisor(b, d);
    QuotientTimesDivisor(c, d);
    assert (a' * p + b' * q + c' * r) * d == (a' * d) * p + (b' * d) * q + (c' * d) * r;
    QuotientOf(a' * p + b' * q + c' * r, a * p + b * q + c * r, d);
  }

  lemma QuotientRegroup(a: real, b: real, c: real)
    requires c != 0.0
    ensures (a * b) / c == a * (b / c)
  {
    QuotientTimesDivisor(b, c);
    assert (a * (b / c)) * c == a * ((b / c) * c);
    QuotientOf(a * (b / c), a * b, c);
  }

  /** (a / l) * (b / l) == a * (b / q) when l * l == q. */
  lemma QuotientBySquare(a: real, b: real, l: real, q: real)
    requires l != 0.0 && q != 0.0 && l * l == q
    ensures (a / l) * (b / l) == a * (b / q)
  {
    QuotientProduct(a, b, l);
    QuotientRegroup(a, b, q);
  }

  /** Dividing the three parts of a sum of squares by its root gives unit squares. */
  lemma UnitAfterDivision(a: real, b: real, c: real, l: real)
    requires l != 0.0 && l * l == SumOfSquares(a, b, c)
    ensures SumOfSquares(a / l, b / l, c / l) == 1.0
  {
    var q := l * l;
    if q == 0.0 {
      ProductZero(l, l);
    }
    QuotientBySquare(a, a, l, q);
    QuotientBySquare(b, b, l, q);
    QuotientBySquare(c, c, l, q);
    QuotientWeightedSum(a, b, c, a, b, c, q);
    assert (a / q) * a + (b / q) * b + (c / q) * c == SumOfSquares(a / l, b / l, c / l);
    QuotientTimesDivisor(q, q);
    assert (a * a + b * b + c * c) / q == q / q;
  }

  /** Scaling three parts by k scales their sum of squares by k * k. */
  lemma ScaledSquares(a: real, b: real, c: real, k: real)
    ensures SumOfSquares(a * k, b * k, c * k) == k * k * SumOfSquares(a, b, c)
  {
  }

  /** A root of a sum of squares is at least e when one of the parts is at least e in
      magnitude. */
  lemma RootAtLeast(l: real, a: real, b: real, c: real, e: real)
    requires 0.0 <= l && l * l == SumOfSquares(a, b, c)
    requires 0.0 <= e && (e <= Abs(a) || e <= Abs(b) || e <= Abs(c))
    ensures e <= l
  {
    var m := if e <= Abs(a) then a else if e <= Abs(b) then b else c;
    SquaresOrdered(e, Abs(m));
    assert Abs(m) * Abs(m) == m * m by {
      if m < 0.0 {
        assert Abs(m) == -m;
      }
    }
    SquareNonNegative(a);
    SquareNonNegative(b);
    SquareNonNegative(c);
    SquaresOrdered(l, e);
  }

  /** A non-negative root of s is zero exactly when s is. */
  lemma RootZeroIff(r: real, s: real)
    requires 0.0 <= r && r * r == s
    ensures r == 0.0 <==> s == 0.0
  {
    if s == 0.0 {
      ProductZero(r, r);
    }
  }

  /** |a| * l is a non-negative root of a * a * s when l is one of s. */
  lemma ScaledRoot(l: real, s: real, a: real)
    requires 0.0 <= l && l * l == s
    ensures 0.0 <= Abs(a) * l && (Abs(a) * l) * (Abs(a) * l) == a * a * s
  {
    ProductNonNegative(Abs(a), l);
    assert Abs(a) * Abs(a) == a * a;
    assert (Abs(a) * l) * (Abs(a) * l) == (Abs(a) * Abs(a)) * (l * l);
  }

  lemma AbsDifferenceSymmetric(p: real, q: real)
    ensures Abs(p - q) == Abs(q - p)
  {
  }

  /** Reversing the three differences leaves their sum of squares unchanged. */
  lemma SumOfSquaresOfNegation(a: real, b: real, c: real)
    ensures SumOfSquares(-a, -b, -c) == SumOfSquares(a, b, c)
  {
    assert (-a) * (-a) == a * a;
    assert (-b) * (-b) == b * b;
    assert (-c) * (-c) == c * c;
  }
}
