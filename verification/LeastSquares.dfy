/** `linear_slope` of scripts/soak_mcp_sessions.py, over the reals. */
module LeastSquares {
  import opened Prelude

  datatype Point = Point(x: real, y: real)

  datatype Line = Line(intercept: real, slope: real)

  datatype Error = TooFewPoints | SameTime

  /** The slope, the square of its standard error, and the number of points. */
  datatype Slope = Slope(slope: real, errorSquared: real, samples: nat)

  function Square(a: real): real { a * a }

  function Sum(points: seq<Point>, f: Point -> real): real {
    if points == [] then 0.0 else f(points[0]) + Sum(points[1..], f)
  }

  function AwayX(cx: real): Point -> real { (p: Point) => p.x - cx }

  function AwayY(cy: real): Point -> real { (p: Point) => p.y - cy }

  function SquareX(cx: real): Point -> real { (p: Point) => Square(p.x - cx) }

  function Product(cx: real, cy: real): Point -> real { (p: Point) => (p.x - cx) * (p.y - cy) }

  /** How far a point lies above a line. */
  function Gap(p: Point, line: Line): real { p.y - line.intercept - Times(line.slope, p.x) }

  function SquareGap(line: Line): Point -> real { (p: Point) => Square(Gap(p, line)) }

  function MeanX(points: seq<Point>): real
    requires points != []
  {
    Sum(points, (p: Point) => p.x) / |points| as real
  }

  function MeanY(points: seq<Point>): real
    requires points != []
  {
    Sum(points, (p: Point) => p.y) / |points| as real
  }

  function Spread(points: seq<Point>, cx: real): real { Sum(points, SquareX(cx)) }

  function Cross(points: seq<Point>, cx: real, cy: real): real { Sum(points, Product(cx, cy)) }

  function Residual(points: seq<Point>, line: Line): real { Sum(points, SquareGap(line)) }

  predicate HasSlope(points: seq<Point>) { |points| >= 3 && Spread(points, MeanX(points)) != 0.0 }

  function BestLine(points: seq<Point>): Line
    requires HasSlope(points)
  {
    var slope := Cross(points, MeanX(points), MeanY(points)) / Spread(points, MeanX(points));
    Line(MeanY(points) - Times(slope, MeanX(points)), slope)
  }

  function LinearSlope(points: seq<Point>): Result<Slope, Error> {
    if |points| < 3 then Err(TooFewPoints)
    else if Spread(points, MeanX(points)) == 0.0 then Err(SameTime)
    else
      var line := BestLine(points);
      Ok(Slope(line.slope, Residual(points, line) / (|points| - 2) as real / Spread(points, MeanX(points)), |points|))
  }

  // ----- sums -----

  lemma {:induction false} Distribute(k: real, a: real, b: real)
    ensures Times(k, a + b) == Times(k, a) + Times(k, b)
  {
  }

  lemma {:induction false} SumCombine(points: seq<Point>, f: Point -> real, k: real, g: Point -> real, h: Point -> real)
    requires forall p :: h(p) == f(p) + Times(k, g(p))
    ensures Sum(points, h) == Sum(points, f) + Times(k, Sum(points, g))
  {
    if points != [] {
      SumCombine(points[1..], f, k, g, h);
      Distribute(k, g(points[0]), Sum(points[1..], g));
    }
  }

  lemma {:induction false} SumShift(points: seq<Point>, f: Point -> real, k: real, h: Point -> real)
    requires forall p :: h(p) == f(p) + k
    ensures Sum(points, h) == Sum(points, f) + Times(k, |points| as real)
  {
    if points != [] {
      SumShift(points[1..], f, k, h);
      Distribute(k, |points[1..]| as real, 1.0);
    }
  }

  lemma {:induction false} SumSame(points: seq<Point>, f: Point -> real, h: Point -> real)
    requires forall p :: h(p) == f(p)
    ensures Sum(points, h) == Sum(points, f)
  {
    if points != [] { SumSame(points[1..], f, h); }
  }

  lemma {:induction false} SumZeroIff(points: seq<Point>, f: Point -> real)
    requires forall p :: f(p) >= 0.0
    ensures Sum(points, f) >= 0.0
    ensures Sum(points, f) == 0.0 <==> forall i :: 0 <= i < |points| ==> f(points[i]) == 0.0
  {
    if points != [] {
      SumZeroIff(points[1..], f);
      assert forall i :: 0 < i < |points| ==> points[i] == points[1..][i - 1];
    }
  }

  /** Sums of a combination of five functions. */
  lemma {:induction false} SumFive(points: seq<Point>, h: Point -> real, f: Point -> real, a: real, fa: Point -> real,
                                   b: real, fb: Point -> real, c: real, fc: Point -> real, d: real, fd: Point -> real,
                                       e: real)
    requires forall p :: h(p) == f(p) + Times(a, fa(p)) + Times(b, fb(p)) + Times(c, fc(p)) + Times(d, fd(p)) + e
    ensures Sum(points, h) == Sum(points, f) + Times(a, Sum(points, fa)) + Times(b, Sum(points, fb))
                              + Times(c, Sum(points, fc)) + Times(d, Sum(points, fd)) + Times(e, |points| as real)
  {
    var f1 := (p: Point) => f(p) + Times(a, fa(p));
    var f2 := (p: Point) => f1(p) + Times(b, fb(p));
    var f3 := (p: Point) => f2(p) + Times(c, fc(p));
    var f4 := (p: Point) => f3(p) + Times(d, fd(p));
    SumCombine(points, f, a, fa, f1);
    SumCombine(points, f1, b, fb, f2);
    SumCombine(points, f2, c, fc, f3);
    SumCombine(points, f3, d, fd, f4);
    SumShift(points, f4, e, h);
  }

  // ----- signs and quotients -----

  lemma {:induction false} QuotientTimes(a: real, b: real)
    requires b != 0.0
    ensures Times(a / b, b) == a
  {
  }

  lemma {:induction false} Negated(k: real, a: real)
    ensures Times(-k, a) == -Times(k, a) == Times(k, -a)
  {
  }

  lemma {:induction false} TimesZero(k: real, a: real)
    requires a == 0.0
    ensures Times(k, a) == 0.0
  {
  }

  lemma {:induction false} Positive(a: real, b: real)
    requires a > 0.0 && b > 0.0
    ensures Times(a, b) > 0.0
  {
  }

  lemma {:induction false} SquareIsTimes(a: real)
    ensures Square(a) == Times(a, a) == Times(-a, -a)
  {
  }

  lemma {:induction false} SquareSign(a: real)
    ensures Square(a) >= 0.0 && (Square(a) == 0.0 <==> a == 0.0)
  {
    SquareIsTimes(a);
    if a > 0.0 {
      Positive(a, a);
    } else if a < 0.0 {
      Positive(-a, -a);
    } else {
      TimesZero(a, a);
    }
  }

  lemma {:induction false} Weighted(a: real, weight: real)
    requires weight > 0.0 && a >= 0.0
    ensures Times(a, weight) >= 0.0 && (Times(a, weight) == 0.0 <==> a == 0.0)
  {
    if a > 0.0 { Positive(a, weight); } else { assert Times(0.0, weight) == 0.0; }
  }

  lemma {:induction false} QuotientSign(a: real, b: real)
    requires a >= 0.0 && b > 0.0
    ensures a / b >= 0.0 && (a / b == 0.0 <==> a == 0.0)
  {
    QuotientTimes(a, b);
    if a / b < 0.0 {
      Positive(-(a / b), b);
      Negated(a / b, b);
    } else if a / b > 0.0 {
      Positive(a / b, b);
    } else {
      assert Times(0.0, b) == 0.0;
    }
  }

  // ----- the residual of any line -----

  ghost predicate IsCentre(points: seq<Point>, cx: real, cy: real) {
    Sum(points, AwayX(cx)) == 0.0 && Sum(points, AwayY(cy)) == 0.0
  }

  /** The deviations from the means cancel. */
  lemma {:induction false} MeansAreCentre(points: seq<Point>)
    requires points != []
    ensures IsCentre(points, MeanX(points), MeanY(points))
  {
    var mx, my := MeanX(points), MeanY(points);
    SumShift(points, (p: Point) => p.x, -mx, AwayX(mx));
    SumShift(points, (p: Point) => p.y, -my, AwayY(my));
    QuotientTimes(Sum(points, (p: Point) => p.x), |points| as real);
    QuotientTimes(Sum(points, (p: Point) => p.y), |points| as real);
    Negated(mx, |points| as real);
    Negated(my, |points| as real);
  }

  datatype Coefficients = Coefficients(uu: real, w: real, z: real, u: real, one: real)

  function CoefficientsOf(d: real, c: real): Coefficients { Coefficients(Square(d), -2.0 * d, -2.0 * c, 2.0 * d * c,
      Square(c)) }

  /** How far a point `u`, `v` lies above a line of slope `s` through `0`, `c`. */
  function Off(u: real, v: real, s: real, c: real): real { v - Times(s, u) - c }

  /** One point: its distance from any line, by way of the distance from the one of slope `s` through
      the centre. */
  lemma {:induction false} OnePoint(u: real, v: real, s: real, d: real, c: real, k: Coefficients)
    requires k == CoefficientsOf(d, c)
    ensures Square(Off(u, v, s + d, c)) ==
            Square(Off(u, v, s, 0.0)) + Times(k.uu, Square(u)) + Times(k.w, u * v + Times(-s, Square(u)))
            + Times(k.z, v + Times(-s, u)) + Times(k.u, u) + k.one
  {
    var e := v - s * u;
    assert (s + d) * u == s * u + d * u;
    assert Square(e - d * u - c) == e * e + d * d * (u * u) + c * c - 2.0 * d * (u * e) - 2.0 * c * e + 2.0 * d * c * u;
    assert u * e == u * v + (-s) * (u * u);
  }

  function WithSlope(f: Point -> real, s: real, g: Point -> real): Point -> real {
    (p: Point) => f(p) + Times(-s, g(p))
  }

  /** The squared distance from a line given about a centre. */
  function About(cx: real, cy: real, s: real, c: real): Point -> real {
    (p: Point) => Square(Off(p.x - cx, p.y - cy, s, c))
  }

  lemma {:induction false} AtPoint(p: Point, cx: real, cy: real, s: real, d: real, c: real, k: Coefficients)
    requires k == CoefficientsOf(d, c)
    ensures About(cx, cy, s + d, c)(p) ==
            About(cx, cy, s, 0.0)(p) + Times(k.uu, SquareX(cx)(p)) + Times(k.w, WithSlope(Product(cx, cy), s,
                SquareX(cx))(p))
            + Times(k.z, WithSlope(AwayY(cy), s, AwayX(cx))(p)) + Times(k.u, AwayX(cx)(p)) + k.one
  {
    var u, v := p.x - cx, p.y - cy;
    OnePoint(u, v, s, d, c, k);
    assert About(cx, cy, s, 0.0)(p) == Square(Off(u, v, s, 0.0)) && About(cx, cy, s + d, c)(p) == Square(Off(u, v, s +
        d, c));
    assert WithSlope(Product(cx, cy), s, SquareX(cx))(p) == u * v + Times(-s, Square(u));
    assert WithSlope(AwayY(cy), s, AwayX(cx))(p) == v + Times(-s, u);
  }

  lemma {:induction false} AnyLine(points: seq<Point>, cx: real, cy: real, s: real, d: real, c: real, k: Coefficients)
    requires k == CoefficientsOf(d, c)
    ensures Sum(points, About(cx, cy, s + d, c)) ==
            Sum(points, About(cx, cy, s, 0.0)) + Times(k.uu, Spread(points, cx))
            + Times(k.w, Sum(points, WithSlope(Product(cx, cy), s, SquareX(cx))))
            + Times(k.z, Sum(points, WithSlope(AwayY(cy), s, AwayX(cx)))) + Times(k.u, Sum(points, AwayX(cx)))
            + Times(k.one, |points| as real)
  {
    forall p: Point
      ensures About(cx, cy, s + d, c)(p) ==
              About(cx, cy, s, 0.0)(p) + Times(k.uu, SquareX(cx)(p)) + Times(k.w, WithSlope(Product(cx, cy), s,
                  SquareX(cx))(p))
              + Times(k.z, WithSlope(AwayY(cy), s, AwayX(cx))(p)) + Times(k.u, AwayX(cx)(p)) + k.one
    {
      AtPoint(p, cx, cy, s, d, c, k);
    }
    SumFive(points, About(cx, cy, s + d, c), About(cx, cy, s, 0.0), k.uu, SquareX(cx), k.w, WithSlope(Product(cx, cy),
        s, SquareX(cx)),
            k.z, WithSlope(AwayY(cy), s, AwayX(cx)), k.u, AwayX(cx), k.one);
  }

  lemma {:induction false} Balanced(points: seq<Point>, f: Point -> real, s: real, g: Point -> real, h: Point -> real)
    requires forall p :: h(p) == f(p) + Times(-s, g(p))
    requires Sum(points, f) == Times(s, Sum(points, g))
    ensures Sum(points, h) == 0.0
  {
    SumCombine(points, f, -s, g, h);
    Negated(s, Sum(points, g));
  }

  lemma {:induction false} NormalEquations(points: seq<Point>, cx: real, cy: real, s: real)
    requires IsCentre(points, cx, cy) && Cross(points, cx, cy) == Times(s, Spread(points, cx))
    ensures Sum(points, WithSlope(Product(cx, cy), s, SquareX(cx))) == 0.0
    ensures Sum(points, WithSlope(AwayY(cy), s, AwayX(cx))) == 0.0
  {
    Balanced(points, Product(cx, cy), s, SquareX(cx), WithSlope(Product(cx, cy), s, SquareX(cx)));
    Balanced(points, AwayY(cy), s, AwayX(cx), WithSlope(AwayY(cy), s, AwayX(cx)));
  }

  /** With no deviation left over and `s` balanced, only the squares remain. */
  lemma {:induction false} OnlySquares(points: seq<Point>, cx: real, cy: real, s: real, d: real, c: real)
    requires IsCentre(points, cx, cy) && Cross(points, cx, cy) == Times(s, Spread(points, cx))
    ensures Sum(points, About(cx, cy, s + d, c)) ==
            Sum(points, About(cx, cy, s, 0.0)) + Times(Square(d), Spread(points, cx)) + Times(Square(c),
                |points| as real)
  {
    var k := CoefficientsOf(d, c);
    NormalEquations(points, cx, cy, s);
    AnyLine(points, cx, cy, s, d, c, k);
    TimesZero(k.w, Sum(points, WithSlope(Product(cx, cy), s, SquareX(cx))));
    TimesZero(k.z, Sum(points, WithSlope(AwayY(cy), s, AwayX(cx))));
    TimesZero(k.u, Sum(points, AwayX(cx)));
  }

  lemma {:induction false} SameGap(p: Point, cx: real, cy: real, c: real, line: Line)
    requires line.intercept == cy - Times(line.slope, cx) + c
    ensures Gap(p, line) == Off(p.x - cx, p.y - cy, line.slope, c)
  {
    Distribute(line.slope, p.x, -cx);
    assert p.x + -cx == p.x - cx;
    Negated(line.slope, cx);
  }

  lemma {:induction false} AboutIsResidual(points: seq<Point>, cx: real, cy: real, c: real, line: Line)
    requires line.intercept == cy - Times(line.slope, cx) + c
    ensures Sum(points, About(cx, cy, line.slope, c)) == Residual(points, line)
  {
    forall p
      ensures SquareGap(line)(p) == About(cx, cy, line.slope, c)(p)
    {
      SameGap(p, cx, cy, c, line);
    }
    SumSame(points, About(cx, cy, line.slope, c), SquareGap(line));
  }

  /** How much worse another line is than the balanced one through the centre: its slope costs the
      spread times the squared difference, its height at the centre costs the number of points times
      the squared difference. */
  lemma {:induction false} ExcessResidual(points: seq<Point>, cx: real, cy: real, best: Line, other: Line, c: real)
    requires IsCentre(points, cx, cy) && Cross(points, cx, cy) == Times(best.slope, Spread(points, cx))
    requires best.intercept == cy - Times(best.slope, cx) && other.intercept == cy - Times(other.slope, cx) + c
    ensures Residual(points, other) ==
            Residual(points, best) + Times(Square(other.slope - best.slope), Spread(points, cx)) + Times(Square(c),
                |points| as real)
  {
    OnlySquares(points, cx, cy, best.slope, other.slope - best.slope, c);
    assert best.slope + (other.slope - best.slope) == other.slope;
    AboutIsResidual(points, cx, cy, c, other);
    AboutIsResidual(points, cx, cy, 0.0, best);
  }

  // ----- the best line -----

  lemma {:induction false} SpreadSign(points: seq<Point>, cx: real)
    ensures Spread(points, cx) >= 0.0
    ensures Spread(points, cx) == 0.0 <==> forall i :: 0 <= i < |points| ==> points[i].x == cx
  {
    forall p ensures SquareX(cx)(p) >= 0.0 && (SquareX(cx)(p) == 0.0 <==> p.x == cx) { SquareSign(p.x - cx); }
    SumZeroIff(points, SquareX(cx));
  }

  /** What makes the computed line the best one. */
  lemma {:induction false} BestLineBalances(points: seq<Point>) returns (cx: real, cy: real)
    requires HasSlope(points)
    ensures IsCentre(points, cx, cy) && Spread(points, cx) > 0.0
    ensures Cross(points, cx, cy) == Times(BestLine(points).slope, Spread(points, cx))
    ensures BestLine(points).intercept == cy - Times(BestLine(points).slope, cx)
  {
    cx, cy := MeanX(points), MeanY(points);
    MeansAreCentre(points);
    SpreadSign(points, cx);
    QuotientTimes(Cross(points, cx, cy), Spread(points, cx));
  }

  lemma {:induction false} NoBetterLine(points: seq<Point>, cx: real, cy: real, best: Line, other: Line)
    requires points != [] && IsCentre(points, cx, cy) && Spread(points, cx) > 0.0
    requires Cross(points, cx, cy) == Times(best.slope, Spread(points, cx)) &&
        best.intercept == cy - Times(best.slope, cx)
    ensures Residual(points, best) <= Residual(points, other)
    ensures Residual(points, other) == Residual(points, best) <==> other == best
  {
    var c := other.intercept - (cy - Times(other.slope, cx));
    ExcessResidual(points, cx, cy, best, other, c);
    SquareSign(other.slope - best.slope);
    SquareSign(c);
    Weighted(Square(other.slope - best.slope), Spread(points, cx));
    Weighted(Square(c), |points| as real);
  }

  /** No line has a smaller residual than the one computed, and no other line has as small a one. */
  lemma {:induction false} SlopeIsLeastSquares(points: seq<Point>, other: Line)
    requires LinearSlope(points).Ok?
    ensures HasSlope(points) && LinearSlope(points).value.slope == BestLine(points).slope
    ensures Residual(points, BestLine(points)) <= Residual(points, other)
    ensures Residual(points, other) == Residual(points, BestLine(points)) <==> other == BestLine(points)
  {
    var cx, cy := BestLineBalances(points);
    NoBetterLine(points, cx, cy, BestLine(points), other);
  }

  // ----- when there is a slope, and when its error is zero -----

  lemma {:induction false} SumOfSame(points: seq<Point>, x: real)
    requires forall i :: 0 <= i < |points| ==> points[i].x == x
    ensures Sum(points, (p: Point) => p.x) == Times(x, |points| as real)
  {
    if points != [] {
      assert forall i :: 0 < i < |points| ==> points[i] == points[1..][i - 1];
      SumOfSame(points[1..], x);
      Distribute(x, |points[1..]| as real, 1.0);
    }
  }

  lemma {:induction false} TimesQuotient(a: real, n: real)
    requires n != 0.0
    ensures Times(a, n) / n == a
  {
  }

  /** There is a slope exactly for three or more points not all at the same time. */
  lemma {:induction false} SlopeExistsIff(points: seq<Point>)
    ensures LinearSlope(points).Ok? <==> |points| >= 3 && exists i :: 0 <= i < |points| && points[i].x != points[0].x
  {
    if |points| >= 3 {
      SpreadSign(points, MeanX(points));
      if forall i :: 0 <= i < |points| ==> points[i].x == points[0].x {
        SumOfSame(points, points[0].x);
        TimesQuotient(points[0].x, |points| as real);
      }
    }
  }

  ghost predicate OnLine(points: seq<Point>, line: Line) {
    forall i :: 0 <= i < |points| ==> Gap(points[i], line) == 0.0
  }

  lemma {:induction false} ResidualZeroIff(points: seq<Point>, line: Line)
    ensures Residual(points, line) >= 0.0
    ensures Residual(points, line) == 0.0 <==> OnLine(points, line)
  {
    forall p ensures SquareGap(line)(p) >= 0.0 && (SquareGap(line)(p) == 0.0 <==> Gap(p, line) == 0.0) {
        SquareSign(Gap(p, line)); }
    SumZeroIff(points, SquareGap(line));
  }

  lemma {:induction false} ErrorZeroIff(points: seq<Point>)
    requires LinearSlope(points).Ok?
    ensures HasSlope(points) && LinearSlope(points).value.errorSquared >= 0.0
    ensures LinearSlope(points).value.errorSquared == 0.0 <==> OnLine(points, BestLine(points))
  {
    var residual, n, spread := Residual(points, BestLine(points)), (|points| - 2) as real, Spread(points,
        MeanX(points));
    ResidualZeroIff(points, BestLine(points));
    SpreadSign(points, MeanX(points));
    QuotientSign(residual, n);
    QuotientSign(residual / n, spread);
  }

  lemma {:induction false} QuotientTwice(e: real, a: real, n: real, b: real)
    requires n != 0.0 && b != 0.0 && e == a / n / b
    ensures e * n * b == a
  {
    assert e * b == a / n;
    assert a / n * n == a;
  }

  /** The squared error scaled back by the degrees of freedom and the spread. */
  ghost function Unscaled(points: seq<Point>, errorSquared: real): real
    requires points != []
  {
    errorSquared * (|points| - 2) as real * Spread(points, MeanX(points))
  }

  lemma {:induction false} UnscaledError(points: seq<Point>)
    requires LinearSlope(points).Ok?
    ensures points != [] && HasSlope(points) && LinearSlope(points).value.samples == |points|
    ensures Unscaled(points, LinearSlope(points).value.errorSquared) == Residual(points, BestLine(points))
  {
    QuotientTwice(LinearSlope(points).value.errorSquared, Residual(points, BestLine(points)), (|points| - 2) as real,
                  Spread(points, MeanX(points)));
  }

  /** The squared error times the degrees of freedom times the spread is the least residual of all lines,
      and only the computed line has it. */
  lemma {:induction false} ErrorIsLeastResidual(points: seq<Point>, line: Line)
    requires LinearSlope(points).Ok?
    ensures points != [] && HasSlope(points) && LinearSlope(points).value.samples == |points|
    ensures Unscaled(points, LinearSlope(points).value.errorSquared) <= Residual(points, line)
    ensures Unscaled(points, LinearSlope(points).value.errorSquared) == Residual(points, line) <==>
            line == BestLine(points)
  {
    UnscaledError(points);
    SlopeIsLeastSquares(points, line);
  }

  /** Four points off any line, with an error of 2/25. */
  lemma {:induction false} ErrorOfFourPoints()
    ensures LinearSlope([Point(0.0, 0.0), Point(1.0, 1.0), Point(2.0, 0.0), Point(3.0, 1.0)]) ==
            Ok(Slope(0.2, 0.08, 4))
  {
    var points := [Point(0.0, 0.0), Point(1.0, 1.0), Point(2.0, 0.0), Point(3.0, 1.0)];
    FourSum(points, (p: Point) => p.x);
    FourSum(points, (p: Point) => p.y);
    assert MeanX(points) == 1.5 && MeanY(points) == 0.5;
    FourSum(points, SquareX(1.5));
    FourSum(points, Product(1.5, 0.5));
    assert Spread(points, 1.5) == 5.0 && Cross(points, 1.5, 0.5) == 1.0;
    assert BestLine(points) == Line(0.2, 0.2);
    FourSum(points, SquareGap(Line(0.2, 0.2)));
    assert Residual(points, Line(0.2, 0.2)) == 0.8;
  }

  lemma {:induction false} FourSum(points: seq<Point>, f: Point -> real)
    requires |points| == 4
    ensures Sum(points, f) == f(points[0]) + f(points[1]) + f(points[2]) + f(points[3])
  {
    assert points[1..][1..] == points[2..] && points[2..][1..] == points[3..] && points[3..][1..] == [];
    assert Sum(points[3..], f) == f(points[3]) + Sum([], f);
    assert Sum(points[2..], f) == f(points[2]) + Sum(points[3..], f);
    assert Sum(points[1..], f) == f(points[1]) + Sum(points[2..], f);
  }

  /** The interval shrinks to a point exactly if all samples lie on one line, which is then the one
      computed. */
  lemma {:induction false} NoErrorIff(points: seq<Point>)
    requires LinearSlope(points).Ok?
    ensures LinearSlope(points).value.errorSquared == 0.0 <==> exists line :: OnLine(points, line)
    ensures forall line :: OnLine(points, line) ==> line == BestLine(points)
  {
    ErrorZeroIff(points);
    ResidualZeroIff(points, BestLine(points));
    forall line | OnLine(points, line)
      ensures line == BestLine(points)
    {
      ResidualZeroIff(points, line);
      SlopeIsLeastSquares(points, line);
    }
  }
}
