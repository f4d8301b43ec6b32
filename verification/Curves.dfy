/** Point addition on y^2 = x^3 + b over a prime field (blockchain/P2/ecdsa.py). */
module Curves {
  import opened Congruences
  import opened Fields

  datatype Point = Point(x: int, y: int)

  function Sub(x: int, y: int, p: int): int
    requires p > 0
  {
    Addition(x, AdditiveInverse(y, p), p)
  }

  function SlopeAtPoint(x: int, y: int, p: int): int
    requires p > 1
  {
    Division(Multiplication(3, Exponentiation(x, 2, p), p), Multiplication(2, y, p), p)
  }

  function SlopeBetweenPoints(x1: int, y1: int, x2: int, y2: int, p: int): int
    requires p > 1
  {
    Division(Sub(y2, y1, p), Sub(x2, x1, p), p)
  }

  /** The third point of the line with this slope through a, x1 and x2 being the other two. */
  function Third(slope: int, a: Point, x2: int, p: int): Point
    requires p > 1
  {
    var x3 := Sub(Sub(Exponentiation(slope, 2, p), a.x, p), x2, p);
    Point(x3, Sub(Multiplication(slope, Sub(a.x, x3, p), p), a.y, p))
  }

  function AddSelf(a: Point, p: int): Point
    requires p > 1
  {
    Third(SlopeAtPoint(a.x, a.y, p), a, a.x, p)
  }

  function AddTwoPoints(q: Point, r: Point, p: int): Point
    requires p > 1
  {
    if q == r then AddSelf(q, p) else Third(SlopeBetweenPoints(q.x, q.y, r.x, r.y, p), q, r.x, p)
  }

  ghost predicate OnCurve(a: Point, b: int, p: int) {
    Divides(p, Cubic(a.x, b) - a.y * a.y)
  }

  ghost function Cubic(x: int, b: int): int { x * x * x + b }

  // ----- The line through two points of the curve, over the integers

  /** How far the line of slope s through (x1, y1) is from the curve at t. */
  ghost function Gap(t: int, s: int, x1: int, y1: int, b: int): int {
    Cubic(t, b) - (s * (t - x1) + y1) * (s * (t - x1) + y1)
  }

  lemma GapExpanded(t: int, s: int, x1: int, y1: int, b: int)
    ensures var m := y1 - s * x1; Gap(t, s, x1, y1, b) == t * t * t - s * s * (t * t) - 2 * s * m * t + b - m * m
  {
    var m := y1 - s * x1;
    assert s * (t - x1) + y1 == s * t + m;
    assert (s * t + m) * (s * t + m) == s * s * (t * t) + 2 * s * m * t + m * m;
  }

  /** The three roots of the gap add up to s*s, so it is settled at X by its values at x1 and x2. */
  lemma GapBetween(s: int, x1: int, y1: int, x2: int, b: int)
    ensures var X := s * s - x1 - x2;
      (x2 - x1) * Gap(X, s, x1, y1, b) == Gap(x2, s, x1, y1, b) * (X - x1) - Gap(x1, s, x1, y1, b) * (X - x2)
  {
    var X := s * s - x1 - x2;
    var m := y1 - s * x1;
    GapExpanded(X, s, x1, y1, b);
    GapExpanded(x1, s, x1, y1, b);
    GapExpanded(x2, s, x1, y1, b);
    Interpolate(x1, x2, X, s * s, 2 * s * m, b - m * m);
  }

  ghost function Secant(t: int, u: int, q: int, c: int): int {
    t * t + t * u + u * u - q * (t + u) - c
  }

  lemma Difference(t: int, u: int, q: int, c: int, d: int)
    ensures t * t * t - q * (t * t) - c * t + d == (u * u * u - q * (u * u) - c * u + d) + (t - u) * Secant(t, u, q, c)
  {
  }

  lemma SameSecant(x1: int, x2: int, x3: int, c: int)
    ensures Secant(x3, x1, x1 + x2 + x3, c) == Secant(x2, x1, x1 + x2 + x3, c)
  {
  }

  lemma Proportion(a: int, e: int, f: int, s: int)
    ensures a * (f + e * s) == (f + a * s) * e - f * (e - a)
  {
  }

  lemma Interpolate(x1: int, x2: int, x3: int, q: int, c: int, d: int)
    requires x1 + x2 + x3 == q
    ensures (x2 - x1) * (x3 * x3 * x3 - q * (x3 * x3) - c * x3 + d) ==
      (x2 * x2 * x2 - q * (x2 * x2) - c * x2 + d) * (x3 - x1) - (x1 * x1 * x1 - q * (x1 * x1) - c * x1 + d) * (x3 - x2)
  {
    Difference(x3, x1, q, c, d);
    Difference(x2, x1, q, c, d);
    SameSecant(x1, x2, x3, c);
    Proportion(x2 - x1, x3 - x1, x1 * x1 * x1 - q * (x1 * x1) - c * x1 + d, Secant(x2, x1, q, c));
  }

  /** At a double root the derivative takes the place of the second value. */
  lemma GapDoubled(s: int, x1: int, y1: int, b: int)
    ensures var X := s * s - x1 - x1;
      Gap(X, s, x1, y1, b) == Gap(x1, s, x1, y1, b) + (3 * (x1 * x1) - 2 * s * y1) * (X - x1)
  {
    var X := s * s - x1 - x1;
    var m := y1 - s * x1;
    GapExpanded(X, s, x1, y1, b);
    GapExpanded(x1, s, x1, y1, b);
    Tangent(x1, X, s * s, 2 * s * m, b - m * m);
    assert 3 * (x1 * x1) - 2 * (s * s) * x1 - 2 * s * m == 3 * (x1 * x1) - 2 * s * y1;
  }

  lemma Tangent(x1: int, x3: int, q: int, c: int, d: int)
    requires x1 + x1 + x3 == q
    ensures x3 * x3 * x3 - q * (x3 * x3) - c * x3 + d ==
      (x1 * x1 * x1 - q * (x1 * x1) - c * x1 + d) + (3 * (x1 * x1) - 2 * q * x1 - c) * (x3 - x1)
  {
  }

  // ----- Modulo p

  lemma SubCong(x: int, y: int, p: int)
    requires p > 0
    ensures Cong(p, Sub(x, y, p), x - y) && 0 <= Sub(x, y, p) < p
  {
    var n := x + (p - y);
    Remainder(p, n);
    Multiple(p, 1);
    Sum(p, p * 1, n - n % p);
    assert p * 1 - (n - n % p) == n % p - (x - y);
  }

  lemma MulCong(x: int, y: int, p: int)
    requires p > 0
    ensures Cong(p, Multiplication(x, y, p), x * y)
  {
    Remainder(p, x * y);
    Sym(p, x * y, (x * y) % p);
  }

  lemma SquareCong(x: int, p: int)
    requires p > 0
    ensures Cong(p, Exponentiation(x, 2, p), x * x)
  {
    assert Power(x, 2) == x * Power(x, 1) == x * (x * Power(x, 0));
    Remainder(p, x * x);
    Sym(p, x * x, (x * x) % p);
  }

  /** The addition rule, as a congruence. */
  ghost predicate ChordRule(a: Point, x2: int, slope: int, c: Point, p: int) {
    && 0 <= c.x < p && 0 <= c.y < p
    && Cong(p, c.x, slope * slope - a.x - x2)
    && Cong(p, c.y, slope * (a.x - c.x) - a.y)
  }

  lemma ThirdFollowsRule(slope: int, a: Point, x2: int, p: int)
    requires p > 1
    ensures ChordRule(a, x2, slope, Third(slope, a, x2, p), p)
  {
    var c := Third(slope, a, x2, p);
    var square, first := Exponentiation(slope, 2, p), Sub(Exponentiation(slope, 2, p), a.x, p);
    var run := Sub(a.x, c.x, p);
    SquareCong(slope, p);
    SubCong(square, a.x, p);
    SubCong(first, x2, p);
    SubCong(a.x, c.x, p);
    MulCong(slope, run, p);
    SubCong(Multiplication(slope, run, p), a.y, p);
    Refl(p, a.x);
    Refl(p, x2);
    Refl(p, a.y);
    Refl(p, slope);
    hide Divides, Exponentiation, Multiplication, Sub;
    CongSum(p, square, slope * slope, a.x, a.x);
    Trans(p, first, square - a.x, slope * slope - a.x);
    CongSum(p, first, slope * slope - a.x, x2, x2);
    Trans(p, c.x, first - x2, slope * slope - a.x - x2);
    CongProduct(p, slope, slope, run, a.x - c.x);
    Trans(p, Multiplication(slope, run, p), slope * run, slope * (a.x - c.x));
    CongSum(p, Multiplication(slope, run, p), slope * (a.x - c.x), a.y, a.y);
    Trans(p, c.y, Multiplication(slope, run, p) - a.y, slope * (a.x - c.x) - a.y);
  }

  /** The slope of the chord. */
  lemma SlopeBetween(q: Point, r: Point, p: int)
    requires Prime(p) && !Cong(p, q.x, r.x)
    ensures var s := SlopeBetweenPoints(q.x, q.y, r.x, r.y, p); Cong(p, s * (r.x - q.x), r.y - q.y) && 0 <= s < p
  {
    var s := SlopeBetweenPoints(q.x, q.y, r.x, r.y, p);
    var rise, run := Sub(r.y, q.y, p), Sub(r.x, q.x, p);
    SubCong(r.y, q.y, p);
    SubCong(r.x, q.x, p);
    if Divides(p, run) {
      assert run == run - 0;
      Sym(p, run, r.x - q.x);
      Sum(p, r.x - q.x - run, run);
      Times(p, r.x - q.x, -1);
    }
    DivisionTimes(rise, run, p);
    Refl(p, s);
    Sym(p, run, r.x - q.x);
    hide Divides, Sub, Division;
    CongProduct(p, s, s, r.x - q.x, run);
    Trans(p, s * (r.x - q.x), s * run, rise);
    Trans(p, s * (r.x - q.x), rise, r.y - q.y);
  }

  /** The slope of the tangent. */
  lemma SlopeAt(a: Point, p: int)
    requires Prime(p) && !Divides(p, 2 * a.y)
    ensures var s := SlopeAtPoint(a.x, a.y, p); Cong(p, s * (2 * a.y), 3 * (a.x * a.x))
  {
    var s := SlopeAtPoint(a.x, a.y, p);
    var square := Exponentiation(a.x, 2, p);
    var rise, run := Multiplication(3, square, p), Multiplication(2, a.y, p);
    SquareCong(a.x, p);
    MulCong(3, square, p);
    MulCong(2, a.y, p);
    if Divides(p, run) {
      Sum(p, run, run - 2 * a.y);
    }
    DivisionTimes(rise, run, p);
    Refl(p, s);
    Refl(p, 3);
    Sym(p, run, 2 * a.y);
    hide Divides, Multiplication, Exponentiation, Division;
    CongProduct(p, 3, 3, square, a.x * a.x);
    Trans(p, rise, 3 * square, 3 * (a.x * a.x));
    CongProduct(p, s, s, 2 * a.y, run);
    Trans(p, s * (2 * a.y), s * run, rise);
    Trans(p, s * (2 * a.y), rise, 3 * (a.x * a.x));
  }

  /** Replacing reduced coordinates by congruent ones does not leave the curve. */
  lemma OnCurveCong(a: Point, c: Point, b: int, p: int)
    requires Cong(p, a.x, c.x) && Cong(p, a.y, c.y) && OnCurve(c, b, p)
    ensures OnCurve(a, b, p)
  {
    hide Divides;
    CongProduct(p, a.x, c.x, a.x, c.x);
    CongProduct(p, a.x * a.x, c.x * c.x, a.x, c.x);
    CongProduct(p, a.y, c.y, a.y, c.y);
    Refl(p, b);
    CongSum(p, a.x * a.x * a.x, c.x * c.x * c.x, b, b);
    CongSum(p, Cubic(a.x, b), Cubic(c.x, b), a.y * a.y, c.y * c.y);
    Sum(p, (Cubic(a.x, b) - a.y * a.y) - (Cubic(c.x, b) - c.y * c.y), Cubic(c.x, b) - c.y * c.y);
  }

  /** The point that the line reaches at X, reflected. */
  lemma ReflectedOnCurve(a: Point, x2: int, slope: int, b: int, p: int)
    requires Divides(p, Gap(slope * slope - a.x - x2, slope, a.x, a.y, b))
    ensures var X := slope * slope - a.x - x2; OnCurve(Point(X, slope * (a.x - X) - a.y), b, p)
  {
    hide Divides;
    var X := slope * slope - a.x - x2;
    var y, z := slope * (a.x - X) - a.y, slope * (X - a.x) + a.y;
    assert y == -z;
    assert y * y == z * z;
  }

  lemma ReflectedCong(a: Point, slope: int, c: Point, X: int, p: int)
    requires Cong(p, c.x, X) && Cong(p, c.y, slope * (a.x - c.x) - a.y)
    ensures Cong(p, c.y, slope * (a.x - X) - a.y)
  {
    Refl(p, slope);
    Refl(p, a.x);
    Refl(p, a.y);
    hide Divides;
    CongSum(p, a.x, a.x, c.x, X);
    CongProduct(p, slope, slope, a.x - c.x, a.x - X);
    CongSum(p, slope * (a.x - c.x), slope * (a.x - X), a.y, a.y);
    Trans(p, c.y, slope * (a.x - c.x) - a.y, slope * (a.x - X) - a.y);
  }

  /** Where the line meets the curve, the reflected point is on the curve. */
  lemma RuleFromGap(a: Point, x2: int, slope: int, c: Point, b: int, p: int)
    requires ChordRule(a, x2, slope, c, p)
    requires Divides(p, Gap(slope * slope - a.x - x2, slope, a.x, a.y, b))
    ensures OnCurve(c, b, p)
  {
    var X := slope * slope - a.x - x2;
    var e := Point(X, slope * (a.x - X) - a.y);
    ReflectedOnCurve(a, x2, slope, b, p);
    hide Divides, Gap, OnCurve, Cubic;
    ReflectedCong(a, slope, c, X, p);
    OnCurveCong(c, e, b, p);
  }

  // ----- The sum of two points

  /** The chord case, as in section 2.2.1 of SEC 1. */
  lemma ChordSum(q: Point, r: Point, p: int) returns (s: int)
    requires Prime(p) && q != r && !Cong(p, q.x, r.x)
    ensures Cong(p, s * (r.x - q.x), r.y - q.y) && 0 <= s < p
    ensures ChordRule(q, r.x, s, AddTwoPoints(q, r, p), p)
  {
    s := SlopeBetweenPoints(q.x, q.y, r.x, r.y, p);
    SlopeBetween(q, r, p);
    ThirdFollowsRule(s, q, r.x, p);
  }

  /** The tangent case. */
  lemma TangentSum(a: Point, p: int) returns (s: int)
    requires Prime(p) && !Divides(p, 2 * a.y)
    ensures Cong(p, s * (2 * a.y), 3 * (a.x * a.x))
    ensures ChordRule(a, a.x, s, AddSelf(a, p), p)
  {
    s := SlopeAtPoint(a.x, a.y, p);
    SlopeAt(a, p);
    ThirdFollowsRule(s, a, a.x, p);
  }

  lemma TangentStays(a: Point, b: int, p: int)
    requires Prime(p) && OnCurve(a, b, p) && !Divides(p, 2 * a.y)
    ensures OnCurve(AddSelf(a, p), b, p)
  {
    var s := TangentSum(a, p);
    hide Divides, AddSelf, Gap, Cubic;
    var X := s * s - a.x - a.x;
    GapDoubled(s, a.x, a.y, b);
    GapAtFirst(s, a, b, p);
    Sym(p, s * (2 * a.y), 3 * (a.x * a.x));
    assert s * (2 * a.y) == 2 * s * a.y;
    Times(p, 3 * (a.x * a.x) - 2 * s * a.y, X - a.x);
    Sum(p, Gap(a.x, s, a.x, a.y, b), (3 * (a.x * a.x) - 2 * s * a.y) * (X - a.x));
    RuleFromGap(a, a.x, s, AddSelf(a, p), b, p);
  }

  lemma GapAtFirst(s: int, a: Point, b: int, p: int)
    requires OnCurve(a, b, p)
    ensures Divides(p, Gap(a.x, s, a.x, a.y, b))
  {
    assert s * (a.x - a.x) + a.y == a.y;
  }

  lemma GapAtSecond(s: int, q: Point, r: Point, b: int, p: int)
    requires OnCurve(r, b, p) && Cong(p, s * (r.x - q.x), r.y - q.y)
    ensures Divides(p, Gap(r.x, s, q.x, q.y, b))
  {
    hide Divides;
    var e := s * (r.x - q.x) + q.y;
    Refl(p, q.y);
    CongSum(p, s * (r.x - q.x), r.y - q.y, q.y, q.y);
    Refl(p, r.x);
    assert r.y - q.y + q.y == r.y;
    OnCurveCong(Point(r.x, e), r, b, p);
  }

  lemma ChordStays(q: Point, r: Point, b: int, p: int)
    requires Prime(p) && OnCurve(q, b, p) && OnCurve(r, b, p) && q != r && !Cong(p, q.x, r.x)
    ensures OnCurve(AddTwoPoints(q, r, p), b, p)
  {
    var s := ChordSum(q, r, p);
    if Divides(p, r.x - q.x) {
      Times(p, r.x - q.x, -1);
    }
    hide Divides, AddTwoPoints, Gap, Cubic;
    var X := s * s - q.x - r.x;
    GapBetween(s, q.x, q.y, r.x, b);
    GapAtFirst(s, q, b, p);
    GapAtSecond(s, q, r, b, p);
    Times(p, Gap(r.x, s, q.x, q.y, b), X - q.x);
    Times(p, Gap(q.x, s, q.x, q.y, b), X - r.x);
    Sum(p, Gap(r.x, s, q.x, q.y, b) * (X - q.x), Gap(q.x, s, q.x, q.y, b) * (X - r.x));
    Euclid(p, r.x - q.x, Gap(X, s, q.x, q.y, b));
    RuleFromGap(q, r.x, s, AddTwoPoints(q, r, p), b, p);
  }

  // ----- A vanishing denominator

  /** Slope zero, which is what division by zero gives, leads to (-2x, -y). */
  lemma FlatSum(a: Point, x2: int, c: Point, b: int, p: int)
    requires ChordRule(a, x2, 0, c, p) && Cong(p, x2, a.x) && OnCurve(a, b, p)
    ensures OnCurve(c, b, p) <==> Divides(p, 9 * (a.x * a.x * a.x))
  {
    var e := Point(-2 * a.x, -a.y);
    hide Divides;
    Refl(p, -a.x);
    CongSum(p, -a.x, -a.x, x2, a.x);
    Trans(p, c.x, -a.x - x2, e.x);
    Sym(p, c.x, e.x);
    assert 0 * (a.x - c.x) - a.y == e.y;
    Sym(p, c.y, e.y);
    if OnCurve(c, b, p) {
      OnCurveCong(e, c, b, p);
    }
    if OnCurve(e, b, p) {
      OnCurveCong(c, e, b, p);
    }
    var here, nine := Cubic(a.x, b) - a.y * a.y, 9 * (a.x * a.x * a.x);
    FlatIdentity(a, b);
    if OnCurve(e, b, p) {
      Sum(p, here, Cubic(e.x, b) - e.y * e.y);
    }
    if Divides(p, nine) {
      Sum(p, here, nine);
    }
  }

  lemma FlatIdentity(a: Point, b: int)
    ensures Cubic(-2 * a.x, b) - (-a.y) * (-a.y) == Cubic(a.x, b) - a.y * a.y - 9 * (a.x * a.x * a.x)
  {
    assert (-2 * a.x) * (-2 * a.x) * (-2 * a.x) == -8 * (a.x * a.x * a.x);
  }

  /**
    The double of a point of the curve is on the curve unless the tangent is
    vertical and 9x^3 does not vanish.
   */
  lemma DoubleStaysIff(a: Point, b: int, p: int)
    requires Prime(p) && p > 2 && OnCurve(a, b, p)
    ensures OnCurve(AddSelf(a, p), b, p) <==> !Divides(p, 2 * a.y) || Divides(p, 9 * (a.x * a.x * a.x))
  {
    if Divides(p, 2 * a.y) {
      var run := Multiplication(2, a.y, p);
      MulCong(2, a.y, p);
      Sum(p, 2 * a.y, run - 2 * a.y);
      DivisionByZero(Multiplication(3, Exponentiation(a.x, 2, p), p), run, p);
      ThirdFollowsRule(0, a, a.x, p);
      Refl(p, a.x);
      FlatSum(a, a.x, AddSelf(a, p), b, p);
    } else {
      TangentStays(a, b, p);
    }
  }

  /**
    The sum of two different points of the curve is on the curve unless the
    chord is vertical and 9x^3 does not vanish.
   */
  lemma SumStaysIff(q: Point, r: Point, b: int, p: int)
    requires Prime(p) && p > 2 && OnCurve(q, b, p) && OnCurve(r, b, p) && q != r
    ensures OnCurve(AddTwoPoints(q, r, p), b, p) <==> !Cong(p, q.x, r.x) || Divides(p, 9 * (q.x * q.x * q.x))
  {
    if Cong(p, q.x, r.x) {
      var run := Sub(r.x, q.x, p);
      SubCong(r.x, q.x, p);
      Sym(p, q.x, r.x);
      Sum(p, r.x - q.x, run - (r.x - q.x));
      DivisionByZero(Sub(r.y, q.y, p), run, p);
      ThirdFollowsRule(0, q, r.x, p);
      FlatSum(q, r.x, AddTwoPoints(q, r, p), b, p);
    } else {
      ChordStays(q, r, b, p);
    }
  }

  /** Addition of points with different x does not depend on the order. */
  lemma SumCommutes(q: Point, r: Point, p: int)
    requires Prime(p) && q != r && !Cong(p, q.x, r.x)
    ensures AddTwoPoints(q, r, p) == AddTwoPoints(r, q, p)
  {
    if Cong(p, r.x, q.x) {
      Sym(p, r.x, q.x);
    }
    var s := ChordSum(q, r, p);
    var t := ChordSum(r, q, p);
    var c, d := AddTwoPoints(q, r, p), AddTwoPoints(r, q, p);
    hide Divides, AddTwoPoints;
    SameSlope(s, t, q, r, p);
    Sym(p, d.x, s * s - r.x - q.x);
    Trans(p, c.x, s * s - q.x - r.x, d.x);
    Reduced(p, c.x, d.x);
    SameHeight(s, q, r, c.x, p);
    Trans(p, c.y, s * (q.x - c.x) - q.y, s * (r.x - c.x) - r.y);
    Sym(p, d.y, s * (r.x - c.x) - r.y);
    Trans(p, c.y, s * (r.x - c.x) - r.y, d.y);
    Reduced(p, c.y, d.y);
  }

  lemma SameSlope(s: int, t: int, q: Point, r: Point, p: int)
    requires Prime(p) && !Cong(p, q.x, r.x) && 0 <= s < p && 0 <= t < p
    requires Cong(p, s * (r.x - q.x), r.y - q.y) && Cong(p, t * (q.x - r.x), q.y - r.y)
    ensures s == t
  {
    hide Divides;
    var run := q.x - r.x;
    Times(p, s * (r.x - q.x) - (r.y - q.y), -1);
    assert (s * (r.x - q.x) - (r.y - q.y)) * -1 == s * run - (q.y - r.y);
    Sym(p, t * run, q.y - r.y);
    Trans(p, s * run, q.y - r.y, t * run);
    Cancel(p, s, t, run);
    Reduced(p, s, t);
  }

  lemma SameHeight(s: int, q: Point, r: Point, x: int, p: int)
    requires Cong(p, s * (r.x - q.x), r.y - q.y)
    ensures Cong(p, s * (q.x - x) - q.y, s * (r.x - x) - r.y)
  {
    hide Divides;
    Times(p, s * (r.x - q.x) - (r.y - q.y), -1);
    assert (s * (r.x - q.x) - (r.y - q.y)) * -1 == (s * (q.x - x) - q.y) - (s * (r.x - x) - r.y);
  }

  lemma FiveIsPrime()
    ensures Prime(5)
  {
    forall d | 1 < d < 5
      ensures !Divides(d, 5)
    {
      DividesIffMod(d, 5);
    }
  }

  /** The conditions do fail: the tangent at (1, 0) of y^2 = x^3 + 4 over five elements leads off the curve. */
  lemma TangentLeaves()
    ensures OnCurve(Point(1, 0), 4, 5) && !OnCurve(AddSelf(Point(1, 0), 5), 4, 5)
  {
    FiveIsPrime();
    DividesIffMod(5, 0);
    DividesIffMod(5, 9);
    Multiple(5, 1);
    hide Prime, Divides, AddSelf;
    DoubleStaysIff(Point(1, 0), 4, 5);
  }

  /** So does the chord through (1, 2) and (1, 3) of y^2 = x^3 + 3. */
  lemma ChordLeaves()
    ensures OnCurve(Point(1, 2), 3, 5) && OnCurve(Point(1, 3), 3, 5) && !OnCurve(AddTwoPoints(Point(1, 2), Point(1, 3), 5), 3, 5)
  {
    FiveIsPrime();
    Multiple(5, 0);
    Multiple(5, -1);
    DividesIffMod(5, 9);
    hide Prime, Divides, AddTwoPoints;
    SumStaysIff(Point(1, 2), Point(1, 3), 3, 5);
  }
}
