/** The angle transfer curve of seychelles.py (`_angle_transfer`): the parabola
    y = A x^2 + B x through (0, 0), (diagonal, pi/4) and (pi/2, pi/2), or its inverse
    by the quadratic formula. All arithmetic is exact real arithmetic. */
module AngleTransfer {
  import opened Outcomes
  import Numerics

  datatype Coefficients = Coefficients(a: real, b: real)

  /** The parabola evaluated at x, in the order the source writes it. */
  function Eval(c: Coefficients, x: real): real {
    c.a * x * x + c.b * x
  }

  /** The parabola passes through the three calibration points. */
  predicate Interpolates(c: Coefficients, pi: real, diagonal: real) {
    Eval(c, 0.0) == 0.0 && Eval(c, diagonal) == pi / 4.0 && Eval(c, pi / 2.0) == pi / 2.0
  }

  /** The three-point parabola formulas. The division raises exactly when two of the
      points share an abscissa, that is when the diagonal is 0 or pi/2. */
  function Fit(pi: real, diagonal: real): (r: Result<Coefficients>)
    requires pi > 0.0
    ensures r.Failure? <==> diagonal == 0.0 || diagonal == pi / 2.0
    ensures r.Failure? ==> r.error == ZeroDivisionError
    ensures r.Success? ==> Interpolates(r.value, pi, diagonal)
    ensures r.Success? ==> (r.value.a == 0.0 <==> diagonal == pi / 4.0)
  {
    var x1, y1 := 0.0, 0.0;
    var x2, y2 := diagonal, pi / 4.0;
    var x3, y3 := pi / 2.0, pi / 2.0;
    var denom := (x1 - x2) * (x1 - x3) * (x2 - x3);
    if denom == 0.0 then
      Failure(ZeroDivisionError)
    else
      var a := (x3 * (y2 - y1) + x2 * (y1 - y3) + x1 * (y3 - y2)) / denom;
      var b := (x3 * x3 * (y1 - y2) + x2 * x2 * (y3 - y1) + x1 * x1 * (y2 - y3)) / denom;
      FitPassesThrough(pi, diagonal, denom, a, b);
      Success(Coefficients(a, b))
  }

  /** The algebra behind Fit: with the divisor and the two numerators in closed form,
      the parabola meets the calibration points. */
  lemma FitPassesThrough(pi: real, d: real, denom: real, a: real, b: real)
    requires pi > 0.0
    requires denom == d * (pi / 2.0) * (d - pi / 2.0) && denom != 0.0
    requires a * denom == (pi / 2.0) * (pi / 4.0 - d)
    requires b * denom == (pi / 2.0) * (d * d - pi * pi / 8.0)
    ensures Interpolates(Coefficients(a, b), pi, d)
  {
    var c := Coefficients(a, b);
    assert Eval(c, d) * denom == (pi / 4.0) * denom by {
      calc {
        Eval(c, d) * denom;
        (a * denom) * d * d + (b * denom) * d;
        (pi / 2.0) * (pi / 4.0 - d) * d * d + (pi / 2.0) * (d * d - pi * pi / 8.0) * d;
        (pi / 4.0) * denom;
      }
    }
    assert Eval(c, pi / 2.0) * denom == (pi / 2.0) * denom by {
      calc {
        Eval(c, pi / 2.0) * denom;
        (a * denom) * (pi / 2.0) * (pi / 2.0) + (b * denom) * (pi / 2.0);
        (pi / 2.0) * (pi / 4.0 - d) * (pi / 2.0) * (pi / 2.0) + (pi / 2.0) * (d * d - pi * pi / 8.0) * (pi / 2.0);
        (pi / 2.0) * denom;
      }
    }
    Cancel(Eval(c, d), pi / 4.0, denom);
    Cancel(Eval(c, pi / 2.0), pi / 2.0, denom);
  }

  lemma Cancel(x: real, y: real, k: real)
    requires k != 0.0 && x * k == y * k
    ensures x == y
  {
    assert (x - y) * k == 0.0;
  }

  /** Through (pi/2, pi/2): the slope of the chord from the origin to the end point is 1. */
  lemma EndPoint(c: Coefficients, pi: real, diagonal: real)
    requires pi > 0.0 && Interpolates(c, pi, diagonal)
    ensures c.a * (pi / 2.0) + c.b == 1.0
  {
    assert (c.a * (pi / 2.0) + c.b) * (pi / 2.0) == Eval(c, pi / 2.0);
    Cancel(c.a * (pi / 2.0) + c.b, 1.0, pi / 2.0);
  }

  /** Any two parabolas through the three calibration points are the same one, so a
      statement about every interpolating c is a statement about what Fit returns. */
  lemma InterpolantUnique(c1: Coefficients, c2: Coefficients, pi: real, diagonal: real)
    requires 0.0 < diagonal < pi / 2.0
    requires Interpolates(c1, pi, diagonal) && Interpolates(c2, pi, diagonal)
    ensures c1 == c2
  {
    var da, db := c1.a - c2.a, c1.b - c2.b;
    EndPoint(c1, pi, diagonal);
    EndPoint(c2, pi, diagonal);
    assert da * (pi / 2.0) + db == 0.0;
    assert (da * diagonal + db) * diagonal == 0.0;
    Numerics.ZeroProduct(da * diagonal + db, diagonal);
    assert da * (pi / 2.0 - diagonal) == 0.0;
    Numerics.ZeroProduct(da, pi / 2.0 - diagonal);
  }

  /** Square images (diagonal pi/4): the interpolating parabola is the identity. */
  lemma SquareCoefficients(c: Coefficients, pi: real)
    requires pi > 0.0 && Interpolates(c, pi, pi / 4.0)
    ensures c == Coefficients(0.0, 1.0)
  {
    EndPoint(c, pi, pi / 4.0);
    assert (c.a * (pi / 4.0) + c.b) * (pi / 4.0) == 1.0 * (pi / 4.0);
    Cancel(c.a * (pi / 4.0) + c.b, 1.0, pi / 4.0);
    assert c.a * (pi / 4.0) == 0.0;
  }

  /** What `_angle_transfer` returns: the parabola itself (forward), the identity in the
      square case of the inverse, or the inverse parabola by the quadratic formula. */
  datatype Curve = Parabola(c: Coefficients) | Identity | ParabolaRoot(c: Coefficients)

  /** The inverse curve that belongs to the forward parabola c: the identity when c is
      the identity, the quadratic-formula root of c otherwise. */
  predicate Inverts(curve: Curve, c: Coefficients) {
    (curve == Identity && c == Coefficients(0.0, 1.0)) ||
    (curve == ParabolaRoot(c) && c.a != 0.0)
  }

  /** `_angle_transfer(diagonal, seychelles)`. The tolerance test on the diagonal is taken
      as the exact test diagonal == pi/4. The coefficients are computed first, so the
      inverse raises for a degenerate diagonal too. */
  function Transfer(pi: real, diagonal: real, seychelles: bool): (r: Result<Curve>)
    requires pi > 0.0
    ensures r.Failure? <==> diagonal == 0.0 || diagonal == pi / 2.0
    ensures r.Failure? ==> r.error == ZeroDivisionError
    ensures r.Success? ==> (r.value.Identity? <==> !seychelles && diagonal == pi / 4.0)
    ensures r.Success? && seychelles ==> r.value == Parabola(Fit(pi, diagonal).value)
    ensures r.Success? && !seychelles ==> Inverts(r.value, Fit(pi, diagonal).value)
  {
    match Fit(pi, diagonal)
    case Failure(err) => Failure(err)
    case Success(c) =>
      if seychelles then Success(Parabola(c))
      else if diagonal == pi / 4.0 then
        SquareCoefficients(c, pi);
        Success(Identity)
      else Success(ParabolaRoot(c))
  }

  /** Applying the returned lambda to x. The inverse evaluates math.sqrt before dividing,
      so a negative discriminant raises first. */
  function Apply(e: Numerics.Env, curve: Curve, x: real): (r: Result<real>)
    requires Numerics.SqrtAxioms(e.sqrt)
    ensures curve.ParabolaRoot? ==>
      (r.Success? <==> curve.c.b * curve.c.b + 4.0 * curve.c.a * x >= 0.0 && curve.c.a != 0.0)
    ensures curve.ParabolaRoot? && r.Success? ==>
      Eval(curve.c, r.value) == x && 2.0 * curve.c.a * r.value + curve.c.b >= 0.0
    ensures curve.Parabola? ==> r == Success(Eval(curve.c, x))
    ensures curve.Identity? ==> r == Success(x)
  {
    match curve
    case Parabola(c) => Success(Eval(c, x))
    case Identity => Success(x)
    case ParabolaRoot(c) =>
      var disc := c.b * c.b - 4.0 * c.a * (-x);
      if disc < 0.0 then
        Failure(MathDomainError)
      else if 2.0 * c.a == 0.0 then
        Failure(ZeroDivisionError)
      else
        var root := (-1.0 * c.b + e.sqrt(disc)) / (2.0 * c.a);
        RootSolves(c, x, e.sqrt(disc), root);
        Success(root)
  }

  /** The '+' root of the quadratic formula solves A r^2 + B r = x on the rising side. */
  lemma RootSolves(c: Coefficients, x: real, s: real, root: real)
    requires c.a != 0.0 && s >= 0.0 && s * s == c.b * c.b + 4.0 * c.a * x
    requires root == (-1.0 * c.b + s) / (2.0 * c.a)
    ensures Eval(c, root) == x && 2.0 * c.a * root + c.b >= 0.0
  {
    assert 2.0 * c.a * root == s - c.b;
    assert 4.0 * c.a * Eval(c, root) == (2.0 * c.a * root) * (2.0 * c.a * root) + 2.0 * c.b * (2.0 * c.a * root);
    assert 4.0 * c.a * Eval(c, root) == 4.0 * c.a * x;
    Cancel(Eval(c, root), x, 4.0 * c.a);
  }

  /** Square images: the fitted parabola is the identity (A = 0, B = 1), which is also
      what the inverse returns for them. */
  lemma SquareIsIdentity(pi: real)
    requires pi > 0.0
    ensures Fit(pi, pi / 4.0) == Success(Coefficients(0.0, 1.0))
    ensures Transfer(pi, pi / 4.0, true) == Success(Parabola(Coefficients(0.0, 1.0)))
    ensures Transfer(pi, pi / 4.0, false) == Success(Identity)
    ensures forall x :: Eval(Coefficients(0.0, 1.0), x) == x
  {
    SquareCoefficients(Fit(pi, pi / 4.0).value, pi);
  }

  /** The discriminant of the inverse is non-negative on the whole quadrant, so
      math.sqrt never raises for an angle in [0, pi/2]. */
  lemma DiscriminantNonNegative(c: Coefficients, pi: real, diagonal: real, v: real)
    requires pi > 0.0 && Interpolates(c, pi, diagonal)
    requires 0.0 <= v <= pi / 2.0
    ensures c.b * c.b + 4.0 * c.a * v >= 0.0
  {
    EndPoint(c, pi, diagonal);
    if c.a < 0.0 {
      // the discriminant falls with v; at v = pi/2 it is (B - 2)^2
      assert 4.0 * c.a * v >= 4.0 * c.a * (pi / 2.0);
      assert c.b * c.b + 4.0 * c.a * (pi / 2.0) == (c.b - 2.0) * (c.b - 2.0);
    }
  }

  /** Inverse round-trip: on the quadrant the inverse never raises and the forward
      parabola maps its result back, forward(inverse(v)) == v. */
  lemma InverseRoundTrip(e: Numerics.Env, curve: Curve, c: Coefficients, diagonal: real, v: real)
    requires e.pi > 0.0 && Numerics.SqrtAxioms(e.sqrt) && Interpolates(c, e.pi, diagonal) && Inverts(curve, c)
    requires 0.0 <= v <= e.pi / 2.0
    ensures Apply(e, curve, v).Success?
    ensures Eval(c, Apply(e, curve, v).value) == v
  {
    if curve.ParabolaRoot? {
      DiscriminantNonNegative(c, e.pi, diagonal, v);
    }
  }

  /** The inverse maps [0, pi/2) into [0, pi/2): it picks the root on the curve's
      rising branch between the two end points. */
  lemma InverseRange(e: Numerics.Env, curve: Curve, c: Coefficients, diagonal: real, v: real)
    requires e.pi > 0.0 && Numerics.SqrtAxioms(e.sqrt) && Interpolates(c, e.pi, diagonal) && Inverts(curve, c)
    requires 0.0 <= v < e.pi / 2.0
    ensures Apply(e, curve, v).Success?
    ensures 0.0 <= Apply(e, curve, v).value < e.pi / 2.0
  {
    InverseRoundTrip(e, curve, c, diagonal, v);
    if curve.ParabolaRoot? {
      var r := Apply(e, curve, v);
      assert curve.c == c;
      EndPoint(c, e.pi, diagonal);
      RisingRootInRange(c, e.pi / 2.0, v, r.value);
    }
  }

  /** Algebra of InverseRange: a solution of A r^2 + B r = v on the rising side of a
      parabola through (p, p) lies in [0, p) when v does. */
  lemma RisingRootInRange(c: Coefficients, p: real, v: real, r: real)
    requires p > 0.0 && c.a * p + c.b == 1.0
    requires 0.0 <= v < p
    requires Eval(c, r) == v && 2.0 * c.a * r + c.b >= 0.0
    ensures 0.0 <= r < p
  {
    assert r * (c.a * r + c.b) == v;
    if r < 0.0 {
      Numerics.NegativeFactor(r, c.a * r + c.b);
      Numerics.NegativeFactor(r, c.a);
      assert false;
    }
    assert (p - r) * (c.a * (p + r) + c.b) == p - v;
    if r >= p {
      Numerics.PositiveProduct(p - r, c.a * (p + r) + c.b);
      Numerics.PositiveProduct(r - p, -c.a);
      Numerics.MulNonNegative(c.a, r);
      assert false;
    }
  }

  /** The inverse undoes the forward parabola at theta exactly when the parabola is not
      falling there. */
  lemma InverseOfForward(e: Numerics.Env, curve: Curve, c: Coefficients, theta: real)
    requires Numerics.SqrtAxioms(e.sqrt) && Inverts(curve, c)
    ensures Apply(e, curve, Eval(c, theta)) == Success(theta) <==> 2.0 * c.a * theta + c.b >= 0.0
  {
    if curve.ParabolaRoot? {
      RootOfValue(e, c, theta);
    }
  }

  /** The inverse curve takes pi/4 back to the diagonal, for every diagonal of
      (0, pi/2). */
  lemma InverseAtDiagonal(e: Numerics.Env, curve: Curve, c: Coefficients, d: real)
    requires Numerics.SqrtAxioms(e.sqrt) && Inverts(curve, c)
    requires 0.0 < d < e.pi / 2.0 && Interpolates(c, e.pi, d)
    ensures Apply(e, curve, e.pi / 4.0) == Success(d)
  {
    DiagonalSlope(c, e.pi, d);
    InverseOfForward(e, curve, c, d);
  }

  /** The inverse curve fixes 0 exactly when the fitted parabola does not dip below
      zero near the origin (B >= 0), that is when 8 d^2 <= pi^2. For taller inputs the
      inverse takes 0 to the parabola's other zero. */
  lemma InverseAtZero(e: Numerics.Env, curve: Curve, c: Coefficients, d: real)
    requires Numerics.SqrtAxioms(e.sqrt) && Inverts(curve, c)
    requires 0.0 < d < e.pi / 2.0 && Interpolates(c, e.pi, d)
    ensures Apply(e, curve, 0.0) == Success(0.0) <==> 8.0 * d * d <= e.pi * e.pi
  {
    InverseOfForward(e, curve, c, 0.0);
    SlopeBounds(c, e.pi, d);
  }

  /** The fitted parabola rises at the diagonal: its slope 2 A d + B is positive. */
  lemma DiagonalSlope(c: Coefficients, pi: real, d: real)
    requires 0.0 < d < pi / 2.0 && Interpolates(c, pi, d)
    ensures 2.0 * c.a * d + c.b > 0.0
  {
    var p := pi / 2.0;
    var slope := 2.0 * c.a * d + c.b;
    EndPoint(c, pi, d);
    assert Eval(c, d) == pi / 4.0;
    if c.a >= 0.0 {
      // slope * d == pi/4 + A d^2
      assert slope * d == pi / 4.0 + c.a * (d * d);
      Numerics.MulNonNegative(c.a, d * d);
      if slope <= 0.0 {
        Numerics.MulNonNegative(-slope, d);
      }
    } else {
      // slope * (p - d) == pi/4 - A (p - d)^2, using A p + B == 1
      var g := p - d;
      assert slope * g == pi / 4.0 - c.a * (g * g);
      Numerics.MulNonNegative(-c.a, g * g);
      if slope <= 0.0 {
        Numerics.MulNonNegative(-slope, g);
      }
    }
  }

  /** Algebra of InverseOfForward, for any parabola with A != 0. */
  lemma RootOfValue(e: Numerics.Env, c: Coefficients, theta: real)
    requires Numerics.SqrtAxioms(e.sqrt) && c.a != 0.0
    ensures Apply(e, ParabolaRoot(c), Eval(c, theta)) == Success(theta)
      <==> 2.0 * c.a * theta + c.b >= 0.0
  {
    var y := Eval(c, theta);
    var slope := 2.0 * c.a * theta + c.b;
    assert c.b * c.b + 4.0 * c.a * y == slope * slope;
    if slope < 0.0 {
      Numerics.MulNonNegative(-slope, -slope);
    } else {
      Numerics.MulNonNegative(slope, slope);
    }
    var r := Apply(e, ParabolaRoot(c), y);
    assert r.Success?;
    if slope >= 0.0 {
      SameValueOnRisingSide(c, r.value, theta);
    }
  }

  /** Two points on the rising side of a parabola with the same value coincide. */
  lemma SameValueOnRisingSide(c: Coefficients, r: real, t: real)
    requires c.a != 0.0 && Eval(c, r) == Eval(c, t)
    requires 2.0 * c.a * r + c.b >= 0.0 && 2.0 * c.a * t + c.b >= 0.0
    ensures r == t
  {
    assert (r - t) * (c.a * (r + t) + c.b) == 0.0;
    Numerics.ZeroProduct(r - t, c.a * (r + t) + c.b);
    if c.a * (r + t) + c.b == 0.0 {
      assert 2.0 * c.a * r + c.b == 0.0;
      assert c.a * (r - t) == 0.0;
      Numerics.ZeroProduct(c.a, r - t);
    }
  }

  /** The parabola does not decrease anywhere on [0, pi/2]. */
  ghost predicate Increasing(c: Coefficients, pi: real) {
    forall s, t :: 0.0 <= s <= t <= pi / 2.0 ==> Eval(c, s) <= Eval(c, t)
  }

  /** The parabola maps [0, pi/2] into [0, pi/2]. */
  ghost predicate StaysInQuadrant(c: Coefficients, pi: real) {
    forall x :: 0.0 <= x <= pi / 2.0 ==> 0.0 <= Eval(c, x) <= pi / 2.0
  }

  /** The aspect-ratio condition of CurveShape. */
  predicate MildAspect(pi: real, diagonal: real) {
    8.0 * diagonal * diagonal <= pi * pi &&
    8.0 * diagonal * diagonal - 8.0 * pi * diagonal + pi * pi <= 0.0
  }

  /** The curve is increasing, and stays within the quadrant, exactly for diagonals with
      8 d^2 <= pi^2 and 8 d^2 - 8 pi d + pi^2 <= 0 (about 0.29 <= d / (pi/2) <= 0.71).
      For other aspect ratios the forward angle leaves [0, pi/2] and the clamp in the
      resampling pass absorbs it. */
  lemma CurveShape(c: Coefficients, pi: real, diagonal: real)
    requires 0.0 < diagonal < pi / 2.0 && Interpolates(c, pi, diagonal)
    ensures Increasing(c, pi) <==> MildAspect(pi, diagonal)
    ensures StaysInQuadrant(c, pi) <==> MildAspect(pi, diagonal)
  {
    EndPoint(c, pi, diagonal);
    SlopeBounds(c, pi, diagonal);
    ShapeBySlopes(c, pi);
  }

  /** Algebra of CurveShape: a parabola through the origin and (pi/2, pi/2) is increasing
      on the quadrant, and stays in it, exactly when 0 <= B <= 2. */
  lemma ShapeBySlopes(c: Coefficients, pi: real)
    requires pi > 0.0 && c.a * (pi / 2.0) + c.b == 1.0
    ensures Increasing(c, pi) <==> 0.0 <= c.b <= 2.0
    ensures StaysInQuadrant(c, pi) <==> 0.0 <= c.b <= 2.0
  {
    var p := pi / 2.0;
    assert Eval(c, p) == p by {
      assert Eval(c, p) == (c.a * p + c.b) * p;
    }
    if 0.0 <= c.b <= 2.0 {
      forall s, t | 0.0 <= s <= t <= p ensures Eval(c, s) <= Eval(c, t) {
        RisingBetween(c, p, s, t);
      }
      forall x | 0.0 <= x <= p ensures 0.0 <= Eval(c, x) <= p {
        RisingBetween(c, p, 0.0, x);
        RisingBetween(c, p, x, p);
      }
    } else if c.b < 0.0 {
      // the curve dips below zero at the vertex -B / 2A, inside (0, pi/2]
      assert c.a * p == 1.0 - c.b;
      assert c.a > 0.0;
      var t := -c.b / (2.0 * c.a);
      assert 2.0 * c.a * t == -c.b;
      assert t > 0.0;
      assert 2.0 * c.a * t <= 2.0 * c.a * p;
      assert t <= p;
      assert Eval(c, t) == t * (c.a * t + c.b);
      assert c.a * t + c.b == c.b / 2.0;
      assert Eval(c, t) < 0.0;
      assert !(Eval(c, 0.0) <= Eval(c, t));
      assert !(0.0 <= Eval(c, t));
    } else {
      // the curve peaks above pi/2 at the vertex -B / 2A, inside (0, pi/2)
      assert c.a * p == 1.0 - c.b;
      assert c.a < 0.0;
      var t := -c.b / (2.0 * c.a);
      assert 2.0 * c.a * t == -c.b;
      assert t > 0.0;
      assert 2.0 * c.a * t > 2.0 * c.a * p;
      assert t < p;
      assert Eval(c, t) == t * (c.a * t + c.b);
      assert c.a * t + c.b == c.b / 2.0;
      assert Eval(c, t) * (-4.0 * c.a) == c.b * c.b;
      assert p * (-4.0 * c.a) == 4.0 * (c.b - 1.0);
      SquareGap(c.b);
      assert Eval(c, t) * (-4.0 * c.a) > p * (-4.0 * c.a);
      assert Eval(c, t) > p;
      assert !(Eval(c, t) <= Eval(c, p));
      assert !(Eval(c, t) <= p);
    }
  }

  /** The slopes of the curve at 0 (B) and at pi/2 (2 - B) are non-negative exactly under
      the two halves of MildAspect; from the two calibration points,
      B d (pi/2 - d) == pi^2/8 - d^2. */
  lemma SlopeBounds(c: Coefficients, pi: real, d: real)
    requires 0.0 < d < pi / 2.0 && Interpolates(c, pi, d)
    ensures c.b >= 0.0 <==> 8.0 * d * d <= pi * pi
    ensures c.b <= 2.0 <==> 8.0 * d * d - 8.0 * pi * d + pi * pi <= 0.0
  {
    var p := pi / 2.0;
    EndPoint(c, pi, d);
    var w := d * (p - d);
    assert w > 0.0 by {
      Numerics.MulNonNegative(d, p - d);
      if w == 0.0 {
        Numerics.ZeroProduct(d, p - d);
      }
    }
    assert c.a * p == 1.0 - c.b;
    assert p * (c.a * d * d + c.b * d) == p * (pi / 4.0);
    assert (1.0 - c.b) * d * d + c.b * d * p == pi * pi / 8.0;
    assert c.b * w == pi * pi / 8.0 - d * d;
    SignOverPositive(c.b, 0.0, w, pi * pi / 8.0 - d * d);
    SignOverPositive(c.b, 2.0, w, pi * pi / 8.0 - d * d);
  }

  /** b^2 - 4 (b - 1) is the square (b - 2)^2, positive for b > 2. */
  lemma SquareGap(b: real)
    requires b > 2.0
    ensures b * b > 4.0 * (b - 1.0)
  {
    var g := b - 2.0;
    assert g * g == b * b - 4.0 * (b - 1.0);
    Numerics.MulNonNegative(g, g);
    if g * g == 0.0 {
      Numerics.ZeroProduct(g, g);
    }
  }

  /** Dividing by a positive number keeps an inequality. */
  lemma SignOverPositive(x: real, k: real, n: real, xn: real)
    requires n > 0.0 && x * n == xn
    ensures x >= k <==> xn >= k * n
    ensures x <= k <==> xn <= k * n
  {
    assert xn - k * n == (x - k) * n;
    if x > k {
      Numerics.MulPositive(x - k, n);
    } else if x < k {
      Numerics.MulPositive(k - x, n);
      assert (x - k) * n == -((k - x) * n);
    }
  }

  /** Between the end points the curve rises when both end slopes are non-negative. */
  lemma RisingBetween(c: Coefficients, p: real, s: real, t: real)
    requires p > 0.0 && c.a * p + c.b == 1.0 && 0.0 <= c.b <= 2.0
    requires 0.0 <= s <= t <= p
    ensures Eval(c, s) <= Eval(c, t)
  {
    assert Eval(c, t) - Eval(c, s) == (t - s) * (c.a * (s + t) + c.b);
    if c.a < 0.0 {
      assert c.a * (s + t) >= c.a * (2.0 * p);
      assert c.a * (2.0 * p) == 2.0 * (1.0 - c.b);
    } else {
      Numerics.MulNonNegative(c.a, s + t);
    }
    assert c.a * (s + t) + c.b >= 0.0;
    assert (t - s) * (c.a * (s + t) + c.b) >= 0.0;
  }

  /** Under MildAspect the curve stays within [0, pi/2] on the quadrant; the form of
      StaysInQuadrant a caller can use at one angle. */
  lemma MildCurveInQuadrant(c: Coefficients, pi: real, diagonal: real, x: real)
    requires 0.0 < diagonal < pi / 2.0 && Interpolates(c, pi, diagonal)
    requires MildAspect(pi, diagonal) && 0.0 <= x <= pi / 2.0
    ensures 0.0 <= Eval(c, x) <= pi / 2.0
  {
    var p := pi / 2.0;
    EndPoint(c, pi, diagonal);
    SlopeBounds(c, pi, diagonal);
    assert Eval(c, p) == (c.a * p + c.b) * p;
    RisingBetween(c, p, 0.0, x);
    RisingBetween(c, p, x, p);
  }

  /** Where the curve is increasing, the inverse undoes it on the whole quadrant:
      inverse(forward(theta)) == theta (the identity case included). */
  lemma InverseUndoesForward(e: Numerics.Env, curve: Curve, c: Coefficients, diagonal: real, theta: real)
    requires Numerics.SqrtAxioms(e.sqrt) && Inverts(curve, c)
    requires 0.0 < diagonal < e.pi / 2.0 && Interpolates(c, e.pi, diagonal)
    requires MildAspect(e.pi, diagonal) && 0.0 <= theta <= e.pi / 2.0
    ensures Apply(e, curve, Eval(c, theta)) == Success(theta)
  {
    MildSlope(c, e.pi, diagonal, theta);
    InverseOfForward(e, curve, c, theta);
  }

  /** Under MildAspect the fitted curve has a non-negative slope on the whole quadrant. */
  lemma MildSlope(c: Coefficients, pi: real, diagonal: real, theta: real)
    requires 0.0 < diagonal < pi / 2.0 && Interpolates(c, pi, diagonal)
    requires MildAspect(pi, diagonal) && 0.0 <= theta <= pi / 2.0
    ensures 2.0 * c.a * theta + c.b >= 0.0
  {
    EndPoint(c, pi, diagonal);
    SlopeBounds(c, pi, diagonal);
    RisingSlope(c, pi / 2.0, theta);
  }

  /** Under 0 <= B <= 2 the slope 2 A theta + B is non-negative on [0, p]. */
  lemma RisingSlope(c: Coefficients, p: real, theta: real)
    requires p > 0.0 && c.a * p + c.b == 1.0 && 0.0 <= c.b <= 2.0
    requires 0.0 <= theta <= p
    ensures 2.0 * c.a * theta + c.b >= 0.0
  {
    if c.a < 0.0 {
      assert 2.0 * c.a * theta >= 2.0 * c.a * p;
    } else {
      Numerics.MulNonNegative(c.a, theta);
    }
  }
}
