/** The per-pixel coordinate computations of the two resampling passes of
    seychelles.py: for an output pixel, which input pixel supplies its colour. Each
    pass has a reference definition in closed form (ForwardTarget, InverseTarget) and
    a method that computes it as the source does (ForwardSample, InverseSample). */
module Sampling {
  import opened Outcomes
  import Numerics
  import opened AngleTransfer

  /** An image size (width, height), as PIL reports it. */
  datatype Size = Size(width: nat, height: nat)

  function Dist(a: int, b: int): nat {
    if a <= b then b - a else a - b
  }

  /** The bounds check on a rounded coordinate: below the range goes to 0, at or above
      its end to n - 1. The result is the index in [0, n) nearest to v. */
  function Clamp(v: int, n: int): (i: int)
    ensures n >= 1 ==> 0 <= i < n
    ensures n >= 1 ==> forall j :: 0 <= j < n ==> Dist(i, v) <= Dist(j, v)
  {
    if v < 0 then 0 else if v >= n then n - 1 else v
  }

  /** `int(round(v))`, then clamped into [0, n). */
  function SourceIndex(e: Numerics.Env, v: real, n: int): int {
    Clamp(e.round(v), n)
  }

  /** A point inside [0, n] is sampled from an index less than one pixel away; the
      clamp only ever moves a rounded coordinate that is off by one. */
  lemma SourceIndexNear(e: Numerics.Env, v: real, n: int)
    requires Numerics.RoundAxioms(e.round) && n >= 1 && 0.0 <= v <= n as real
    ensures -1.0 <= SourceIndex(e, v, n) as real - v <= 1.0
  {
    var r := e.round(v);
    assert -0.5 <= r as real - v <= 0.5;
    assert 0 <= r <= n;
  }

  function Max(a: real, b: real): real {
    if a < b then b else a
  }

  /** How far (x, y) lies from the origin towards the edge of the w-by-h rectangle,
      along its own ray: 0 at the origin, 1 on the right or top edge. */
  function RadiusFraction(x: real, y: real, w: real, h: real): real
    requires w > 0.0 && h > 0.0
  {
    Max(x / w, y / h)
  }

  /** Radius ratio of the forward pass: in [0, 1) for every output pixel, and 0 only at
      the origin. */
  lemma RadiusFractionBounds(x: nat, y: nat, w: nat, h: nat)
    requires x < w && y < h
    ensures 0.0 <= RadiusFraction(x as real, y as real, w as real, h as real) < 1.0
    ensures RadiusFraction(x as real, y as real, w as real, h as real) == 0.0 <==> x == 0 && y == 0
  {
    QuotientBelowOne(x as real, w as real);
    QuotientBelowOne(y as real, h as real);
  }

  lemma QuotientBelowOne(a: real, b: real)
    requires 0.0 <= a < b
    ensures 0.0 <= a / b < 1.0 && (a / b == 0.0 <==> a == 0.0)
  {
    var q := a / b;
    assert q * b == a;
    if q < 0.0 {
      Numerics.MulPositive(-q, b);
    }
    if q >= 1.0 {
      Numerics.MulNonNegative(q - 1.0, b);
    }
    if q == 0.0 {
      assert a == 0.0;
    }
  }

  /** Comparing quotients with positive divisors by cross-multiplying. */
  lemma CrossMultiply(a: real, b: real, c: real, d: real)
    requires b > 0.0 && d > 0.0
    ensures a / b < c / d <==> a * d < c * b
  {
    Numerics.MulPositive(b, d);
    assert a / b - c / d == (a * d - c * b) / (b * d);
  }

  // ---------------------------------------------------------------------------
  // The forward pass

  /** The forward pass's height scaling: an angle of [0, pi/2] scaled to a height h. */
  function AngleToHeight(v: real, pi: real, h: real): real
    requires pi > 0.0
  {
    v * h * 2.0 / pi
  }

  /** The forward pass's width scaling: a radius fraction scaled to a width w. */
  function FractionToWidth(f: real, w: real): real {
    f * w
  }

  /** The point of the input the forward pass samples for the output point (x, y): the
      radius fraction of the point in the output rectangle, scaled by the input width,
      and its angle through the forward transfer curve c, scaled by the input height. */
  function ForwardPoint(e: Numerics.Env, c: Coefficients, sizeIn: Size, sizeOut: Size, x: real, y: real): (p: (real, real))
    requires e.pi > 0.0 && sizeOut.width > 0 && sizeOut.height > 0
    ensures 0.0 <= x < sizeOut.width as real && 0.0 <= y < sizeOut.height as real ==>
      0.0 <= p.0 && (p.0 < sizeIn.width as real || sizeIn.width == 0)
  {
    var f := RadiusFraction(x, y, sizeOut.width as real, sizeOut.height as real);
    FractionWidthBound(x, y, sizeOut.width as real, sizeOut.height as real, sizeIn.width as real);
    (FractionToWidth(f, sizeIn.width as real),
     AngleToHeight(Eval(c, e.atan2(y, x)), e.pi, sizeIn.height as real))
  }

  /** A point inside the w-by-h rectangle has a radius fraction below one, so scaled to
      a width it lands in [0, width). */
  lemma FractionWidthBound(x: real, y: real, w: real, h: real, width: real)
    requires w > 0.0 && h > 0.0 && width >= 0.0
    ensures 0.0 <= x < w && 0.0 <= y < h ==>
      0.0 <= FractionToWidth(RadiusFraction(x, y, w, h), width) &&
      (FractionToWidth(RadiusFraction(x, y, w, h), width) < width || width == 0.0)
  {
    if 0.0 <= x < w && 0.0 <= y < h {
      QuotientBelowOne(x, w);
      QuotientBelowOne(y, h);
      ScaledFraction(RadiusFraction(x, y, w, h), width);
    }
  }

  /** Where the forward point lies: its abscissa is inside [0, width) of the input,
      and its ordinate inside [0, height] whenever the curve is monotone (MildAspect). */
  lemma ForwardPointBounds(e: Numerics.Env, c: Coefficients, sizeIn: Size, sizeOut: Size, x: nat, y: nat)
    requires e.pi > 0.0 && Numerics.AngleAxioms(e.pi, e.atan2)
    requires x < sizeOut.width && y < sizeOut.height
    requires Interpolates(c, e.pi, e.atan2(sizeOut.height as real, sizeOut.width as real))
    ensures 0.0 <= ForwardPoint(e, c, sizeIn, sizeOut, x as real, y as real).0
    ensures ForwardPoint(e, c, sizeIn, sizeOut, x as real, y as real).0 < sizeIn.width as real || sizeIn.width == 0
    ensures MildAspect(e.pi, e.atan2(sizeOut.height as real, sizeOut.width as real)) ==>
      0.0 <= ForwardPoint(e, c, sizeIn, sizeOut, x as real, y as real).1 <= sizeIn.height as real
  {
    var diagonal := e.atan2(sizeOut.height as real, sizeOut.width as real);
    if MildAspect(e.pi, diagonal) {
      var angle := e.atan2(y as real, x as real);
      assert 0.0 < diagonal < e.pi / 2.0;
      assert 0.0 <= angle <= e.pi / 2.0;
      MildCurveInQuadrant(c, e.pi, diagonal, angle);
      ScaledAngle(e.pi, Eval(c, angle), sizeIn.height as real);
    }
  }

  lemma ScaledFraction(f: real, w: real)
    requires 0.0 <= f < 1.0 && w >= 0.0
    ensures 0.0 <= FractionToWidth(f, w) && (FractionToWidth(f, w) < w || w == 0.0)
  {
    Numerics.MulNonNegative(f, w);
    if w > 0.0 {
      Numerics.MulPositive(1.0 - f, w);
    }
  }

  lemma ScaledAngle(pi: real, a: real, h: real)
    requires pi > 0.0 && 0.0 <= a <= pi / 2.0 && h >= 0.0
    ensures 0.0 <= AngleToHeight(a, pi, h) <= h
  {
    var f := a * 2.0 / pi;
    assert 0.0 <= f <= 1.0;
    assert a * h * 2.0 / pi == f * h;
    Numerics.MulNonNegative(f, h);
    Numerics.MulNonNegative(1.0 - f, h);
  }

  /** The source pixel of output pixel (x, y) in the forward pass. */
  function ForwardTarget(e: Numerics.Env, c: Coefficients, sizeIn: Size, sizeOut: Size, x: nat, y: nat): (t: (int, int))
    requires e.pi > 0.0
    requires x < sizeOut.width && y < sizeOut.height
    ensures sizeIn.width >= 1 ==> 0 <= t.0 < sizeIn.width
    ensures sizeIn.height >= 1 ==> 0 <= t.1 < sizeIn.height
  {
    var p := ForwardPoint(e, c, sizeIn, sizeOut, x as real, y as real);
    (SourceIndex(e, p.0, sizeIn.width), SourceIndex(e, p.1, sizeIn.height))
  }

  /** The forward source pixel lies within one pixel of the forward point: always
      horizontally, and vertically whenever the curve is monotone. */
  lemma ForwardTargetNear(e: Numerics.Env, c: Coefficients, sizeIn: Size, sizeOut: Size, x: nat, y: nat)
    requires e.pi > 0.0 && Numerics.AngleAxioms(e.pi, e.atan2) && Numerics.RoundAxioms(e.round)
    requires sizeIn.width >= 1 && sizeIn.height >= 1
    requires x < sizeOut.width && y < sizeOut.height
    requires Interpolates(c, e.pi, e.atan2(sizeOut.height as real, sizeOut.width as real))
    ensures -1.0 <= ForwardTarget(e, c, sizeIn, sizeOut, x, y).0 as real - ForwardPoint(e, c, sizeIn, sizeOut, x as real, y as real).0 <= 1.0
    ensures MildAspect(e.pi, e.atan2(sizeOut.height as real, sizeOut.width as real)) ==>
      -1.0 <= ForwardTarget(e, c, sizeIn, sizeOut, x, y).1 as real - ForwardPoint(e, c, sizeIn, sizeOut, x as real, y as real).1 <= 1.0
  {
    var p := ForwardPoint(e, c, sizeIn, sizeOut, x as real, y as real);
    ForwardPointBounds(e, c, sizeIn, sizeOut, x, y);
    SourceIndexNear(e, p.0, sizeIn.width);
    if MildAspect(e.pi, e.atan2(sizeOut.height as real, sizeOut.width as real)) {
      SourceIndexNear(e, p.1, sizeIn.height);
    }
  }

  /** The range check both passes apply to each coordinate: `int(round(v))`, then the
      if/elif bounds check. */
  method RoundAndClamp(e: Numerics.Env, v: real, n: nat) returns (i: int)
    ensures i == SourceIndex(e, v, n)
  {
    i := e.round(v);
    if i < 0 {
      i := 0;
    } else if i >= n {
      i := n - 1;
    }
  }

  /** The body of the forward pass's pixel loop: follow the pixel's ray to the edge of
      the output rectangle, take the ratio of the two radii and the transferred angle,
      then round and clamp. */
  method ForwardSample(e: Numerics.Env, c: Coefficients, outDiagonal: real, sizeIn: Size, sizeOut: Size, x: nat, y: nat)
    returns (inXInt: int, inYInt: int)
    requires e.pi > 0.0 && Numerics.AngleAxioms(e.pi, e.atan2) && Numerics.SqrtAxioms(e.sqrt)
    requires x < sizeOut.width && y < sizeOut.height
    requires outDiagonal == e.atan2(sizeOut.height as real, sizeOut.width as real)
    ensures (inXInt, inYInt) == ForwardTarget(e, c, sizeIn, sizeOut, x, y)
  {
    var outAngle := e.atan2(y as real, x as real);
    var outX, outY := x as real, y as real;
    ExitBranches(e, x, y, sizeOut);
    if x == 0 && y == 0 {
      outX, outY := 1.0, 1.0;
    } else if outAngle < outDiagonal {
      outX := Rescaled(outX, sizeOut.width as real, x as real);
      outY := Rescaled(outY, sizeOut.width as real, x as real);
    } else {
      outX := Rescaled(outX, sizeOut.height as real, y as real);
      outY := Rescaled(outY, sizeOut.height as real, y as real);
    }
    var pointRad := e.sqrt(x as real * x as real + y as real * y as real);
    var outRad := e.sqrt(outX * outX + outY * outY);
    ForwardRadii(e, x, y, sizeOut, outX, outY, pointRad, outRad);
    var radRatio := pointRad / outRad;
    var inX := radRatio * sizeIn.width as real;
    var transferred := Apply(e, Parabola(c), outAngle).value;
    var inY := transferred * sizeIn.height as real * 2.0 / e.pi;
    ForwardTargetOf(e, c, sizeIn, sizeOut, x, y, radRatio, transferred);
    inXInt := RoundAndClamp(e, inX, sizeIn.width);
    inYInt := RoundAndClamp(e, inY, sizeIn.height);
  }

  /** ForwardTarget unfolded, in the terms the forward pass computes it. */
  lemma ForwardTargetOf(e: Numerics.Env, c: Coefficients, sizeIn: Size, sizeOut: Size, x: nat, y: nat,
                        radRatio: real, transferred: real)
    requires e.pi > 0.0 && x < sizeOut.width && y < sizeOut.height
    requires radRatio == RadiusFraction(x as real, y as real, sizeOut.width as real, sizeOut.height as real)
    requires transferred == Eval(c, e.atan2(y as real, x as real))
    ensures ForwardTarget(e, c, sizeIn, sizeOut, x, y)
      == (SourceIndex(e, radRatio * sizeIn.width as real, sizeIn.width),
          SourceIndex(e, transferred * sizeIn.height as real * 2.0 / e.pi, sizeIn.height))
  {
    var p := ForwardPoint(e, c, sizeIn, sizeOut, x as real, y as real);
    assert p.0 == radRatio * sizeIn.width as real;
    assert p.1 == transferred * sizeIn.height as real * 2.0 / e.pi;
  }

  /** Division safety of the forward pass: away from the origin, the right-edge branch
      (angle below the diagonal) has x > 0 and the radius fraction x / width; the
      top-edge branch has y > 0 and the radius fraction y / height. */
  lemma ExitBranches(e: Numerics.Env, x: nat, y: nat, size: Size)
    requires e.pi > 0.0 && Numerics.AngleAxioms(e.pi, e.atan2) && x < size.width && y < size.height
    ensures e.atan2(y as real, x as real) < e.atan2(size.height as real, size.width as real) && !(x == 0 && y == 0) ==>
      x > 0 && RadiusFraction(x as real, y as real, size.width as real, size.height as real) == x as real / size.width as real
    ensures e.atan2(size.height as real, size.width as real) <= e.atan2(y as real, x as real) && !(x == 0 && y == 0) ==>
      y > 0 && RadiusFraction(x as real, y as real, size.width as real, size.height as real) == y as real / size.height as real
  {
    var w, h := size.width as real, size.height as real;
    var xr, yr := x as real, y as real;
    if x > 0 {
      CrossMultiply(yr, h, xr, w);
      CrossMultiply(xr, w, yr, h);
      assert e.atan2(yr, xr) < e.atan2(h, w) <==> yr * w < h * xr;
    }
  }

  /** v scaled by edge / coord: the forward pass moves a pixel along its ray to the
      border by scaling both coordinates by this factor. */
  function Rescaled(v: real, edge: real, coord: real): real
    requires coord != 0.0
  {
    v * (edge * 1.0 / coord)
  }

  /** The ratio of radii of the forward pass is the radius fraction of the pixel, and
      the radius it divides by is positive. */
  lemma ForwardRadii(e: Numerics.Env, x: nat, y: nat, size: Size, outX: real, outY: real, pointRad: real, outRad: real)
    requires e.pi > 0.0 && Numerics.AngleAxioms(e.pi, e.atan2) && Numerics.SqrtAxioms(e.sqrt)
    requires x < size.width && y < size.height
    requires x == 0 && y == 0 ==> outX == 1.0 && outY == 1.0
    requires var w := size.width as real; var h := size.height as real;
      e.atan2(y as real, x as real) < e.atan2(h, w) && !(x == 0 && y == 0) ==>
        outX == Rescaled(x as real, w, x as real) && outY == Rescaled(y as real, w, x as real)
    requires var w := size.width as real; var h := size.height as real;
      e.atan2(h, w) <= e.atan2(y as real, x as real) && !(x == 0 && y == 0) ==>
        outX == Rescaled(x as real, h, y as real) && outY == Rescaled(y as real, h, y as real)
    requires pointRad == e.sqrt(x as real * x as real + y as real * y as real)
    requires outRad == e.sqrt(outX * outX + outY * outY)
    ensures outRad > 0.0
    ensures pointRad / outRad == RadiusFraction(x as real, y as real, size.width as real, size.height as real)
  {
    var below := e.atan2(y as real, x as real) < e.atan2(size.height as real, size.width as real);
    ExitBranches(e, x, y, size);
    BranchRadii(e.sqrt, x, y, size, below, outX, outY, pointRad, outRad);
  }

  /** ForwardRadii once the branch is known: `below` says the ray leaves through the
      right edge. */
  lemma BranchRadii(sqrt: real -> real, x: nat, y: nat, size: Size, below: bool,
                    outX: real, outY: real, pointRad: real, outRad: real)
    requires Numerics.SqrtAxioms(sqrt)
    requires x < size.width && y < size.height
    requires x == 0 && y == 0 ==> outX == 1.0 && outY == 1.0
    requires below && !(x == 0 && y == 0) ==>
      x > 0 && RadiusFraction(x as real, y as real, size.width as real, size.height as real) == x as real / size.width as real
    requires !below && !(x == 0 && y == 0) ==>
      y > 0 && RadiusFraction(x as real, y as real, size.width as real, size.height as real) == y as real / size.height as real
    requires below && !(x == 0 && y == 0) ==>
      outX == Rescaled(x as real, size.width as real, x as real) && outY == Rescaled(y as real, size.width as real, x as real)
    requires !below && !(x == 0 && y == 0) ==>
      outX == Rescaled(x as real, size.height as real, y as real) && outY == Rescaled(y as real, size.height as real, y as real)
    requires pointRad == sqrt(x as real * x as real + y as real * y as real)
    requires outRad == sqrt(outX * outX + outY * outY)
    ensures outRad > 0.0
    ensures pointRad / outRad == RadiusFraction(x as real, y as real, size.width as real, size.height as real)
  {
    if x == 0 && y == 0 {
      OriginRadii(sqrt, x, y, outX, outY, pointRad, outRad);
    } else if below {
      EdgeRadius(sqrt, x, y, x as real, size.width as real, outX, outY, pointRad, outRad);
    } else {
      EdgeRadius(sqrt, x, y, y as real, size.height as real, outX, outY, pointRad, outRad);
    }
  }

  /** One branch of ForwardRadii: scaling (x, y) by edge / coord, the ratio of the two
      radii is coord / edge. */
  lemma EdgeRadius(sqrt: real -> real, x: nat, y: nat, coord: real, edge: real, outX: real, outY: real,
                   pointRad: real, outRad: real)
    requires Numerics.SqrtAxioms(sqrt) && coord > 0.0 && edge > 0.0
    requires coord == x as real || coord == y as real
    requires outX == Rescaled(x as real, edge, coord) && outY == Rescaled(y as real, edge, coord)
    requires pointRad == sqrt(x as real * x as real + y as real * y as real)
    requires outRad == sqrt(outX * outX + outY * outY)
    ensures outRad > 0.0
    ensures pointRad / outRad == coord / edge
  {
    var n1 := x as real * x as real + y as real * y as real;
    var n2 := outX * outX + outY * outY;
    EdgeSquares(x as real, y as real, coord, edge, outX, outY, n1, n2);
    Numerics.SqrtQuotient(sqrt, n1, n2, coord / edge);
  }

  /** The origin branch of ForwardRadii: 0 / sqrt(2). */
  lemma OriginRadii(sqrt: real -> real, x: nat, y: nat, outX: real, outY: real, pointRad: real, outRad: real)
    requires Numerics.SqrtAxioms(sqrt)
    requires x == 0 && y == 0 && outX == 1.0 && outY == 1.0
    requires pointRad == sqrt(x as real * x as real + y as real * y as real)
    requires outRad == sqrt(outX * outX + outY * outY)
    ensures outRad > 0.0 && pointRad / outRad == 0.0
  {
    Numerics.SqrtQuotient(sqrt, 0.0, 2.0, 0.0);
  }

  lemma Reciprocal(a: real, b: real)
    requires a > 0.0 && b > 0.0
    ensures b * 1.0 / a > 0.0 && 1.0 / (b * 1.0 / a) == a / b
  {
  }

  /** The squared length of (x, y). */
  function Norm2(x: real, y: real): real {
    x * x + y * y
  }

  /** The arithmetic of one branch of ForwardRadii: scaling (x, y) by k = edge / coord
      scales the squared length by k^2. */
  lemma EdgeSquares(x: real, y: real, coord: real, edge: real, outX: real, outY: real, n1: real, n2: real)
    requires x >= 0.0 && y >= 0.0 && coord > 0.0 && edge > 0.0 && (coord == x || coord == y)
    requires outX == Rescaled(x, edge, coord) && outY == Rescaled(y, edge, coord)
    requires n1 == x * x + y * y && n2 == outX * outX + outY * outY
    ensures n2 > 0.0 && coord / edge >= 0.0
    ensures n1 == (coord / edge) * (coord / edge) * n2
  {
    var k := edge * 1.0 / coord;
    var q := coord / edge;
    Reciprocal(coord, edge);
    Norm2Positive(x, y);
    assert q * k == 1.0;
    assert n1 == Norm2(x, y) && n2 == Norm2(outX, outY);
    assert Norm2(outX, outY) == (k * k) * Norm2(x, y);
    Numerics.MulPositive(k, k);
    Numerics.MulPositive(k * k, Norm2(x, y));
    assert q * q * Norm2(outX, outY) == (q * k) * (q * k) * Norm2(x, y);
  }

  /** Positivity is argued through x * x >= 0 and the zero-product rule. */
  lemma Norm2Positive(x: real, y: real)
    requires x >= 0.0 && y >= 0.0 && (x > 0.0 || y > 0.0)
    ensures Norm2(x, y) > 0.0
  {
    Numerics.MulNonNegative(x, x);
    Numerics.MulNonNegative(y, y);
    if Norm2(x, y) == 0.0 {
      assert x * x == 0.0 && y * y == 0.0;
      Numerics.ZeroProduct(x, x);
      Numerics.ZeroProduct(y, y);
    }
  }

  // ---------------------------------------------------------------------------
  // The inverse pass

  /** The inverse pass's row angle: row y of an output of height h stands for the angle
      y pi / 2 / h. */
  function RowAngle(pi: real, y: real, h: real): real
    requires h > 0.0
  {
    y * pi / 2.0 / h
  }

  /** The rows of the output cover the angles [0, pi/2), and the forward pass's scaling
      of an angle to a height undoes RowAngle. */
  lemma RowAngleBounds(pi: real, y: nat, h: nat)
    requires pi > 0.0 && y < h
    ensures 0.0 <= RowAngle(pi, y as real, h as real) < pi / 2.0
    ensures AngleToHeight(RowAngle(pi, y as real, h as real), pi, h as real) == y as real
  {
    var v := RowAngle(pi, y as real, h as real);
    var f := y as real / h as real;
    QuotientBelowOne(y as real, h as real);
    assert v == f * (pi / 2.0);
    Numerics.MulNonNegative(f, pi / 2.0);
    Numerics.MulPositive(1.0 - f, pi / 2.0);
  }

  /** The parabola fitted to the diagonal of a rectangle of the given size: the curve
      of the forward pass on the output size, and the curve the inverse pass inverts
      on the input size. */
  function DiagonalCurve(e: Numerics.Env, size: Size): (c: Coefficients)
    requires e.pi > 0.0 && Numerics.AngleAxioms(e.pi, e.atan2)
    requires size.width > 0 && size.height > 0
    ensures Interpolates(c, e.pi, e.atan2(size.height as real, size.width as real))
  {
    var d := e.atan2(size.height as real, size.width as real);
    assert 0.0 < d < e.pi / 2.0;
    Fit(e.pi, d).value
  }

  /** The angle of the input that the inverse pass samples for output row y: a solution
      in [0, pi/2) of the input's forward curve at the row's angle. */
  function InverseAngle(e: Numerics.Env, sizeIn: Size, sizeOut: Size, y: nat): (theta: real)
    requires e.pi > 0.0 && Numerics.AngleAxioms(e.pi, e.atan2) && Numerics.SqrtAxioms(e.sqrt)
    requires sizeIn.width > 0 && sizeIn.height > 0 && y < sizeOut.height
    ensures 0.0 <= theta < e.pi / 2.0
    ensures Eval(DiagonalCurve(e, sizeIn), theta) == RowAngle(e.pi, y as real, sizeOut.height as real)
  {
    var d := e.atan2(sizeIn.height as real, sizeIn.width as real);
    var c := DiagonalCurve(e, sizeIn);
    var curve := Transfer(e.pi, d, false).value;
    var v := RowAngle(e.pi, y as real, sizeOut.height as real);
    RowAngleBounds(e.pi, y, sizeOut.height);
    InverseRange(e, curve, c, d, v);
    InverseRoundTrip(e, curve, c, d, v);
    Apply(e, curve, v).value
  }

  /** The point where the ray of the given slope leaves the w-by-h rectangle: the point
      of the right or the top edge on that ray. */
  function ExitPoint(slope: real, w: real, h: real): (p: (real, real))
    requires slope >= 0.0 && w > 0.0 && h > 0.0
    ensures p.1 == slope * p.0
    ensures 0.0 < p.0 <= w && 0.0 <= p.1 <= h
    ensures p.0 == w || p.1 == h
  {
    if slope * w < h then
      Numerics.MulNonNegative(slope, w);
      (w, slope * w)
    else
      assert slope > 0.0;
      ExitOnTop(slope, w, h);
      (h / slope, h)
  }

  lemma ExitPointBelow(slope: real, w: real, h: real)
    requires slope >= 0.0 && w > 0.0 && h > 0.0 && slope * w < h
    ensures ExitPoint(slope, w, h) == (w * 1.0, w * 1.0 * slope)
  {
  }

  lemma ExitPointAbove(slope: real, w: real, h: real)
    requires slope > 0.0 && w > 0.0 && h > 0.0 && !(slope * w < h)
    ensures ExitPoint(slope, w, h) == (h * 1.0 / slope, h * 1.0)
  {
  }

  lemma ExitOnTop(slope: real, w: real, h: real)
    requires slope > 0.0 && w > 0.0 && h > 0.0 && slope * w >= h
    ensures 0.0 < h / slope <= w && slope * (h / slope) == h
  {
    var q := h / slope;
    assert slope * q == h;
    if q > w {
      Numerics.MulPositive(slope, q - w);
    }
    if q <= 0.0 {
      Numerics.MulNonNegative(slope, -q);
    }
  }

  /** The inverse pass's radius ratio: the fraction x / w of the width that column x of the output stands for. */
  function ColumnFraction(x: nat, w: nat): (f: real)
    requires x < w
    ensures 0.0 <= f < 1.0 && (f == 0.0 <==> x == 0)
    ensures FractionToWidth(f, w as real) == x as real
  {
    QuotientBelowOne(x as real, w as real);
    x as real * 1.0 / w as real
  }

  /** The point at fraction f of the way from the origin to where the ray of the given
      slope leaves the w-by-h rectangle: it is inside the rectangle, on the ray, and has
      radius fraction f. */
  function ScaledExit(f: real, slope: real, w: real, h: real): (p: (real, real))
    requires 0.0 <= f < 1.0 && slope >= 0.0 && w > 0.0 && h > 0.0
    ensures 0.0 <= p.0 < w && 0.0 <= p.1 < h
    ensures p.1 == slope * p.0 && (p.0 > 0.0 <==> f > 0.0)
    ensures RadiusFraction(p.0, p.1, w, h) == f
  {
    var q := ExitPoint(slope, w, h);
    ScaledEdgePoint(f, slope, w, h, q);
    Scale(f, q)
  }

  /** The point f q: fraction f of the way from the origin to q. */
  function Scale(f: real, q: (real, real)): (real, real) {
    (f * q.0, f * q.1)
  }

  /** The contract of ScaledExit, for any point q where the ray leaves the rectangle. */
  lemma ScaledEdgePoint(f: real, slope: real, w: real, h: real, q: (real, real))
    requires 0.0 <= f < 1.0 && w > 0.0 && h > 0.0
    requires q.1 == slope * q.0 && 0.0 < q.0 <= w && 0.0 <= q.1 <= h && (q.0 == w || q.1 == h)
    ensures 0.0 <= Scale(f, q).0 < w && 0.0 <= Scale(f, q).1 < h
    ensures Scale(f, q).1 == slope * Scale(f, q).0 && (Scale(f, q).0 > 0.0 <==> f > 0.0)
    ensures RadiusFraction(Scale(f, q).0, Scale(f, q).1, w, h) == f
  {
    ScaledInside(f, q, w, h);
    ScaledOnRay(f, q, slope);
    ScaledEdgeFraction(f, q, w, h);
  }

  /** Scaling keeps a point on its ray through the origin. */
  lemma ScaledOnRay(f: real, q: (real, real), slope: real)
    requires f >= 0.0 && q.0 > 0.0 && q.1 == slope * q.0
    ensures Scale(f, q).1 == slope * Scale(f, q).0 && (Scale(f, q).0 > 0.0 <==> f > 0.0)
  {
    var p := Scale(f, q);
    assert p.1 == f * (slope * q.0) == slope * (f * q.0);
    if f > 0.0 {
      Numerics.MulPositive(f, q.0);
    }
  }

  /** RadiusFraction is a ratio of radii along one ray: for f >= 0 and a point q on the
      right or the top edge of the rectangle, the point f q has fraction f. */
  lemma ScaledEdgeFraction(f: real, q: (real, real), w: real, h: real)
    requires f >= 0.0 && w > 0.0 && h > 0.0
    requires (q.0 == w && 0.0 <= q.1 <= h) || (q.1 == h && 0.0 <= q.0 <= w)
    ensures RadiusFraction(Scale(f, q).0, Scale(f, q).1, w, h) == f
  {
    var p := Scale(f, q);
    if q.0 == w {
      DivideOut(f, w, p.0);
      Numerics.ScaleLeft(f, q.1 / h, 1.0);
      assert p.1 / h == f * (q.1 / h);
    } else {
      DivideOut(f, h, p.1);
      Numerics.ScaleLeft(f, q.0 / w, 1.0);
      assert p.0 / w == f * (q.0 / w);
    }
  }

  lemma DivideOut(f: real, w: real, v: real)
    requires w > 0.0 && v == f * w
    ensures v / w == f
  {
  }

  /** A fraction less than one of a point of the w-by-h rectangle lies strictly inside. */
  lemma ScaledInside(f: real, q: (real, real), w: real, h: real)
    requires 0.0 <= f < 1.0 && 0.0 <= q.0 <= w && 0.0 <= q.1 <= h && w > 0.0 && h > 0.0
    ensures 0.0 <= Scale(f, q).0 < w && 0.0 <= Scale(f, q).1 < h
  {
    var p := Scale(f, q);
    Numerics.MulNonNegative(f, q.0);
    Numerics.MulNonNegative(f, q.1);
    if p.0 >= w {
      assert (f - 1.0) * q.0 == p.0 - q.0;
      Numerics.NegativeFactor(f - 1.0, q.0);
    }
    if p.1 >= h {
      assert (f - 1.0) * q.1 == p.1 - q.1;
      Numerics.NegativeFactor(f - 1.0, q.1);
    }
  }

  /** The point of the input the inverse pass samples for output pixel (x, y): on the
      ray at the row's inverse angle, at the column's fraction of the way from the origin
      to the edge of the input. */
  function InversePoint(e: Numerics.Env, sizeIn: Size, sizeOut: Size, x: nat, y: nat): (p: (real, real))
    requires e.pi > 0.0 && Numerics.AngleAxioms(e.pi, e.atan2) && Numerics.TanAxioms(e.pi, e.tan, e.atan2)
    requires Numerics.SqrtAxioms(e.sqrt)
    requires sizeIn.width > 0 && sizeIn.height > 0 && x < sizeOut.width && y < sizeOut.height
    ensures 0.0 <= p.0 < sizeIn.width as real && 0.0 <= p.1 < sizeIn.height as real
    ensures RadiusFraction(p.0, p.1, sizeIn.width as real, sizeIn.height as real) == ColumnFraction(x, sizeOut.width)
  {
    var theta := InverseAngle(e, sizeIn, sizeOut, y);
    TanNonNegative(e, theta);
    ScaledExit(ColumnFraction(x, sizeOut.width), e.tan(theta), sizeIn.width as real, sizeIn.height as real)
  }

  lemma TanNonNegative(e: Numerics.Env, theta: real)
    requires e.pi > 0.0 && Numerics.TanAxioms(e.pi, e.tan, e.atan2) && 0.0 <= theta < e.pi / 2.0
    ensures e.tan(theta) >= 0.0
  {
    if theta > 0.0 {
      assert e.tan(0.0) < e.tan(theta);
    }
  }

  lemma TanInjective(e: Numerics.Env, s: real, t: real)
    requires e.pi > 0.0 && Numerics.TanAxioms(e.pi, e.tan, e.atan2)
    requires 0.0 <= s < e.pi / 2.0 && 0.0 <= t < e.pi / 2.0 && e.tan(s) == e.tan(t)
    ensures s == t
  {
  }

  /** The inverse point lies strictly inside the input, has the column's fraction as its
      radius fraction, and (off the column x = 0, where it is the origin) is on the ray
      of the row's inverse angle. */
  lemma InversePointOnRay(e: Numerics.Env, sizeIn: Size, sizeOut: Size, x: nat, y: nat)
    requires e.pi > 0.0 && Numerics.AngleAxioms(e.pi, e.atan2) && Numerics.TanAxioms(e.pi, e.tan, e.atan2)
    requires Numerics.SqrtAxioms(e.sqrt)
    requires sizeIn.width > 0 && sizeIn.height > 0 && x < sizeOut.width && y < sizeOut.height
    ensures var p := InversePoint(e, sizeIn, sizeOut, x, y);
      && 0.0 <= p.0 < sizeIn.width as real && 0.0 <= p.1 < sizeIn.height as real
      && RadiusFraction(p.0, p.1, sizeIn.width as real, sizeIn.height as real) == ColumnFraction(x, sizeOut.width)
      && (x == 0 ==> p == (0.0, 0.0))
      && (x > 0 ==> e.atan2(p.1, p.0) == InverseAngle(e, sizeIn, sizeOut, y))
  {
    var theta := InverseAngle(e, sizeIn, sizeOut, y);
    var p := InversePoint(e, sizeIn, sizeOut, x, y);
    TanNonNegative(e, theta);
    if x > 0 {
      AngleOfSlope(e, theta, p.0, p.1);
    }
  }

  /** A point of slope tan(theta), theta in [0, pi/2), is at angle theta. */
  lemma AngleOfSlope(e: Numerics.Env, theta: real, px: real, py: real)
    requires e.pi > 0.0 && Numerics.AngleAxioms(e.pi, e.atan2) && Numerics.TanAxioms(e.pi, e.tan, e.atan2)
    requires 0.0 <= theta < e.pi / 2.0 && px > 0.0 && py == e.tan(theta) * px
    ensures e.atan2(py, px) == theta
  {
    TanNonNegative(e, theta);
    Numerics.MulNonNegative(e.tan(theta), px);
    if py == 0.0 {
      FlatAngle(e, theta, px, py);
    } else {
      RisingAngle(e, theta, px, py);
    }
  }

  lemma FlatAngle(e: Numerics.Env, theta: real, px: real, py: real)
    requires e.pi > 0.0 && Numerics.AngleAxioms(e.pi, e.atan2) && Numerics.TanAxioms(e.pi, e.tan, e.atan2)
    requires 0.0 <= theta < e.pi / 2.0 && px > 0.0 && py == e.tan(theta) * px && py == 0.0
    ensures e.atan2(py, px) == theta
  {
    Numerics.ZeroProduct(e.tan(theta), px);
    TanInjective(e, 0.0, theta);
  }

  lemma RisingAngle(e: Numerics.Env, theta: real, px: real, py: real)
    requires e.pi > 0.0 && Numerics.AngleAxioms(e.pi, e.atan2) && Numerics.TanAxioms(e.pi, e.tan, e.atan2)
    requires 0.0 <= theta < e.pi / 2.0 && px > 0.0 && py == e.tan(theta) * px && py > 0.0
    ensures e.atan2(py, px) == theta
  {
    var a := e.atan2(py, px);
    assert 0.0 < a < e.pi / 2.0;
    SlopeQuotient(e.tan(theta), px, py);
    assert e.tan(a) == e.tan(theta);
    TanInjective(e, a, theta);
  }

  lemma SlopeQuotient(t: real, px: real, py: real)
    requires px > 0.0 && py == t * px
    ensures py / px == t
  {
  }

  /** Point-level round trip: the forward map (from an image of the inverse's output size
      to one of the inverse's input size) takes the inverse point of (x, y) back to
      (x, y) exactly, except on the column x = 0, which the inverse pass sends to the
      origin whatever the row. */
  lemma InverseThenForward(e: Numerics.Env, sizeIn: Size, sizeOut: Size, x: nat, y: nat)
    requires e.pi > 0.0 && Numerics.AngleAxioms(e.pi, e.atan2) && Numerics.TanAxioms(e.pi, e.tan, e.atan2)
    requires Numerics.SqrtAxioms(e.sqrt)
    requires sizeIn.width > 0 && sizeIn.height > 0 && x < sizeOut.width && y < sizeOut.height
    ensures var p := InversePoint(e, sizeIn, sizeOut, x, y);
      (ForwardPoint(e, DiagonalCurve(e, sizeIn), sizeOut, sizeIn, p.0, p.1) == (x as real, y as real) <==>
       x > 0 || y == 0)
  {
    var p := InversePoint(e, sizeIn, sizeOut, x, y);
    var c := DiagonalCurve(e, sizeIn);
    var theta := InverseAngle(e, sizeIn, sizeOut, y);
    InversePointOnRay(e, sizeIn, sizeOut, x, y);
    RowAngleBounds(e.pi, y, sizeOut.height);
    var r := ForwardPoint(e, c, sizeOut, sizeIn, p.0, p.1);
    assert r.0 == x as real;
    if x > 0 {
      assert Eval(c, e.atan2(p.1, p.0)) == RowAngle(e.pi, y as real, sizeOut.height as real);
    } else {
      assert r.1 == AngleToHeight(Eval(c, 0.0), e.pi, sizeOut.height as real) == 0.0;
    }
  }

  /** The source pixel of output pixel (x, y) in the inverse pass. */
  function InverseTarget(e: Numerics.Env, sizeIn: Size, sizeOut: Size, x: nat, y: nat): (t: (int, int))
    requires e.pi > 0.0 && Numerics.AngleAxioms(e.pi, e.atan2) && Numerics.TanAxioms(e.pi, e.tan, e.atan2)
    requires Numerics.SqrtAxioms(e.sqrt)
    requires sizeIn.width > 0 && sizeIn.height > 0 && x < sizeOut.width && y < sizeOut.height
    ensures 0 <= t.0 < sizeIn.width && 0 <= t.1 < sizeIn.height
  {
    var p := InversePoint(e, sizeIn, sizeOut, x, y);
    (SourceIndex(e, p.0, sizeIn.width), SourceIndex(e, p.1, sizeIn.height))
  }

  /** The inverse source pixel lies within one pixel of the inverse point. */
  lemma InverseTargetNear(e: Numerics.Env, sizeIn: Size, sizeOut: Size, x: nat, y: nat)
    requires e.pi > 0.0 && Numerics.AngleAxioms(e.pi, e.atan2) && Numerics.TanAxioms(e.pi, e.tan, e.atan2)
    requires Numerics.SqrtAxioms(e.sqrt) && Numerics.RoundAxioms(e.round)
    requires sizeIn.width > 0 && sizeIn.height > 0 && x < sizeOut.width && y < sizeOut.height
    ensures -1.0 <= InverseTarget(e, sizeIn, sizeOut, x, y).0 as real - InversePoint(e, sizeIn, sizeOut, x, y).0 <= 1.0
    ensures -1.0 <= InverseTarget(e, sizeIn, sizeOut, x, y).1 as real - InversePoint(e, sizeIn, sizeOut, x, y).1 <= 1.0
  {
    var p := InversePoint(e, sizeIn, sizeOut, x, y);
    SourceIndexNear(e, p.0, sizeIn.width);
    SourceIndexNear(e, p.1, sizeIn.height);
  }

  /** The branch of the inverse pass: an angle of [0, pi/2) is below the input's
      diagonal exactly when its slope passes below the top right corner, and at or
      above the diagonal its tangent is positive. */
  lemma ExitByAngle(e: Numerics.Env, theta: real, size: Size)
    requires e.pi > 0.0 && Numerics.AngleAxioms(e.pi, e.atan2) && Numerics.TanAxioms(e.pi, e.tan, e.atan2)
    requires 0.0 <= theta < e.pi / 2.0 && size.width > 0 && size.height > 0
    ensures theta < e.atan2(size.height as real, size.width as real) <==>
      e.tan(theta) * (size.width as real) < size.height as real
    ensures e.atan2(size.height as real, size.width as real) <= theta ==> e.tan(theta) > 0.0
  {
    var w, h := size.width as real, size.height as real;
    var d := e.atan2(h, w);
    assert 0.0 < d < e.pi / 2.0;
    assert e.tan(d) == h / w;
    CrossMultiply(e.tan(theta), 1.0, h, w);
    if theta < d {
      assert e.tan(theta) < e.tan(d);
    } else if d < theta {
      assert e.tan(d) < e.tan(theta);
    }
    if d <= theta {
      Numerics.MulPositive(h, 1.0 / w);
    }
  }

  /** The inverse curve computed once per pass yields InverseAngle on every row. */
  lemma InverseAngleByCurve(e: Numerics.Env, curve: Curve, sizeIn: Size, sizeOut: Size, y: nat, v: real)
    requires e.pi > 0.0 && Numerics.AngleAxioms(e.pi, e.atan2) && Numerics.SqrtAxioms(e.sqrt)
    requires sizeIn.width > 0 && sizeIn.height > 0 && y < sizeOut.height
    requires Transfer(e.pi, e.atan2(sizeIn.height as real, sizeIn.width as real), false) == Success(curve)
    requires v == y as real * e.pi / 2.0 / sizeOut.height as real
    ensures Apply(e, curve, v).Success?
    ensures Apply(e, curve, v).value == InverseAngle(e, sizeIn, sizeOut, y)
  {
    assert v == RowAngle(e.pi, y as real, sizeOut.height as real);
    InverseAngleUnfolded(e, sizeIn, sizeOut, y);
  }

  /** InverseAngle in terms of the curve and the row angle it is computed from. */
  lemma InverseAngleUnfolded(e: Numerics.Env, sizeIn: Size, sizeOut: Size, y: nat)
    requires e.pi > 0.0 && Numerics.AngleAxioms(e.pi, e.atan2) && Numerics.SqrtAxioms(e.sqrt)
    requires sizeIn.width > 0 && sizeIn.height > 0 && y < sizeOut.height
    ensures Transfer(e.pi, e.atan2(sizeIn.height as real, sizeIn.width as real), false).Success?
    ensures Apply(e, Transfer(e.pi, e.atan2(sizeIn.height as real, sizeIn.width as real), false).value,
                  RowAngle(e.pi, y as real, sizeOut.height as real)).Success?
    ensures InverseAngle(e, sizeIn, sizeOut, y) ==
      Apply(e, Transfer(e.pi, e.atan2(sizeIn.height as real, sizeIn.width as real), false).value,
            RowAngle(e.pi, y as real, sizeOut.height as real)).value
  {
    var d := e.atan2(sizeIn.height as real, sizeIn.width as real);
    var curve := Transfer(e.pi, d, false).value;
    RowAngleBounds(e.pi, y, sizeOut.height);
    InverseRange(e, curve, DiagonalCurve(e, sizeIn), d, RowAngle(e.pi, y as real, sizeOut.height as real));
  }

  /** InverseTarget unfolded, in the terms the inverse pass computes it: the column's
      fraction f of the exit point (ex, ey) at the inverse angle, rounded and clamped. */
  lemma InverseTargetOf(e: Numerics.Env, sizeIn: Size, sizeOut: Size, x: nat, y: nat, f: real, ex: real, ey: real)
    requires e.pi > 0.0 && Numerics.AngleAxioms(e.pi, e.atan2) && Numerics.TanAxioms(e.pi, e.tan, e.atan2)
    requires Numerics.SqrtAxioms(e.sqrt)
    requires sizeIn.width > 0 && sizeIn.height > 0 && x < sizeOut.width && y < sizeOut.height
    requires f == x as real * 1.0 / sizeOut.width as real
    requires e.tan(InverseAngle(e, sizeIn, sizeOut, y)) >= 0.0
    requires (ex, ey) == ExitPoint(e.tan(InverseAngle(e, sizeIn, sizeOut, y)), sizeIn.width as real, sizeIn.height as real)
    ensures InverseTarget(e, sizeIn, sizeOut, x, y)
      == (SourceIndex(e, f * ex, sizeIn.width), SourceIndex(e, f * ey, sizeIn.height))
  {
    assert f == ColumnFraction(x, sizeOut.width);
    InversePointUnfolded(e, sizeIn, sizeOut, x, y);
    ScaleOf(f, (ex, ey), ex, ey);
    var p := InversePoint(e, sizeIn, sizeOut, x, y);
    assert p.0 == f * ex && p.1 == f * ey;
  }

  lemma InversePointUnfolded(e: Numerics.Env, sizeIn: Size, sizeOut: Size, x: nat, y: nat)
    requires e.pi > 0.0 && Numerics.AngleAxioms(e.pi, e.atan2) && Numerics.TanAxioms(e.pi, e.tan, e.atan2)
    requires Numerics.SqrtAxioms(e.sqrt)
    requires sizeIn.width > 0 && sizeIn.height > 0 && x < sizeOut.width && y < sizeOut.height
    ensures var theta := InverseAngle(e, sizeIn, sizeOut, y);
      e.tan(theta) >= 0.0 &&
      InversePoint(e, sizeIn, sizeOut, x, y)
        == Scale(ColumnFraction(x, sizeOut.width), ExitPoint(e.tan(theta), sizeIn.width as real, sizeIn.height as real))
  {
    TanNonNegative(e, InverseAngle(e, sizeIn, sizeOut, y));
  }

  /** The components of Scale(f, q) for a tuple q given by its components. */
  lemma ScaleOf(f: real, q: (real, real), ex: real, ey: real)
    requires q == (ex, ey)
    ensures Scale(f, q).0 == f * ex && Scale(f, q).1 == f * ey
  {
  }

  /** The inverse pass's ray following: follow the ray at the given angle to the right edge of the input
      when the angle is below the input's diagonal, to its top edge otherwise. This finds
      ExitPoint of the angle's slope. */
  method FollowRay(e: Numerics.Env, angle: real, diagonal: real, size: Size) returns (inX: real, inY: real)
    requires e.pi > 0.0 && Numerics.AngleAxioms(e.pi, e.atan2) && Numerics.TanAxioms(e.pi, e.tan, e.atan2)
    requires 0.0 <= angle < e.pi / 2.0 && size.width > 0 && size.height > 0
    requires diagonal == e.atan2(size.height as real, size.width as real)
    ensures e.tan(angle) >= 0.0
    ensures (inX, inY) == ExitPoint(e.tan(angle), size.width as real, size.height as real)
  {
    var w, h := size.width as real, size.height as real;
    ExitByAngle(e, angle, size);
    TanNonNegative(e, angle);
    if angle < diagonal {
      inX := w * 1.0;
      inY := inX * e.tan(angle);
      ExitPointBelow(e.tan(angle), w, h);
      assert ExitPoint(e.tan(angle), w, h).0 == inX;
      assert ExitPoint(e.tan(angle), w, h).1 == inY;
    } else {
      inY := h * 1.0;
      inX := inY / e.tan(angle);
      ExitPointAbove(e.tan(angle), w, h);
    }
  }

  /** The body of the inverse pass's pixel loop: the row's angle through the inverse
      curve, the column's fraction of the width, the edge point on the ray at that angle,
      scaled by the fraction, then round and clamp. */
  method InverseSample(e: Numerics.Env, curve: Curve, inDiagonal: real, sizeIn: Size, sizeOut: Size, x: nat, y: nat)
    returns (inXInt: int, inYInt: int)
    requires e.pi > 0.0 && Numerics.AngleAxioms(e.pi, e.atan2) && Numerics.TanAxioms(e.pi, e.tan, e.atan2)
    requires Numerics.SqrtAxioms(e.sqrt)
    requires sizeIn.width > 0 && sizeIn.height > 0 && x < sizeOut.width && y < sizeOut.height
    requires inDiagonal == e.atan2(sizeIn.height as real, sizeIn.width as real)
    requires Transfer(e.pi, inDiagonal, false) == Success(curve)
    ensures (inXInt, inYInt) == InverseTarget(e, sizeIn, sizeOut, x, y)
  {
    var v := y as real * e.pi / 2.0 / sizeOut.height as real;
    InverseAngleByCurve(e, curve, sizeIn, sizeOut, y, v);
    var inAngle := Apply(e, curve, v).value;
    var radRatio := x as real * 1.0 / sizeOut.width as real;
    var inX, inY := FollowRay(e, inAngle, inDiagonal, sizeIn);
    InverseTargetOf(e, sizeIn, sizeOut, x, y, radRatio, inX, inY);
    inX, inY := radRatio * inX, radRatio * inY;
    inXInt := RoundAndClamp(e, inX, sizeIn.width);
    inYInt := RoundAndClamp(e, inY, sizeIn.height);
  }
}
