/** The floating-point library the program calls: the constant math.pi and the
    functions math.atan2, math.sqrt, math.tan and round. They are taken as abstract
    functions over the reals. The predicates AngleAxioms, TanAxioms, SqrtAxioms and
    RoundAxioms collect the facts the model relies on; each of them holds of the exact
    mathematical function, so no rounding error is modelled. */
module Numerics {

  datatype Env = Env(
    pi: real,
    atan2: (real, real) -> real,
    sqrt: real -> real,
    tan: real -> real,
    round: real -> int)

  /** atan2(y, x) on the closed first quadrant. */
  ghost predicate AngleAxioms(pi: real, atan2: (real, real) -> real) {
    && atan2(0.0, 0.0) == 0.0
    && (forall x: real :: x > 0.0 ==> atan2(0.0, x) == 0.0)
    && (forall y: real :: y > 0.0 ==> atan2(y, 0.0) == pi / 2.0)
    && (forall y: real, x: real :: x > 0.0 && y > 0.0 ==> 0.0 < atan2(y, x) < pi / 2.0)
    && (forall v: real :: v > 0.0 ==> atan2(v, v) == pi / 4.0)
    // in the quadrant, angles are ordered as slopes are
    && (forall y1: real, x1: real, y2: real, x2: real ::
          x1 > 0.0 && y1 >= 0.0 && x2 > 0.0 && y2 >= 0.0 ==>
            (atan2(y1, x1) < atan2(y2, x2) <==> y1 * x2 < y2 * x1))
  }

  /** tan on [0, pi/2), and as the inverse of atan2. */
  ghost predicate TanAxioms(pi: real, tan: real -> real, atan2: (real, real) -> real) {
    && tan(0.0) == 0.0
    && (forall s: real, t: real :: 0.0 <= s < t < pi / 2.0 ==> tan(s) < tan(t))
    && (forall y: real, x: real :: x > 0.0 && y > 0.0 ==> tan(atan2(y, x)) == y / x)
  }

  /** The non-negative square root. */
  ghost predicate SqrtAxioms(sqrt: real -> real) {
    forall z: real :: z >= 0.0 ==> sqrt(z) >= 0.0 && sqrt(z) * sqrt(z) == z
  }

  /** Rounding to a nearest integer (either tie-breaking rule). */
  ghost predicate RoundAxioms(round: real -> int) {
    forall r: real :: -0.5 <= round(r) as real - r <= 0.5
  }

  /** Two non-negative numbers with the same square are equal. */
  lemma NonNegativeSquareRoot(s: real, a: real)
    requires s >= 0.0 && a >= 0.0 && s * s == a * a
    ensures s == a
  {
    assert (s - a) * (s + a) == 0.0;
    if s + a != 0.0 {
      assert s - a == 0.0;
    }
  }

  /** sqrt returns the non-negative root. */
  lemma SqrtOfSquare(sqrt: real -> real, z: real, a: real)
    requires SqrtAxioms(sqrt)
    requires a >= 0.0 && a * a == z
    ensures sqrt(z) == a
  {
    NonNegativeSquareRoot(sqrt(z), a);
  }

  /** The quotient of two roots is the root of the quotient. */
  lemma SqrtQuotient(sqrt: real -> real, u: real, v: real, q: real)
    requires SqrtAxioms(sqrt)
    requires v > 0.0 && q >= 0.0 && u == q * q * v
    ensures sqrt(v) > 0.0
    ensures sqrt(u) / sqrt(v) == q
  {
    var sv := sqrt(v);
    assert sv >= 0.0 && sv * sv == v;
    assert sv != 0.0;
    assert (q * sv) * (q * sv) == u;
    SqrtOfSquare(sqrt, u, q * sv);
  }

  // Sign rules for products, kept as separate facts so that each proof states the
  // one it needs.

  lemma MulNonNegative(x: real, y: real)
    requires x >= 0.0 && y >= 0.0
    ensures x * y >= 0.0
  {
  }

  lemma MulPositive(x: real, y: real)
    requires x > 0.0 && y > 0.0
    ensures x * y > 0.0
  {
  }

  lemma NegativeFactor(x: real, y: real)
    requires x < 0.0 && x * y >= 0.0
    ensures y <= 0.0
  {
  }

  lemma PositiveProduct(x: real, y: real)
    requires x * y > 0.0 && x < 0.0
    ensures y < 0.0
  {
  }

  lemma ZeroProduct(x: real, y: real)
    requires x * y == 0.0
    ensures x == 0.0 || y == 0.0
  {
  }

  lemma ScaleLeft(k: real, x: real, y: real)
    requires x <= y
    ensures k >= 0.0 ==> k * x <= k * y
    ensures k <= 0.0 ==> k * x >= k * y
  {
    assert k * y - k * x == k * (y - x);
    if k >= 0.0 {
      MulNonNegative(k, y - x);
    } else {
      MulNonNegative(-k, y - x);
    }
  }
}
