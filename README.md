# Seychelles, modelled in Dafny

`seychelles.py` turns a flat image (a flag, typically) into a "Seychelles" image.
The columns of the input become radii and its rows become angles. Every output pixel
(x, y) is read as a point in polar coordinates inside the output rectangle:

- Its distance from the bottom-left corner, as a fraction of the way to the edge of
  the rectangle along the pixel's own ray, picks the input column.
- Its angle, warped by a transfer curve, picks the input row.

The inverse pass undoes this mapping point by point, except on column 0, which it
sends to the origin whatever the row (`Sampling.InverseThenForward`). The transfer curve is the
parabola `A x^2 + B x` through (0, 0), (diagonal, pi/4) and (pi/2, pi/2), where
`diagonal` is the angle of the image's diagonal. The inverse pass uses the parabola's
inverse, found with the quadratic formula. It uses the identity for square images.

The model has five modules:

- `Outcomes` (`outcomes.dfy`): the exceptions the program can raise, and result types.
- `Numerics` (`numerics.dfy`): `math.pi`, `math.atan2`, `math.sqrt`, `math.tan` and
  `round` as abstract functions over the reals. `AngleAxioms`, `TanAxioms`,
  `SqrtAxioms` and `RoundAxioms` list the facts the proofs use; each one holds of the
  exact mathematical function.
- `AngleTransfer` (`angle_transfer.dfy`): `_angle_transfer`. It covers the coefficient
  formulas, the three curves it can return, and the algebra of the curve and its
  inverse.
- `Sampling` (`sampling.dfy`): the body of each pass's pixel loop. Each pass has a
  closed-form reference definition of the source pixel (`ForwardTarget`,
  `InverseTarget`). A method computes that pixel step by step as the program does
  (`ForwardSample`, `InverseSample`) and is proved equal to the reference.
- `Images` (`seychelles.dfy`): the `Seychelles` object.
  - It is a class with the input image, the output buffer and the printable image as
    `array2` fields.
  - The two passes fill the output buffer in place with nested loops.
  - The printable image stays null until a pass has run.

Arithmetic is exact real arithmetic throughout. Images are indexed `[x, y]` as the
image library indexes them.

## Model

| member | source | states |
|---|---|---|
| `AngleTransfer.Fit` | seychelles.py:36-44 | The coefficient formulas raise ZeroDivisionError exactly when the diagonal is 0 or pi/2. Otherwise the parabola passes through (0, 0), (diagonal, pi/4) and (pi/2, pi/2), and A = 0 exactly for the square diagonal pi/4. |
| `AngleTransfer.InterpolantUnique` | seychelles.py:36-43 | For a diagonal strictly inside (0, pi/2) at most one parabola through the origin meets the three points, so the coefficients are determined by the points. |
| `AngleTransfer.Transfer` | seychelles.py:35-54 | The returned curve: the fitted parabola going forward; the identity going backward exactly when the diagonal is pi/4; otherwise the inverse of the fitted parabola. It raises exactly when the coefficients do, in either direction. |
| `AngleTransfer.Apply` | seychelles.py:47-54 | Calling the returned lambda. The forward curve evaluates the parabola and the identity returns its argument. The inverse succeeds exactly when its discriminant is non-negative, and then returns a solution of the parabola on its rising side. |
| `AngleTransfer.RootSolves` | seychelles.py:54 | The '+' root of the quadratic formula solves A r^2 + B r = x, and the parabola's slope is non-negative at that root. |
| `AngleTransfer.SquareIsIdentity` | seychelles.py:41-52 | For the square diagonal the coefficients are A = 0 and B = 1, so the forward curve is the identity, which is what the inverse's special case returns. |
| `AngleTransfer.DiscriminantNonNegative` | seychelles.py:54 | For any fitted parabola and any angle of [0, pi/2], the discriminant B^2 + 4 A v is non-negative, so math.sqrt never raises in the inverse pass. |
| `AngleTransfer.InverseRoundTrip` | seychelles.py:49-54 | On [0, pi/2] the inverse curve never raises, and the forward parabola maps its result back: forward(inverse(v)) == v. |
| `AngleTransfer.InverseRange` | seychelles.py:49-54 | The inverse curve maps [0, pi/2) into [0, pi/2). |
| `AngleTransfer.InverseOfForward` | seychelles.py:45-54 | inverse(forward(theta)) == theta holds exactly where the parabola's slope at theta is non-negative. |
| `AngleTransfer.CurveShape` | seychelles.py:36-47 | The fitted curve is increasing on [0, pi/2], and stays inside [0, pi/2], exactly when 8 d^2 <= pi^2 and 8 d^2 - 8 pi d + pi^2 <= 0 for the diagonal d (MildAspect). |
| `AngleTransfer.ShapeBySlopes` | seychelles.py:47 | A parabola through the origin and (pi/2, pi/2) is increasing on the quadrant, and stays in it, exactly when 0 <= B <= 2. |
| `AngleTransfer.SlopeBounds` | seychelles.py:42-43 | The fitted B is non-negative exactly when 8 d^2 <= pi^2, and at most 2 exactly when 8 d^2 - 8 pi d + pi^2 <= 0. |
| `AngleTransfer.InverseAtDiagonal` | seychelles.py:49-54 | For every diagonal d of (0, pi/2) the inverse curve succeeds at pi/4 and returns d: the calibration point (d, pi/4) is undone exactly. |
| `AngleTransfer.InverseAtZero` | seychelles.py:49-54 | The inverse curve takes 0 to 0 exactly when 8 d^2 <= pi^2 for the diagonal d; for taller inputs it returns another angle. |
| `AngleTransfer.InverseUndoesForward` | seychelles.py:45-54 | For a diagonal with MildAspect, inverse(forward(theta)) == theta on all of [0, pi/2], the identity case included. |
| `Sampling.Clamp` | seychelles.py:96-99 | For n >= 1 the clamped index lies in [0, n), and it is the index of [0, n) nearest to the rounded coordinate. |
| `Sampling.RoundAndClamp` | seychelles.py:95-104 | Rounding followed by the if/elif bounds check computes SourceIndex, the clamped nearest index. |
| `Sampling.SourceIndexNear` | seychelles.py:94-104 | For a coordinate inside [0, n], the clamped index lies within one pixel of it. |
| `Sampling.RadiusFractionBounds` | seychelles.py:83-86 | The radius fraction of a pixel of the output lies in [0, 1), and it is 0 exactly at the origin. |
| `Sampling.ExitBranches` | seychelles.py:68-81 | Division safety. Away from the origin, the right-edge branch (angle below the diagonal) divides by x > 0 and has radius fraction x / width. The top-edge branch divides by y > 0 and has radius fraction y / height. |
| `Sampling.ForwardRadii` | seychelles.py:70-86 | The radius it divides by is positive (the origin is replaced by the direction (1, 1)), and point_rad / out_rad is the radius fraction of the pixel. |
| `Sampling.ForwardPoint` | seychelles.py:84-92 | The unrounded forward source point: the pixel's radius fraction times the input width, and its transferred angle scaled to the input height. For a pixel of the output, the abscissa lies in [0, input width). |
| `Sampling.ForwardPointBounds` | seychelles.py:88-92 | The forward point's x lies in [0, input width). Its y lies in [0, input height] whenever the diagonal satisfies MildAspect. |
| `Sampling.ForwardTarget` | seychelles.py:88-104 | The forward source pixel is always inside the input (for input dimensions >= 1). |
| `Sampling.ForwardTargetNear` | seychelles.py:88-104 | The forward source pixel lies within one pixel of the forward point: always horizontally, and vertically under MildAspect. |
| `Sampling.ForwardSample` | seychelles.py:67-104 | The loop body of the forward pass computes ForwardTarget of the pixel. |
| `Sampling.RowAngleBounds` | seychelles.py:126 | The rows of the output stand for angles in [0, pi/2), and the forward pass's scaling of an angle to a height undoes it. |
| `Sampling.DiagonalCurve` | seychelles.py:58-59 | The parabola fitted to a rectangle's diagonal passes through the three calibration points. |
| `Sampling.InverseAngle` | seychelles.py:117-126 | The inverse pass's angle for row y lies in [0, pi/2), and the input's forward curve maps it to the row's angle. |
| `Sampling.InverseAngleByCurve` | seychelles.py:117-126 | The inverse curve, computed once per pass, succeeds on every row and yields InverseAngle. |
| `Sampling.ColumnFraction` | seychelles.py:129 | The radius ratio x / width of the inverse pass lies in [0, 1), is 0 exactly on column 0, and scaled back by the width it gives x. |
| `Sampling.ExitPoint` | seychelles.py:131-139 | The point where a ray of non-negative slope leaves the rectangle is on the ray, inside the rectangle, and on its right or top edge. |
| `Sampling.ExitByAngle` | seychelles.py:132-139 | An angle is below the input's diagonal exactly when its ray passes below the top-right corner, and at or above the diagonal its tangent is positive, so line 139 never divides by zero. |
| `Sampling.FollowRay` | seychelles.py:131-139 | Following the ray by either branch lands on ExitPoint of the angle's slope. |
| `Sampling.ScaledExit` | seychelles.py:141 | Scaling the exit point by a fraction f in [0, 1) gives a point strictly inside the input, on the same ray, with radius fraction f. |
| `Sampling.InversePoint` | seychelles.py:126-141 | The unrounded inverse source point: the column's fraction of the exit point on the ray at the row's inverse angle. It lies strictly inside the input, and its radius fraction is the column's fraction. |
| `Sampling.InversePointOnRay` | seychelles.py:126-141 | The inverse point is strictly inside the input and has the column's fraction as its radius fraction. On column 0 it is the origin; elsewhere it lies on the ray at the row's inverse angle. |
| `Sampling.InverseThenForward` | seychelles.py:114-141 | Point-level round trip. The forward map takes the inverse point of (x, y) back to (x, y) exactly when x > 0 or y = 0. |
| `Sampling.InverseTarget` | seychelles.py:126-153 | The inverse source pixel is always inside the input. |
| `Sampling.InverseTargetNear` | seychelles.py:141-153 | The inverse source pixel lies within one pixel of the inverse point in both directions. |
| `Sampling.InverseSample` | seychelles.py:124-153 | The loop body of the inverse pass computes InverseTarget of the pixel. |
| `Images.Seychelles.constructor` | seychelles.py:16-33 | Loads a non-empty image flipped top to bottom. The output size is the given one, or the input size when none is given. The output buffer is blank and there is no printable image yet. |
| `Images.Seychelles.Forward` | seychelles.py:56-111 | Fails with ZeroDivisionError exactly when an output dimension is 0, and then changes nothing. Otherwise every output cell holds the input pixel at its ForwardTarget, and the printable image is a fresh flipped copy of the output. The input is unchanged. |
| `Images.Seychelles.ForwardColumn` | seychelles.py:66-107 | One column of the forward pass: each cell of column x holds the input pixel at its ForwardTarget, and the other columns are unchanged. |
| `Images.Seychelles.Inverse` | seychelles.py:114-160 | Never fails. Every output cell holds the input pixel at its InverseTarget, the printable image is a fresh flipped copy of the output, and the input is unchanged. |
| `Images.Seychelles.InverseColumn` | seychelles.py:124-156 | One column of the inverse pass: each cell of column x holds the input pixel at its InverseTarget, and the other columns are unchanged. |
| `Images.Seychelles.Print` | seychelles.py:110-111 | The printable image becomes a fresh copy of the output flipped top to bottom. |
| `Images.Seychelles.Printed` | seychelles.py:162-170 | The guard of save and show: it raises "No processing done yet" exactly while there is no printable image, and otherwise yields that image. |

In exact arithmetic the parabola is increasing on [0, pi/2], and
inverse(forward(theta)) == theta holds on the whole quadrant, only for diagonals with
MildAspect, roughly 0.29 <= d / (pi/2) <= 0.71 (`CurveShape`, `InverseOfForward`,
`InverseUndoesForward`). For other aspect ratios the forward angle can leave
[0, pi/2], and the clamp keeps the sampled pixel inside the input regardless. For
every diagonal the inverse curve takes pi/4 back to the diagonal (`InverseAtDiagonal`).
It fixes 0 only when 8 d^2 <= pi^2 (`InverseAtZero`). For taller inputs, row 0 of the
inverse pass reads along the ray at the parabola's other zero, -B / A, instead of
along the bottom edge.

## Left out

- Image I/O: opening a file, converting it to RGB, creating the output image, saving
  to a file and displaying. Pixels are an abstract type. The constructor takes the
  decoded input as a sequence of equal-height columns (`seq<seq<Pixel>>`) and builds
  the `array2` buffers itself. The colour of a new image is the `blank` parameter.
- `Images.Seychelles.Printed`: it models only the shared `img_print is None` check of
  `save` and `show`. It returns the image they would write or display; the output
  file name, the extension and the viewer are not modelled.
- Output name and extension handling (`os.path.splitext`, `name_out`, `ext_out`): this
  is file-naming glue.
- The command-line entry point (`argparse` and the `__main__` block): this is command-line plumbing.
- The verbose progress output: this is console I/O.
- Floating point. `atan2`, `sqrt`, `tan` and `round` are abstract functions with exact
  axioms, and `round` may break ties either way. The `1E-9` tolerance of the square
  test is taken as the exact test `diagonal == pi / 4`.
- An input image with a zero dimension: the constructor requires a non-empty image.
  The image library does not load an empty one.
- Negative output sizes: sizes are natural numbers, and the image library rejects
  negative ones.
- An image-level round trip (the inverse pass undoing the forward pass on images):
  nearest-neighbour resampling loses information. Only the point-level
  round trip `Sampling.InverseThenForward` is proved.
- Images.Seychelles.Forward: the postcondition states the final content of every
  output cell. It does not state that each cell is written exactly once.
- Images.Seychelles.Inverse: the postcondition states the final content of every
  output cell. It does not state that each cell is written exactly once.
