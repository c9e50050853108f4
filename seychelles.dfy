/** The Seychelles converter object: an input image, an output buffer that either pass
    overwrites in place, and the flipped copy of the output that save and show use.
    Images are indexed [x, y] as the image library indexes them, with the input flipped
    so that row 0 is the bottom row of the picture. */
module Images {
  import opened Outcomes
  import Numerics
  import opened AngleTransfer
  import opened Sampling

  class Seychelles<Pixel> {
    var sizeIn: Size
    var imgIn: array2<Pixel>
    var sizeOut: Size
    var imgOut: array2<Pixel>
    /** The printable image: null until a pass has run. */
    var imgPrint: array2?<Pixel>

    /** The sizes describe the buffers, the buffers are three different images, and the
        input has at least one pixel. */
    ghost predicate Valid()
      reads this
    {
      && sizeIn.width > 0 && sizeIn.height > 0
      && imgIn.Length0 == sizeIn.width && imgIn.Length1 == sizeIn.height
      && imgOut.Length0 == sizeOut.width && imgOut.Length1 == sizeOut.height
      && imgIn != imgOut
      && (imgPrint != null ==> imgPrint != imgIn && imgPrint != imgOut)
    }

    /** Loads `raw`, a non-empty image given as columns of equal height, flipping it top
        to bottom; the output size is `sizeOutArg`, or the input size when none is given.
        The output buffer starts filled with `blank`, as a new image does. */
    constructor (raw: seq<seq<Pixel>>, sizeOutArg: Option<Size>, blank: Pixel)
      requires |raw| > 0 && |raw[0]| > 0
      requires forall x :: 0 <= x < |raw| ==> |raw[x]| == |raw[0]|
      ensures Valid()
      ensures sizeIn == Size(|raw|, |raw[0]|)
      ensures sizeOut == if sizeOutArg.Some? then sizeOutArg.value else sizeIn
      ensures forall x, y :: 0 <= x < sizeIn.width && 0 <= y < sizeIn.height ==>
        imgIn[x, y] == raw[x][sizeIn.height - 1 - y]
      ensures forall x, y :: 0 <= x < sizeOut.width && 0 <= y < sizeOut.height ==> imgOut[x, y] == blank
      ensures imgPrint == null
      ensures fresh(imgIn) && fresh(imgOut)
    {
      var w, h := |raw|, |raw[0]|;
      sizeIn := Size(w, h);
      imgIn := new Pixel[w, h]((x, y) requires 0 <= x < w && 0 <= y < h && |raw[x]| == h => raw[x][h - 1 - y]);
      var size := if sizeOutArg.Some? then sizeOutArg.value else Size(w, h);
      sizeOut := size;
      imgOut := new Pixel[size.width, size.height]((x, y) => blank);
      imgPrint := null;
    }

    /** Cell (i, j) of `dst` holds the pixel of `src` at `t`. */
    ghost predicate CopiedFrom(dst: array2<Pixel>, i: nat, j: nat, src: array2<Pixel>, t: (int, int))
      reads dst, src
    {
      && i < dst.Length0 && j < dst.Length1
      && 0 <= t.0 < src.Length0 && 0 <= t.1 < src.Length1
      && dst[i, j] == src[t.0, t.1]
    }

    /** `flipped` is `image` flipped top to bottom. */
    ghost predicate FlippedOf(flipped: array2<Pixel>, image: array2<Pixel>)
      reads flipped, image
    {
      && flipped.Length0 == image.Length0 && flipped.Length1 == image.Length1
      && forall i, j :: 0 <= i < image.Length0 && 0 <= j < image.Length1 ==>
           flipped[i, j] == image[i, image.Length1 - 1 - j]
    }

    /** The forward pass. An output size with a zero dimension puts the diagonal at 0 or
        pi/2, where the parabola fit divides by zero before any pixel is written.
        Otherwise every output cell is overwritten with the input pixel at its forward
        target, and the printable image becomes a fresh flipped copy of the output. */
    method Forward(e: Numerics.Env) returns (r: Outcome)
      requires Valid() && e.pi > 0.0 && Numerics.AngleAxioms(e.pi, e.atan2) && Numerics.SqrtAxioms(e.sqrt)
      modifies imgOut, this`imgPrint
      ensures Valid()
      ensures r.Fail? <==> sizeOut.width == 0 || sizeOut.height == 0
      ensures r.Fail? ==> r.error == ZeroDivisionError && unchanged(imgOut) && imgPrint == old(imgPrint)
      ensures r.Pass? ==> forall i, j :: 0 <= i < sizeOut.width && 0 <= j < sizeOut.height ==>
        CopiedFrom(imgOut, i, j, imgIn, ForwardTarget(e, DiagonalCurve(e, sizeOut), sizeIn, sizeOut, i, j))
      ensures r.Pass? ==> imgPrint != null && fresh(imgPrint) && FlippedOf(imgPrint, imgOut)
      ensures unchanged(imgIn)
    {
      var outDiagonal := e.atan2(sizeOut.height as real, sizeOut.width as real);
      var transfer := Transfer(e.pi, outDiagonal, true);
      if transfer.Failure? {
        return Fail(transfer.error);
      }
      var c := transfer.value.c;
      assert c == DiagonalCurve(e, sizeOut);
      for x := 0 to sizeOut.width
        modifies imgOut
        invariant forall i, j :: 0 <= i < x && 0 <= j < sizeOut.height ==>
          CopiedFrom(imgOut, i, j, imgIn, ForwardTarget(e, c, sizeIn, sizeOut, i, j))
      {
        ForwardColumn(e, c, outDiagonal, x);
      }
      Print();
      return Pass;
    }

    /** One iteration of the forward pass's column loop: every cell of column x is
        overwritten with the input pixel at its forward target. */
    method ForwardColumn(e: Numerics.Env, c: Coefficients, outDiagonal: real, x: nat)
      requires Valid() && e.pi > 0.0 && Numerics.AngleAxioms(e.pi, e.atan2) && Numerics.SqrtAxioms(e.sqrt)
      requires x < sizeOut.width
      requires outDiagonal == e.atan2(sizeOut.height as real, sizeOut.width as real)
      modifies imgOut
      ensures forall j :: 0 <= j < sizeOut.height ==>
        CopiedFrom(imgOut, x, j, imgIn, ForwardTarget(e, c, sizeIn, sizeOut, x, j))
      ensures forall i, j :: 0 <= i < sizeOut.width && 0 <= j < sizeOut.height && i != x ==>
        imgOut[i, j] == old(imgOut[i, j])
    {
      for y := 0 to sizeOut.height
        invariant forall j :: 0 <= j < y ==>
          CopiedFrom(imgOut, x, j, imgIn, ForwardTarget(e, c, sizeIn, sizeOut, x, j))
        invariant forall i, j :: 0 <= i < sizeOut.width && 0 <= j < sizeOut.height && i != x ==>
          imgOut[i, j] == old(imgOut[i, j])
      {
        var inXInt, inYInt := ForwardSample(e, c, outDiagonal, sizeIn, sizeOut, x, y);
        imgOut[x, y] := imgIn[inXInt, inYInt];
      }
    }

    /** The inverse pass. It cannot fail: the input has a proper diagonal, and every row
        angle lies where the inverse curve is defined. Every output cell is overwritten
        with the input pixel at its inverse target, and the printable image becomes a
        fresh flipped copy of the output. */
    method Inverse(e: Numerics.Env)
      requires Valid() && e.pi > 0.0 && Numerics.AngleAxioms(e.pi, e.atan2)
      requires Numerics.TanAxioms(e.pi, e.tan, e.atan2) && Numerics.SqrtAxioms(e.sqrt)
      modifies imgOut, this`imgPrint
      ensures Valid()
      ensures forall i, j :: 0 <= i < sizeOut.width && 0 <= j < sizeOut.height ==>
        CopiedFrom(imgOut, i, j, imgIn, InverseTarget(e, sizeIn, sizeOut, i, j))
      ensures imgPrint != null && fresh(imgPrint) && FlippedOf(imgPrint, imgOut)
      ensures unchanged(imgIn)
    {
      var inDiagonal := e.atan2(sizeIn.height as real, sizeIn.width as real);
      var curve := Transfer(e.pi, inDiagonal, false).value;
      for x := 0 to sizeOut.width
        modifies imgOut
        invariant forall i, j :: 0 <= i < x && 0 <= j < sizeOut.height ==>
          CopiedFrom(imgOut, i, j, imgIn, InverseTarget(e, sizeIn, sizeOut, i, j))
      {
        InverseColumn(e, curve, inDiagonal, x);
      }
      Print();
    }

    /** One iteration of the inverse pass's column loop: every cell of column x is
        overwritten with the input pixel at its inverse target. */
    method InverseColumn(e: Numerics.Env, curve: Curve, inDiagonal: real, x: nat)
      requires Valid() && e.pi > 0.0 && Numerics.AngleAxioms(e.pi, e.atan2)
      requires Numerics.TanAxioms(e.pi, e.tan, e.atan2) && Numerics.SqrtAxioms(e.sqrt)
      requires x < sizeOut.width
      requires inDiagonal == e.atan2(sizeIn.height as real, sizeIn.width as real)
      requires Transfer(e.pi, inDiagonal, false) == Success(curve)
      modifies imgOut
      ensures forall j :: 0 <= j < sizeOut.height ==>
        CopiedFrom(imgOut, x, j, imgIn, InverseTarget(e, sizeIn, sizeOut, x, j))
      ensures forall i, j :: 0 <= i < sizeOut.width && 0 <= j < sizeOut.height && i != x ==>
        imgOut[i, j] == old(imgOut[i, j])
    {
      for y := 0 to sizeOut.height
        invariant forall j :: 0 <= j < y ==>
          CopiedFrom(imgOut, x, j, imgIn, InverseTarget(e, sizeIn, sizeOut, x, j))
        invariant forall i, j :: 0 <= i < sizeOut.width && 0 <= j < sizeOut.height && i != x ==>
          imgOut[i, j] == old(imgOut[i, j])
      {
        var inXInt, inYInt := InverseSample(e, curve, inDiagonal, sizeIn, sizeOut, x, y);
        imgOut[x, y] := imgIn[inXInt, inYInt];
      }
    }

    /** The last step of both passes: the printable image is the output flipped top to
        bottom, so that the picture's origin is its bottom-left corner. */
    method Print()
      requires Valid()
      modifies this`imgPrint
      ensures Valid()
      ensures imgPrint != null && fresh(imgPrint) && FlippedOf(imgPrint, imgOut)
    {
      var out := imgOut;
      var w, h := out.Length0, out.Length1;
      imgPrint := new Pixel[w, h]((i, j) reads out requires 0 <= i < w && 0 <= j < h => out[i, h - 1 - j]);
    }

    /** The guard save and show share: the image they would write or display, or the
        exception raised when no pass has run yet. */
    method Printed() returns (r: Result<array2<Pixel>>)
      requires Valid()
      ensures r.Failure? <==> imgPrint == null
      ensures r.Failure? ==> r.error == NoProcessingDoneYet
      ensures r.Success? ==> r.value == imgPrint
    {
      if imgPrint == null {
        return Failure(NoProcessingDoneYet);
      }
      return Success(imgPrint);
    }
  }
}
