/** The compositor proper: allocate a transparent canvas of the aggregate
    size and copy every image into its slot, left to right. */
module Compositor {
  import opened Raster
  import opened Geometry
  import opened Placement

  /** Allocates a `width` by `height` canvas and sets every pixel to
      transparent black, column by column. */
  method NewTransparentCanvas(width: nat, height: nat) returns (canvas: array2<Pixel>)
    ensures fresh(canvas)
    ensures canvas.Length0 == width && canvas.Length1 == height
    ensures forall x, y :: 0 <= x < width && 0 <= y < height ==> canvas[x, y] == Transparent
  {
    canvas := new Pixel[width, height];
    for x := 0 to width
      invariant forall x', y' :: 0 <= x' < x && 0 <= y' < height ==> canvas[x', y'] == Transparent
    {
      for y := 0 to height
        invariant forall x', y' :: 0 <= x' < x && 0 <= y' < height ==> canvas[x', y'] == Transparent
        invariant forall y' :: 0 <= y' < y ==> canvas[x, y'] == Transparent
      {
        canvas[x, y] := Transparent;
      }
    }
  }

  /** Copies every pixel `(x, y)` of `img` verbatim to `(x + xOff, y)`, with
      no blending; every other canvas pixel keeps its value. */
  method PutImage(canvas: array2<Pixel>, img: Image, xOff: nat)
    requires xOff + img.width <= canvas.Length0 && img.height <= canvas.Length1
    modifies canvas
    ensures forall X, Y :: 0 <= X < canvas.Length0 && 0 <= Y < canvas.Length1 ==>
              canvas[X, Y] == if xOff <= X < xOff + img.width && Y < img.height
                              then PixelAt(img, X - xOff, Y) else old(canvas[X, Y])
  {
    for x := 0 to img.width
      invariant forall X, Y :: 0 <= X < canvas.Length0 && 0 <= Y < canvas.Length1 ==>
                  canvas[X, Y] == if xOff <= X < xOff + x && Y < img.height
                                  then PixelAt(img, X - xOff, Y) else old(canvas[X, Y])
    {
      for y := 0 to img.height
        invariant forall X, Y :: 0 <= X < canvas.Length0 && 0 <= Y < canvas.Length1 ==>
                    canvas[X, Y] == if (xOff <= X < xOff + x && Y < img.height) || (X == xOff + x && Y < y)
                                    then PixelAt(img, X - xOff, Y) else old(canvas[X, Y])
      {
        canvas[x + xOff, y] := PixelAt(img, x, y);
      }
    }
  }

  /** Lays the images out in a row: the canvas is `TotalWidth` by
      `MaxHeight` and every pixel is what the reference layout `CanvasPixel`
      says (see `PlacedInSlot`, `PlacedInGap` and `PlacedIffCovered` for what
      that layout shows). The running offset of the placement loop stays
      equal to the slot offset, and after the last image it equals the
      total width, so every write lands on the canvas. */
  method Compose(images: seq<Image>, spacing: nat) returns (canvas: array2<Pixel>)
    requires |images| > 0
    ensures fresh(canvas)
    ensures canvas.Length0 == TotalWidth(images, spacing) && canvas.Length1 == MaxHeight(images)
    ensures forall X, Y :: 0 <= X < canvas.Length0 && 0 <= Y < canvas.Length1 ==>
              canvas[X, Y] == CanvasPixel(images, spacing, X, Y)
  {
    var totalWidth, maxHeight := ComputeGeometry(images, spacing);
    canvas := NewTransparentCanvas(totalWidth, maxHeight);

    var xOff := 0;
    for i := 0 to |images|
      invariant i < |images| ==> xOff == Offset(images, spacing, i)
      invariant i == |images| ==> xOff == totalWidth
      invariant forall X, Y :: 0 <= X < totalWidth && 0 <= Y < maxHeight ==>
                  canvas[X, Y] == if X < xOff then CanvasPixel(images, spacing, X, Y) else Transparent
    {
      var img := images[i];
      SlotInBounds(images, spacing, i);
      PutImage(canvas, img, xOff);

      ghost var start := xOff;
      xOff := xOff + img.width;
      if i < |images| - 1 {
        xOff := xOff + spacing;
        OffsetStep(images, spacing, i);
      } else {
        LastSlotEndsAtEdge(images, spacing);
      }

      forall X, Y | start <= X < xOff && X < totalWidth && 0 <= Y < maxHeight
        ensures canvas[X, Y] == CanvasPixel(images, spacing, X, Y)
      {
        SlotColumns(images, spacing, i, X, Y);
      }
    }
  }
}
