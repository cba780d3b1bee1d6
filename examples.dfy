/** A worked row: a 10 by 20 red image and a 15 by 5 blue image, 10 pixels
    apart. `Solid` only builds the test images for `RedBlueRow`. */
module Examples {
  import opened Raster
  import opened Geometry
  import opened Placement

  const Red: Pixel := Rgba(255, 0, 0, 255)
  const Blue: Pixel := Rgba(0, 0, 255, 255)

  /** A `width` by `height` image of one colour. */
  function Solid(width: nat, height: nat, p: Pixel): (img: Image)
    ensures img.width == width && img.height == height
    ensures forall x, y :: 0 <= x < width && 0 <= y < height ==> PixelAt(img, x, y) == p
  {
    Bitmap(width, height, seq(width, _ => seq(height, _ => p)))
  }

  /** The canvas is 35 by 20: red in columns 0 to 9, transparent in the gap
      columns 10 to 19, blue in columns 20 to 34 for rows 0 to 4 and
      transparent below the blue image. */
  lemma RedBlueRow()
    ensures var row := [Solid(10, 20, Red), Solid(15, 5, Blue)];
      TotalWidth(row, 10) == 35 && MaxHeight(row) == 20 &&
      (forall x: nat, y: nat :: x < 10 && y < 20 ==> CanvasPixel(row, 10, x, y) == Red) &&
      (forall x: nat, y: nat :: 10 <= x < 20 ==> CanvasPixel(row, 10, x, y) == Transparent) &&
      (forall x: nat, y: nat :: 20 <= x < 35 && y < 5 ==> CanvasPixel(row, 10, x, y) == Blue) &&
      (forall x: nat, y: nat :: 20 <= x < 35 && 5 <= y ==> CanvasPixel(row, 10, x, y) == Transparent)
  {
    var row := [Solid(10, 20, Red), Solid(15, 5, Blue)];
    var first := row[..1];
    assert first[..0] == [] && first[0] == row[0];
    assert row[..2] == row && row[..2][..1] == first;
    assert SumWidths(first) == 10;
    assert MaxHeight(first) == 20;
    assert SumWidths(row) == 25 && MaxHeight(row) == 20;
    assert Offset(row, 10, 1) == 20;
    forall x: nat, y: nat | 20 <= x < 35
      ensures CanvasPixel(row, 10, x, y) == if y < 5 then Blue else Transparent
    {
      PlacedInSlot(row, 10, 1, x - 20, y);
    }
  }
}
