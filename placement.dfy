/** Where each canvas pixel comes from. `Placed` describes the finished row
    directly, image by image from the left, without prefix sums; the lemmas
    connect it to the slot offsets the compositor's loop walks. */
module Placement {
  import opened Results
  import opened Raster
  import opened Geometry

  /** The source pixel that lands at canvas position `(x, y)`, if any: the
      first image occupies columns `[0, w)` from row 0 down to its height,
      then come `spacing` empty columns, then the rest of the row. */
  function Placed(images: seq<Image>, spacing: nat, x: nat, y: nat): Option<Pixel>
    decreases |images|
  {
    if |images| == 0 then None
    else if x < images[0].width then
      if y < images[0].height then Some(PixelAt(images[0], x, y)) else None
    else if x < images[0].width + spacing then None
    else Placed(images[1..], spacing, x - images[0].width - spacing, y)
  }

  /** The finished canvas pixel: the placed source pixel, or the
      transparent fill where no image covers the position. */
  function CanvasPixel(images: seq<Image>, spacing: nat, x: nat, y: nat): Pixel
  {
    Placed(images, spacing, x, y).GetOr(Transparent)
  }

  /** Image `k` covers canvas position `(x, y)`: the column lies in its slot
      and the row is above its bottom edge. */
  predicate Covers(images: seq<Image>, spacing: nat, k: nat, x: nat, y: nat)
    requires k < |images|
  {
    Offset(images, spacing, k) <= x < Offset(images, spacing, k) + images[k].width &&
    y < images[k].height
  }

  /** Placement: the pixel at `(x, y)` of image `k` lands at column
      `Offset(k) + x`, row `y`, unchanged; below the image, in its columns,
      nothing is placed. */
  lemma {:induction false} PlacedInSlot(images: seq<Image>, spacing: nat, k: nat, x: nat, y: nat)
    requires k < |images| && x < images[k].width
    ensures Placed(images, spacing, Offset(images, spacing, k) + x, y) ==
            if y < images[k].height then Some(PixelAt(images[k], x, y)) else None
  {
    if k > 0 {
      OffsetShift(images, spacing, k);
      PlacedInSlot(images[1..], spacing, k - 1, x, y);
    } else {
      assert images[..0] == [];
    }
  }

  /** The gap columns after image `k` (when another image follows) hold no
      source pixel on any row. */
  lemma {:induction false} PlacedInGap(images: seq<Image>, spacing: nat, k: nat, g: nat, y: nat)
    requires k + 1 < |images| && g < spacing
    ensures Placed(images, spacing, Offset(images, spacing, k) + images[k].width + g, y) == None
  {
    if k > 0 {
      OffsetShift(images, spacing, k);
      PlacedInGap(images[1..], spacing, k - 1, g, y);
    } else {
      assert images[..0] == [];
    }
  }

  /** The columns from image `k`'s left edge up to the next image's left
      edge (or, for the last image, to its right edge) show image `k` above
      its bottom edge and the transparent fill everywhere else. */
  lemma SlotColumns(images: seq<Image>, spacing: nat, k: nat, x: nat, y: nat)
    requires k < |images|
    requires Offset(images, spacing, k) <= x
    requires x < Offset(images, spacing, k) + images[k].width + (if k + 1 < |images| then spacing else 0)
    ensures CanvasPixel(images, spacing, x, y) ==
            if x < Offset(images, spacing, k) + images[k].width && y < images[k].height
            then PixelAt(images[k], x - Offset(images, spacing, k), y) else Transparent
  {
    var start := Offset(images, spacing, k);
    if x < start + images[k].width {
      PlacedInSlot(images, spacing, k, x - start, y);
    } else {
      PlacedInGap(images, spacing, k, x - start - images[k].width, y);
    }
  }

  /** A position receives a source pixel exactly when some image covers it. */
  lemma {:induction false} PlacedIffCovered(images: seq<Image>, spacing: nat, x: nat, y: nat)
    ensures Placed(images, spacing, x, y).Some? <==>
            exists k :: 0 <= k < |images| && Covers(images, spacing, k, x, y)
  {
    if k :| 0 <= k < |images| && Covers(images, spacing, k, x, y) {
      PlacedInSlot(images, spacing, k, x - Offset(images, spacing, k), y);
    }
    if |images| > 0 && Placed(images, spacing, x, y).Some? {
      var w := images[0].width;
      if x < w {
        assert images[..0] == [];
        assert Covers(images, spacing, 0, x, y);
      } else {
        var rest := images[1..];
        PlacedIffCovered(rest, spacing, x - w - spacing, y);
        var j :| 0 <= j < |rest| && Covers(rest, spacing, j, x - w - spacing, y);
        OffsetShift(images, spacing, j + 1);
        assert Covers(images, spacing, j + 1, x, y);
      }
    }
  }

  /** Padding: a position that no image covers (a gap column, a row below a
      shorter image) keeps the transparent fill. */
  lemma UncoveredIsTransparent(images: seq<Image>, spacing: nat, x: nat, y: nat)
    requires forall k :: 0 <= k < |images| ==> !Covers(images, spacing, k, x, y)
    ensures CanvasPixel(images, spacing, x, y) == Transparent
  {
    PlacedIffCovered(images, spacing, x, y);
  }

  /** A row of one image is that image: no spacing is added, whatever its
      value, and every pixel is copied. */
  lemma SingleImageIsCopy(img: Image, spacing: nat, x: nat, y: nat)
    requires x < img.width && y < img.height
    ensures TotalWidth([img], spacing) == img.width && MaxHeight([img]) == img.height
    ensures CanvasPixel([img], spacing, x, y) == PixelAt(img, x, y)
  {
    assert [img][..0] == [];
    assert SumWidths([img]) == img.width;
  }

  /** Slots are disjoint: no canvas position is covered by two images. */
  lemma SlotsDisjoint(images: seq<Image>, spacing: nat, j: nat, k: nat, x: nat, y: nat)
    requires j < |images| && k < |images|
    requires Covers(images, spacing, j, x, y) && Covers(images, spacing, k, x, y)
    ensures j == k
  {
    if j < k {
      SlotsOrdered(images, spacing, j, k);
    } else if k < j {
      SlotsOrdered(images, spacing, k, j);
    }
  }

  /** Nothing is placed outside the canvas: every covered position lies
      within the total width and the maximum height. */
  lemma {:induction false} PlacedWithinCanvas(images: seq<Image>, spacing: nat, x: nat, y: nat)
    requires |images| > 0 && Placed(images, spacing, x, y).Some?
    ensures x < TotalWidth(images, spacing) && y < MaxHeight(images)
  {
    PlacedIffCovered(images, spacing, x, y);
    var k :| 0 <= k < |images| && Covers(images, spacing, k, x, y);
    SlotInBounds(images, spacing, k);
  }
}
