/** Aggregate geometry of the row: total canvas width, canvas height and the
    left edge of every image's slot. */
module Geometry {
  import opened Raster

  /** Sum of the widths of `images`, accumulated left to right. */
  function SumWidths(images: seq<Image>): nat
  {
    if |images| == 0 then 0
    else SumWidths(images[..|images| - 1]) + images[|images| - 1].width
  }

  /** Largest height among `images`, starting from 0 as the source does. */
  function MaxHeight(images: seq<Image>): nat
  {
    if |images| == 0 then 0
    else
      var m := MaxHeight(images[..|images| - 1]);
      var h := images[|images| - 1].height;
      if h > m then h else m
  }

  /** Width of the canvas: every image, plus one gap between each pair of
      neighbours and none after the last. */
  function TotalWidth(images: seq<Image>, spacing: nat): nat
    requires |images| > 0
  {
    SumWidths(images) + spacing * (|images| - 1)
  }

  /** Left edge of image `k`'s slot: the images before it, each followed by
      one gap. */
  function Offset(images: seq<Image>, spacing: nat, k: nat): nat
    requires k <= |images|
  {
    SumWidths(images[..k]) + spacing * k
  }

  /** The sum can equally be taken from the front. */
  lemma {:induction false} SumWidthsFront(images: seq<Image>)
    requires |images| > 0
    ensures SumWidths(images) == images[0].width + SumWidths(images[1..])
  {
    var n := |images|;
    if n > 1 {
      assert images[..n - 1][1..] == images[1..][..n - 2];
      SumWidthsFront(images[..n - 1]);
      assert images[1..][n - 2] == images[n - 1];
    } else {
      assert images[..0] == [];
      assert images[1..] == [];
    }
  }

  /** The height is an upper bound of every image's height and, for a
      non-empty row, is the height of one of them: a zero-height image
      still takes part literally. */
  lemma {:induction false} MaxHeightIsMaximum(images: seq<Image>)
    ensures forall k :: 0 <= k < |images| ==> images[k].height <= MaxHeight(images)
    ensures |images| > 0 ==> exists k :: 0 <= k < |images| && images[k].height == MaxHeight(images)
  {
    var n := |images|;
    if n > 0 {
      var init := images[..n - 1];
      MaxHeightIsMaximum(init);
      assert forall k :: 0 <= k < n - 1 ==> init[k] == images[k];
      if n > 1 && images[n - 1].height <= MaxHeight(init) {
        var j :| 0 <= j < n - 1 && init[j].height == MaxHeight(init);
        assert images[j].height == MaxHeight(images);
      } else {
        assert images[n - 1].height == MaxHeight(images);
      }
    }
  }

  /** Moving from one slot to the next adds that image's width and one gap. */
  lemma OffsetStep(images: seq<Image>, spacing: nat, k: nat)
    requires k < |images|
    ensures Offset(images, spacing, k + 1) == Offset(images, spacing, k) + images[k].width + spacing
  {
    assert images[..k + 1][..k] == images[..k];
  }

  /** Dropping the first image shifts every later slot left by its width
      and one gap. */
  lemma OffsetShift(images: seq<Image>, spacing: nat, k: nat)
    requires 0 < k <= |images|
    ensures Offset(images, spacing, k) == images[0].width + spacing + Offset(images[1..], spacing, k - 1)
  {
    SumWidthsFront(images[..k]);
    assert images[..k][1..] == images[1..][..k - 1];
  }

  /** The last slot ends exactly at the right edge of the canvas: there is
      no trailing gap. */
  lemma LastSlotEndsAtEdge(images: seq<Image>, spacing: nat)
    requires |images| > 0
    ensures Offset(images, spacing, |images| - 1) + images[|images| - 1].width == TotalWidth(images, spacing)
  {
    assert images[..|images|] == images;
  }

  /** Slots come in order, separated by at least one gap: an earlier slot
      ends, plus the spacing, no later than a later slot begins. */
  lemma {:induction false} SlotsOrdered(images: seq<Image>, spacing: nat, j: nat, k: nat)
    requires j < k < |images|
    ensures Offset(images, spacing, j) + images[j].width + spacing <= Offset(images, spacing, k)
  {
    OffsetStep(images, spacing, k - 1);
    if j < k - 1 {
      SlotsOrdered(images, spacing, j, k - 1);
    }
  }

  /** Every image fits on the canvas: its slot ends within the total width
      and its height is within the canvas height. */
  lemma SlotInBounds(images: seq<Image>, spacing: nat, k: nat)
    requires k < |images|
    ensures Offset(images, spacing, k) + images[k].width <= TotalWidth(images, spacing)
    ensures images[k].height <= MaxHeight(images)
  {
    var n := |images|;
    LastSlotEndsAtEdge(images, spacing);
    if k < n - 1 {
      SlotsOrdered(images, spacing, k, n - 1);
    }
    MaxHeightIsMaximum(images);
  }

  /** The first loop of the compositor: walks the images in order, adding
      each width and a gap after every image but the last, and keeping the
      largest height seen. */
  method ComputeGeometry(images: seq<Image>, spacing: nat) returns (totalWidth: nat, maxHeight: nat)
    requires |images| > 0
    ensures totalWidth == SumWidths(images) + spacing * (|images| - 1)
    ensures maxHeight == MaxHeight(images)
    ensures forall k :: 0 <= k < |images| ==> images[k].height <= maxHeight
    ensures exists k :: 0 <= k < |images| && images[k].height == maxHeight
  {
    totalWidth, maxHeight := 0, 0;
    for i := 0 to |images|
      invariant totalWidth == SumWidths(images[..i]) + spacing * (if i < |images| then i else i - 1)
      invariant maxHeight == MaxHeight(images[..i])
    {
      var w, h := images[i].width, images[i].height;
      assert images[..i + 1][..i] == images[..i];
      maxHeight := if h > maxHeight then h else maxHeight;
      totalWidth := totalWidth + w;
      if i < |images| - 1 {
        totalWidth := totalWidth + spacing;
      }
    }
    assert images[..|images|] == images;
    MaxHeightIsMaximum(images);
  }
}
