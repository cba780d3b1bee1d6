/** Pixels and decoded images: what the row compositor reads and writes. */
module Raster {

  /** One 8-bit colour channel. */
  newtype u8 = x: int | 0 <= x < 256

  /** An RGBA pixel: red, green, blue and alpha, each an 8-bit channel. */
  datatype Pixel = Rgba(r: u8, g: u8, b: u8, a: u8)

  /** Fully transparent black: the value every canvas pixel starts with. */
  const Transparent: Pixel := Rgba(0, 0, 0, 0)

  /** A decoded image. `columns[x][y]` is the pixel at column `x`, row `y`,
      so a bitmap is well formed when it has `width` columns of `height`
      pixels each. */
  datatype Bitmap = Bitmap(width: nat, height: nat, columns: seq<seq<Pixel>>) {
    predicate WellFormed() {
      |columns| == width &&
      forall x :: 0 <= x < |columns| ==> |columns[x]| == height
    }
  }

  /** The images the compositor is given are always well formed; a zero
      width or a zero height is allowed. */
  type Image = b: Bitmap | b.WellFormed() witness Bitmap(0, 0, [])

  /** The pixel at `(x, y)` of `img` (the decoder's `get_pixel`). */
  function PixelAt(img: Image, x: nat, y: nat): Pixel
    requires x < img.width && y < img.height
  {
    img.columns[x][y]
  }
}
