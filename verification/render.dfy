/** Turning the shape renderer's 8-bit coverage bitmap into an RGBA image:
    black pixels whose alpha is the coverage. */
module Render {
  import opened Bytes
  import opened FontTables

  /** The renderer's bitmap: `width` x `rows` coverage bytes, row by row. */
  datatype Bitmap = Bitmap(width: nat, rows: nat, buffer: Bytes)

  /** What the shape renderer answers for one glyph ID. */
  datatype RenderResult = RenderError | Rendered(bitmap: Bitmap)

  /** The outcome of converting one bitmap. */
  datatype Conversion =
    | ZeroSize
      /** the buffer holds fewer than width x rows bytes */
    | BufferTooShort
    | Converted(image: Image)

  /** The pixel of coverage `c`. */
  function CoveragePixel(c: byte): Rgba {
    Rgba(0, 0, 0, c)
  }

  function CoverageToRgba(bmp: Bitmap): (r: Conversion)
    ensures r.ZeroSize? <==> bmp.width == 0 || bmp.rows == 0
    ensures r.BufferTooShort? <==> bmp.width > 0 && bmp.rows > 0 && |bmp.buffer| < bmp.width * bmp.rows
    ensures r.Converted? ==>
      && r.image.width == bmp.width && r.image.height == bmp.rows
      && |r.image.pixels| == bmp.width * bmp.rows
      && forall i :: 0 <= i < |r.image.pixels| ==> r.image.pixels[i] == Rgba(0, 0, 0, bmp.buffer[i])
  {
    if bmp.width == 0 || bmp.rows == 0 then ZeroSize
    else if |bmp.buffer| < bmp.width * bmp.rows then BufferTooShort
    else
      var n := bmp.width * bmp.rows;
      Converted(Image(bmp.width, bmp.rows, seq(n, i requires 0 <= i < n => CoveragePixel(bmp.buffer[i]))))
  }

  /** The alpha channel of an image, row by row. */
  function AlphaChannel(img: Image): (a: Bytes)
    ensures |a| == |img.pixels|
    ensures forall i :: 0 <= i < |a| ==> a[i] == img.pixels[i].a
  {
    seq(|img.pixels|, i requires 0 <= i < |img.pixels| => img.pixels[i].a)
  }

  /** The alpha channel of a converted image is exactly the coverage mask,
      and the image is otherwise black. */
  lemma AlphaCarriesCoverage(bmp: Bitmap)
    requires CoverageToRgba(bmp).Converted?
    ensures AlphaChannel(CoverageToRgba(bmp).image) == bmp.buffer[..bmp.width * bmp.rows]
    ensures forall p :: p in CoverageToRgba(bmp).image.pixels ==> p.r == 0 && p.g == 0 && p.b == 0
  {
  }
}
