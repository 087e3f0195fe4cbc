/** What drawing code can rely on about a buffer fresh from the factory. */
module FactoryFacts {
  import opened Primitives
  import opened Constants
  import opened Header
  import opened Pixels
  import opened Factory

  /** The facts of `BuildFacts` for the buffer `NewBitmap` returns, whose length is `ImageLength`. */
  lemma LayoutFacts(width: u32, height: u32, bpp: u16)
    requires LayoutFits(width, height, bpp)
    ensures |Layout(width, height, bpp)| == ImageLength(width, height, bpp)
    ensures var r := Layout(width, height, bpp); HasFileSignature(r) && FileSize(r) == |r|
    ensures var r := Layout(width, height, bpp);
      PixelArrayOffset(r) == TOTAL_HEADER_SIZE && SizeOfInfoHeader(r) == INFOHEADER_SIZE
    ensures var r := Layout(width, height, bpp);
      Width(r) == width && Height(r) == height && BitsPerPixel(r) == bpp % 256
    ensures var r := Layout(width, height, bpp); Planes(r) == 1 && Compression(r) == 0
    ensures var r := Layout(width, height, bpp);
      forall k :: 0 <= k < |r| && !WrittenByFactory(k) ==> r[k] == 0
    ensures WellFormed(Layout(width, height, bpp))
  {
    var len := ImageLength(width, height, bpp);
    BuildFacts(width, height, bpp, len);
    assert Layout(width, height, bpp) == Build(width, height, bpp, len);
  }

  /**
   * For a bit depth below 256 (the getter reads one byte of it), the pixel accessor's padded
   * row width is the factory's, the buffer is exactly the header plus `height` padded rows,
   * and the padding getter returns the padding the factory added.
   */
  lemma LayoutGeometry(width: u32, height: u32, bpp: u16)
    requires LayoutFits(width, height, bpp) && bpp < 256
    ensures var r := Layout(width, height, bpp);
      && PaddedRowWidth(r) == PaddedWidth(width, bpp)
      && |r| == PaddedRowWidth(r) * Height(r) + TOTAL_HEADER_SIZE
      && PaddingFits(r)
      && PaddingPerLine(r) == PaddedWidth(width, bpp) - width * (bpp / 8)
  {
    var r := Layout(width, height, bpp);
    assert bpp % 256 == bpp;
    LayoutFacts(width, height, bpp);
    assert BytesPerPixel(r) == bpp / 8 && Width(r) == width;
    RowWidthOf(r, width, bpp / 8);
    PaddingArithmetic(RowWidth(r));
  }

  /** The row width the accessor computes from the decoded width and bytes per pixel. */
  lemma RowWidthOf(s: seq<byte>, width: nat, bytesPerPixel: nat)
    requires HasPixelFields(s) && Width(s) == width && BytesPerPixel(s) == bytesPerPixel
    ensures RowWidth(s) == width * bytesPerPixel
  {
  }

  /** The last byte of pixel (x, y) lies inside `height` rows of `rowBytes` bytes each. */
  lemma PixelInsideRows(x: nat, y: nat, width: nat, height: nat, bytesPerPixel: nat, rowBytes: nat)
    requires x < width && y < height && bytesPerPixel >= 3 && rowBytes >= width * bytesPerPixel
    ensures y * rowBytes + x * bytesPerPixel + 2 < height * rowBytes
  {
    MulMonotone(x + 1, width, bytesPerPixel);
    MulMonotone(y + 1, height, rowBytes);
    calc {
      y * rowBytes + x * bytesPerPixel + 2;
    <  y * rowBytes + (x + 1) * bytesPerPixel;
    <= y * rowBytes + rowBytes;
      (y + 1) * rowBytes;
    <= height * rowBytes;
    }
  }

  /**
   * With three or more bytes per pixel, a pixel of a new buffer passes the reader's and the
   * writer's gate exactly when it lies inside the requested width and height.
   */
  lemma LayoutInBounds(width: u32, height: u32, bpp: u16, q: Point)
    requires LayoutFits(width, height, bpp) && bpp < 256 && bpp / 8 >= 3
    ensures BytesPerPixel(Layout(width, height, bpp)) >= 3
    ensures PixelInBounds(Layout(width, height, bpp), q) <==> q.x < width && q.y < height
  {
    var r := Layout(width, height, bpp);
    assert bpp % 256 == bpp;
    LayoutFacts(width, height, bpp);
    LayoutGeometry(width, height, bpp);
    var B, P := BytesPerPixel(r), PaddedRowWidth(r);
    assert B == bpp / 8;
    RowWidthOf(r, width, B);
    PaddingArithmetic(RowWidth(r));
    GateOfRows(r, width, height, q);
  }

  /**
   * A buffer holding the header and exactly `height` padded rows, with three or more bytes per
   * pixel, passes a point through the gate exactly when it lies inside width and height.
   */
  lemma GateOfRows(s: seq<byte>, width: nat, height: nat, q: Point)
    requires WellFormed(s) && HasFileSignature(s) && Width(s) == width && Height(s) == height
    requires BytesPerPixel(s) >= 3
    requires PixelArrayOffset(s) == TOTAL_HEADER_SIZE
    requires |s| == PaddedRowWidth(s) * height + TOTAL_HEADER_SIZE
    ensures PixelInBounds(s, q) <==> q.x < width && q.y < height
  {
    var B, P := BytesPerPixel(s), PaddedRowWidth(s);
    if q.x < width && q.y < height {
      RowWidthOf(s, width, B);
      PixelInsideRows(q.x, q.y, width, height, B, P);
      assert PixelBase(s, q) == q.y * P + q.x * B + TOTAL_HEADER_SIZE;
    }
  }

  /** Every pixel of a new buffer reads black. */
  lemma FreshImageIsBlack(width: u32, height: u32, bpp: u16, q: Point)
    requires LayoutFits(width, height, bpp) && CanLocate(Layout(width, height, bpp), q)
    requires PixelInBounds(Layout(width, height, bpp), q)
    ensures GetPixel(Layout(width, height, bpp), q) == Ok(Rgb(0, 0, 0))
  {
    LayoutFacts(width, height, bpp);
  }

  /**
   * On a new image with three or more bytes per pixel, a point written inside the requested
   * width and height reads back as written, and every other pixel inside still reads black.
   */
  lemma FreshImageDrawThenRead(width: u32, height: u32, bpp: u16, p: Point, q: Point, c: Rgb)
    requires LayoutFits(width, height, bpp) && bpp < 256 && bpp / 8 >= 3
    requires p.x < width && p.y < height && q.x < width && q.y < height && p != q
    ensures var r := PutPixel(Layout(width, height, bpp), p, c);
      GetPixel(r, p) == Ok(c) && GetPixel(r, q) == Ok(Rgb(0, 0, 0))
  {
    var r := Layout(width, height, bpp);
    LayoutFacts(width, height, bpp);
    LayoutInBounds(width, height, bpp, p);
    LayoutInBounds(width, height, bpp, q);
    PixelRoundTrip(r, p, c);
    PutPixelOther(r, p, q, c);
    FreshImageIsBlack(width, height, bpp, q);
  }

  /**
   * The 40 x 40 image at 24 bits per pixel of the library's example: its header reads back
   * as requested, a red point written at (20, 20) reads red, and the corner (39, 39) still
   * reads black.
   */
  lemma ExampleImage(width: u32, height: u32, bpp: u16)
    requires width == 40 && height == 40 && bpp == 24
    ensures var r := Layout(width, height, bpp);
      && Height(r) == 40 && Width(r) == 40 && BitsPerPixel(r) == 24 && FileSize(r) == |r|
      && SizeOfInfoHeader(r) == 40 && Planes(r) == 1 && Compression(r) == 0
    ensures var r := PutPixel(Layout(width, height, bpp), Point(20, 20), Rgb(255, 0, 0));
      GetPixel(r, Point(20, 20)) == Ok(Rgb(255, 0, 0)) && GetPixel(r, Point(39, 39)) == Ok(Rgb(0, 0, 0))
  {
    assert bpp % 256 == 24;
    LayoutFacts(width, height, bpp);
    FreshImageDrawThenRead(width, height, bpp, Point(20, 20), Point(39, 39), Rgb(255, 0, 0));
  }
}
