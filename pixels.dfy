/**
 * The pixel gate (signature and bounds check), the padded-row pixel locator, the pixel
 * reader and the pixel writer, and `Plot`: the effect of a sequence of pixel writes.
 */
module Pixels {
  import opened Primitives
  import opened Constants
  import opened Header

  datatype PixelError = OutOfBounds(point: Point)

  datatype Result<T> = Ok(value: T) | Err(error: PixelError)

  /** The buffer starts with the ASCII letters `B`, `M`. */
  predicate HasFileSignature(s: seq<byte>)
    requires 2 <= |s|
    ensures HasFileSignature(s) <==> s[0] == 'B' as int && s[1] == 'M' as int
  {
    s[0] == SIGNATURE_B && s[1] == SIGNATURE_M
  }

  /** The gate reads the signature, and height and width only when the signature is there. */
  predicate CanCheckPoint(s: seq<byte>)
  {
    2 <= |s| && (HasFileSignature(s) ==> HEADER_HEIGHT_OFFSET + 4 <= |s|)
  }

  /** The single gate every pixel access passes: a valid signature and a point inside the image. */
  predicate PointExists(s: seq<byte>, p: Point)
    requires CanCheckPoint(s)
    ensures !HasFileSignature(s) ==> !PointExists(s, p)
    ensures HasFileSignature(s) ==> (PointExists(s, p) <==> p.x < Width(s) && p.y < Height(s))
  {
    HasFileSignature(s) && Height(s) > p.y && Width(s) > p.x
  }

  /** Locating an existing point further reads bits per pixel and the pixel-array offset. */
  predicate CanLocate(s: seq<byte>, p: Point)
  {
    CanCheckPoint(s) && (PointExists(s, p) ==> HasPixelFields(s))
  }

  /** Byte offset of the blue byte of `p`; rows are stored in order of increasing `y`. */
  function PixelBase(s: seq<byte>, p: Point): (base: nat)
    requires HasPixelFields(s)
    ensures base >= PixelArrayOffset(s)
  {
    MulNonNegative(p.y, PaddedRowWidth(s));
    MulNonNegative(p.x, BytesPerPixel(s));
    p.y * PaddedRowWidth(s) + p.x * BytesPerPixel(s) + PixelArrayOffset(s)
  }

  /** The gate of the reader and the writer: the point exists and its three bytes are in the buffer. */
  predicate PixelInBounds(s: seq<byte>, p: Point)
    requires CanLocate(s, p)
  {
    PointExists(s, p) && PixelBase(s, p) + 2 < |s|
  }

  function GetPixel(s: seq<byte>, p: Point): (r: Result<Rgb>)
    requires CanLocate(s, p)
    ensures r.Err? <==> !PointExists(s, p) || PixelBase(s, p) + 2 >= |s|
    ensures r.Err? ==> r.error == OutOfBounds(p)
    ensures r.Ok? ==> var base := PixelBase(s, p);
      r.value.b == s[base] && r.value.g == s[base + 1] && r.value.r == s[base + 2]
  {
    if !PointExists(s, p) then Err(OutOfBounds(p))
    else
      var base := PixelBase(s, p);
      if base + 2 < |s| then Ok(Rgb(s[base + 2], s[base + 1], s[base]))
      else Err(OutOfBounds(p))
  }

  /**
   * The buffer after writing `c` at `p`: unchanged unless the gate passes, and otherwise
   * exactly the three bytes at the pixel's base become blue, green and red.
   */
  function PutPixel(s: seq<byte>, p: Point, c: Rgb): (r: seq<byte>)
    requires CanLocate(s, p)
    ensures |r| == |s|
    ensures !PixelInBounds(s, p) ==> r == s
    ensures PixelInBounds(s, p) ==> var base := PixelBase(s, p);
      r[base] == c.b && r[base + 1] == c.g && r[base + 2] == c.r
    ensures PixelInBounds(s, p) ==> var base := PixelBase(s, p);
      forall k :: 0 <= k < |s| && !(base <= k < base + 3) ==> r[k] == s[k]
  {
    if PixelInBounds(s, p) then
      var base := PixelBase(s, p);
      WriteTriple(s, base, c)
    else s
  }

  /** `s` with blue, green, red written at `base`, `base + 1`, `base + 2`. */
  function WriteTriple(s: seq<byte>, base: nat, c: Rgb): (r: seq<byte>)
    requires base + 2 < |s|
    ensures |r| == |s|
    ensures r[base] == c.b && r[base + 1] == c.g && r[base + 2] == c.r
    ensures forall k :: 0 <= k < |s| && !(base <= k < base + 3) ==> r[k] == s[k]
  {
    s[base := c.b][base + 1 := c.g][base + 2 := c.r]
  }

  method DrawPoint(a: array<byte>, p: Point, c: Rgb)
    requires CanLocate(a[..], p)
    modifies a
    ensures a[..] == PutPixel(old(a[..]), p, c)
  {
    if !PointExists(a[..], p) {
      return;
    }
    var base := PixelBase(a[..], p);
    if base + 2 < a.Length {
      a[base] := c.b;
      a[base + 1] := c.g;
      a[base + 2] := c.r;
    }
  }

  /** Every pixel write is defined: the signature implies the pixel fields are present. */
  predicate Drawable(s: seq<byte>)
  {
    2 <= |s| && (HasFileSignature(s) ==> HasPixelFields(s))
  }

  /** The buffer after writing `c` at each of `pts` in order. */
  function Plot(s: seq<byte>, pts: seq<Point>, c: Rgb): (r: seq<byte>)
    requires Drawable(s)
    ensures Drawable(r) && |r| == |s|
    decreases |pts|
  {
    if pts == [] then s else Plot(PutPixel(s, pts[0], c), pts[1..], c)
  }

  /** Writing the first point, then the rest: the step every drawing loop takes. */
  lemma PlotCons(s: seq<byte>, p: Point, rest: seq<Point>, c: Rgb)
    requires Drawable(s)
    ensures Drawable(PutPixel(s, p, c))
    ensures Plot(s, [p] + rest, c) == Plot(PutPixel(s, p, c), rest, c)
  {
    assert ([p] + rest)[0] == p && ([p] + rest)[1..] == rest;
    assert Plot(s, [p], c) == Plot(PutPixel(s, p, c), [], c);
  }

  /** A buffer whose header is complete and whose pixel array starts after it. */
  predicate WellFormed(s: seq<byte>)
  {
    TOTAL_HEADER_SIZE <= |s| && PixelArrayOffset(s) >= TOTAL_HEADER_SIZE
  }

  lemma {:induction false} PlotAppend(s: seq<byte>, xs: seq<Point>, ys: seq<Point>, c: Rgb)
    requires Drawable(s)
    ensures Plot(s, xs + ys, c) == Plot(Plot(s, xs, c), ys, c)
    decreases |xs|
  {
    if xs != [] {
      assert (xs + ys)[0] == xs[0] && (xs + ys)[1..] == xs[1..] + ys;
      PlotAppend(PutPixel(s, xs[0], c), xs[1..], ys, c);
    } else {
      assert xs + ys == ys;
    }
  }

  /** Writing the points so far and then one more: the step of a loop that draws as it goes. */
  lemma PlotSnoc(s: seq<byte>, xs: seq<Point>, p: Point, c: Rgb)
    requires Drawable(s)
    ensures Plot(s, xs + [p], c) == PutPixel(Plot(s, xs, c), p, c)
  {
    PlotAppend(s, xs, [p], c);
    PlotCons(Plot(s, xs, c), p, [], c);
    assert [p] + [] == [p];
  }

  /** A pixel write leaves the 54 header bytes, and so the decoded header, as they were. */
  lemma PutPixelKeepsHeader(s: seq<byte>, p: Point, c: Rgb)
    requires WellFormed(s)
    ensures PutPixel(s, p, c)[..TOTAL_HEADER_SIZE] == s[..TOTAL_HEADER_SIZE]
    ensures WellFormed(PutPixel(s, p, c))
  {
    var r := PutPixel(s, p, c);
    assert forall k :: 0 <= k < TOTAL_HEADER_SIZE ==> r[k] == s[k];
  }

  /** No sequence of pixel writes touches the header of a well-formed buffer. */
  lemma {:induction false} PlotKeepsHeader(s: seq<byte>, pts: seq<Point>, c: Rgb)
    requires WellFormed(s)
    ensures Plot(s, pts, c)[..TOTAL_HEADER_SIZE] == s[..TOTAL_HEADER_SIZE]
    ensures WellFormed(Plot(s, pts, c))
    decreases |pts|
  {
    if pts != [] {
      PutPixelKeepsHeader(s, pts[0], c);
      PlotKeepsHeader(PutPixel(s, pts[0], c), pts[1..], c);
    }
  }

  /** Reading a pixel back after writing it gives the colour written. */
  lemma PixelRoundTrip(s: seq<byte>, p: Point, c: Rgb)
    requires WellFormed(s) && PixelInBounds(s, p)
    ensures GetPixel(PutPixel(s, p, c), p) == Ok(c)
  {
    var r := PutPixel(s, p, c);
    PutPixelKeepsHeader(s, p, c);
    SameHeaderSameGeometry(s, r);
  }

  /** With three or more bytes per pixel, distinct pixels occupy disjoint byte triples. */
  lemma DistinctPixelsDisjoint(s: seq<byte>, p: Point, q: Point)
    requires WellFormed(s) && BytesPerPixel(s) >= 3
    requires PixelInBounds(s, p) && PixelInBounds(s, q) && p != q
    ensures PixelBase(s, p) + 3 <= PixelBase(s, q) || PixelBase(s, q) + 3 <= PixelBase(s, p)
  {
    var B, P, W := BytesPerPixel(s), PaddedRowWidth(s), Width(s);
    assert P >= W * B;
    if p.y == q.y {
      if p.x < q.x {
        ColumnsApart(p.x, q.x, B);
      } else {
        ColumnsApart(q.x, p.x, B);
      }
    } else if p.y < q.y {
      RowsApart(p.x, p.y, q.x, q.y, B, P, W);
    } else {
      RowsApart(q.x, q.y, p.x, p.y, B, P, W);
    }
  }

  /** Pixel offsets of two columns of one row are at least three bytes apart. */
  lemma ColumnsApart(x1: nat, x2: nat, bytesPerPixel: nat)
    requires x1 < x2 && bytesPerPixel >= 3
    ensures x1 * bytesPerPixel + 3 <= x2 * bytesPerPixel
  {
    MulAtLeast(x2 - x1, bytesPerPixel);
    assert x2 * bytesPerPixel - x1 * bytesPerPixel == (x2 - x1) * bytesPerPixel;
  }

  /** The last byte of a pixel comes before every pixel of a later row. */
  lemma RowsApart(px: nat, py: nat, qx: nat, qy: nat, bytesPerPixel: nat, rowBytes: nat, width: nat)
    requires px < width && py < qy && bytesPerPixel >= 3 && rowBytes >= width * bytesPerPixel
    ensures py * rowBytes + px * bytesPerPixel + 3 <= qy * rowBytes + qx * bytesPerPixel
  {
    var B, P, W := bytesPerPixel, rowBytes, width;
    MulAtLeast(qy - py, P);
    MulAtLeast(W - px, B);
    MulNonNegative(qx, B);
    calc {
      (qy * P + qx * B) - (py * P + px * B);
      (qy - py) * P + qx * B - px * B;
    >= P - px * B;
    >= W * B - px * B;
      (W - px) * B;
    >= 3;
    }
  }

  /** Writing one pixel leaves every other in-bounds pixel as it was. */
  lemma PutPixelOther(s: seq<byte>, p: Point, q: Point, c: Rgb)
    requires WellFormed(s) && BytesPerPixel(s) >= 3
    requires PixelInBounds(s, q) && p != q
    ensures GetPixel(PutPixel(s, p, c), q) == GetPixel(s, q)
  {
    var r := PutPixel(s, p, c);
    PutPixelKeepsHeader(s, p, c);
    SameHeaderSameGeometry(s, r);
    if PixelInBounds(s, p) {
      DistinctPixelsDisjoint(s, p, q);
    }
  }

  /**
   * On a well-formed image with at least three bytes per pixel, after writing `c` at each of
   * `pts`, an in-bounds pixel reads `c` exactly when it is one of `pts`, and otherwise reads
   * what it read before.
   */
  lemma {:induction false} PlotEffect(s: seq<byte>, pts: seq<Point>, c: Rgb, q: Point)
    requires WellFormed(s) && BytesPerPixel(s) >= 3 && PixelInBounds(s, q)
    ensures GetPixel(Plot(s, pts, c), q) == if q in pts then Ok(c) else GetPixel(s, q)
    decreases |pts|
  {
    if pts != [] {
      var s1 := PutPixel(s, pts[0], c);
      PutPixelKeepsHeader(s, pts[0], c);
      SameHeaderSameGeometry(s, s1);
      PlotEffect(s1, pts[1..], c, q);
      assert q in pts <==> q == pts[0] || q in pts[1..];
      if q == pts[0] {
        PixelRoundTrip(s, q, c);
      } else {
        PutPixelOther(s, pts[0], q, c);
      }
    }
  }
}
