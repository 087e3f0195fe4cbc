/**
 * The header getters: each decodes one fixed-offset little-endian field of an image
 * buffer, plus the scan-line padding derived from width and bit depth.  A getter's
 * precondition is that its slice lies inside the buffer (the source panics otherwise).
 */
module Header {
  import opened Primitives
  import opened Constants
  import opened LittleEndian

  /** The unsigned little-endian value of the `n` bytes at `off`. */
  function FieldAt(s: seq<byte>, off: nat, n: nat): (r: nat)
    requires off + n <= |s|
    ensures r < Pow256(n)
  {
    FromLE(s[off..off + n])
  }

  /** A `u32` field: its value's 4-byte little-endian encoding is exactly the field's bytes. */
  function Field32(s: seq<byte>, off: nat): (r: u32)
    requires off + 4 <= |s|
    ensures ToLE(r, 4) == s[off..off + 4]
  {
    Pow256Values();
    ToFromLE(s[off..off + 4]);
    FieldAt(s, off, 4)
  }

  /** Only the low byte of the 4-byte pixel-array-offset field is read. */
  function PixelArrayOffset(s: seq<byte>): (r: byte)
    requires HEADER_PIXEL_ARRAY_OFFSET < |s|
    ensures HEADER_PIXEL_ARRAY_OFFSET + 4 <= |s| ==> r == FieldAt(s, HEADER_PIXEL_ARRAY_OFFSET, 4) % 256
  {
    if HEADER_PIXEL_ARRAY_OFFSET + 4 <= |s| then
      FromLELowByte(s[HEADER_PIXEL_ARRAY_OFFSET..HEADER_PIXEL_ARRAY_OFFSET + 4]);
      s[HEADER_PIXEL_ARRAY_OFFSET]
    else
      s[HEADER_PIXEL_ARRAY_OFFSET]
  }

  function Height(s: seq<byte>): (r: u32)
    requires HEADER_HEIGHT_OFFSET + 4 <= |s|
    ensures ToLE(r, 4) == s[HEADER_HEIGHT_OFFSET..HEADER_HEIGHT_OFFSET + 4]
  {
    Field32(s, HEADER_HEIGHT_OFFSET)
  }

  function Width(s: seq<byte>): (r: u32)
    requires HEADER_WIDTH_OFFSET + 4 <= |s|
    ensures ToLE(r, 4) == s[HEADER_WIDTH_OFFSET..HEADER_WIDTH_OFFSET + 4]
  {
    Field32(s, HEADER_WIDTH_OFFSET)
  }

  /** Only the low byte of the 2-byte bits-per-pixel field is read. */
  function BitsPerPixel(s: seq<byte>): (r: byte)
    requires HEADER_BITS_PER_PIXEL < |s|
    ensures HEADER_BITS_PER_PIXEL + 2 <= |s| ==> r == FieldAt(s, HEADER_BITS_PER_PIXEL, 2) % 256
  {
    if HEADER_BITS_PER_PIXEL + 2 <= |s| then
      FromLELowByte(s[HEADER_BITS_PER_PIXEL..HEADER_BITS_PER_PIXEL + 2]);
      s[HEADER_BITS_PER_PIXEL]
    else
      s[HEADER_BITS_PER_PIXEL]
  }

  function FileSize(s: seq<byte>): (r: u32)
    requires HEADER_FILE_SIZE + 4 <= |s|
    ensures ToLE(r, 4) == s[HEADER_FILE_SIZE..HEADER_FILE_SIZE + 4]
  {
    Field32(s, HEADER_FILE_SIZE)
  }

  function SizeOfInfoHeader(s: seq<byte>): (r: u32)
    requires INFOHEADER_SIZE_OFFSET + 4 <= |s|
    ensures ToLE(r, 4) == s[INFOHEADER_SIZE_OFFSET..INFOHEADER_SIZE_OFFSET + 4]
  {
    Field32(s, INFOHEADER_SIZE_OFFSET)
  }

  function Planes(s: seq<byte>): (r: u16)
    requires HEADER_PLANES_OFFSET + 2 <= |s|
    ensures ToLE(r, 2) == s[HEADER_PLANES_OFFSET..HEADER_PLANES_OFFSET + 2]
  {
    Pow256Values();
    ToFromLE(s[HEADER_PLANES_OFFSET..HEADER_PLANES_OFFSET + 2]);
    FieldAt(s, HEADER_PLANES_OFFSET, 2)
  }

  function Compression(s: seq<byte>): (r: u32)
    requires HEADER_COMPRESSION_OFFSET + 4 <= |s|
    ensures ToLE(r, 4) == s[HEADER_COMPRESSION_OFFSET..HEADER_COMPRESSION_OFFSET + 4]
  {
    Field32(s, HEADER_COMPRESSION_OFFSET)
  }

  function ImageSize(s: seq<byte>): (r: u32)
    requires HEADER_IMAGE_SIZE + 4 <= |s|
    ensures ToLE(r, 4) == s[HEADER_IMAGE_SIZE..HEADER_IMAGE_SIZE + 4]
  {
    Field32(s, HEADER_IMAGE_SIZE)
  }

  function ColorsUsed(s: seq<byte>): (r: u32)
    requires HEADER_COLORS_USED + 4 <= |s|
    ensures ToLE(r, 4) == s[HEADER_COLORS_USED..HEADER_COLORS_USED + 4]
  {
    Field32(s, HEADER_COLORS_USED)
  }

  function ImportantColors(s: seq<byte>): (r: u32)
    requires HEADER_IMPORTANT_COLORS + 4 <= |s|
    ensures ToLE(r, 4) == s[HEADER_IMPORTANT_COLORS..HEADER_IMPORTANT_COLORS + 4]
  {
    Field32(s, HEADER_IMPORTANT_COLORS)
  }

  /** The buffer holds every field that locating a pixel reads (the last is bits per pixel). */
  predicate HasPixelFields(s: seq<byte>) { HEADER_BITS_PER_PIXEL < |s| }

  function BytesPerPixel(s: seq<byte>): nat
    requires HasPixelFields(s)
  {
    BitsPerPixel(s) / 8
  }

  /** Unpadded bytes of one scan line. */
  function RowWidth(s: seq<byte>): nat
    requires HasPixelFields(s)
  {
    Width(s) * BytesPerPixel(s)
  }

  /** Padding of a scan line of `rowWidth` bytes, as the pixel accessor computes it. */
  function LinePadding(rowWidth: nat): nat
  {
    (4 - rowWidth % 4) % 4
  }

  /** Bytes of one scan line including padding, as the pixel accessor computes it. */
  function PaddedRowWidth(s: seq<byte>): nat
    requires HasPixelFields(s)
  {
    RowWidth(s) + LinePadding(RowWidth(s))
  }

  /** `n` rounded up to a multiple of 4, as the buffer factory and the padding getter compute it. */
  function RoundUp4(n: nat): nat
  {
    var remainder := n % 4;
    if remainder != 0 then n + (4 - remainder) else n
  }

  /** The padding getter computes in `u32`; this is the condition under which nothing overflows. */
  predicate PaddingFits(s: seq<byte>)
  {
    HasPixelFields(s) && RoundUp4(RowWidth(s)) <= U32_MAX
  }

  /**
   * The per-line padding getter: at most 3 bytes, completing the scan line to a multiple of 4,
   * and equal to the padding the pixel accessor uses.
   */
  function PaddingPerLine(s: seq<byte>): (r: byte)
    requires PaddingFits(s)
    ensures r <= 3
    ensures (RowWidth(s) + r) % 4 == 0
    ensures r == PaddedRowWidth(s) - RowWidth(s)
  {
    PaddingArithmetic(RowWidth(s));
    RoundUp4(RowWidth(s)) - RowWidth(s)
  }

  predicate PaddingSizeFits(s: seq<byte>)
  {
    PaddingFits(s) && PaddingPerLine(s) * Height(s) <= U32_MAX
  }

  /** The total padding: the accessor's per-line padding times the number of lines, at most 3 each. */
  function PaddingSize(s: seq<byte>): (r: u32)
    requires PaddingSizeFits(s)
    ensures r == (PaddedRowWidth(s) - RowWidth(s)) * Height(s)
    ensures r <= 3 * Height(s)
  {
    var perLine, lines := PaddingPerLine(s), Height(s);
    assert perLine == PaddedRowWidth(s) - RowWidth(s) && perLine <= 3;
    MulMonotone(perLine, 3, lines);
    perLine * lines
  }

  /**
   * Rounding up to a multiple of 4 adds between 0 and 3 bytes, yields the least multiple of 4
   * that is at least `n`, and adds exactly what the accessor's padding formula adds.
   */
  lemma PaddingArithmetic(n: nat)
    ensures 0 <= RoundUp4(n) - n <= 3
    ensures RoundUp4(n) % 4 == 0
    ensures forall m: nat :: n <= m && m % 4 == 0 ==> RoundUp4(n) <= m
    ensures RoundUp4(n) - n == LinePadding(n)
  {
  }

  /** Two buffers with the same 54 header bytes decode to the same header. */
  lemma SameHeaderSameFields(s: seq<byte>, t: seq<byte>)
    requires TOTAL_HEADER_SIZE <= |s| && TOTAL_HEADER_SIZE <= |t|
    requires s[..TOTAL_HEADER_SIZE] == t[..TOTAL_HEADER_SIZE]
    ensures Width(s) == Width(t) && Height(s) == Height(t)
    ensures BitsPerPixel(s) == BitsPerPixel(t) && PixelArrayOffset(s) == PixelArrayOffset(t)
    ensures FileSize(s) == FileSize(t) && SizeOfInfoHeader(s) == SizeOfInfoHeader(t)
    ensures Planes(s) == Planes(t) && Compression(s) == Compression(t)
    ensures ImageSize(s) == ImageSize(t) && ColorsUsed(s) == ColorsUsed(t)
    ensures ImportantColors(s) == ImportantColors(t)
  {
    SameHeaderSameGeometry(s, t);
    SameField(s, t, HEADER_FILE_SIZE, 4);
    SameField(s, t, INFOHEADER_SIZE_OFFSET, 4);
    SameField(s, t, HEADER_PLANES_OFFSET, 2);
    SameField(s, t, HEADER_COMPRESSION_OFFSET, 4);
    SameField(s, t, HEADER_IMAGE_SIZE, 4);
    SameField(s, t, HEADER_COLORS_USED, 4);
    SameField(s, t, HEADER_IMPORTANT_COLORS, 4);
  }

  /** The fields that locate a pixel depend only on the header bytes. */
  lemma SameHeaderSameGeometry(s: seq<byte>, t: seq<byte>)
    requires TOTAL_HEADER_SIZE <= |s| && TOTAL_HEADER_SIZE <= |t|
    requires s[..TOTAL_HEADER_SIZE] == t[..TOTAL_HEADER_SIZE]
    ensures Width(s) == Width(t) && Height(s) == Height(t)
    ensures BitsPerPixel(s) == BitsPerPixel(t) && PixelArrayOffset(s) == PixelArrayOffset(t)
  {
    var n := TOTAL_HEADER_SIZE;
    assert s[HEADER_PIXEL_ARRAY_OFFSET] == s[..n][HEADER_PIXEL_ARRAY_OFFSET];
    assert s[HEADER_BITS_PER_PIXEL] == s[..n][HEADER_BITS_PER_PIXEL];
    assert t[HEADER_PIXEL_ARRAY_OFFSET] == t[..n][HEADER_PIXEL_ARRAY_OFFSET];
    assert t[HEADER_BITS_PER_PIXEL] == t[..n][HEADER_BITS_PER_PIXEL];
    SameField(s, t, HEADER_WIDTH_OFFSET, 4);
    SameField(s, t, HEADER_HEIGHT_OFFSET, 4);
  }

  /** A field inside the header depends only on the header bytes. */
  lemma SameField(s: seq<byte>, t: seq<byte>, off: nat, len: nat)
    requires TOTAL_HEADER_SIZE <= |s| && TOTAL_HEADER_SIZE <= |t|
    requires s[..TOTAL_HEADER_SIZE] == t[..TOTAL_HEADER_SIZE] && off + len <= TOTAL_HEADER_SIZE
    ensures FieldAt(s, off, len) == FieldAt(t, off, len)
  {
    var n := TOTAL_HEADER_SIZE;
    assert s[off..off + len] == s[..n][off..off + len];
    assert t[off..off + len] == t[..n][off..off + len];
  }
}
