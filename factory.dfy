/**
 * The buffer factory: the size of a new image buffer, and the buffer itself, zero-filled
 * with the header fields written.
 */
module Factory {
  import opened Primitives
  import opened Constants
  import opened LittleEndian
  import opened Header
  import opened Pixels

  /** Bytes of one scan line rounded up to a multiple of 4, from the requested bit depth. */
  function PaddedWidth(width: u32, bpp: u16): nat
  {
    RoundUp4(width * (bpp / 8))
  }

  function ImageLength(width: u32, height: u32, bpp: u16): (len: nat)
    ensures len >= TOTAL_HEADER_SIZE
  {
    MulNonNegative(PaddedWidth(width, bpp), height);
    PaddedWidth(width, bpp) * height + TOTAL_HEADER_SIZE
  }

  /** The factory computes in `u32`; this is the condition under which nothing overflows. */
  predicate LayoutFits(width: u32, height: u32, bpp: u16)
  {
    width * (bpp / 8) <= U32_MAX && PaddedWidth(width, bpp) <= U32_MAX
    && ImageLength(width, height, bpp) <= U32_MAX
  }

  /** `s` with `bs` written from offset `off` on. */
  function Put(s: seq<byte>, off: nat, bs: seq<byte>): (r: seq<byte>)
    requires off + |bs| <= |s|
    ensures |r| == |s|
    ensures forall k :: 0 <= k < |s| ==> r[k] == if off <= k < off + |bs| then bs[k - off] else s[k]
  {
    seq(|s|, k requires 0 <= k < |s| => if off <= k < off + |bs| then bs[k - off] else s[k])
  }

  /** The buffer the factory returns, built by the same writes in the same order. */
  function Layout(width: u32, height: u32, bpp: u16): (r: seq<byte>)
    requires LayoutFits(width, height, bpp)
  {
    Build(width, height, bpp, ImageLength(width, height, bpp))
  }

  /** A zero-filled buffer of `len` bytes with the header fields written, in the factory's order. */
  function Build(width: u32, height: u32, bpp: u16, len: nat): (r: seq<byte>)
    requires TOTAL_HEADER_SIZE <= len
    ensures |r| == len
  {
    var s0 := seq(len, _ => 0)[0 := SIGNATURE_B][1 := SIGNATURE_M];
    var s1 := Put(s0, HEADER_PIXEL_ARRAY_OFFSET, ToLE(TOTAL_HEADER_SIZE, 4));
    var s2 := Put(s1, HEADER_WIDTH_OFFSET, ToLE(width, 4));
    var s3 := Put(s2, HEADER_HEIGHT_OFFSET, ToLE(height, 4));
    var s4 := Put(s3, HEADER_BITS_PER_PIXEL, ToLE(bpp, 2));
    var s5 := Put(s4, HEADER_FILE_SIZE, ToLE(len, 4));
    var s6 := s5[HEADER_PLANES_OFFSET := 1];
    Put(s6, INFOHEADER_SIZE_OFFSET, ToLE(INFOHEADER_SIZE, 4))
  }

  /** Copies `bs` into `a` from offset `off` on, one byte at a time. */
  method CopyInto(a: array<byte>, off: nat, bs: seq<byte>)
    requires off + |bs| <= a.Length
    modifies a
    ensures a[..] == Put(old(a[..]), off, bs)
  {
    for i := 0 to |bs|
      invariant forall k :: 0 <= k < a.Length ==>
        a[k] == if off <= k < off + i then bs[k - off] else old(a[k])
    {
      a[off + i] := bs[i];
    }
  }

  method NewBitmap(width: u32, height: u32, bpp: u16) returns (a: array<byte>)
    requires LayoutFits(width, height, bpp)
    ensures fresh(a)
    ensures a[..] == Layout(width, height, bpp)
  {
    var paddedWidth := width * (bpp / 8);
    var remainder := paddedWidth % 4;
    if remainder != 0 {
      paddedWidth := paddedWidth + (4 - remainder);
    }
    assert paddedWidth == PaddedWidth(width, bpp);
    var len := paddedWidth * height + TOTAL_HEADER_SIZE;
    assert len == ImageLength(width, height, bpp);
    a := new byte[len](_ => 0);
    WriteHeader(a, width, height, bpp);
  }

  /** The header writes of the factory on a zero-filled buffer. */
  method WriteHeader(a: array<byte>, width: u32, height: u32, bpp: u16)
    requires TOTAL_HEADER_SIZE <= a.Length
    requires forall k :: 0 <= k < a.Length ==> a[k] == 0
    modifies a
    ensures a[..] == Build(width, height, bpp, a.Length)
  {
    assert a[..] == seq(a.Length, _ => 0);
    a[0] := SIGNATURE_B;
    a[1] := SIGNATURE_M;
    CopyInto(a, HEADER_PIXEL_ARRAY_OFFSET, ToLE(TOTAL_HEADER_SIZE, 4));
    CopyInto(a, HEADER_WIDTH_OFFSET, ToLE(width, 4));
    CopyInto(a, HEADER_HEIGHT_OFFSET, ToLE(height, 4));
    CopyInto(a, HEADER_BITS_PER_PIXEL, ToLE(bpp, 2));
    var fileSize := a.Length;
    CopyInto(a, HEADER_FILE_SIZE, ToLE(fileSize, 4));
    a[HEADER_PLANES_OFFSET] := 1;
    CopyInto(a, INFOHEADER_SIZE_OFFSET, ToLE(INFOHEADER_SIZE, 4));
  }

  /** A byte the factory writes: the signature, or a byte of one of the fields it fills in. */
  predicate WrittenByFactory(k: nat)
  {
    k < 6 || HEADER_PIXEL_ARRAY_OFFSET <= k < HEADER_PLANES_OFFSET + 1
    || HEADER_BITS_PER_PIXEL <= k < HEADER_BITS_PER_PIXEL + 2
  }

  /** Byte `k` of a new buffer of `len` bytes. */
  function ExpectedByte(width: u32, height: u32, bpp: u16, len: nat, k: nat): byte
  {
    if k == 0 then SIGNATURE_B else if k == 1 then SIGNATURE_M
    else if 2 <= k < 6 then ToLE(len, 4)[k - 2]
    else if 10 <= k < 14 then ToLE(TOTAL_HEADER_SIZE, 4)[k - 10]
    else if 14 <= k < 18 then ToLE(INFOHEADER_SIZE, 4)[k - 14]
    else if 18 <= k < 22 then ToLE(width, 4)[k - 18]
    else if 22 <= k < 26 then ToLE(height, 4)[k - 22]
    else if k == 26 then 1
    else if 28 <= k < 30 then ToLE(bpp, 2)[k - 28]
    else 0
  }

  lemma BuildBytes(width: u32, height: u32, bpp: u16, len: nat)
    requires TOTAL_HEADER_SIZE <= len
    ensures var r := Build(width, height, bpp, len);
      forall k :: 0 <= k < len ==> r[k] == ExpectedByte(width, height, bpp, len, k)
  {
  }

  /** A header field of a new buffer decodes to the value written there. */
  lemma DecodeField(width: u32, height: u32, bpp: u16, len: nat, off: nat, n: nat, v: nat)
    requires TOTAL_HEADER_SIZE <= len && off + n <= TOTAL_HEADER_SIZE && v < Pow256(n)
    requires forall j :: 0 <= j < n ==> ExpectedByte(width, height, bpp, len, off + j) == ToLE(v, n)[j]
    ensures FieldAt(Build(width, height, bpp, len), off, n) == v
  {
    var r := Build(width, height, bpp, len);
    BuildBytes(width, height, bpp, len);
    forall j | 0 <= j < n
      ensures r[off + j] == ToLE(v, n)[j]
    {
    }
    FieldFromBytes(r, off, n, v);
  }

  /** A field whose bytes are the encoding of `v` decodes to `v`. */
  lemma FieldFromBytes(s: seq<byte>, off: nat, n: nat, v: nat)
    requires off + n <= |s| && v < Pow256(n)
    requires forall j :: 0 <= j < n ==> s[off + j] == ToLE(v, n)[j]
    ensures FieldAt(s, off, n) == v
  {
    var slice := s[off..off + n];
    forall j | 0 <= j < n
      ensures slice[j] == ToLE(v, n)[j]
    {
      assert slice[j] == s[off + j];
    }
    assert slice == ToLE(v, n);
    FromToLE(v, n);
  }

  /** The file-format fields of a new buffer: signature, file size, pixel-array offset, info-header size. */
  lemma BuildFormatFields(width: u32, height: u32, bpp: u16, len: nat)
    requires TOTAL_HEADER_SIZE <= len <= U32_MAX
    ensures var r := Build(width, height, bpp, len);
      && HasFileSignature(r)
      && FileSize(r) == len
      && FieldAt(r, HEADER_PIXEL_ARRAY_OFFSET, 4) == TOTAL_HEADER_SIZE
      && PixelArrayOffset(r) == TOTAL_HEADER_SIZE
      && SizeOfInfoHeader(r) == INFOHEADER_SIZE
  {
    var r := Build(width, height, bpp, len);
    BuildBytes(width, height, bpp, len);
    Pow256Values();
    DecodeField(width, height, bpp, len, HEADER_FILE_SIZE, 4, len);
    DecodeField(width, height, bpp, len, HEADER_PIXEL_ARRAY_OFFSET, 4, TOTAL_HEADER_SIZE);
    DecodeField(width, height, bpp, len, INFOHEADER_SIZE_OFFSET, 4, INFOHEADER_SIZE);
  }

  /** The image fields of a new buffer: width, height, bit depth and one plane. */
  lemma BuildImageFields(width: u32, height: u32, bpp: u16, len: nat)
    requires TOTAL_HEADER_SIZE <= len <= U32_MAX
    ensures var r := Build(width, height, bpp, len);
      && Width(r) == width && Height(r) == height
      && FieldAt(r, HEADER_BITS_PER_PIXEL, 2) == bpp && BitsPerPixel(r) == bpp % 256
      && Planes(r) == 1
  {
    var r := Build(width, height, bpp, len);
    BuildBytes(width, height, bpp, len);
    Pow256Values();
    DecodeField(width, height, bpp, len, HEADER_WIDTH_OFFSET, 4, width);
    DecodeField(width, height, bpp, len, HEADER_HEIGHT_OFFSET, 4, height);
    DecodeField(width, height, bpp, len, HEADER_BITS_PER_PIXEL, 2, bpp);
    DecodeField(width, height, bpp, len, HEADER_PLANES_OFFSET, 2, 1);
  }

  /** The fields the factory leaves zero, and every byte it does not write. */
  lemma BuildZeroFields(width: u32, height: u32, bpp: u16, len: nat)
    requires TOTAL_HEADER_SIZE <= len <= U32_MAX
    ensures var r := Build(width, height, bpp, len);
      && Compression(r) == 0 && ImageSize(r) == 0 && ColorsUsed(r) == 0 && ImportantColors(r) == 0
      && (forall k :: 0 <= k < len && !WrittenByFactory(k) ==> r[k] == 0)
  {
    BuildBytes(width, height, bpp, len);
    Pow256Values();
    DecodeField(width, height, bpp, len, HEADER_COMPRESSION_OFFSET, 4, 0);
    DecodeField(width, height, bpp, len, HEADER_IMAGE_SIZE, 4, 0);
    DecodeField(width, height, bpp, len, HEADER_COLORS_USED, 4, 0);
    DecodeField(width, height, bpp, len, HEADER_IMPORTANT_COLORS, 4, 0);
  }

  /**
   * A buffer of `len` bytes built by the factory has the signature, and header fields that
   * decode to `len`, the pixel-array offset 54, the info-header size 40, the width, the
   * height, one plane and the bit depth; every other byte is zero.
   */
  lemma BuildFacts(width: u32, height: u32, bpp: u16, len: nat)
    requires TOTAL_HEADER_SIZE <= len <= U32_MAX
    ensures var r := Build(width, height, bpp, len);
      && HasFileSignature(r)
      && FileSize(r) == len
      && FieldAt(r, HEADER_PIXEL_ARRAY_OFFSET, 4) == TOTAL_HEADER_SIZE
      && PixelArrayOffset(r) == TOTAL_HEADER_SIZE
      && SizeOfInfoHeader(r) == INFOHEADER_SIZE
      && Width(r) == width && Height(r) == height
      && FieldAt(r, HEADER_BITS_PER_PIXEL, 2) == bpp && BitsPerPixel(r) == bpp % 256
      && Planes(r) == 1
      && Compression(r) == 0 && ImageSize(r) == 0 && ColorsUsed(r) == 0 && ImportantColors(r) == 0
      && (forall k :: 0 <= k < len && !WrittenByFactory(k) ==> r[k] == 0)
      && WellFormed(r)
  {
    BuildFormatFields(width, height, bpp, len);
    BuildImageFields(width, height, bpp, len);
    BuildZeroFields(width, height, bpp, len);
  }
}
