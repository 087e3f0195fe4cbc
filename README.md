# rustic_bitmap in Dafny

A model of `rustic_bitmap`, a small Rust library that writes an uncompressed Windows BMP image
into a byte buffer and then draws on that buffer in place. The
BMP image is a 14-byte file header, a 40-byte info header and a row-padded pixel array. The
model covers three parts:

- **Buffer factory and header codec.** `new_bitmap` works out the padded size, zero-fills the
  buffer and writes the little-endian header fields. The getters decode those fields, compute
  the scan-line padding and read back a pixel.
- **Pixel gate and writer.** `has_file_signature` and `point_exists` form the gate. `draw_point`
  locates a pixel in its padded row and overwrites three bytes, in blue, green, red order.
- **Rasteriser.** Everything here is built on `draw_point`: Bresenham lines, filled circles,
  rectangles, polygons, and bitmap-font characters and strings.

The buffer is an `array<byte>`, where `byte` is the integers 0..255. The drawing operations are
methods that modify it. Each one is proved against a pure specification of the form
`a[..] == Plot(old(a[..]), Shape, c)`:

- `Plot` folds the pure single-pixel write `PutPixel` over a sequence of points.
- `Shape` is the sequence of points the source visits, in the source's order.

The getters and the gate are pure functions of `a[..]`. Lemmas then state what those point
sequences are (the line's end points and steps, the disk, the perimeter, the glyph bits) and
what the writes do to the buffer.

Modules:

- `Primitives`: integer widths, `Point`, `Rgb`.
- `Constants`: the header layout.
- `LittleEndian`: `from_le_bytes` / `to_le_bytes`.
- `Header`: the getters.
- `Pixels`: the gate, reader, writer and `Plot`.
- `Factory` and `FactoryFacts`: `new_bitmap` and what holds of a new buffer.
- `Lines`: `draw_line`.
- `Outlines`: `draw_rectangle`, `draw_polygon`.
- `Circles`: `draw_circle`.
- `Text`: `draw_char`, `draw_string`.

Rust's panics become preconditions:

- a slice index past the end of the buffer;
- `u32` overflow in debug builds;
- a character below space;
- an empty polygon.

The verbatim casts to `i32` are kept exact by preconditions (`FitsI32`, `CircleFitsI32`).

Behaviour the model keeps exactly as the code has it:

- The closing edge of a polygon is drawn from the first vertex to the last, not from the last
  to the first.
- A polygon with one vertex is accepted.
- `new_bitmap` has no failure path for zero dimensions or a bit depth that is not a multiple of 8.
- The pixel-array-offset and bits-per-pixel getters read one byte each.

## Model

| member | source | states |
|---|---|---|
| Constants.HeaderSizes | src/constants.rs:3-5 | the total header is 14 + 40 = 54 bytes, the info header starts right after the file header, and 54 fits in one byte |
| Constants.FieldsLieInHeader | src/constants.rs:8-20 | every multi-byte header field lies after the signature inside the 54 header bytes, and no two fields overlap |
| LittleEndian.FromToLE | src/get.rs:80-81 | decoding the little-endian encoding of a value that fits in `n` bytes gives the value back |
| LittleEndian.ToFromLE | src/lib.rs:58-61 | encoding a decoded byte sequence gives the same bytes back |
| LittleEndian.FromLELowByte | src/get.rs:77 | the first byte of an encoding is the decoded value modulo 256 |
| Header.FieldAt | src/get.rs:79-124 | a getter's value is below 256^n for an n-byte field |
| Header.PixelArrayOffset | src/get.rs:76-78 | reads byte 10, which is the 4-byte field at offset 10 modulo 256 |
| Header.Width | src/get.rs:79-82 | the little-endian encoding of the result is exactly the 4 bytes at offset 18 |
| Header.Height | src/get.rs:83-86 | the little-endian encoding of the result is exactly the 4 bytes at offset 22 |
| Header.BitsPerPixel | src/get.rs:87-89 | reads byte 28, which is the 2-byte field at offset 28 modulo 256 |
| Header.FileSize | src/get.rs:91-94 | the little-endian encoding of the result is exactly the 4 bytes at offset 2 |
| Header.SizeOfInfoHeader | src/get.rs:96-99 | the little-endian encoding of the result is exactly the 4 bytes at offset 14 |
| Header.Planes | src/get.rs:101-104 | the little-endian encoding of the result is exactly the 2 bytes at offset 26 |
| Header.Compression | src/get.rs:106-109 | the little-endian encoding of the result is exactly the 4 bytes at offset 30 |
| Header.ImageSize | src/get.rs:111-114 | the little-endian encoding of the result is exactly the 4 bytes at offset 34 |
| Header.ColorsUsed | src/get.rs:116-119 | the little-endian encoding of the result is exactly the 4 bytes at offset 46 |
| Header.ImportantColors | src/get.rs:121-124 | the little-endian encoding of the result is exactly the 4 bytes at offset 50 |
| Header.PaddingArithmetic | src/get.rs:57-67 | rounding up to a multiple of 4 adds 0..3 bytes, gives the least multiple of 4 at or above the width, and agrees with the `(4 - w % 4) % 4` formula of the pixel locator |
| Header.PaddingPerLine | src/get.rs:55-68 | the per-line padding is at most 3, completes the row width to a multiple of 4, and is the padding the pixel locator uses |
| Header.PaddingSize | src/get.rs:71-73 | the total padding is the locator's per-line padding times the height, and at most 3 times the height |
| Header.SameHeaderSameFields | src/get.rs:76-124 | every getter depends only on the 54 header bytes |
| Header.SameHeaderSameGeometry | src/get.rs:76-89 | width, height, bit depth and pixel-array offset depend only on the 54 header bytes |
| Pixels.HasFileSignature | src/lib.rs:248-250 | holds exactly when the first two bytes are the ASCII letters `B` and `M` |
| Pixels.PointExists | src/lib.rs:122-128 | false without the signature; with it, true exactly when x < width and y < height |
| Pixels.PixelBase | src/lib.rs:101-110 | the located offset of a pixel is never below the pixel-array offset |
| Pixels.GetPixel | src/get.rs:24-51 | the read fails exactly when the point is outside the image or its three bytes pass the end of the buffer, failing with the point; otherwise it returns red, green, blue from the bytes at base + 2, base + 1, base |
| Pixels.PutPixel | src/lib.rs:94-120 | the write keeps the length, changes nothing unless the gate passes, and otherwise sets exactly bytes base, base + 1, base + 2 to blue, green, red and keeps every other byte |
| Pixels.WriteTriple | src/lib.rs:113-116 | the three byte writes set blue, green, red at base and keep every other byte |
| Pixels.DrawPoint | src/lib.rs:94-120 | the imperative write leaves the buffer equal to `PutPixel` of the old buffer |
| Pixels.PutPixelKeepsHeader | src/lib.rs:110-116 | one pixel write leaves the 54 header bytes of a well-formed buffer unchanged |
| Pixels.PlotKeepsHeader | src/lib.rs:110-116 | no sequence of pixel writes changes the 54 header bytes of a well-formed buffer |
| Pixels.PixelRoundTrip | src/get.rs:40-47 | on a well-formed buffer (complete header, pixel array after it), reading a pixel right after a write that passed the gate returns the colour written |
| Pixels.DistinctPixelsDisjoint | src/lib.rs:105-110 | with at least three bytes per pixel, two distinct in-bounds pixels occupy disjoint byte triples |
| Pixels.PutPixelOther | src/lib.rs:113-116 | with at least three bytes per pixel, writing one pixel leaves the read value of every other in-bounds pixel unchanged |
| Pixels.PlotEffect | src/lib.rs:94-120 | after a sequence of writes, an in-bounds pixel reads the colour exactly when it is in the sequence, and otherwise reads what it read before |
| Factory.CopyInto | src/lib.rs:53-55 | the byte-copy loop writes the encoded field at its offset and keeps every other byte |
| Factory.WriteHeader | src/lib.rs:47-89 | the header writes turn a zero-filled buffer into the factory's layout |
| Factory.NewBitmap | src/lib.rs:35-92 | the new buffer is fresh and equals the factory's layout for the padded length |
| Factory.BuildBytes | src/lib.rs:46-89 | every byte of a new buffer, one by one: the signature, the five encoded fields, planes = 1, every other byte 0 |
| Factory.BuildFormatFields | src/lib.rs:48-89 | a new buffer has the `BM` signature and decodes to file size = length, pixel-array offset 54 and info-header size 40 |
| Factory.BuildImageFields | src/lib.rs:57-83 | a new buffer decodes to the requested width, height and bit depth (the getter sees the depth modulo 256), with one plane |
| Factory.BuildZeroFields | src/lib.rs:46 | a new buffer's compression, image size, colours used and important colours are 0, as is every byte the factory does not write |
| Factory.BuildFacts | src/lib.rs:46-89 | all the header facts of a new buffer together, and the buffer is well formed (header complete, pixel array after it) |
| FactoryFacts.LayoutFacts | src/lib.rs:35-92 | the buffer `new_bitmap` returns has length padded width × height + 54, and its getters return the values written |
| FactoryFacts.LayoutGeometry | src/lib.rs:37-46 | for a depth below 256, the locator's padded row width equals the factory's, the buffer is exactly header plus height padded rows, and the padding getter returns the padding added |
| FactoryFacts.PixelInsideRows | src/lib.rs:110 | the last byte of a pixel inside the image lies inside its rows |
| FactoryFacts.LayoutInBounds | src/lib.rs:113 | on a new buffer with at least three bytes per pixel, a pixel passes the gate exactly when it is inside the requested width and height |
| FactoryFacts.GateOfRows | src/lib.rs:110-113 | a buffer of the header plus exactly `height` padded rows, with at least three bytes per pixel, passes a point through the gate exactly when it is inside the width and height |
| FactoryFacts.FreshImageIsBlack | src/lib.rs:46 | every in-bounds pixel of a new buffer reads black |
| FactoryFacts.FreshImageDrawThenRead | src/lib.rs:268-270 | on a new buffer a point written inside the image reads back as written, and every other pixel still reads black |
| FactoryFacts.ExampleImage | src/lib.rs:260-270 | the library's 40 × 40 × 24 example: the getters return 40, 40, 24, the length, 40, 1 and 0, and after drawing red at (20, 20) that pixel reads red and (39, 39) reads black |
| Lines.StartTracking | src/lib.rs:152-160 | at the start the loop invariant holds: err = dx − dy + u·dy − v·dx, with u, v the distances still to go (that is, dx − dy − kx·dy + ky·dx after kx, ky steps); max(dx, dy) steps remain |
| Lines.NoOvershoot | src/lib.rs:166-174 | while the end is not reached, an axis advances only if it still has distance to cover |
| Lines.MajorMoves | src/lib.rs:166-174 | every iteration advances the major axis, and both axes on a diagonal |
| Lines.BalancedStep | src/lib.rs:166-174 | one iteration keeps the error-term invariant |
| Lines.StepPreserves | src/lib.rs:166-174 | one iteration keeps the invariant, takes one step closer to the end, moves the major axis by its sign, and moves each coordinate either not at all or by its sign, so neither coordinate's distance to the end grows |
| Lines.TrackingInBox | src/lib.rs:161-175 | under the invariant the cursor lies in the box of the end points, and it is at the end exactly when nothing remains |
| Lines.CursorAtTracking | src/lib.rs:161-175 | the invariant holds for max(dx, dy) iterations, with one step fewer remaining after each |
| Lines.CursorFacts | src/lib.rs:161-165 | every iteration's point is a valid `u32` point, and the loop breaks exactly after max(dx, dy) steps |
| Lines.LinePathEnds | src/lib.rs:151-176 | the line has max(dx, dy) + 1 points, starts at the start point, ends at the end point, and lies in their box |
| Lines.LinePathCountdown | src/lib.rs:161-175 | the i-th point is exactly length − 1 − i steps (Chebyshev distance) from the end point |
| Lines.LinePathConnected | src/lib.rs:166-174 | consecutive points of the line are neighbouring pixels |
| Lines.PointAtToward | src/lib.rs:166-174 | from one iteration's point to the next, each coordinate stays or moves one pixel towards the end point |
| Lines.LinePathMonotone | src/lib.rs:161-175 | along the whole line each coordinate stays or moves one pixel towards the end point, never away from it |
| Lines.LinePathMajor | src/lib.rs:166-174 | along the major axis the i-th point is exactly i pixels from the start |
| Lines.LinePathDistinct | src/lib.rs:161-175 | no point is drawn twice by one line |
| Lines.StraightLineCovers | src/lib.rs:151-176 | a horizontal or vertical line covers exactly the pixels between its end points |
| Lines.LineDrawStep | src/lib.rs:162 | drawing the current point leaves exactly the later iterations' points to draw |
| Lines.DrawLine | src/lib.rs:151-176 | the loop terminates and leaves the buffer as the writes of the line's points, in order |
| Outlines.RectangleIsPerimeter | src/lib.rs:179-186 | a pixel is drawn by the rectangle exactly when it lies on the border of the box of the two corners |
| Outlines.DrawRectangle | src/lib.rs:179-186 | the buffer becomes the writes of the four lines p1→p3, p3→p2, p2→p4, p4→p1 |
| Outlines.DrawPolygon | src/lib.rs:240-245 | for at least one vertex, the buffer becomes the writes of the lines between consecutive vertices and then the line from the first vertex to the last |
| Outlines.ChainMembers | src/lib.rs:241-243 | a point is on the chain exactly when it is on one of its lines |
| Outlines.PolygonMembers | src/lib.rs:240-245 | a pixel is drawn exactly when it is on a line between consecutive vertices or on the closing line from the first vertex to the last |
| Outlines.PolygonVertices | src/lib.rs:240-245 | every vertex is drawn |
| Outlines.DegenerateLine | src/lib.rs:161-165 | a line from a point to itself is that single point |
| Outlines.SingleVertexPolygon | src/lib.rs:240-245 | a one-vertex polygon draws just that vertex |
| Circles.SatSub | src/lib.rs:132 | `saturating_sub`: the least `u32` at or above the exact difference, that is, the difference when it is non-negative and 0 otherwise |
| Circles.SatAdd | src/lib.rs:133 | `saturating_add`: the greatest `u32` at or below the exact sum, that is, the sum when it fits and `u32::MAX` otherwise |
| Circles.RowPointsStep | src/lib.rs:139-146 | one more column adds its pixel exactly when it passes the distance test |
| Circles.DrawCircleRow | src/lib.rs:139-147 | the inner loop leaves the buffer as the writes of the row's disk pixels, left to right |
| Circles.DrawCircle | src/lib.rs:130-149 | the buffer becomes the writes of the disk's pixels, row by row upwards |
| Circles.DiskInBox | src/lib.rs:132-135 | every pixel of the disk lies in the saturated bounding box |
| Circles.RowMembers | src/lib.rs:139-146 | a pixel is in a row's stretch exactly when it is in the row, in the stretch and in the disk |
| Circles.RowsMembers | src/lib.rs:138-147 | a pixel is in a band of rows exactly when it is in the band, in the box's columns and in the disk |
| Circles.CircleIsDisk | src/lib.rs:130-149 | a pixel is drawn exactly when (x − cx)² + (y − cy)² ≤ r² |
| Circles.CircleOrdered | src/lib.rs:138-139 | the disk is drawn in row-then-column order, so no pixel is drawn twice |
| Text.MaskTestIsBit | src/lib.rs:209-212 | the mask test `b & (1 << k) != 0` is bit k of the byte |
| Text.GlyphBitIsBit | src/lib.rs:202-212 | glyph bit i is set exactly when byte i / 8 exists and its bit 7 − i % 8 is 1 |
| Text.BitsValuePrefix | src/lib.rs:203-204 | reading the first n bits of a byte most significant first gives the byte shifted right by 8 − n |
| Text.GlyphBitsMsbFirst | src/lib.rs:203-204 | the eight glyph bits of a byte, read most significant first, spell the byte's value |
| Text.GlyphRowStep | src/lib.rs:200-221 | one more column adds its pixel exactly when its glyph bit is set |
| Text.DrawGlyphRow | src/lib.rs:200-222 | the column loop leaves the buffer as the writes of the row's set bits, in column order |
| Text.DrawChar | src/lib.rs:188-224 | the buffer becomes the writes of the glyph's set bits, rows from top to bottom; an index past the atlas changes nothing, at any position |
| Text.GlyphRowMembers | src/lib.rs:200-221 | a pixel is in a glyph row's points exactly when it is in that row and column range and its bit is set |
| Text.GlyphRowsMembers | src/lib.rs:198-223 | a pixel is in the glyph rows from k up exactly when it is in the glyph box at or above row k and its bit is set |
| Text.GlyphCovers | src/lib.rs:188-224 | a pixel is drawn exactly when the index is in the atlas, the pixel is in the glyph box, and the bit at (height − 1 − row)·width + (width − 1 − column) is set |
| Text.StringFitsPrefix | src/lib.rs:230-237 | a prefix of drawable text is drawable |
| Text.StringStep | src/lib.rs:230-237 | each character appends its glyph's points at the advanced cursor |
| Text.DrawString | src/lib.rs:227-238 | the buffer becomes the writes of the characters' glyph points, in order |
| Text.StringMembers | src/lib.rs:230-237 | a pixel is drawn by the string exactly when it is drawn by one of its characters |
| Text.CharPlacement | src/lib.rs:232-234 | the k-th character, glyph `code − 32`, lands in columns pos.x + k·width up to pos.x + (k + 1)·width and rows pos.y up to pos.y + height |

## Left out

- File output: writing the buffer to a file, as the commented-out examples do, is I/O.
- The `eprintln!` diagnostics: they have no effect on the buffer.
- The font atlas: `src/font.rs` is not part of this model. `FONT_BITMAP`, `FONT_WIDTH` and
  `FONT_HEIGHT` are a `Font` parameter, with glyph bytes as `bv8`.
- `str::chars` and UTF-8 decoding: a string is a sequence of `char`.
- Overflow through preconditions, not wrap-around:
  - `u32` arithmetic: the factory's products, the padding getters, the glyph and cursor
    coordinates;
  - the `u32` to `i32` casts.
- Index arithmetic: `usize` is treated as unbounded.
- Lines.DrawLine: the three `i32` error-term computations, `2 * err`, `err -= dy` and
  `err += dx` (src/lib.rs:166-172), are computed on unbounded integers. From coordinates of 2^30 on
  they can leave the `i32` range, where the source panics in debug builds, and `FitsI32`
  does not exclude that. For example, from (0, 0) to (2^30, 0) the first `2 * err` is 2^31,
  one above `i32::MAX`. The model promises the unbounded result for such lines.
- Outlines.DrawRectangle: its four lines inherit the `i32` gap of `Lines.DrawLine`.
- Outlines.DrawPolygon: its lines inherit the `i32` gap of `Lines.DrawLine`.
- Text.DrawChar: for an index inside the atlas, requires the whole glyph box to lie within
  `u32`, also for columns whose bits are unset, which the source never computes.
- Text.DrawString: inherits that requirement of `Text.DrawChar` for every character, through
  `StringFits`. The glyph-box height is demanded only for non-empty text.
- Pixels.DistinctPixelsDisjoint: below 24 bits per pixel, neighbouring pixels' byte triples
  overlap. So this lemma, `PutPixelOther` and `PlotEffect` are stated only for at least three
  bytes per pixel.
- Nested ifs merged: `draw_char`'s two nested ifs (index in range, bit set) are one `&&` test in
  `Text.DrawGlyphRow`. The inner loops of `draw_char` and `draw_circle` are separate methods
  (`Text.DrawGlyphRow`, `Circles.DrawCircleRow`); the points visited and their order are the same.
