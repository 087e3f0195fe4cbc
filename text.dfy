/**
 * Text rendering from a monospace bitmap font: a glyph is a bit-packed byte sequence read
 * most-significant bit first, row by row from the top of the glyph, and drawn mirrored
 * horizontally; a string is its glyphs side by side.
 */
module Text {
  import opened Primitives
  import opened Pixels

  /**
   * The font atlas: one glyph per character code from 32 (the space) on, each `width` pixels
   * wide and `height` pixels high, packed into bytes.
   */
  datatype Font = Font(glyphs: seq<seq<bv8>>, width: nat, height: nat)

  /** `b` shifted right by `k`: `b / 2^k`, as repeated halving. */
  function Shr(b: nat, k: nat): nat
  {
    if k == 0 then b else Shr(b / 2, k - 1)
  }

  /** Bit `k` of `b`, counting from the least significant bit. */
  function Bit(b: nat, k: nat): nat
  {
    Shr(b, k) % 2
  }

  /** The mask test of `draw_char`: `byte & (1 << position) != 0` on `u8`. */
  predicate MaskTest(b: bv8, position: nat)
    requires position < 8
  {
    b & (1 << position) != 0
  }

  lemma ShiftHalf(b: bv8)
    ensures (b >> 1) as int == (b as int) / 2
  {}

  lemma LowBit(b: bv8)
    ensures (b & 1 != 0) <==> (b as int) % 2 == 1
  {}

  lemma ShiftMask(b: bv8, k: nat)
    requires 1 <= k < 8
    ensures (b & (1 << k) != 0) <==> ((b >> 1) & (1 << (k - 1)) != 0)
  {}

  lemma {:induction false} MaskBitValue(b: bv8, k: nat)
    requires k < 8
    ensures (b & (1 << k) != 0) <==> Bit(b as int, k) == 1
  {
    if k == 0 {
      LowBit(b);
    } else {
      ShiftMask(b, k);
      ShiftHalf(b);
      MaskBitValue(b >> 1, k - 1);
    }
  }

  /** The mask test reads bit `position` of the byte. */
  lemma MaskTestIsBit(b: bv8, position: nat)
    requires position < 8
    ensures MaskTest(b, position) <==> Bit(b as int, position) == 1
  {
    MaskBitValue(b, position);
  }

  /** Bit `bit` of a glyph, numbering bits most-significant first within each byte. */
  predicate GlyphBit(glyph: seq<bv8>, bit: nat)
  {
    bit / 8 < |glyph| && MaskTest(glyph[bit / 8], 7 - bit % 8)
  }

  /** Glyph bit `bit` is bit `7 - bit % 8` of byte `bit / 8`: the first bit of each byte is its top bit. */
  lemma GlyphBitIsBit(glyph: seq<bv8>, bit: nat)
    ensures GlyphBit(glyph, bit) <==> bit / 8 < |glyph| && Bit(glyph[bit / 8] as int, 7 - bit % 8) == 1
  {
    if bit / 8 < |glyph| {
      MaskTestIsBit(glyph[bit / 8], 7 - bit % 8);
    }
  }

  /** The first `n` bits of byte `i` of a glyph, read as a binary number most-significant first. */
  function BitsValue(glyph: seq<bv8>, i: nat, n: nat): nat
  {
    if n == 0 then 0 else 2 * BitsValue(glyph, i, n - 1) + (if GlyphBit(glyph, 8 * i + (n - 1)) then 1 else 0)
  }

  lemma {:induction false} ShrStep(b: nat, k: nat)
    ensures Shr(b, k + 1) == Shr(b, k) / 2
  {
    if k > 0 {
      ShrStep(b / 2, k - 1);
    }
  }

  function Pow2(k: nat): nat
  {
    if k == 0 then 1 else 2 * Pow2(k - 1)
  }

  lemma {:induction false} ShrOfSmall(b: nat, k: nat)
    requires b < Pow2(k)
    ensures Shr(b, k) == 0
  {
    if k > 0 {
      ShrOfSmall(b / 2, k - 1);
    }
  }

  /** The first `n` bits of a byte, read most-significant first, are the byte shifted right by `8 - n`. */
  lemma {:induction false} BitsValuePrefix(glyph: seq<bv8>, i: nat, n: nat)
    requires i < |glyph| && n <= 8
    ensures BitsValue(glyph, i, n) == Shr(glyph[i] as int, 8 - n)
  {
    var b := glyph[i] as int;
    if n == 0 {
      assert Pow2(8) == 256;
      ShrOfSmall(b, 8);
    } else {
      BitsValuePrefix(glyph, i, n - 1);
      var bit := 8 * i + (n - 1);
      assert bit / 8 == i && bit % 8 == n - 1;
      GlyphBitIsBit(glyph, bit);
      ShrStep(b, 8 - n);
    }
  }

  /** Reading the eight bits of a glyph byte most-significant first gives back the byte. */
  lemma GlyphBitsMsbFirst(glyph: seq<bv8>, i: nat)
    requires i < |glyph|
    ensures BitsValue(glyph, i, 8) == glyph[i] as int
  {
    BitsValuePrefix(glyph, i, 8);
  }

  /** The whole glyph box lies inside the `u32` coordinate range. */
  predicate GlyphFits(font: Font, pos: Point)
  {
    pos.x + font.width <= U32_MAX + 1 && pos.y + font.height <= U32_MAX + 1
  }

  /** Linear index, within the glyph, of the bit for glyph row `row` and column `col`. */
  function BitIndex(font: Font, row: nat, col: nat): nat
    requires row < font.height
  {
    (font.height - 1 - row) * font.width + col
  }

  /** The points of glyph row `row` drawn from its first `n` columns, in drawing order. */
  function GlyphRow(font: Font, glyph: seq<bv8>, pos: Point, row: nat, n: nat): seq<Point>
    requires GlyphFits(font, pos) && row < font.height && n <= font.width
  {
    if n == 0 then []
    else
      var col := n - 1;
      GlyphRow(font, glyph, pos, row, n - 1)
      + (if GlyphBit(glyph, BitIndex(font, row, col))
         then [Point(pos.x + (font.width - 1 - col), pos.y + row)] else [])
  }

  /** The points of glyph rows `height - 1` down to `k`, in drawing order. */
  function GlyphRows(font: Font, glyph: seq<bv8>, pos: Point, k: nat): seq<Point>
    requires GlyphFits(font, pos) && k <= font.height
    decreases font.height - k
  {
    if k == font.height then []
    else GlyphRows(font, glyph, pos, k + 1) + GlyphRow(font, glyph, pos, k, font.width)
  }

  /** The points `draw_char` draws; nothing for an index past the end of the atlas. */
  function GlyphPoints(font: Font, index: nat, pos: Point): seq<Point>
    requires index < |font.glyphs| ==> GlyphFits(font, pos)
  {
    if index >= |font.glyphs| then [] else GlyphRows(font, font.glyphs[index], pos, 0)
  }

  lemma GlyphRowStep(font: Font, glyph: seq<bv8>, pos: Point, row: nat, col: nat)
    requires GlyphFits(font, pos) && row < font.height && col < font.width
    ensures GlyphRow(font, glyph, pos, row, col + 1) == GlyphRow(font, glyph, pos, row, col)
      + (if GlyphBit(glyph, BitIndex(font, row, col))
         then [Point(pos.x + (font.width - 1 - col), pos.y + row)] else [])
  {}

  /** The inner loop of `draw_char`: the columns of one glyph row, left to right. */
  method DrawGlyphRow(a: array<byte>, font: Font, glyph: seq<bv8>, pos: Point, row: nat, c: Rgb)
    requires Drawable(a[..]) && GlyphFits(font, pos) && row < font.height
    modifies a
    ensures a[..] == Plot(old(a[..]), GlyphRow(font, glyph, pos, row, font.width), c)
  {
    for col := 0 to font.width
      invariant Drawable(a[..]) && a[..] == Plot(old(a[..]), GlyphRow(font, glyph, pos, row, col), c)
    {
      ghost var drawn := GlyphRow(font, glyph, pos, row, col);
      GlyphRowStep(font, glyph, pos, row, col);
      var bitIndex := (font.height - 1 - row) * font.width + col;
      var byteIndex := bitIndex / 8;
      var bitPosition := 7 - bitIndex % 8;
      assert bitIndex == BitIndex(font, row, col);
      if byteIndex < |glyph| && MaskTest(glyph[byteIndex], bitPosition) {
        var p := Point(pos.x + (font.width - 1 - col), pos.y + row);
        assert GlyphBit(glyph, bitIndex);
        PlotSnoc(old(a[..]), drawn, p, c);
        DrawPoint(a, p, c);
        assert a[..] == Plot(old(a[..]), drawn + [p], c);
      } else {
        assert !GlyphBit(glyph, bitIndex);
        assert drawn + [] == drawn;
      }
    }
  }

  method DrawChar(a: array<byte>, font: Font, index: nat, pos: Point, c: Rgb)
    requires Drawable(a[..]) && (index < |font.glyphs| ==> GlyphFits(font, pos))
    modifies a
    ensures a[..] == Plot(old(a[..]), GlyphPoints(font, index, pos), c)
  {
    if index >= |font.glyphs| {
      return;
    }
    var glyph := font.glyphs[index];
    for row := font.height downto 0
      invariant Drawable(a[..]) && a[..] == Plot(old(a[..]), GlyphRows(font, glyph, pos, row), c)
    {
      ghost var above := GlyphRows(font, glyph, pos, row + 1);
      DrawGlyphRow(a, font, glyph, pos, row, c);
      PlotAppend(old(a[..]), above, GlyphRow(font, glyph, pos, row, font.width), c);
    }
  }

  /** `q` lies in the box of a glyph drawn at `pos`. */
  predicate InGlyphBox(font: Font, pos: Point, q: Point)
  {
    pos.x <= q.x < pos.x + font.width && pos.y <= q.y < pos.y + font.height
  }

  /** The glyph bit that decides pixel `q` of the glyph box: the columns are mirrored. */
  function BitFor(font: Font, pos: Point, q: Point): nat
    requires InGlyphBox(font, pos, q)
  {
    BitIndex(font, q.y - pos.y, font.width - 1 - (q.x - pos.x))
  }

  lemma {:induction false} GlyphRowMembers(font: Font, glyph: seq<bv8>, pos: Point, row: nat, n: nat, q: Point)
    requires GlyphFits(font, pos) && row < font.height && n <= font.width
    ensures q in GlyphRow(font, glyph, pos, row, n) <==>
      q.y == pos.y + row && pos.x + font.width - n <= q.x < pos.x + font.width
      && GlyphBit(glyph, BitFor(font, pos, q))
  {
    if n > 0 {
      GlyphRowMembers(font, glyph, pos, row, n - 1, q);
    }
  }

  lemma {:induction false} GlyphRowsMembers(font: Font, glyph: seq<bv8>, pos: Point, k: nat, q: Point)
    requires GlyphFits(font, pos) && k <= font.height
    ensures q in GlyphRows(font, glyph, pos, k) <==>
      InGlyphBox(font, pos, q) && pos.y + k <= q.y && GlyphBit(glyph, BitFor(font, pos, q))
    decreases font.height - k
  {
    if k < font.height {
      GlyphRowsMembers(font, glyph, pos, k + 1, q);
      GlyphRowMembers(font, glyph, pos, k, font.width, q);
    }
  }

  /**
   * A character covers exactly the pixels of its box whose glyph bit is set; glyph row `r`
   * lands `r` rows above `pos` and glyph column `col` lands `width - 1 - col` columns right
   * of it. An index past the atlas draws nothing.
   */
  lemma GlyphCovers(font: Font, index: nat, pos: Point, q: Point)
    requires index < |font.glyphs| ==> GlyphFits(font, pos)
    ensures q in GlyphPoints(font, index, pos) <==>
      index < |font.glyphs| && InGlyphBox(font, pos, q) && GlyphBit(font.glyphs[index], BitFor(font, pos, q))
  {
    if index < |font.glyphs| {
      GlyphRowsMembers(font, font.glyphs[index], pos, 0, q);
    }
  }

  /**
   * Every character is printable from the space on, and the cursor, advanced by one glyph
   * width per character, stays a `u32` after the last character.
   */
  predicate StringFits(font: Font, text: seq<char>, pos: Point)
  {
    (forall i :: 0 <= i < |text| ==> text[i] as int >= 32)
    && pos.x + |text| * font.width <= U32_MAX && (text != [] ==> pos.y + font.height <= U32_MAX + 1)
  }

  lemma StringFitsPrefix(font: Font, text: seq<char>, pos: Point, n: nat)
    requires StringFits(font, text, pos) && n <= |text|
    ensures StringFits(font, text[..n], pos)
  {
    MulMonotone(n, |text|, font.width);
  }

  /** Where the `k`-th character is drawn. */
  function CharPosition(font: Font, pos: Point, k: nat): Point
    requires pos.x + k * font.width <= U32_MAX
  {
    Point(pos.x + k * font.width, pos.y)
  }

  /** The points of the `k`-th character of the text. */
  function CharPoints(font: Font, text: seq<char>, pos: Point, k: nat): seq<Point>
    requires StringFits(font, text, pos) && k < |text|
  {
    MulMonotone(k + 1, |text|, font.width);
    GlyphPoints(font, text[k] as int - 32, CharPosition(font, pos, k))
  }

  /** The points `draw_string` draws: its characters' glyphs, in order. */
  function StringPoints(font: Font, text: seq<char>, pos: Point): seq<Point>
    requires StringFits(font, text, pos)
    decreases |text|
  {
    if text == [] then []
    else
      var n := |text| - 1;
      StringFitsPrefix(font, text, pos, n);
      StringPoints(font, text[..n], pos) + CharPoints(font, text, pos, n)
  }

  /** One more character: what each iteration of `draw_string` relies on. */
  lemma StringStep(font: Font, text: seq<char>, pos: Point, i: nat)
    requires StringFits(font, text, pos) && i < |text|
    ensures StringFits(font, text[..i], pos) && StringFits(font, text[..i + 1], pos)
    ensures pos.x + (i + 1) * font.width <= U32_MAX
    ensures StringPoints(font, text[..i + 1], pos) == StringPoints(font, text[..i], pos)
      + GlyphPoints(font, text[i] as int - 32, Point(pos.x + i * font.width, pos.y))
  {
    MulMonotone(i + 1, |text|, font.width);
    StringFitsPrefix(font, text, pos, i);
    StringFitsPrefix(font, text, pos, i + 1);
    assert text[..i + 1][..i] == text[..i];
  }

  method DrawString(a: array<byte>, font: Font, text: seq<char>, pos: Point, c: Rgb)
    requires Drawable(a[..]) && StringFits(font, text, pos)
    modifies a
    ensures a[..] == Plot(old(a[..]), StringPoints(font, text, pos), c)
  {
    var xOffset: u32 := pos.x;
    for i := 0 to |text|
      invariant xOffset == pos.x + i * font.width
      invariant StringFits(font, text[..i], pos)
      invariant Drawable(a[..]) && a[..] == Plot(old(a[..]), StringPoints(font, text[..i], pos), c)
    {
      StringStep(font, text, pos, i);
      ghost var drawn := StringPoints(font, text[..i], pos);
      var index := text[i] as int - 32;
      DrawChar(a, font, index, Point(xOffset, pos.y), c);
      PlotAppend(old(a[..]), drawn, GlyphPoints(font, index, Point(xOffset, pos.y)), c);
      xOffset := xOffset + font.width;
    }
    assert text[..|text|] == text;
  }

  /** A character's points depend only on the character and its place, not on what follows. */
  lemma CharPointsPrefix(font: Font, text: seq<char>, pos: Point, n: nat, k: nat)
    requires StringFits(font, text, pos) && k < n <= |text|
    ensures StringFits(font, text[..n], pos)
    ensures CharPoints(font, text[..n], pos, k) == CharPoints(font, text, pos, k)
  {
    StringFitsPrefix(font, text, pos, n);
  }

  /** A pixel of the string belongs to the glyph of one of its characters. */
  lemma {:induction false} StringMembers(font: Font, text: seq<char>, pos: Point, q: Point)
    requires StringFits(font, text, pos)
    ensures q in StringPoints(font, text, pos) <==>
      exists k :: 0 <= k < |text| && q in CharPoints(font, text, pos, k)
    decreases |text|
  {
    if text != [] {
      var n := |text| - 1;
      var prefix := text[..n];
      StringFitsPrefix(font, text, pos, n);
      StringMembers(font, prefix, pos, q);
      assert StringPoints(font, text, pos) == StringPoints(font, prefix, pos) + CharPoints(font, text, pos, n);
      if q in StringPoints(font, prefix, pos) {
        var k :| 0 <= k < n && q in CharPoints(font, prefix, pos, k);
        CharPointsPrefix(font, text, pos, n, k);
      }
      if exists k :: 0 <= k < |text| && q in CharPoints(font, text, pos, k) {
        var k :| 0 <= k < |text| && q in CharPoints(font, text, pos, k);
        if k < n {
          CharPointsPrefix(font, text, pos, n, k);
          assert q in CharPoints(font, prefix, pos, k);
        }
      }
    }
  }

  /**
   * The `k`-th character is drawn in its own box: `width` columns starting `k * width` columns
   * right of `pos`, and `height` rows from `pos.y`.
   */
  lemma CharPlacement(font: Font, text: seq<char>, pos: Point, k: nat, q: Point)
    requires StringFits(font, text, pos) && k < |text|
    requires q in CharPoints(font, text, pos, k)
    ensures pos.x + k * font.width <= q.x < pos.x + (k + 1) * font.width
    ensures pos.y <= q.y < pos.y + font.height
  {
    MulMonotone(k + 1, |text|, font.width);
    GlyphCovers(font, text[k] as int - 32, CharPosition(font, pos, k), q);
  }
}
