/** The header sizes and the byte offsets of the header fields. */
module Constants {

  const HEADER_SIZE: nat := 14
  const INFOHEADER_SIZE: nat := 40
  const TOTAL_HEADER_SIZE: nat := HEADER_SIZE + INFOHEADER_SIZE

  // File-header offsets
  const HEADER_FILE_SIZE: nat := 2
  const HEADER_PIXEL_ARRAY_OFFSET: nat := 10

  // Info-header offsets
  const HEADER_WIDTH_OFFSET: nat := 18
  const HEADER_HEIGHT_OFFSET: nat := 22
  const HEADER_BITS_PER_PIXEL: nat := 28
  const HEADER_PLANES_OFFSET: nat := 26
  const INFOHEADER_SIZE_OFFSET: nat := 14
  const HEADER_COMPRESSION_OFFSET: nat := 30
  const HEADER_IMAGE_SIZE: nat := 34
  const HEADER_COLORS_USED: nat := 46
  const HEADER_IMPORTANT_COLORS: nat := 50

  /** The two signature bytes, ASCII 'B' and 'M'. */
  const SIGNATURE_B: nat := 66
  const SIGNATURE_M: nat := 77

  /** A header field: its offset and its width in bytes. */
  datatype Field = Field(offset: nat, width: nat) {
    function End(): nat { offset + width }
  }

  /** Every multi-byte field the library reads or writes, as laid out by the format. */
  const FIELDS: seq<Field> := [
    Field(HEADER_FILE_SIZE, 4), Field(HEADER_PIXEL_ARRAY_OFFSET, 4),
    Field(INFOHEADER_SIZE_OFFSET, 4), Field(HEADER_WIDTH_OFFSET, 4),
    Field(HEADER_HEIGHT_OFFSET, 4), Field(HEADER_PLANES_OFFSET, 2),
    Field(HEADER_BITS_PER_PIXEL, 2), Field(HEADER_COMPRESSION_OFFSET, 4),
    Field(HEADER_IMAGE_SIZE, 4), Field(HEADER_COLORS_USED, 4),
    Field(HEADER_IMPORTANT_COLORS, 4)]

  predicate Disjoint(f: Field, g: Field) { f.End() <= g.offset || g.End() <= f.offset }

  /** The whole header is the 14-byte file header followed directly by the 40-byte info header. */
  lemma HeaderSizes()
    ensures TOTAL_HEADER_SIZE == 54
    ensures INFOHEADER_SIZE_OFFSET == HEADER_SIZE
    ensures TOTAL_HEADER_SIZE < 0x100
  {}

  /** Every field lies in the header after the signature, and no two fields overlap. */
  lemma FieldsLieInHeader()
    ensures forall i :: 0 <= i < |FIELDS| ==>
      2 <= FIELDS[i].offset && FIELDS[i].End() <= TOTAL_HEADER_SIZE
    ensures forall i, j :: 0 <= i < j < |FIELDS| ==> Disjoint(FIELDS[i], FIELDS[j])
  {}
}
