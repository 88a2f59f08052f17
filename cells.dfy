/** The output cell of the converter. */
module Cells {
  import opened Text

  /** One character cell: a glyph (a whole UTF-8 sequence cut from the ramp, so
      a byte string rather than the single `char` the header declares), the
      unmodified hue in degrees and saturation ratio, and the lightness ratio
      after the threshold rule. Colour values are reals: the source's floats
      idealised. */
  datatype Cell = Cell(glyph: Bytes, h: real, s: real, l: real)

  /** The colour ranges `rgb_to_hsl` guarantees for every cell it produces. */
  predicate InRange(c: Cell)
  {
    0.0 <= c.h < 360.0 && 0.0 <= c.s <= 1.0 && 0.0 <= c.l <= 1.0
  }
}
