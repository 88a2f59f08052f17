/** Frame assembly: the dimension arithmetic of `resize_image_pixels` and the
    pixel-to-cell loop of `pixels_to_cells`. Decoding and resampling are done by
    stb; their pixel values enter the model as parameters. */
module Converter {
  import opened Text
  import opened Ramps
  import opened Color
  import opened Cells

  /** Interleaved channel samples, row-major from the top. */
  datatype ImageBuffer = ImageBuffer(pixels: seq<Sample>, width: nat, height: nat, channels: nat)

  predicate Valid(img: ImageBuffer)
  {
    |img.pixels| == img.width * img.height * img.channels
  }

  /** `height * target_width / width` in `int` arithmetic; all operands are
      non-negative, so truncation and floor agree. */
  function ResizedHeight(height: nat, width: nat, targetWidth: nat): (h: nat)
    requires width > 0
    ensures h * width <= height * targetWidth < (h + 1) * width
  {
    var p := height * targetWidth;
    assert p == (p / width) * width + p % width;
    p / width
  }

  /** `resize_image_pixels`: the output is `targetWidth` wide and proportionally
      tall (rounded down); `resampled` stands for what `stbir_resize_uint8` writes
      into the buffer it is handed. */
  function ResizeImagePixels(img: ImageBuffer, targetWidth: nat, resampled: seq<Sample>): (r: ImageBuffer)
    requires img.width > 0
    requires |resampled| == targetWidth * ResizedHeight(img.height, img.width, targetWidth) * img.channels
    ensures Valid(r)
    ensures r.width == targetWidth && r.channels == img.channels
    ensures r.height * img.width <= img.height * targetWidth < (r.height + 1) * img.width
  {
    ImageBuffer(resampled, targetWidth, ResizedHeight(img.height, img.width, targetWidth), img.channels)
  }

  function Clamp01(x: real): (t: real)
    ensures 0.0 <= t <= 1.0
    ensures 0.0 <= x <= 1.0 ==> t == x
  {
    if x < 0.0 then 0.0 else if x > 1.0 then 1.0 else x
  }

  /** `std::round`: halves round away from zero. */
  function Round(x: real): int
  {
    if x >= 0.0 then (x + 0.5).Floor else -((-x + 0.5).Floor)
  }

  /** `std::round` lands within one half of its argument. */
  lemma RoundNear(x: real)
    ensures x >= 0.0 ==> x - 0.5 < Round(x) as real <= x + 0.5
    ensures x < 0.0 ==> x - 0.5 <= Round(x) as real < x + 0.5
  {
  }

  /** `round(t * m)`, the scaled rounding at the heart of the ramp index. */
  function ScaledRound(t: real, m: real): int
  {
    Round(t * m)
  }

  /** The ramp index for a lightness on an `n`-glyph ramp:
      `round(clamp(l, 0, 1) * (n - 1))`. */
  function GlyphIndex(l: real, n: nat): (k: int)
    requires n > 0
    ensures 0 <= k < n
    ensures l <= 0.0 ==> k == 0
    ensures l >= 1.0 ==> k == n - 1
  {
    var t, m := Clamp01(l), (n - 1) as real;
    UnitScale(t, m);
    RoundInRange(t * m, n - 1);
    assert ScaledRound(t, m) == Round(t * m);
    ScaledRound(t, m)
  }

  /** A fraction of `m` lies between 0 and `m`. */
  lemma UnitScale(t: real, m: real)
    requires 0.0 <= t <= 1.0 && m >= 0.0
    ensures 0.0 <= t * m <= m
  {
    MulMonoReal(0.0, t, m);
    MulMonoReal(t, 1.0, m);
  }

  /** Rounding a value in [0, top] stays in [0, top]. */
  lemma RoundInRange(x: real, top: nat)
    requires 0.0 <= x <= top as real
    ensures 0 <= Round(x) <= top
  {
    RoundNear(x);
  }

  /** A lighter pixel never gets a sparser glyph. */
  lemma GlyphIndexMonotone(l1: real, l2: real, n: nat)
    requires n > 0 && l1 <= l2
    ensures GlyphIndex(l1, n) <= GlyphIndex(l2, n)
  {
    Clamp01Mono(l1, l2);
    ScaledRoundMono(Clamp01(l1), Clamp01(l2), (n - 1) as real);
  }

  lemma Clamp01Mono(x: real, y: real)
    requires x <= y
    ensures Clamp01(x) <= Clamp01(y)
  {
  }

  lemma ScaledRoundMono(t1: real, t2: real, m: real)
    requires 0.0 <= t1 <= t2 && m >= 0.0
    ensures ScaledRound(t1, m) <= ScaledRound(t2, m)
  {
    MulMonoReal(t1, t2, m);
    FloorMono(t1 * m + 0.5, t2 * m + 0.5);
  }

  lemma MulMonoReal(a: real, b: real, m: real)
    requires a <= b && m >= 0.0
    ensures a * m <= b * m
  {
    assert b * m - a * m == (b - a) * m;
  }

  lemma FloorMono(a: real, b: real)
    requires a <= b
    ensures a.Floor <= b.Floor
  {
  }

  /** The "burn-out" threshold rule: any lightness above the threshold becomes 1. */
  function BurnOut(l: real, threshold: real): real
  {
    if l > threshold then 1.0 else l
  }

  lemma {:induction false} MulMono(a: nat, b: nat, c: nat)
    requires a <= b
    ensures a * c <= b * c
    decreases c
  {
    if c > 0 {
      MulMono(a, b, c - 1);
      assert a * c == a * (c - 1) + a;
      assert b * c == b * (c - 1) + b;
    }
  }

  /** The three channels of pixel (x, y) lie inside a valid buffer. */
  lemma PixelInBounds(w: nat, h: nat, ch: nat, x: nat, y: nat)
    requires x < w && y < h && ch >= 3
    ensures (y * w + x) * ch + 2 < w * h * ch
  {
    MulMono(y + 1, h, w);
    assert (y + 1) * w == y * w + w;
    var p := y * w + x;
    assert p + 1 <= h * w;
    MulMono(p + 1, h * w, ch);
    assert (p + 1) * ch == p * ch + ch;
    assert h * w * ch == w * h * ch;
  }

  /** The HSL of the pixel at column x, row y, from its first three channels. */
  function PixelHsl(img: ImageBuffer, x: nat, y: nat): (c: HSL)
    requires Valid(img) && img.channels >= 3
    requires x < img.width && y < img.height
    ensures 0.0 <= c.h < 360.0 && 0.0 <= c.s <= 1.0 && 0.0 <= c.l <= 1.0
  {
    var idx := (y * img.width + x) * img.channels;
    PixelInBounds(img.width, img.height, img.channels, x, y);
    RgbToHsl(img.pixels[idx], img.pixels[idx + 1], img.pixels[idx + 2])
  }

  /** The cell made from the pixel at column x, row y: its HSL, the threshold
      rule on its lightness, and the ramp glyph that lightness quantises to. */
  function PixelCell(img: ImageBuffer, glyphs: seq<Bytes>, threshold: real, x: nat, y: nat): (c: Cell)
    requires Valid(img) && img.channels >= 3 && |glyphs| > 0
    requires x < img.width && y < img.height
  {
    var hsl := PixelHsl(img, x, y);
    var adjusted := BurnOut(hsl.l, threshold);
    Cell(glyphs[GlyphIndex(adjusted, |glyphs|)], hsl.h, hsl.s, adjusted)
  }

  /** The first `n` cells of pixel row `y`, left to right. */
  function RowCells(img: ImageBuffer, glyphs: seq<Bytes>, threshold: real, y: nat, n: nat): (row: seq<Cell>)
    requires Valid(img) && img.channels >= 3 && |glyphs| > 0
    requires y < img.height && n <= img.width
    ensures |row| == n
    ensures forall x :: 0 <= x < n ==> row[x] == PixelCell(img, glyphs, threshold, x, y)
    decreases n
  {
    if n == 0 then [] else RowCells(img, glyphs, threshold, y, n - 1) + [PixelCell(img, glyphs, threshold, n - 1, y)]
  }

  /** The number of cell rows: every other pixel row, starting with the first. */
  function CellRows(height: nat): nat { (height + 1) / 2 }

  /** The cells of the first `rows` cell rows (pixel rows 0, 2, 4, ...),
      row after row. */
  function FrameCells(img: ImageBuffer, glyphs: seq<Bytes>, threshold: real, rows: nat): (cells: seq<Cell>)
    requires Valid(img) && img.channels >= 3 && |glyphs| > 0
    requires rows <= CellRows(img.height)
    ensures |cells| == rows * img.width
    decreases rows
  {
    if rows == 0 then []
    else
      FrameCells(img, glyphs, threshold, rows - 1) + RowCells(img, glyphs, threshold, 2 * (rows - 1), img.width)
  }

  /** Cell `r * width + x` is made from pixel column x of pixel row 2r: the
      cells are row-major, one cell row per pair of pixel rows. */
  lemma {:induction false} FrameCellsIndex(img: ImageBuffer, glyphs: seq<Bytes>, threshold: real, rows: nat, r: nat, x: nat)
    requires Valid(img) && img.channels >= 3 && |glyphs| > 0
    requires rows <= CellRows(img.height)
    requires r < rows && x < img.width
    ensures r * img.width + x < |FrameCells(img, glyphs, threshold, rows)|
    ensures 2 * r < img.height
    ensures FrameCells(img, glyphs, threshold, rows)[r * img.width + x] == PixelCell(img, glyphs, threshold, x, 2 * r)
    decreases rows
  {
    var w := img.width;
    var prev := FrameCells(img, glyphs, threshold, rows - 1);
    var row := RowCells(img, glyphs, threshold, 2 * (rows - 1), w);
    assert FrameCells(img, glyphs, threshold, rows) == prev + row;
    if r < rows - 1 {
      FrameCellsIndex(img, glyphs, threshold, rows - 1, r, x);
    } else {
      assert r * w == |prev|;
      assert (prev + row)[|prev| + x] == row[x];
    }
  }

  /** The inner loop of `pixels_to_cells`: the cells of pixel row `y`, left
      to right, appended to `cells`. */
  method AppendRow(img: ImageBuffer, glyphs: seq<Bytes>, threshold: real, y: nat, cells: seq<Cell>)
    returns (cells': seq<Cell>)
    requires Valid(img) && img.channels >= 3 && |glyphs| > 0 && y < img.height
    ensures cells' == cells + RowCells(img, glyphs, threshold, y, img.width)
  {
    cells' := cells;
    var x := 0;
    while x < img.width
      invariant x <= img.width
      invariant cells' == cells + RowCells(img, glyphs, threshold, y, x)
    {
      var hsl := PixelHsl(img, x, y);
      var adjustedL := BurnOut(hsl.l, threshold);
      var asciiIndex := GlyphIndex(adjustedL, |glyphs|);
      cells' := cells' + [Cell(glyphs[asciiIndex], hsl.h, hsl.s, adjustedL)];
      x := x + 1;
    }
  }

  /** Pixel row `2 * rows` starts a cell row exactly while it is inside the
      image: the loop over every second row visits `CellRows(height)` rows. */
  lemma CellRowsStep(height: nat, rows: nat)
    ensures 2 * rows < height <==> rows < CellRows(height)
  {
  }

  /** `pixels_to_cells`: every other pixel row, every column, in row-major order. */
  method PixelsToCells(img: ImageBuffer, ramp: Bytes, threshold: real) returns (cells: seq<Cell>)
    requires Valid(img) && img.channels >= 3 && |ramp| > 0
    ensures |cells| == CellRows(img.height) * img.width
    ensures cells == FrameCells(img, Segment(ramp), threshold, CellRows(img.height))
  {
    var glyphs := SegmentRamp(ramp);
    cells := [];
    var y := 0;
    ghost var rows := 0;
    while y < img.height
      invariant y == 2 * rows && rows <= CellRows(img.height)
      invariant cells == FrameCells(img, glyphs, threshold, rows)
    {
      CellRowsStep(img.height, rows);
      cells := AppendRow(img, glyphs, threshold, y, cells);
      assert cells == FrameCells(img, glyphs, threshold, rows + 1);
      y := y + 2;
      rows := rows + 1;
    }
    CellRowsStep(img.height, rows);
  }

  /** Every cell keeps the pixel's hue and saturation; its lightness is 1 when
      the raw luma is above the threshold and the raw luma otherwise, so a
      threshold of 1 or more never changes it, and its glyph is the one that
      lightness quantises to. */
  lemma ThresholdRule(img: ImageBuffer, glyphs: seq<Bytes>, threshold: real, x: nat, y: nat)
    requires Valid(img) && img.channels >= 3 && |glyphs| > 0
    requires x < img.width && y < img.height
    ensures var c := PixelCell(img, glyphs, threshold, x, y);
      var raw := PixelHsl(img, x, y);
      && c.h == raw.h && c.s == raw.s
      && (raw.l > threshold ==> c.l == 1.0 && c.glyph == glyphs[|glyphs| - 1])
      && (raw.l <= threshold ==> c.l == raw.l)
      && (threshold >= 1.0 ==> c.l == raw.l)
      && InRange(c)
  {
  }

  /** The threshold the library declares as the default of `pixels_to_cells`,
      and the one the command-line tool passes unless told otherwise. */
  const DEFAULT_THRESHOLD: real := 0.0
  const CLI_THRESHOLD: real := 1.0

  /** Under the library default a frame is two-tone: a black pixel gets the
      first glyph and every other pixel burns out to the last glyph at full
      lightness. The command-line default keeps every pixel's own lightness. */
  lemma DefaultThresholds(img: ImageBuffer, glyphs: seq<Bytes>, x: nat, y: nat)
    requires Valid(img) && img.channels >= 3 && |glyphs| > 0
    requires x < img.width && y < img.height
    ensures var c := PixelCell(img, glyphs, DEFAULT_THRESHOLD, x, y);
      var raw := PixelHsl(img, x, y);
      && (raw.l == 0.0 ==> c.glyph == glyphs[0] && c.l == 0.0)
      && (raw.l > 0.0 ==> c.glyph == glyphs[|glyphs| - 1] && c.l == 1.0)
    ensures PixelCell(img, glyphs, CLI_THRESHOLD, x, y).l == PixelHsl(img, x, y).l
  {
    ThresholdRule(img, glyphs, DEFAULT_THRESHOLD, x, y);
    ThresholdRule(img, glyphs, CLI_THRESHOLD, x, y);
  }

  /** The manifest announces `height / 2` rows, but the converter emits
      `(height + 1) / 2` rows of cells: the two agree exactly when the height is
      even. */
  lemma CellRowsMatchManifest(w: nat, h: nat)
    requires w > 0
    ensures CellRows(h) * w == (h / 2) * w <==> h % 2 == 0
  {
    if h % 2 == 1 {
      assert CellRows(h) == h / 2 + 1;
      assert CellRows(h) * w == (h / 2) * w + w;
    }
  }

  /** Lightness 0.2126 on a ten-glyph ramp picks glyph 2 (round(1.9134)). */
  lemma RedGlyphIndex()
    ensures GlyphIndex(LUMA_R, 10) == 2
  {
    assert Clamp01(LUMA_R) == LUMA_R;
    assert (LUMA_R * 9.0 + 0.5).Floor == 2;
  }

  /** Both pixels of the top row of the all-red image are pure red. */
  lemma RedPixel(img: ImageBuffer, x: nat)
    requires img == ImageBuffer([255, 0, 0, 255, 0, 0, 255, 0, 0, 255, 0, 0], 2, 2, 3)
    requires x < 2
    ensures PixelHsl(img, x, 0) == HSL(0.0, 1.0, LUMA_R)
  {
    PrimaryColours();
    var idx := (0 * img.width + x) * img.channels;
    assert idx == 3 * x;
    assert img.pixels[idx] == 255 && img.pixels[idx + 1] == 0 && img.pixels[idx + 2] == 0;
  }

  /** A 2x2 all-red image with the SIMPLE ramp and threshold 1: each cell is
      the glyph ':' (index round(0.2126 * 9) = 2), hue 0, saturation 1,
      lightness 0.2126. */
  lemma RedImageExample(img: ImageBuffer, x: nat)
    requires img == ImageBuffer([255, 0, 0, 255, 0, 0, 255, 0, 0, 255, 0, 0], 2, 2, 3)
    requires x < 2
    ensures PixelCell(img, Segment(SIMPLE), 1.0, x, 0) == Cell(":", 0.0, 1.0, LUMA_R)
  {
    SimpleGlyphs();
    RedPixel(img, x);
    RedGlyphIndex();
    assert BurnOut(LUMA_R, 1.0) == LUMA_R;
  }
}
