# rune, modelled in Dafny

rune turns a decoded RGB pixel buffer into a grid of coloured glyph cells.
Each cell is one character of a "ramp" (a string of glyphs ordered from dark
to bright) in the pixel's hue and saturation. The grid is written out in
several text formats. A browser player reads the records back and animates
them. This project models that pipeline's core and proves what each stage
promises:

- **Ramps** (`ramp.dfy`): the UTF-8 segmentation that `pixels_to_cells` runs
  on a ramp, and the five built-in ramps. Segmentation round-trips: the glyphs
  concatenate back to the ramp bytes. The lemmas give the exact glyphs of
  every built-in ramp.
- **Color** (`color.dfy`): `rgb_to_hsl` over real numbers. Lightness is the
  Rec. 709 luma. Hue and saturation come from max, min and delta.
- **Converter** (`converter.dfy`): the dimension arithmetic of
  `resize_image_pixels`, and `pixels_to_cells`. Pixels are sampled on every
  second row. The threshold rule burns out bright pixels, and lightness is
  quantised to a ramp index by `round(clamp(l) * (n - 1))`.
- **Html** (`html.dfy`): `add_html`, the run-length HTML renderer. The loop
  with its run state is proved equal to a run-length specification (`Pieces`).
  That specification is lossless: dropping the markup leaves every glyph in
  order, with a separator before each new row.
- **Writer** (`writer.dfy`) and **LegacyJson** (`legacyjson.dfy`): the
  record writers of `src/writer.cpp` and the older pretty-printed ones of
  `src/json.cpp`. Output streams are growing strings. The gzip sink is the
  sequence of chunks handed to `gzwrite`.
- **JsonText** (`jsontext.dfy`) and **Text** (`text.dfy`): a small JSON
  string and number reader, and the decimal printing of integers. They are
  the partners against which the writers' round trips are stated.
- **Player** (`player.dfy`): the browser player. This covers the flat frame
  store filled from the cell stream, the fps cap and the span layout. It also
  covers the frame-index state machine, and the renderer that rewrites only
  the spans whose cell changed. The player's closure state is the class
  `AsciiPlayer`. The loaded typed arrays are one `FrameStore` value. The DOM
  is two arrays, holding the glyph code and the colour string each span
  shows.

Conventions:

- A C++ `std::string` is a `seq<char>` whose characters stand for bytes
  (`Byte` is a `char` below 256).
- The sources disagree about the type of a cell's glyph, and no single type
  makes them all compile. `include/rune/cell.hpp:7` declares it as one
  `char`, and the writers compare it with character literals
  (`src/writer.cpp:72-86` and `126-139`). The converter assigns a
  `std::string` to it (`src/converter.cpp:358`) and binds it to a
  `const std::string&` (`src/converter.cpp:199`). The model takes the
  converter's reading: `Cell.glyph` is a byte string, the glyph the ramp
  segmentation produced. The writers' escape branches apply only when that
  string is exactly the one character they compare with.
- Floats are idealised as reals. Casts that truncate use `Trunc`. The cast
  to `uint8_t` is truncation reduced modulo 256, which is what the writer's
  fields are for every in-range cell.

The writer and the player disagree about units. The compact writer stores
hue as `h * 255 / 360` and saturation and lightness as `x * 255`. The player
prints the stored numbers as degrees and percentages. The model follows both
as written, and `Player.BlueCellShown` shows the effect.

## Model

| member | source | states |
|---|---|---|
| Ramps.CharLen | src/converter.cpp:323-335 | the length a lead byte announces is between 1 and 4 |
| Ramps.MaskRanges | src/converter.cpp:327-335 | each bit-mask test of the lead byte is the byte range it stands for (ASCII, 0xC0..0xDF, 0xE0..0xEF, 0xF0..0xF7) |
| Ramps.CharLenMasks | src/converter.cpp:324-335 | the length equals the chain of mask tests; it is 2, 3 or 4 exactly on the matching lead-byte ranges, and every other byte (continuation or invalid lead) gives 1 |
| Ramps.Segment | src/converter.cpp:321-339 | there are never more glyphs than bytes, and there are none exactly when the ramp is empty |
| Ramps.SegmentFrom | src/converter.cpp:336-338 | the glyph starting at byte i is the next CharLen bytes, cut at the end of the ramp, followed by the segmentation of the rest |
| Ramps.SegmentRamp | src/converter.cpp:320-339 | the loop produces exactly the segmentation of the ramp |
| Ramps.SegmentConcat | src/converter.cpp:321-339 | concatenating the glyphs gives back the ramp bytes exactly |
| Ramps.SegmentShape | src/converter.cpp:324-338 | every glyph has 1 to 4 bytes and no more than its lead byte announces; every glyph but the last has exactly that many |
| Ramps.SegmentAscii | src/converter.cpp:327-328 | an ASCII ramp segments into one glyph per byte, in order |
| Ramps.SegmentCons | src/converter.cpp:336-338 | a complete glyph at the front is split off as the first glyph |
| Ramps.SimpleGlyphs | include/rune/ramp.hpp:12 | SIMPLE is 10 glyphs: index 0 is a space, 2 is `:` and 9 is `@` |
| Ramps.DenseFront | include/rune/ramp.hpp:13 | the first 40 bytes of DENSE are ASCII, starting with a space, and byte 27 is one backslash |
| Ramps.DenseBack | include/rune/ramp.hpp:13 | the last 29 bytes of DENSE are ASCII and end with `$` |
| Ramps.DenseGlyphs | include/rune/ramp.hpp:13 | DENSE is 69 bytes and 69 glyphs: a space first, `$` last, and the escaped backslash as one glyph at index 27 |
| Ramps.BlocksGlyphs | include/rune/ramp.hpp:14 | BLOCKS segments into a space and the four 3-byte shade and block glyphs, in that order |
| Ramps.DotGlyphs | include/rune/ramp.hpp:15-16 | DOT segments into the full block and the bullet; DOT2 is the full block alone |
| Ramps.BuiltinGlyphCounts | include/rune/ramp.hpp:12-16 | the built-in ramps have 10, 69, 5, 2 and 1 glyphs, so none is empty and `size() - 1` never underflows |
| Color.Max3 | src/converter.cpp:380 | the result is one of the three values and is at least each of them |
| Color.Min3 | src/converter.cpp:381 | the result is one of the three values and is at most each of them |
| Color.Trunc | src/converter.cpp:200-202 | truncation toward zero: the result lies within 1 of x, on the side of zero |
| Color.FModSmall | src/converter.cpp:387 | `fmod(x, 6)` is x itself when x lies strictly between -6 and 6 |
| Color.UnitRatio | src/converter.cpp:387 | a difference of two channels divided by delta lies in [-1, 1] |
| Color.LumaWeightsSumToOne | src/converter.cpp:376 | the three luma weights sum to 1 |
| Color.Hue | src/converter.cpp:384-394 | hue lies in [0, 360), and it is 0 for a grey pixel |
| Color.Saturation | src/converter.cpp:396 | saturation lies in [0, 1], and it is 0 when max equals min |
| Color.RgbToHsl | src/converter.cpp:370-402 | l, s lie in [0, 1] and h in [0, 360); for r = g = b, h = s = 0 and l = r / 255 |
| Color.PrimaryColours | src/converter.cpp:370-402 | pure red, green and blue give hues 0, 120 and 240, saturation 1, and their luma weight as lightness |
| Converter.ResizedHeight | src/converter.cpp:294 | the new height is `height * target_width / width` truncated: the largest h with h * width <= height * target_width |
| Converter.ResizeImagePixels | src/converter.cpp:292-313 | the result has width target_width, the truncated new height, the same channels, and target_width * new_height * channels samples |
| Converter.Clamp01 | src/converter.cpp:354 | the result lies in [0, 1] and equals l when l already does |
| Converter.RoundNear | src/converter.cpp:356 | `round` is within one half of its argument, halves rounded away from zero |
| Converter.GlyphIndex | src/converter.cpp:354-356 | the index lies in [0, n - 1] for a non-empty ramp; lightness <= 0 gives 0 and lightness >= 1 gives n - 1 |
| Converter.GlyphIndexMonotone | src/converter.cpp:354-356 | a brighter pixel never gets an earlier glyph |
| Converter.PixelInBounds | src/converter.cpp:344-347 | the three samples read for pixel (x, y) lie inside a buffer of width * height * channels samples when channels >= 3 |
| Converter.PixelHsl | src/converter.cpp:344-349 | the colour of an in-bounds pixel has h in [0, 360) and s, l in [0, 1] |
| Converter.RowCells | src/converter.cpp:342-363 | the first n cells of a row are the cells of pixels (0, y) .. (n - 1, y), in order |
| Converter.FrameCells | src/converter.cpp:341-364 | a frame of r cell rows has r * width cells |
| Converter.FrameCellsIndex | src/converter.cpp:341-344 | cell r * width + x comes from the pixel at column x, row 2r, and that row exists |
| Converter.AppendRow | src/converter.cpp:342-363 | the inner loop appends exactly the cells of pixel row y |
| Converter.CellRowsStep | src/converter.cpp:341 | pixel row 2r is inside the image exactly when r < (height + 1) / 2, so the stride-2 loop visits that many rows |
| Converter.PixelsToCells | src/converter.cpp:315-367 | the result has ((height + 1) / 2) * width cells, and it is the frame of the ramp's segmentation sampled on every second row |
| Converter.ThresholdRule | src/converter.cpp:352-361 | hue and saturation are the pixel's own; lightness above the threshold becomes 1 with the last glyph, else it is kept; a threshold >= 1 keeps every lightness; the cell is in range |
| Converter.DefaultThresholds | include/rune/converter.hpp:65 | with the declared default 0.0 a black pixel gets the first glyph and every other pixel the last glyph at lightness 1; the command-line default 1.0 (apps/rune_cli.cpp line 24) keeps lightness |
| Converter.CellRowsMatchManifest | src/converter.cpp:341 | the ((height + 1) / 2) * width cells equal the manifest's (height / 2) * width exactly when the height is even |
| Converter.RedGlyphIndex | src/converter.cpp:354-356 | lightness 0.2126 on a ten-glyph ramp picks glyph 2 |
| Converter.RedPixel | src/converter.cpp:370-402 | a red pixel of a concrete 2x2 image has hue 0, saturation 1 and lightness 0.2126 |
| Converter.RedImageExample | src/converter.cpp:341-364 | that pixel becomes a `:` cell of the SIMPLE ramp under threshold 1 |
| Html.KeyOf | src/converter.cpp:200-202 | for an in-range cell the integer key has h in [0, 360) and s, l in [0, 100] |
| Html.SpanHtmlShape | src/converter.cpp:174-182 | a span opens with the `<span style="color:hsl(` tag, ends with `</span>`, and its run text sits immediately before the closing tag, so the run can be read back |
| Html.Pieces | src/converter.cpp:187-226 | after a cell with a glyph, the last piece is the span holding that cell's glyph and key |
| Html.SpansNonEmpty | src/converter.cpp:205-225 | every span holds at least one copy of a non-empty glyph |
| Html.PiecesLossless | src/converter.cpp:187-231 | reading the pieces back gives each non-empty glyph with its key, in cell order, with a separator exactly before each cell i != 0 with i % width == 0 |
| Html.AdjacentSpansDiffer | src/converter.cpp:215-225 | when every cell has a glyph, two consecutive spans differ in glyph or in key |
| Html.SpanHtmlOneLine | src/converter.cpp:174-182 | a span contains no line feed when its run has none |
| Html.RenderOneLine | src/converter.cpp:171-195 | the fragment contains no line feed when no glyph has one (row breaks are a backslash and `n`) |
| Html.ScanRenders | src/converter.cpp:187-229 | the loop's run state, once flushed, renders exactly the run-length pieces of all cells |
| Html.FlushRun | src/converter.cpp:171-185 | flushing clears the run and appends one span holding it, or nothing when it is empty |
| Html.AddHtml | src/converter.cpp:160-232 | the fragment is the rendering of the run-length pieces of the cells, and no cells give the empty string |
| Writer.ToUint8 | src/writer.cpp:90 | the cast gives a value below 256, the truncation of x when x lies in [0, 256) |
| Writer.FieldsInRange | src/writer.cpp:90 | for an in-range cell the h, s, l fields are floor(h * 255 / 360), floor(s * 255) and floor(l * 255), and h never reaches 255 |
| Writer.EscapesInvert | src/writer.cpp:72-85 | each escape is a backslash and a letter that a JSON reader turns back into the escaped character |
| Writer.EscapeRoundTrip | src/writer.cpp:69-88 | an escaped glyph and its closing quote read back as the glyph, leaving the rest |
| Writer.WriteRecord | src/writer.cpp:69-90 | one record is appended to the stream |
| Writer.WriteCells | src/writer.cpp:58-99 | the stream gains the opening, the records joined by commas, and the closing with its newline |
| Writer.FieldsRoundTrip | src/writer.cpp:90 | the three numeric fields read back as the truncated bytes |
| Writer.ParseRecordRoundTrip | src/writer.cpp:69-90 | a record reads back as the cell's glyph and its three bytes |
| Writer.ParseRecordsRoundTrip | src/writer.cpp:66-96 | the comma-joined records read back as the cells' entries, in order, with no trailing comma |
| Writer.CellsRoundTrip | src/writer.cpp:58-99 | a whole `{"cells":[...]}` line reads back as the entries of all cells |
| Writer.EscapeOneLine | src/writer.cpp:80-81 | an escaped glyph holds no raw newline: a lone newline becomes a backslash and `n` |
| Writer.RecordOneLine | src/writer.cpp:80-90 | a record contains no raw newline when its glyph is the single newline, which is escaped, or contains none |
| Writer.CellsRecordOneLine | src/writer.cpp:58-99 | the frame's line contains exactly one raw newline, its last character |
| Writer.GzipMatchesPlain | src/writer.cpp:109-158 | with the whole glyph written, the chunks handed to `gzwrite` concatenate to exactly the bytes `write_cells` writes |
| Writer.GzipAsWrittenSingleBytes | src/writer.cpp:123-142 | as written, the gzip chunks still match the plain stream when every glyph is one byte |
| Writer.GzipAsWrittenDropsBytes | src/writer.cpp:141 | as written, a frame of one full-block cell reaches the gzip sink two bytes shorter than the plain stream |
| Writer.WriteRecordChunks | src/writer.cpp:123-150 | one record's chunks are appended, glyph escaped |
| Writer.WriteCellsGzip | src/writer.cpp:109-158 | the sink gains the frame's chunks, whose concatenation is the plain frame line |
| Writer.WriteHtml | src/writer.cpp:105 | the stream gains the fragment followed by one newline |
| Writer.HtmlFrameOneLine | src/writer.cpp:105 | a frame's HTML line holds exactly one newline when no glyph contains one |
| Writer.ManifestLines | src/writer.cpp:168-175 | the manifest has eight lines |
| Writer.WriteManifest | src/writer.cpp:161-176 | the stream gains the eight manifest lines, each ended by a newline |
| Writer.ManifestLineCount | src/writer.cpp:168-175 | the manifest holds exactly eight newlines when the type has none |
| Writer.ManifestSize | src/writer.cpp:169-171 | the cols, rows and channels lines read back as width, height / 2 and channels |
| Writer.ManifestTiming | src/writer.cpp:173-174 | the fps and frame_count lines read back as the given values |
| JsonText.ReadPlain | src/writer.cpp:87 | a glyph with no quote, backslash or control character, then a quote, reads back as itself |
| JsonText.ReadNatRoundTrip | src/writer.cpp:145-149 | a printed number reads back as itself when no digit follows |
| JsonText.ExpectLiteral | src/writer.cpp:64 | a fixed piece of text is matched and skipped |
| Text.NatToStringRoundTrip | src/writer.cpp:145 | `to_string` of a natural number is all digits and denotes that number |
| Text.IntToStringDigits | src/converter.cpp:175-179 | `to_string` of an integer is digits with a leading minus exactly for negative numbers |
| Text.IntToStringPlain | src/writer.cpp:90 | a printed integer holds no newline, quote or backslash |
| Text.LinesCount | src/writer.cpp:168-175 | text written as lines holds one newline per line when no line contains one |
| LegacyJson.LegacyLines | src/json.cpp:34-56 | the legacy frame has n + 4 lines for n cells |
| LegacyJson.LegacyLineOf | src/json.cpp:41-51 | line k + 2 is the line of cell k, with a comma unless it is the last cell |
| LegacyJson.LegacyWriteCell | src/json.cpp:41-51 | one cell line and its newline are appended |
| LegacyJson.LegacyWriteCells | src/json.cpp:34-56 | the stream gains every line of the legacy frame, each ended by a newline |
| LegacyJson.LegacyLinePlain | src/json.cpp:41-46 | a cell line holds no newline when the glyph has none |
| LegacyJson.LegacyLineCount | src/json.cpp:34-56 | the legacy frame holds exactly n + 4 newlines when no glyph contains one |
| LegacyJson.LegacyCommas | src/json.cpp:48-49 | the last cell line ends with `}` and carries no comma |
| LegacyJson.LegacyQuoteGlyphReadsEmpty | src/json.cpp:42 | the unescaped glyph `"` closes the string early: a JSON reader sees the empty glyph |
| LegacyJson.LegacyManifestLines | src/json.cpp:58-66 | the legacy manifest has seven lines |
| LegacyJson.LegacyManifestDropsType | src/json.cpp:58-66 | the legacy manifest is the current one without its type line |
| LegacyJson.LegacyWriteManifest | src/json.cpp:58-66 | the stream gains the seven legacy manifest lines |
| Player.GlyphCode | player/hugo-integration/static/js/asciiPlayerJsonl.js:145-146 | the stored code is below 2^16; 0 for an empty glyph; the first code point when it fits |
| Player.StoreField | player/hugo-integration/static/js/asciiPlayerJsonl.js:148-150 | a stored field is below the array's range; a missing field is 0; a value in range is kept |
| Player.WriterFieldsKept | player/hugo-integration/static/js/asciiPlayerJsonl.js:133-135 | the h, s, l bytes the compact writer emits reach the typed arrays unchanged |
| Player.BlueCellShown | player/hugo-integration/static/js/asciiPlayerJsonl.js:159-162 | a pure blue cell is written as hue 170 and saturation 255 and shown as `hsl(170, 255%, 18%)` |
| Player.Zeros | player/hugo-integration/static/js/asciiPlayerJsonl.js:132-135 | a fresh typed array holds n zero entries |
| Player.Store | player/hugo-integration/static/js/asciiPlayerJsonl.js:131-135 | the store holds frameCount * cellCount entries |
| Player.FillKeeps | player/hugo-integration/static/js/asciiPlayerJsonl.js:141-152 | filling frame after frame keeps every cell already stored at its slot |
| Player.StoreLayout | player/hugo-integration/static/js/asciiPlayerJsonl.js:141-151 | cell c of frame f is stored at f * cellCount + c |
| Player.ConverterFramesFill | player/hugo-integration/static/js/asciiPlayerJsonl.js:128 | the manifest's rows * cols never exceeds the cells the converter emits per frame |
| Player.HslRoundTrip | player/hugo-integration/static/js/asciiPlayerJsonl.js:54-56 | a colour string reads back as its three numbers |
| Player.HslInjective | player/hugo-integration/static/js/asciiPlayerJsonl.js:159-162 | two colour strings are equal exactly when their three numbers are |
| Player.Frames | player/hugo-integration/static/js/asciiPlayerJsonl.js:141-142 | the parsed frames are the lines' cells, one frame per line |
| Player.StoreFrame | player/hugo-integration/static/js/asciiPlayerJsonl.js:141-151 | storing a frame succeeds exactly when every cell has a glyph, and then the arrays hold the store with that frame added |
| Player.ColorStrings | player/hugo-integration/static/js/asciiPlayerJsonl.js:159-162 | colour string i is the string of the stored h, s, l at i |
| Player.LoadFrames | player/hugo-integration/static/js/asciiPlayerJsonl.js:124-175 | loading succeeds exactly when every line parses with glyphs, and then the arrays hold the flat store and the matching colour strings |
| Player.EffectiveFps | player/hugo-integration/static/js/asciiPlayerJsonl.js:67-70 | fps is maxFps if given, else the manifest's fps unless missing or 0, else 12, capped at 18 |
| Player.ImageManifestPlaysAt12 | player/hugo-integration/static/js/asciiPlayerJsonl.js:67 | a manifest with fps 0 (the writer's default for an image) plays at 12 fps unless maxFps is given |
| Player.DivStep | player/hugo-integration/static/js/asciiPlayerJsonl.js:187 | one more cell adds one line break exactly when it completes a row |
| Player.LayoutLength | player/hugo-integration/static/js/asciiPlayerJsonl.js:182-190 | for n < cellCount, the first n spans come with n / cols line breaks |
| Player.LayoutPrefix | player/hugo-integration/static/js/asciiPlayerJsonl.js:182-190 | laying out more spans only appends nodes |
| Player.LayoutShape | player/hugo-integration/static/js/asciiPlayerJsonl.js:182-190 | span i sits at node i + i / cols, and a line break follows it exactly when (i + 1) % cols == 0 and i < cellCount - 1 |
| Player.InitializeDom | player/hugo-integration/static/js/asciiPlayerJsonl.js:177-191 | the container holds the span layout and cellCount fresh, empty spans |
| Player.NextIndex | player/hugo-integration/static/js/asciiPlayerJsonl.js:250 | the next index stays below frameCount: one more, wrapping to 0 after the last frame |
| Player.AsWrittenAgrees | player/hugo-integration/static/js/asciiPlayerJsonl.js:215 | with two or more frames, setting frameIndex to 1 agrees with the modular step |
| Player.AsWrittenSingleFrameOverruns | player/hugo-integration/static/js/asciiPlayerJsonl.js:194-215 | for a loaded store of one frame, the index after the full render equals frameCount, and every cell the next render reads lies past the glyph, h, s, l and colour arrays |
| Player.PaintAll | player/hugo-integration/static/js/asciiPlayerJsonl.js:197-207 | afterwards every span shows the frame's glyph code and colour string |
| Player.PaintChanges | player/hugo-integration/static/js/asciiPlayerJsonl.js:220-248 | if the spans show the previous frame, they show the current frame afterwards; the spans whose text is written are exactly those whose glyph code changed, and the spans whose colour is written are exactly those whose h, s or l changed |
| Player.AsciiPlayer.constructor | player/hugo-integration/static/js/asciiPlayerJsonl.js:12-39 | a player starts stopped at frame 0, with fps 12, no columns, rows or nodes, empty span arrays, an empty store and onReady not yet called |
| Player.AsciiPlayer.RenderFull | player/hugo-integration/static/js/asciiPlayerJsonl.js:197-216 | the spans show frame 0, onReady is called if still pending, and the index moves to the next frame |
| Player.AsciiPlayer.RenderDiff | player/hugo-integration/static/js/asciiPlayerJsonl.js:219-251 | the spans show the current frame and the index advances modulo frameCount; the store is unchanged |
| Player.AsciiPlayer.RenderFrame | player/hugo-integration/static/js/asciiPlayerJsonl.js:193-251 | each render shows the frame at the index and advances it; onReady is called at most once, on the first full render |
| Player.AsciiPlayer.Tick | player/hugo-integration/static/js/asciiPlayerJsonl.js:253-280 | a stopped player changes nothing, neither its fields nor its spans; a running one takes the new handle, leaves the spans, index and onReady state alone when no frame is due, and renders the indexed frame when one is; size, fps, store and layout never change |
| Player.AsciiPlayer.Install | player/hugo-integration/static/js/asciiPlayerJsonl.js:291-302 | the loaded store and spans are installed, frameIndex is 0, and the player runs |
| Player.AsciiPlayer.Launch | player/hugo-integration/static/js/asciiPlayerJsonl.js:285-302 | cols, rows and the capped fps are set; it succeeds exactly when every line loads; on success the store holds every frame at its slot, the nodes are the layout, the span arrays are fresh and empty, and the player runs from frame 0; on failure it stays stopped with its nodes, spans, frame index and handle kept |
| Player.AsciiPlayer.Start | player/hugo-integration/static/js/asciiPlayerJsonl.js:282-307 | starting a running player succeeds and changes no field; otherwise it takes the manifest's size and fps and succeeds exactly when every line loads; on success it holds the frames, the layout, fresh empty spans and frame 0; on failure it stays stopped with its nodes and spans kept |
| Player.AsciiPlayer.Stop | player/hugo-integration/static/js/asciiPlayerJsonl.js:309-316 | the player stops and the animation handle is cleared; cols, rows, fps, the frame index, the frames, the nodes and the spans are kept |

## Left out

- Image decoding (`load_image_pixels`) and the resampled pixel values of
  `resize_image_pixels` come from foreign libraries. The resampled pixels
  are a parameter; only the dimensions and the buffer length are modelled.
- `convert_video_to_ascii`, `convert_image_to_ascii` and
  `convert_frame_to_ascii` are filesystem, process and stream plumbing around
  the modelled functions.
- `print_progress` is terminal output.
- The command-line tool `apps/rune_cli.cpp` only parses arguments and
  dispatches. Only its default threshold is recorded.
- zlib compression: the gzip sink is the sequence of chunks handed to
  `gzwrite`.
- Floating point: all colour arithmetic is on reals. `round`, `fmod` and the
  casts are exact. Float rounding at boundaries, for instance a lightness
  just above a threshold, is not modelled.
- Writer.ToUint8: a float outside 0..255 cast to `uint8_t` is undefined
  behaviour in C++. The model reduces the truncation modulo 256, and its
  contract states the result only for values in range.
- Color.Hue: `fmod` is stated only for the arguments `rgb_to_hsl` passes
  it, which lie in [-1, 1].
- `\uXXXX` escapes: the writers emit none, and the JSON reader of the model
  does not accept them.
- Player.GlyphCode: the contract states the stored code for glyphs whose
  first code point fits in 16 bits. The reduction modulo 2^16 of larger code
  points is in the body only.
- Player.StoreField: the contract states the stored value for missing fields
  and for values inside the array's range. The reduction modulo the range is
  in the body only.
- The player's network and decoding (`fetch`, pako, `TextDecoder`,
  `JSON.parse`) are not modelled. The lines arrive already parsed into cells,
  and a glyph is its list of code points. A line that fails to parse, or a
  cell without a glyph, is a failed load.
- `text.trim().split('\n')` always yields at least one line. Start and
  Launch therefore take a non-empty list of lines.
- When loading fails, the player in the browser keeps whatever it had filled
  in before the exception. Player.AsciiPlayer.Launch states that the
  player stays stopped with its nodes and spans kept; the store it leaves is
  unspecified.
- Tick timing: the `requestAnimationFrame` handle and the accumulator
  arithmetic are reduced to a `due` flag and a handle parameter. FPS logging
  and logger.js are left out.
- The glyph cache is the code point itself. A span's text is modelled by the
  glyph code it shows, and its colour by the colour string.
- The DOM is two arrays, one holding the glyph code and one the colour
  string of each span. The container's nodes are a list of spans and line
  breaks. How the browser styles an out-of-range `hsl()` value is not
  modelled.
- Writer.WriteCellsGzip: it hands `gzwrite` the whole glyph, not the one
  byte of `src/writer.cpp:141` (see Findings). The code as written is
  modelled by Writer.GzipChunksAsWritten, with the byte it writes idealised
  as the glyph's first byte.
- Writer.WriteRecordChunks: the per-record step of Writer.WriteCellsGzip, with
  the same correction: a verbatim glyph is handed over whole, not as the one
  byte of `src/writer.cpp:141`.
- Integers are unbounded. The C++ `int` arithmetic of the converter, such as
  `height * target_width` in `src/converter.cpp:294`, the buffer size on
  line 296 and the sample index `(y * width + x) * channels` on line 344, is
  not reduced to 32 bits, so overflow on very large images is not modelled.
  The same holds for the player's offsets `frameIndex * cellCount`.
- Player.AsciiPlayer.RenderFull: the model reduces the index modulo
  frameCount after the full render (see Findings). The code as written is
  modelled by Player.NextIndexAsWritten.
- Player.AsciiPlayer.RenderFrame: it carries RenderFull's corrected step, so
  after frame 0 it ensures `NextIndex(0, frameCount)` where
  `asciiPlayerJsonl.js:215` sets 1.
- Player.AsciiPlayer.Tick: a due tick renders through RenderFrame and carries
  the same corrected step after frame 0.
- Player.AsciiPlayer.Start: `start()` is modelled as one atomic step, but in
  `asciiPlayerJsonl.js:282-307` it awaits `loadManifest()` (line 286) and
  `loadFrames()` (line 289) before it sets `running` at line 301. Calls made
  while it awaits are not modelled: a `stop()` made then finds the player
  already stopped and is overridden when the load completes (lines 301-302),
  and a second `start()` passes the guard at line 283, loads again, rebuilds
  the DOM and schedules a second tick loop. The contract `old(running) ==> ok
  && unchanged(this)` covers only calls that do not overlap a load.
- Player.AsciiPlayer.Launch: the same atomic reading. The fields it sets
  (cols, rows, fps, then the store, the spans and `running`) are set at
  different awaits in the source, and the intermediate states between them
  are not modelled.
- Html.AdjacentSpansDiffer: this is stated for frames whose cells all have
  a glyph. An empty glyph ends a run without printing anything, so the spans
  on either side of it may share a key.

## Findings

| source | as written | input that shows it | evidently intended | confidence | as-written member | corrected member |
|---|---|---|---|---|---|---|
| src/writer.cpp:141 | `write_cells_gzip` hands `gzwrite` a single byte for a glyph it does not escape. This rests on the string reading of the glyph (see Conventions): with a `std::string` glyph, `&c.glyph` is the address of the string object, so the byte written is not even the glyph's own. Writer.GlyphChunkAsWritten idealises it as the glyph's first byte. With cell.hpp's `char` glyph the line writes the whole glyph and there is no defect | a cell whose glyph is the 3-byte full block of the BLOCKS and DOT ramps: the gzip stream is two bytes shorter than the `write_cells` line and no longer valid UTF-8 | the whole glyph is written, as `write_cells` does at line 87 | not executed | Writer.GzipAsWrittenDropsBytes | Writer.WriteCellsGzip |
| player/hugo-integration/static/js/asciiPlayerJsonl.js:215 | after the full render of frame 0, frameIndex becomes 1 without the reduction modulo frameCount used at line 250 | a stream of one frame: the next render reads frame 1, past the end of the typed arrays, and diffs it against frame 0 | frameIndex becomes 1 % frameCount, so a single frame stays on frame 0 | not executed | Player.AsWrittenSingleFrameOverruns | Player.AsciiPlayer.RenderFull |
