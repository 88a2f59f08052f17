/** The older serialisers of src/json.cpp: a pretty-printed cell list, one cell
    per line, with the glyph written without any escaping, and a manifest
    without the media type. */
module LegacyJson {
  import opened Text
  import opened Cells
  import opened JsonText
  import opened Writer
  import Converter

  const LEGACY_G: string := "    { \"g\": \""

  /** One cell's line (without its line feed): the glyph bytes exactly as they
      are, the same scaled fields as the compact writer, and a comma unless the
      cell is the last. */
  function LegacyLine(c: Cell, comma: bool): string
  {
    LEGACY_G + c.glyph + "\", \"h\": " + NatToString(HueByte(c)) + ", \"s\": " + NatToString(SatByte(c))
      + ", \"l\": " + NatToString(LumByte(c)) + " }" + (if comma then "," else "")
  }

  /** The lines of the legacy cell list: the opening brace and key, one line
      per cell, the closing bracket and brace. */
  function LegacyLines(cells: seq<Cell>): (ls: seq<string>)
    ensures |ls| == |cells| + 4
  {
    ["{", "  \"cells\": ["]
      + seq(|cells|, k requires 0 <= k < |cells| => LegacyLine(cells[k], k + 1 < |cells|))
      + ["  ]", "}"]
  }

  /** Cell `k` is on line `k + 2`. */
  lemma LegacyLineOf(cells: seq<Cell>, k: nat)
    requires k < |cells|
    ensures LegacyLines(cells)[k + 2] == LegacyLine(cells[k], k + 1 < |cells|)
  {
  }

  /** The body of the loop of legacy `write_cells`: one cell's line. */
  method LegacyWriteCell(out: string, c: Cell, comma: bool) returns (out': string)
    ensures out' == out + LegacyLine(c, comma) + "\n"
  {
    out' := out + LEGACY_G + c.glyph + "\", \"h\": " + NatToString(HueByte(c)) + ", \"s\": "
      + NatToString(SatByte(c)) + ", \"l\": " + NatToString(LumByte(c)) + " }";
    if comma {
      out' := out' + ",";
    }
    out' := out' + "\n";
  }

  /** Legacy `write_cells`. */
  method LegacyWriteCells(out: string, cells: seq<Cell>) returns (out': string)
    ensures out' == out + Lines(LegacyLines(cells))
  {
    ghost var ls := LegacyLines(cells);
    assert ls[..0] == [];
    out' := out;
    out' := EmitLine(out', out, ls, 0, "{");
    out' := EmitLine(out', out, ls, 1, "  \"cells\": [");
    var i := 0;
    while i < |cells|
      invariant 0 <= i <= |cells|
      invariant out' == out + Lines(ls[..i + 2])
    {
      ghost var before := out';
      out' := LegacyWriteCell(out', cells[i], i + 1 < |cells|);
      AppendAssoc(before, LegacyLine(cells[i], i + 1 < |cells|), "\n");
      LegacyLineOf(cells, i);
      assert out' == before + (ls[i + 2] + "\n");
      LinesStep(out, before, ls, i + 2, ls[i + 2] + "\n");
      i := i + 1;
    }
    out' := EmitLine(out', out, ls, |cells| + 2, "  ]");
    out' := EmitLine(out', out, ls, |cells| + 3, "}");
    assert ls[..|cells| + 4] == ls;
  }

  lemma LegacyLinePlain(c: Cell, comma: bool)
    requires '\n' !in c.glyph
    ensures '\n' !in LegacyLine(c, comma)
  {
    NatToStringPlain(HueByte(c));
    NatToStringPlain(SatByte(c));
    NatToStringPlain(LumByte(c));
  }

  /** For `n` cells whose glyphs hold no line feed the legacy list is exactly
      `n + 4` lines. */
  lemma LegacyLineCount(cells: seq<Cell>)
    requires forall k :: 0 <= k < |cells| ==> '\n' !in cells[k].glyph
    ensures CountChar(Lines(LegacyLines(cells)), '\n') == |cells| + 4
  {
    var ls := LegacyLines(cells);
    forall j | 0 <= j < |ls| ensures '\n' !in ls[j] {
      if 2 <= j < |cells| + 2 {
        LegacyLinePlain(cells[j - 2], j - 1 < |cells|);
      }
    }
    LinesCount(ls);
  }

  /** Every cell line but the last ends with a comma; the last ends with the
      closing brace of its object. */
  lemma LegacyCommas(cells: seq<Cell>, k: nat)
    requires k < |cells|
    ensures var line := LegacyLines(cells)[k + 2];
      |line| > 0 && (line[|line| - 1] == ',' <==> k + 1 < |cells|)
      && (k + 1 == |cells| ==> line[|line| - 1] == '}')
  {
    LegacyLineOf(cells, k);
  }

  /** With no escaping, a quote glyph closes the JSON string at once: a reader
      takes the glyph to be empty. */
  lemma LegacyQuoteGlyphReadsEmpty(c: Cell, comma: bool)
    requires c.glyph == "\""
    ensures var line := LegacyLine(c, comma);
      |LEGACY_G| <= |line| && ReadString(line[|LEGACY_G|..]).Some?
      && ReadString(line[|LEGACY_G|..]).value.0 == [] != c.glyph
  {
    var line := LegacyLine(c, comma);
    var rest := line[|LEGACY_G|..];
    assert line == LEGACY_G + (c.glyph + line[|LEGACY_G| + 1..]);
    assert rest[0] == '"';
  }

  /** The lines of legacy `write_manifest`. */
  function LegacyManifestLines(img: Converter.ImageBuffer, fps: int, frameCount: int): (ls: seq<string>)
    ensures |ls| == 7
  {
    ["{",
     COLS_KEY + NatToString(img.width) + ",",
     ROWS_KEY + NatToString(img.height / 2) + ",",
     CHANNELS_KEY + NatToString(img.channels) + ",",
     FPS_KEY + IntToString(fps) + ",",
     FRAME_COUNT_KEY + IntToString(frameCount),
     "}"]
  }

  /** The legacy manifest is the current one without its media-type line. */
  lemma LegacyManifestDropsType(img: Converter.ImageBuffer, kind: string, fps: int, frameCount: int)
    ensures var ls := ManifestLines(img, kind, fps, frameCount);
      LegacyManifestLines(img, fps, frameCount) == ls[..4] + ls[5..]
  {
  }

  /** Legacy `write_manifest`. */
  method LegacyWriteManifest(out: string, img: Converter.ImageBuffer, fps: int, frameCount: int)
    returns (out': string)
    ensures out' == out + Lines(LegacyManifestLines(img, fps, frameCount))
  {
    var l0, l1, l2, l3 := "{", COLS_KEY + NatToString(img.width) + ",",
      ROWS_KEY + NatToString(img.height / 2) + ",", CHANNELS_KEY + NatToString(img.channels) + ",";
    var l4, l5, l6 := FPS_KEY + IntToString(fps) + ",", FRAME_COUNT_KEY + IntToString(frameCount), "}";
    ghost var ls := [l0, l1, l2, l3, l4, l5, l6];
    assert ls == LegacyManifestLines(img, fps, frameCount);
    assert ls[..0] == [];
    out' := out;
    out' := EmitLine(out', out, ls, 0, l0);
    out' := EmitLine(out', out, ls, 1, l1);
    out' := EmitLine(out', out, ls, 2, l2);
    out' := EmitLine(out', out, ls, 3, l3);
    out' := EmitLine(out', out, ls, 4, l4);
    out' := EmitLine(out', out, ls, 5, l5);
    out' := EmitLine(out', out, ls, 6, l6);
    assert ls[..7] == ls;
  }
}
