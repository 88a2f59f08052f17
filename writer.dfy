/** The record serialisers of src/writer.cpp. A stream is modelled as the text
    written to it so far: each writer takes that text and returns it extended.
    The gzip sink is modelled as the list of chunks handed to `gzwrite`, before
    compression. */
module Writer {
  import opened Text
  import opened Cells
  import opened JsonText
  import Color
  import Converter
  import Ramps
  import Html

  /** `static_cast<uint8_t>` of a float: truncation toward zero, then the value
      taken modulo 256 (C++ leaves an out-of-range conversion undefined; this
      model wraps). */
  function ToUint8(x: real): (b: nat)
    ensures b < 256
    ensures 0.0 <= x < 256.0 ==> b as real <= x < b as real + 1.0
  {
    Color.Trunc(x) % 256
  }

  /** The three numeric fields of a record: hue scaled from degrees, saturation
      and lightness from ratios, each to 0..255. */
  function HueByte(c: Cell): nat { ToUint8(c.h * 255.0 / 360.0) }
  function SatByte(c: Cell): nat { ToUint8(c.s * 255.0) }
  function LumByte(c: Cell): nat { ToUint8(c.l * 255.0) }

  /** For a cell whose colour is in range no field wraps: each is the truncated
      scaled value, and hue never reaches 255. */
  lemma FieldsInRange(c: Cell)
    requires InRange(c)
    ensures HueByte(c) == (c.h * 255.0 / 360.0).Floor && HueByte(c) < 255
    ensures SatByte(c) == (c.s * 255.0).Floor && LumByte(c) == (c.l * 255.0).Floor
  {
    assert 0.0 <= c.h * 255.0 / 360.0 < 255.0;
    assert 0.0 <= c.s * 255.0 <= 255.0;
    assert 0.0 <= c.l * 255.0 <= 255.0;
  }

  /** The two-character escape of a glyph that is exactly one of the seven
      characters the writer escapes. */
  function EscapeChar(ch: char): Option<string>
  {
    match ch
    case '\\' => Some("\\\\")
    case '"' => Some("\\\"")
    case '\U{8}' => Some("\\b")
    case '\U{C}' => Some("\\f")
    case '\n' => Some("\\n")
    case '\r' => Some("\\r")
    case '\t' => Some("\\t")
    case _ => None
  }

  /** The glyph as it appears between the quotes of a record: an escape when
      the glyph is exactly one of the escaped characters, else its bytes as they are. */
  function Escape(g: Bytes): string
  {
    if |g| == 1 && EscapeChar(g[0]).Some? then EscapeChar(g[0]).value else g
  }

  /** A glyph whose record is valid JSON: one of the escaped characters, or
      text with no quote, backslash or control character. */
  predicate Encodable(g: Bytes)
  {
    (|g| == 1 && EscapeChar(g[0]).Some?) || Plain(g)
  }

  /** Every escape is a backslash and a letter that JSON reads back as the
      escaped character. */
  lemma EscapesInvert(ch: char)
    requires EscapeChar(ch).Some?
    ensures |EscapeChar(ch).value| == 2 && EscapeChar(ch).value[0] == '\\'
    ensures Unescape(EscapeChar(ch).value[1]) == Some(ch)
  {
  }

  /** Escaping is undone by a JSON reader: the escaped glyph followed by the
      closing quote reads back as the glyph. */
  lemma EscapeRoundTrip(g: Bytes, rest: string)
    requires Encodable(g)
    ensures ReadString(Escape(g) + "\"" + rest) == Some((g, rest))
  {
    if |g| == 1 && EscapeChar(g[0]).Some? {
      EscapesInvert(g[0]);
      var e := EscapeChar(g[0]).value;
      var s := e + "\"" + rest;
      assert s[0] == '\\' && s[1] == e[1];
      assert s[2..] == "\"" + rest;
      assert ("\"" + rest)[1..] == rest;
      assert ReadString(s[2..]) == Some(([], rest));
      assert s != [] && s[0] != '"' && |s| >= 2;
      assert [g[0]] + [] == [g[0]];
      assert ReadString(s) == Some(([g[0]], rest));
      assert [g[0]] == g;
    } else {
      ReadPlain(g, rest);
    }
  }

  const H_KEY: string := ",\"h\":"
  const S_KEY: string := ",\"s\":"
  const L_KEY: string := ",\"l\":"

  /** The three numeric fields and the closing brace of a record. */
  function Fields(c: Cell): string
  {
    H_KEY + (NatToString(HueByte(c)) + (S_KEY + (NatToString(SatByte(c))
      + (L_KEY + (NatToString(LumByte(c)) + "}")))))
  }

  /** One `{"g":…,"h":…,"s":…,"l":…}` record. */
  function Record(c: Cell): string
  {
    "{\"g\":\"" + (Escape(c.glyph) + ("\"" + Fields(c)))
  }

  /** The records of `cells[i..]`, each followed by a comma unless it is the last. */
  function RecordsFrom(cells: seq<Cell>, i: nat): string
    decreases |cells| - i
  {
    if i >= |cells| then []
    else Record(cells[i]) + (if i + 1 < |cells| then "," else "") + RecordsFrom(cells, i + 1)
  }

  const CELLS_OPEN: string := "{\"cells\":["
  const CELLS_CLOSE: string := "]}\n"

  /** The line `write_cells` writes for one frame. */
  function CellsRecord(cells: seq<Cell>): string
  {
    CELLS_OPEN + RecordsFrom(cells, 0) + CELLS_CLOSE
  }

  /** The body of the loop of `write_cells`: one record, its glyph escaped by
      the chain of single-character comparisons. */
  method WriteRecord(out: string, c: Cell) returns (out': string)
    ensures out' == out + Record(c)
  {
    out' := out + "{\"g\":\"";
    if c.glyph == "\\" {
      out' := out' + "\\\\";
    } else if c.glyph == "\"" {
      out' := out' + "\\\"";
    } else if c.glyph == "\U{8}" {
      out' := out' + "\\b";
    } else if c.glyph == "\U{C}" {
      out' := out' + "\\f";
    } else if c.glyph == "\n" {
      out' := out' + "\\n";
    } else if c.glyph == "\r" {
      out' := out' + "\\r";
    } else if c.glyph == "\t" {
      out' := out' + "\\t";
    } else {
      assert Escape(c.glyph) == c.glyph by {
        if |c.glyph| == 1 {
          assert c.glyph == [c.glyph[0]];
        }
      }
      out' := out' + c.glyph;
    }
    ghost var head := out';
    assert head == out + "{\"g\":\"" + Escape(c.glyph);
    var fields := H_KEY + (NatToString(HueByte(c)) + (S_KEY + (NatToString(SatByte(c))
      + (L_KEY + (NatToString(LumByte(c)) + "}")))));
    out' := out' + ("\"" + fields);
    AppendAssoc(out, "{\"g\":\"", Escape(c.glyph));
    AppendAssoc(out + "{\"g\":\"", Escape(c.glyph), "\"" + Fields(c));
    AppendAssoc(out, "{\"g\":\"", Escape(c.glyph) + ("\"" + Fields(c)));
  }

  /** `write_cells`: the records of the frame, comma-separated, in one object
      on one line. */
  method WriteCells(out: string, cells: seq<Cell>) returns (out': string)
    ensures out' == out + CellsRecord(cells)
  {
    out' := out + CELLS_OPEN;
    var i := 0;
    while i < |cells|
      invariant 0 <= i <= |cells|
      invariant out' + RecordsFrom(cells, i) == out + CELLS_OPEN + RecordsFrom(cells, 0)
    {
      ghost var before := out';
      out' := WriteRecord(out', cells[i]);
      if i + 1 < |cells| {
        out' := out' + ",";
      }
      ghost var sep: string := if i + 1 < |cells| then "," else "";
      ghost var item := Record(cells[i]) + sep;
      assert out' == before + item;
      assert RecordsFrom(cells, i) == item + RecordsFrom(cells, i + 1);
      AppendAssoc(before, item, RecordsFrom(cells, i + 1));
      i := i + 1;
    }
    assert RecordsFrom(cells, i) == [];
    assert out' == out + CELLS_OPEN + RecordsFrom(cells, 0);
    out' := out' + CELLS_CLOSE;
    AppendAssoc(out, CELLS_OPEN + RecordsFrom(cells, 0), CELLS_CLOSE);
    AppendAssoc(out, CELLS_OPEN, RecordsFrom(cells, 0));
  }

  // ---------------------------------------------------------------------------
  // Reading a frame line back

  /** What a reader recovers from one record. */
  datatype Entry = Entry(glyph: string, h: nat, s: nat, l: nat)

  function Decoded(c: Cell): Entry
  {
    Entry(c.glyph, HueByte(c), SatByte(c), LumByte(c))
  }

  function DecodedFrom(cells: seq<Cell>, i: nat): (es: seq<Entry>)
    ensures |es| == if i < |cells| then |cells| - i else 0
    decreases |cells| - i
  {
    if i >= |cells| then [] else [Decoded(cells[i])] + DecodedFrom(cells, i + 1)
  }

  /** A key followed by a number. */
  function ReadField(key: string, s: string): (r: Option<(nat, string)>)
    ensures r.Some? ==> |r.value.1| < |s|
  {
    match Expect(key, s)
    case None => None
    case Some(s1) => ReadNat(s1)
  }

  /** The three numeric fields and the closing brace of a record. */
  function ParseFields(s: string): (r: Option<(nat, nat, nat, string)>)
    ensures r.Some? ==> |r.value.3| < |s|
  {
    match ReadField(H_KEY, s)
    case None => None
    case Some((h, s1)) =>
      match ReadField(S_KEY, s1)
      case None => None
      case Some((sat, s2)) =>
        match ReadField(L_KEY, s2)
        case None => None
        case Some((l, s3)) =>
          match Expect("}", s3)
          case None => None
          case Some(s4) => Some((h, sat, l, s4))
  }

  /** One record and the text after it. */
  function ParseRecord(s: string): (r: Option<(Entry, string)>)
    ensures r.Some? ==> |r.value.1| < |s|
  {
    match Expect("{\"g\":\"", s)
    case None => None
    case Some(s1) =>
      match ReadString(s1)
      case None => None
      case Some((g, s2)) =>
        match ParseFields(s2)
        case None => None
        case Some((h, sat, l, s3)) => Some((Entry(g, h, sat, l), s3))
  }

  /** Comma-separated records and the text after the last one. */
  function ParseRecords(s: string): (r: Option<(seq<Entry>, string)>)
    ensures r.Some? ==> |r.value.1| < |s|
    decreases |s|
  {
    match ParseRecord(s)
    case None => None
    case Some((e, rest)) =>
      if rest != [] && rest[0] == ',' then
        match ParseRecords(rest[1..])
        case None => None
        case Some((es, rest')) => Some(([e] + es, rest'))
      else Some(([e], rest))
  }

  /** A whole frame line: the entries of its cell list. */
  function ParseCells(s: string): Option<seq<Entry>>
  {
    match Expect(CELLS_OPEN, s)
    case None => None
    case Some(s1) =>
      if s1 == CELLS_CLOSE then Some([])
      else match ParseRecords(s1)
        case None => None
        case Some((es, s2)) => if s2 == CELLS_CLOSE then Some(es) else None
  }

  lemma ReadFieldRoundTrip(key: string, n: nat, rest: string)
    requires rest == [] || !IsDigit(rest[0])
    ensures ReadField(key, key + (NatToString(n) + rest)) == Some((n, rest))
  {
    ExpectLiteral(key, NatToString(n) + rest);
    ReadNatRoundTrip(n, rest);
  }

  lemma FieldsRoundTrip(c: Cell, tail: string)
    ensures ParseFields(Fields(c) + tail) == Some((HueByte(c), SatByte(c), LumByte(c), tail))
  {
    var nh, ns, nl := NatToString(HueByte(c)), NatToString(SatByte(c)), NatToString(LumByte(c));
    var t3 := "}" + tail;
    var t2 := L_KEY + (nl + t3);
    var t1 := S_KEY + (ns + t2);
    AppendAssoc(nl, "}", tail);
    AppendAssoc(L_KEY, nl + "}", tail);
    AppendAssoc(ns, L_KEY + (nl + "}"), tail);
    AppendAssoc(S_KEY, ns + (L_KEY + (nl + "}")), tail);
    AppendAssoc(nh, S_KEY + (ns + (L_KEY + (nl + "}"))), tail);
    AppendAssoc(H_KEY, nh + (S_KEY + (ns + (L_KEY + (nl + "}")))), tail);
    assert Fields(c) + tail == H_KEY + (nh + t1);
    ReadFieldRoundTrip(H_KEY, HueByte(c), t1);
    ReadFieldRoundTrip(S_KEY, SatByte(c), t2);
    ReadFieldRoundTrip(L_KEY, LumByte(c), t3);
    ExpectLiteral("}", tail);
  }

  /** A record followed by text reads back as the cell's entry. */
  lemma ParseRecordRoundTrip(c: Cell, tail: string)
    requires Encodable(c.glyph)
    ensures ParseRecord(Record(c) + tail) == Some((Decoded(c), tail))
  {
    var e := Escape(c.glyph);
    var t2 := Fields(c) + tail;
    var t1 := e + "\"" + t2;
    AppendAssoc("\"", Fields(c), tail);
    AppendAssoc(e, "\"" + Fields(c), tail);
    AppendAssoc("{\"g\":\"", e + ("\"" + Fields(c)), tail);
    AppendAssoc(e, "\"", t2);
    assert Record(c) + tail == "{\"g\":\"" + t1;
    ExpectLiteral("{\"g\":\"", t1);
    EscapeRoundTrip(c.glyph, t2);
    FieldsRoundTrip(c, tail);
  }

  lemma ParseRecordsMore(s: string, e: Entry, tail: string, es: seq<Entry>, rest: string)
    requires ParseRecord(s) == Some((e, tail))
    requires tail != [] && tail[0] == ','
    requires ParseRecords(tail[1..]) == Some((es, rest))
    ensures ParseRecords(s) == Some(([e] + es, rest))
  {
  }

  lemma ParseRecordsLast(s: string, e: Entry, rest: string)
    requires ParseRecord(s) == Some((e, rest))
    requires rest == [] || rest[0] != ','
    ensures ParseRecords(s) == Some(([e], rest))
  {
  }

  /** The records of `cells[i..]` read back as their entries. */
  lemma {:induction false} ParseRecordsRoundTrip(cells: seq<Cell>, i: nat, rest: string)
    requires i < |cells|
    requires forall j :: 0 <= j < |cells| ==> Encodable(cells[j].glyph)
    requires rest == [] || rest[0] != ','
    ensures ParseRecords(RecordsFrom(cells, i) + rest) == Some((DecodedFrom(cells, i), rest))
    decreases |cells| - i
  {
    var c := cells[i];
    if i + 1 < |cells| {
      var next := RecordsFrom(cells, i + 1);
      var tail := "," + (next + rest);
      assert RecordsFrom(cells, i) == Record(c) + "," + next;
      AppendAssoc(Record(c) + ",", next, rest);
      AppendAssoc(Record(c), ",", next + rest);
      ParseRecordRoundTrip(c, tail);
      assert tail[1..] == next + rest;
      ParseRecordsRoundTrip(cells, i + 1, rest);
      ParseRecordsMore(Record(c) + tail, Decoded(c), tail, DecodedFrom(cells, i + 1), rest);
    } else {
      assert RecordsFrom(cells, i) == Record(c) + "" + RecordsFrom(cells, i + 1);
      assert RecordsFrom(cells, i) == Record(c);
      ParseRecordRoundTrip(c, rest);
      ParseRecordsLast(Record(c) + rest, Decoded(c), rest);
      assert DecodedFrom(cells, i) == [Decoded(c)];
    }
  }

  /** A frame line whose glyphs all make valid JSON strings reads back as the
      glyph and the three scaled fields of every cell, in order. */
  lemma ParseCellsOf(body: string, es: seq<Entry>)
    requires body == CELLS_CLOSE ==> es == []
    requires body != CELLS_CLOSE ==> ParseRecords(body) == Some((es, CELLS_CLOSE))
    ensures ParseCells(CELLS_OPEN + body) == Some(es)
  {
    ExpectLiteral(CELLS_OPEN, body);
  }

  lemma CellsRoundTrip(cells: seq<Cell>)
    requires forall j :: 0 <= j < |cells| ==> Encodable(cells[j].glyph)
    ensures ParseCells(CellsRecord(cells)) == Some(DecodedFrom(cells, 0))
  {
    var records := RecordsFrom(cells, 0);
    AppendAssoc(CELLS_OPEN, records, CELLS_CLOSE);
    if cells == [] {
      assert records == [];
      ParseCellsOf(records + CELLS_CLOSE, []);
    } else {
      ParseRecordsRoundTrip(cells, 0, CELLS_CLOSE);
      ParseCellsOf(records + CELLS_CLOSE, DecodedFrom(cells, 0));
    }
  }

  // ---------------------------------------------------------------------------
  // One line per frame

  /** A glyph that leaves no raw line feed in its record: the escaped
      single line feed, or bytes without one. */
  predicate NoRawNewline(g: Bytes)
  {
    g == "\n" || '\n' !in g
  }

  lemma NatToStringPlain(n: nat)
    ensures '\n' !in NatToString(n)
  {
    IntToStringPlain(n);
  }

  lemma FieldsOneLine(c: Cell)
    ensures '\n' !in Fields(c)
  {
    NatToStringPlain(HueByte(c));
    NatToStringPlain(SatByte(c));
    NatToStringPlain(LumByte(c));
  }

  /** An escaped glyph holds no raw line feed: a lone line feed becomes a
      backslash and `n`, and other escapes hold none. */
  lemma EscapeOneLine(g: Bytes)
    requires NoRawNewline(g)
    ensures '\n' !in Escape(g)
  {
    if |g| == 1 && EscapeChar(g[0]).Some? {
      EscapesInvert(g[0]);
      if g[0] != '\n' {
        assert g == [g[0]];
      }
    }
  }

  lemma RecordOneLine(c: Cell)
    requires NoRawNewline(c.glyph)
    ensures '\n' !in Record(c)
  {
    FieldsOneLine(c);
    EscapeOneLine(c.glyph);
  }

  lemma {:induction false} RecordsOneLine(cells: seq<Cell>, i: nat)
    requires forall j :: 0 <= j < |cells| ==> NoRawNewline(cells[j].glyph)
    ensures '\n' !in RecordsFrom(cells, i)
    decreases |cells| - i
  {
    if i < |cells| {
      RecordOneLine(cells[i]);
      RecordsOneLine(cells, i + 1);
    }
  }

  lemma OpenCount()
    ensures '\n' !in CELLS_OPEN
  {
  }

  lemma CloseCount()
    ensures CountChar(CELLS_CLOSE, '\n') == 1
  {
    assert CELLS_CLOSE[1..][1..][1..] == [];
  }

  /** Every frame line holds exactly one raw line feed, its last character,
      because a line-feed glyph is written escaped. */
  lemma CellsRecordOneLine(cells: seq<Cell>)
    requires forall j :: 0 <= j < |cells| ==> NoRawNewline(cells[j].glyph)
    ensures CountChar(CellsRecord(cells), '\n') == 1
    ensures CellsRecord(cells)[|CellsRecord(cells)| - 1] == '\n'
  {
    RecordsOneLine(cells, 0);
    var line := CELLS_OPEN + RecordsFrom(cells, 0);
    OpenCount();
    assert '\n' !in line;
    CountCharAppend(line, CELLS_CLOSE, '\n');
    CloseCount();
  }

  // ---------------------------------------------------------------------------
  // The gzip sink

  /** The chunks `write_cells_gzip` hands to `gzwrite` for one record, where
      `glyph` is the chunk written for the glyph. */
  function RecordChunks(c: Cell, glyph: string): seq<string>
  {
    ["{\"g\":\"", glyph, "\",\"h\":", NatToString(HueByte(c)), S_KEY, NatToString(SatByte(c)),
     L_KEY, NatToString(LumByte(c)), "}"]
  }

  /** The glyph chunk as written: a verbatim glyph is handed over as a single
      byte, its first. */
  function GlyphChunkAsWritten(g: Bytes): string
  {
    if |g| == 1 && EscapeChar(g[0]).Some? then EscapeChar(g[0]).value else g[..Min(1, |g|)]
  }

  /** The chunks for the records of `cells[i..]`, with the glyph chunk as
      written (`asWritten`) or with the whole glyph. */
  function ChunksFrom(cells: seq<Cell>, i: nat, asWritten: bool): seq<string>
    decreases |cells| - i
  {
    if i >= |cells| then []
    else
      var g := cells[i].glyph;
      RecordChunks(cells[i], if asWritten then GlyphChunkAsWritten(g) else Escape(g))
        + (if i + 1 < |cells| then [","] else []) + ChunksFrom(cells, i + 1, asWritten)
  }

  /** What `write_cells_gzip` hands to `gzwrite` for one frame, as written. */
  function GzipChunksAsWritten(cells: seq<Cell>): seq<string>
  {
    [CELLS_OPEN] + ChunksFrom(cells, 0, true) + [CELLS_CLOSE]
  }

  /** The same with every verbatim glyph handed over whole. */
  function GzipChunks(cells: seq<Cell>): seq<string>
  {
    [CELLS_OPEN] + ChunksFrom(cells, 0, false) + [CELLS_CLOSE]
  }

  lemma RecordChunksConcat(c: Cell, glyph: string)
    ensures Concat(RecordChunks(c, glyph)) == "{\"g\":\"" + (glyph + ("\"" + Fields(c)))
  {
    var nh, ns, nl := NatToString(HueByte(c)), NatToString(SatByte(c)), NatToString(LumByte(c));
    var cs := RecordChunks(c, glyph);
    assert Concat(cs[9..]) == [];
    assert Concat(cs[8..]) == "}" by { assert cs[8..][1..] == cs[9..]; }
    assert Concat(cs[7..]) == nl + "}" by { assert cs[7..][1..] == cs[8..]; }
    assert Concat(cs[6..]) == L_KEY + (nl + "}") by { assert cs[6..][1..] == cs[7..]; }
    assert Concat(cs[5..]) == ns + (L_KEY + (nl + "}")) by { assert cs[5..][1..] == cs[6..]; }
    assert Concat(cs[4..]) == S_KEY + (ns + (L_KEY + (nl + "}"))) by { assert cs[4..][1..] == cs[5..]; }
    assert Concat(cs[3..]) == nh + (S_KEY + (ns + (L_KEY + (nl + "}")))) by { assert cs[3..][1..] == cs[4..]; }
    assert Concat(cs[2..]) == "\"" + Fields(c) by {
      assert cs[2..][1..] == cs[3..];
      assert "\",\"h\":" == "\"" + H_KEY;
      AppendAssoc("\"", H_KEY, nh + (S_KEY + (ns + (L_KEY + (nl + "}")))));
    }
    assert Concat(cs[1..]) == glyph + ("\"" + Fields(c)) by { assert cs[1..][1..] == cs[2..]; }
  }

  lemma {:induction false} ChunksConcat(cells: seq<Cell>, i: nat)
    ensures Concat(ChunksFrom(cells, i, false)) == RecordsFrom(cells, i)
    decreases |cells| - i
  {
    if i < |cells| {
      var c := cells[i];
      var sep: seq<string> := if i + 1 < |cells| then [","] else [];
      ChunksConcat(cells, i + 1);
      RecordChunksConcat(c, Escape(c.glyph));
      ConcatAppend(RecordChunks(c, Escape(c.glyph)), sep);
      ConcatAppend(RecordChunks(c, Escape(c.glyph)) + sep, ChunksFrom(cells, i + 1, false));
      assert Concat(sep) == if i + 1 < |cells| then "," else "" by {
        if i + 1 < |cells| {
          assert sep[1..] == [];
        }
      }
    }
  }

  /** With whole glyphs the gzip sink receives exactly the bytes of the plain
      frame line. */
  lemma GzipMatchesPlain(cells: seq<Cell>)
    ensures Concat(GzipChunks(cells)) == CellsRecord(cells)
  {
    ChunksConcat(cells, 0);
    ConcatAppend([CELLS_OPEN], ChunksFrom(cells, 0, false));
    ConcatAppend([CELLS_OPEN] + ChunksFrom(cells, 0, false), [CELLS_CLOSE]);
    assert Concat([CELLS_OPEN]) == CELLS_OPEN;
    assert Concat([CELLS_CLOSE]) == CELLS_CLOSE;
  }

  lemma {:induction false} ChunksSingleBytes(cells: seq<Cell>, i: nat)
    requires forall j :: 0 <= j < |cells| ==> |cells[j].glyph| == 1
    ensures ChunksFrom(cells, i, true) == ChunksFrom(cells, i, false)
    decreases |cells| - i
  {
    if i < |cells| {
      var g := cells[i].glyph;
      assert g[..Min(1, |g|)] == g;
      ChunksSingleBytes(cells, i + 1);
    }
  }

  /** As written, the gzip sink still receives the plain frame line when
      every glyph is a single byte. */
  lemma GzipAsWrittenSingleBytes(cells: seq<Cell>)
    requires forall j :: 0 <= j < |cells| ==> |cells[j].glyph| == 1
    ensures Concat(GzipChunksAsWritten(cells)) == CellsRecord(cells)
  {
    ChunksSingleBytes(cells, 0);
    GzipMatchesPlain(cells);
  }

  /** As written, a frame of one full-block cell (a glyph of the BLOCKS and
      DOT ramps) loses two of the glyph's three bytes in the gzip sink. */
  lemma GzipAsWrittenDropsBytes()
    ensures var cells := [Cell(Ramps.FULL_BLOCK, 0.0, 0.0, 0.0)];
      |Concat(GzipChunksAsWritten(cells))| + 2 == |CellsRecord(cells)|
  {
    var c := Cell(Ramps.FULL_BLOCK, 0.0, 0.0, 0.0);
    var cells := [c];
    var g := c.glyph;
    assert |g| == 3 && EscapeChar(g[0]).None?;
    assert GlyphChunkAsWritten(g) == g[..1];
    assert ChunksFrom(cells, 1, true) == [];
    assert ChunksFrom(cells, 0, true) == RecordChunks(c, g[..1]);
    RecordChunksConcat(c, g[..1]);
    var aw := GzipChunksAsWritten(cells);
    assert aw == [CELLS_OPEN] + RecordChunks(c, g[..1]) + [CELLS_CLOSE];
    ConcatAppend([CELLS_OPEN], RecordChunks(c, g[..1]));
    ConcatAppend([CELLS_OPEN] + RecordChunks(c, g[..1]), [CELLS_CLOSE]);
    assert Concat([CELLS_OPEN]) == CELLS_OPEN;
    assert Concat([CELLS_CLOSE]) == CELLS_CLOSE;
    assert RecordsFrom(cells, 0) == Record(c) + "" + RecordsFrom(cells, 1);
    assert Escape(g) == g;
  }

  /** One record's chunks, the glyph escaped by the chain of single-character
      comparisons and otherwise handed over whole. */
  method WriteRecordChunks(gz: seq<string>, c: Cell) returns (gz': seq<string>)
    ensures gz' == gz + RecordChunks(c, Escape(c.glyph))
  {
    gz' := gz + ["{\"g\":\""];
    var glyph: string;
    if c.glyph == "\\" {
      glyph := "\\\\";
    } else if c.glyph == "\"" {
      glyph := "\\\"";
    } else if c.glyph == "\U{8}" {
      glyph := "\\b";
    } else if c.glyph == "\U{C}" {
      glyph := "\\f";
    } else if c.glyph == "\n" {
      glyph := "\\n";
    } else if c.glyph == "\r" {
      glyph := "\\r";
    } else if c.glyph == "\t" {
      glyph := "\\t";
    } else {
      assert Escape(c.glyph) == c.glyph by {
        if |c.glyph| == 1 {
          assert c.glyph == [c.glyph[0]];
        }
      }
      glyph := c.glyph;
    }
    gz' := gz' + [glyph];
    gz' := gz' + ["\",\"h\":"] + [NatToString(HueByte(c))] + [S_KEY] + [NatToString(SatByte(c))]
      + [L_KEY] + [NatToString(LumByte(c))] + ["}"];
  }

  /** `write_cells_gzip` with the glyph handed over whole: the chunk list of
      the frame. */
  method WriteCellsGzip(gz: seq<string>, cells: seq<Cell>) returns (gz': seq<string>)
    ensures gz' == gz + GzipChunks(cells)
  {
    gz' := gz + [CELLS_OPEN];
    var i := 0;
    while i < |cells|
      invariant 0 <= i <= |cells|
      invariant gz' + ChunksFrom(cells, i, false) == gz + [CELLS_OPEN] + ChunksFrom(cells, 0, false)
    {
      ghost var before := gz';
      gz' := WriteRecordChunks(gz', cells[i]);
      if i + 1 < |cells| {
        gz' := gz' + [","];
      }
      ghost var sep: seq<string> := if i + 1 < |cells| then [","] else [];
      ghost var item := RecordChunks(cells[i], Escape(cells[i].glyph)) + sep;
      assert gz' == before + item;
      assert ChunksFrom(cells, i, false) == item + ChunksFrom(cells, i + 1, false);
      AppendAssoc(before, item, ChunksFrom(cells, i + 1, false));
      i := i + 1;
    }
    assert ChunksFrom(cells, i, false) == [];
    gz' := gz' + [CELLS_CLOSE];
    AppendAssoc(gz, [CELLS_OPEN] + ChunksFrom(cells, 0, false), [CELLS_CLOSE]);
    AppendAssoc(gz, [CELLS_OPEN], ChunksFrom(cells, 0, false));
  }

  // ---------------------------------------------------------------------------
  // The HTML sink

  /** `write_html`: the frame's fragment on a line of its own. */
  method WriteHtml(out: string, html: string) returns (out': string)
    ensures out' == out + html + "\n"
  {
    out' := out + html + "\n";
  }

  /** The fragment `add_html` builds for a frame holds no line feed when no
      glyph does, so `write_html` gives every frame exactly one line. */
  lemma HtmlFrameOneLine(cells: seq<Cell>, width: nat)
    requires width > 0 || cells == []
    requires forall k :: 0 <= k < |cells| ==> '\n' !in cells[k].glyph
    ensures CountChar(Html.Render(Html.Pieces(cells, width, |cells|)) + "\n", '\n') == 1
  {
    var ps := Html.Pieces(cells, width, |cells|);
    Html.SpansAvoid(cells, width, |cells|, '\n');
    Html.RenderOneLine(ps);
    CountCharAppend(Html.Render(ps), "\n", '\n');
  }

  // ---------------------------------------------------------------------------
  // The manifest

  const COLS_KEY: string := "  \"cols\": "
  const ROWS_KEY: string := "  \"rows\": "
  const CHANNELS_KEY: string := "  \"channels\": "
  const TYPE_KEY: string := "  \"type\": "
  const FPS_KEY: string := "  \"fps\": "
  const FRAME_COUNT_KEY: string := "  \"frame_count\": "

  /** The eight lines of the manifest: the image width as `cols`, half the
      image height rounded down as `rows`, the channel count, the quoted media
      type, the frame rate and the frame count. */
  function ManifestLines(img: Converter.ImageBuffer, kind: string, fps: int, frameCount: int): (ls: seq<string>)
    ensures |ls| == 8
  {
    ["{",
     COLS_KEY + NatToString(img.width) + ",",
     ROWS_KEY + NatToString(img.height / 2) + ",",
     CHANNELS_KEY + NatToString(img.channels) + ",",
     TYPE_KEY + "\"" + kind + "\",",
     FPS_KEY + IntToString(fps) + ",",
     FRAME_COUNT_KEY + IntToString(frameCount),
     "}"]
  }

  /** `write_manifest`. Its definition gives defaults for the media type
      ("video"), the frame rate (0) and the frame count (1), but every call in
      the converter passes all three, so the model takes them as parameters. */
  method WriteManifest(out: string, img: Converter.ImageBuffer, kind: string, fps: int, frameCount: int)
    returns (out': string)
    ensures out' == out + Lines(ManifestLines(img, kind, fps, frameCount))
  {
    var l0, l1, l2, l3 := "{", COLS_KEY + NatToString(img.width) + ",",
      ROWS_KEY + NatToString(img.height / 2) + ",", CHANNELS_KEY + NatToString(img.channels) + ",";
    var l4, l5, l6, l7 := TYPE_KEY + "\"" + kind + "\",", FPS_KEY + IntToString(fps) + ",",
      FRAME_COUNT_KEY + IntToString(frameCount), "}";
    ghost var ls := [l0, l1, l2, l3, l4, l5, l6, l7];
    assert ls == ManifestLines(img, kind, fps, frameCount);
    assert ls[..0] == [];
    out' := out;
    out' := EmitLine(out', out, ls, 0, l0);
    out' := EmitLine(out', out, ls, 1, l1);
    out' := EmitLine(out', out, ls, 2, l2);
    out' := EmitLine(out', out, ls, 3, l3);
    out' := EmitLine(out', out, ls, 4, l4);
    out' := EmitLine(out', out, ls, 5, l5);
    out' := EmitLine(out', out, ls, 6, l6);
    out' := EmitLine(out', out, ls, 7, l7);
    assert ls[..8] == ls;
  }

  /** The value a reader takes from a manifest line `key` + number + optional comma. */
  function ManifestNumber(line: string, key: string): Option<nat>
  {
    match Expect(key, line)
    case None => None
    case Some(r) =>
      match ReadNat(r)
      case None => None
      case Some((n, rest)) => if rest == "," || rest == [] then Some(n) else None
  }

  lemma ManifestNumberOf(key: string, n: nat, rest: string)
    requires rest == "," || rest == []
    ensures ManifestNumber(key + NatToString(n) + rest, key) == Some(n)
  {
    AppendAssoc(key, NatToString(n), rest);
    ExpectLiteral(key, NatToString(n) + rest);
    ReadNatRoundTrip(n, rest);
  }

  /** No manifest line holds a line feed of its own when the type has none. */
  lemma ManifestLinesPlain(img: Converter.ImageBuffer, kind: string, fps: int, frameCount: int)
    requires '\n' !in kind
    ensures forall k :: 0 <= k < 8 ==> '\n' !in ManifestLines(img, kind, fps, frameCount)[k]
  {
    var ls := ManifestLines(img, kind, fps, frameCount);
    NatToStringPlain(img.width);
    NatToStringPlain(img.height / 2);
    NatToStringPlain(img.channels);
    assert '\n' !in ls[1] && '\n' !in ls[2] && '\n' !in ls[3];
    IntToStringPlain(fps);
    IntToStringPlain(frameCount);
    assert '\n' !in ls[4] && '\n' !in ls[5] && '\n' !in ls[6];
  }

  lemma ManifestLineCount(img: Converter.ImageBuffer, kind: string, fps: int, frameCount: int)
    requires '\n' !in kind
    ensures CountChar(Lines(ManifestLines(img, kind, fps, frameCount)), '\n') == 8
  {
    ManifestLinesPlain(img, kind, fps, frameCount);
    LinesCount(ManifestLines(img, kind, fps, frameCount));
  }

  /** The size lines of the manifest read back as the width, half the height
      (rounded down) and the channel count. */
  lemma ManifestSize(img: Converter.ImageBuffer, kind: string, fps: int, frameCount: int)
    ensures var ls := ManifestLines(img, kind, fps, frameCount);
      ManifestNumber(ls[1], COLS_KEY) == Some(img.width)
      && ManifestNumber(ls[2], ROWS_KEY) == Some(img.height / 2)
      && ManifestNumber(ls[3], CHANNELS_KEY) == Some(img.channels)
  {
    var ls := ManifestLines(img, kind, fps, frameCount);
    assert ls[1] == COLS_KEY + NatToString(img.width) + ",";
    assert ls[2] == ROWS_KEY + NatToString(img.height / 2) + ",";
    assert ls[3] == CHANNELS_KEY + NatToString(img.channels) + ",";
    ManifestNumberOf(COLS_KEY, img.width, ",");
    ManifestNumberOf(ROWS_KEY, img.height / 2, ",");
    ManifestNumberOf(CHANNELS_KEY, img.channels, ",");
  }

  /** The timing lines of the manifest read back as the frame rate and the
      frame count when these are not negative. */
  lemma ManifestTiming(img: Converter.ImageBuffer, kind: string, fps: nat, frameCount: nat)
    ensures var ls := ManifestLines(img, kind, fps, frameCount);
      ManifestNumber(ls[5], FPS_KEY) == Some(fps)
      && ManifestNumber(ls[6], FRAME_COUNT_KEY) == Some(frameCount)
  {
    var ls := ManifestLines(img, kind, fps, frameCount);
    assert ls[5] == FPS_KEY + NatToString(fps) + ",";
    assert ls[6] == FRAME_COUNT_KEY + NatToString(frameCount) + [];
    ManifestNumberOf(FPS_KEY, fps, ",");
    ManifestNumberOf(FRAME_COUNT_KEY, frameCount, []);
  }
}
