/** `add_html`: the per-frame HTML fragment. Consecutive cells of one row with
    the same glyph and the same integer colour share one coloured `<span>`;
    rows are separated by the two characters backslash and `n`. */
module Html {
  import opened Text
  import opened Color
  import opened Cells

  /** The integer colour a cell is printed with: hue truncated to whole
      degrees, saturation and lightness truncated to whole percent. */
  datatype Key = Key(h: int, s: int, l: int)

  function KeyOf(c: Cell): (k: Key)
    ensures InRange(c) ==> 0 <= k.h < 360 && 0 <= k.s <= 100 && 0 <= k.l <= 100
  {
    Key(Trunc(c.h), Trunc(c.s * 100.0), Trunc(c.l * 100.0))
  }

  /** A piece of the fragment: a run of `count` copies of one glyph in one
      colour, or a row break. */
  datatype Piece = Span(glyph: Bytes, count: nat, key: Key) | Break

  /** The row break: a backslash and the letter n, not a line feed. */
  const ROW_BREAK: string := "\\n"

  /** One `<span>` with the run text `run` in colour `k`. */
  function SpanHtml(k: Key, run: string): string
  {
    "<span style=\"color:hsl(" + IntToString(k.h) + "," + IntToString(k.s) + "%," + IntToString(k.l) + "%)\">"
      + run + "</span>"
  }

  /** A span is an opening tag carrying the `hsl()` colour, then the run text
      itself, then the closing tag, so the run can be read back from its end. */
  lemma SpanHtmlShape(k: Key, run: string)
    ensures var r := SpanHtml(k, run);
      |r| > |run| + 7 && "<span style=\"color:hsl(" <= r
      && r[|r| - 7..] == "</span>" && r[|r| - 7 - |run|..|r| - 7] == run
  {
    var open := "<span style=\"color:hsl(" + IntToString(k.h) + "," + IntToString(k.s) + "%," + IntToString(k.l) + "%)\">";
    assert SpanHtml(k, run) == open + run + "</span>";
  }

  function RenderPiece(p: Piece): string
  {
    match p
    case Span(g, c, k) => SpanHtml(k, Repeat(g, c))
    case Break => ROW_BREAK
  }

  /** The fragment text of a list of pieces. */
  function Render(ps: seq<Piece>): string
    decreases |ps|
  {
    if ps == [] then "" else Render(ps[..|ps| - 1]) + RenderPiece(ps[|ps| - 1])
  }

  /** Cell `i` starts a new row (other than the first). */
  predicate RowStart(i: nat, width: nat)
    requires width > 0
  {
    i != 0 && i % width == 0
  }

  /** Cell `i` continues the run of cell `i - 1`: same row, same non-empty
      glyph, same integer colour. */
  predicate Continues(cells: seq<Cell>, width: nat, i: nat)
    requires width > 0 && i < |cells|
  {
    i % width != 0 && cells[i].glyph != [] && cells[i - 1].glyph == cells[i].glyph
    && KeyOf(cells[i - 1]) == KeyOf(cells[i])
  }

  /** The run-length pieces of the first `n` cells. A cell with an empty glyph
      prints nothing but ends the run before it. The last piece is always the
      run holding the last cell, when that cell has a glyph. */
  function Pieces(cells: seq<Cell>, width: nat, n: nat): (ps: seq<Piece>)
    requires n <= |cells| && (width > 0 || n == 0)
    ensures n > 0 && cells[n - 1].glyph != [] ==>
      |ps| > 0 && ps[|ps| - 1].Span? && ps[|ps| - 1].glyph == cells[n - 1].glyph
      && ps[|ps| - 1].key == KeyOf(cells[n - 1])
    decreases n
  {
    if n == 0 then []
    else
      var i := n - 1;
      var prev := Pieces(cells, width, i);
      var before := if RowStart(i, width) then prev + [Break] else prev;
      var c := cells[i];
      if c.glyph == [] then before
      else if Continues(cells, width, i) then
        var last := prev[|prev| - 1];
        prev[..|prev| - 1] + [last.(count := last.count + 1)]
      else before + [Span(c.glyph, 1, KeyOf(c))]
  }

  /** The run text of one coloured glyph or a row separator, as a reader of
      the fragment sees it. */
  datatype Token = Glyph(glyph: Bytes, key: Key) | Sep

  function PieceTokens(p: Piece): seq<Token>
  {
    match p
    case Span(g, c, k) => GlyphRun(Glyph(g, k), c)
    case Break => [Sep]
  }

  /** `c` copies of one token. */
  function GlyphRun(t: Token, c: nat): (r: seq<Token>)
    ensures |r| == c
    decreases c
  {
    if c == 0 then [] else GlyphRun(t, c - 1) + [t]
  }

  function Tokens(ps: seq<Piece>): seq<Token>
    decreases |ps|
  {
    if ps == [] then [] else Tokens(ps[..|ps| - 1]) + PieceTokens(ps[|ps| - 1])
  }

  /** What the first `n` cells should show: a separator before every row but
      the first, and each non-empty glyph in its integer colour. */
  function CellTokens(cells: seq<Cell>, width: nat, n: nat): seq<Token>
    requires n <= |cells| && (width > 0 || n == 0)
    decreases n
  {
    if n == 0 then []
    else
      var i := n - 1;
      var c := cells[i];
      CellTokens(cells, width, i) + (if RowStart(i, width) then [Sep] else [])
        + (if c.glyph == [] then [] else [Glyph(c.glyph, KeyOf(c))])
  }

  lemma TokensSnoc(ps: seq<Piece>, p: Piece)
    ensures Tokens(ps + [p]) == Tokens(ps) + PieceTokens(p)
  {
    assert (ps + [p])[..|ps + [p]| - 1] == ps;
  }

  lemma SpanTokensGrow(g: Bytes, c: nat, k: Key)
    ensures PieceTokens(Span(g, c + 1, k)) == PieceTokens(Span(g, c, k)) + [Glyph(g, k)]
  {
  }

  /** Every run holds at least one copy of a non-empty glyph, so no
      `<span>` is ever empty. */
  lemma {:induction false} SpansNonEmpty(cells: seq<Cell>, width: nat, n: nat, j: nat)
    requires n <= |cells| && (width > 0 || n == 0)
    requires j < |Pieces(cells, width, n)| && Pieces(cells, width, n)[j].Span?
    ensures Pieces(cells, width, n)[j].count >= 1 && Pieces(cells, width, n)[j].glyph != []
    decreases n
  {
    var i := n - 1;
    var prev := Pieces(cells, width, i);
    var ps := Pieces(cells, width, n);
    if cells[i].glyph == [] {
      PiecesSkip(cells, width, i);
      assert ps[j] == prev[j];
      SpansNonEmpty(cells, width, i, j);
    } else if Continues(cells, width, i) {
      var last := prev[|prev| - 1];
      PiecesExtend(cells, width, i, last.count);
      if j < |prev| - 1 {
        assert ps[j] == prev[j];
        SpansNonEmpty(cells, width, i, j);
      }
    } else {
      PiecesOpen(cells, width, i);
      if j < |prev| {
        assert ps[j] == prev[j];
        SpansNonEmpty(cells, width, i, j);
      }
    }
  }

  /** A character that no cell glyph holds appears in no run's glyph. */
  lemma {:induction false} SpansAvoid(cells: seq<Cell>, width: nat, n: nat, ch: char)
    requires n <= |cells| && (width > 0 || n == 0)
    requires forall k :: 0 <= k < n ==> ch !in cells[k].glyph
    ensures forall j :: 0 <= j < |Pieces(cells, width, n)| && Pieces(cells, width, n)[j].Span? ==>
      ch !in Pieces(cells, width, n)[j].glyph
    decreases n
  {
    if n > 0 {
      var i := n - 1;
      var prev := Pieces(cells, width, i);
      var ps := Pieces(cells, width, n);
      SpansAvoid(cells, width, i, ch);
      if cells[i].glyph == [] {
        PiecesSkip(cells, width, i);
      } else if Continues(cells, width, i) {
        PiecesExtend(cells, width, i, prev[|prev| - 1].count);
      } else {
        PiecesOpen(cells, width, i);
      }
      forall j | 0 <= j < |ps| && ps[j].Span? ensures ch !in ps[j].glyph {
        if j < |prev| - 1 {
          assert ps[j] == prev[j];
        } else if j == |prev| - 1 && !Continues(cells, width, i) {
          assert ps[j] == prev[j];
        }
      }
    }
  }

  /** A cell with no glyph adds only the row break it may start. */
  lemma PiecesSkip(cells: seq<Cell>, width: nat, i: nat)
    requires i < |cells| && width > 0 && cells[i].glyph == []
    ensures Pieces(cells, width, i + 1)
      == Pieces(cells, width, i) + (if RowStart(i, width) then [Break] else [])
  {
  }

  /** A continuing cell lengthens the last run by one. */
  lemma PiecesExtend(cells: seq<Cell>, width: nat, i: nat, count: nat)
    requires i < |cells| && width > 0 && Continues(cells, width, i)
    requires var ps := Pieces(cells, width, i);
      |ps| > 0 && ps[|ps| - 1] == Span(cells[i].glyph, count, KeyOf(cells[i]))
    ensures var ps := Pieces(cells, width, i);
      Pieces(cells, width, i + 1) == ps[..|ps| - 1] + [Span(cells[i].glyph, count + 1, KeyOf(cells[i]))]
  {
  }

  /** Any other cell with a glyph opens a new run, after the row break it may start. */
  lemma PiecesOpen(cells: seq<Cell>, width: nat, i: nat)
    requires i < |cells| && width > 0 && cells[i].glyph != [] && !Continues(cells, width, i)
    ensures Pieces(cells, width, i + 1)
      == Pieces(cells, width, i) + (if RowStart(i, width) then [Break] else [])
         + [Span(cells[i].glyph, 1, KeyOf(cells[i]))]
  {
  }

  lemma LosslessSkip(cells: seq<Cell>, width: nat, i: nat)
    requires i < |cells| && width > 0 && cells[i].glyph == []
    requires Tokens(Pieces(cells, width, i)) == CellTokens(cells, width, i)
    ensures Tokens(Pieces(cells, width, i + 1)) == CellTokens(cells, width, i + 1)
  {
    PiecesSkip(cells, width, i);
    if RowStart(i, width) {
      TokensSnoc(Pieces(cells, width, i), Break);
    } else {
      assert Pieces(cells, width, i + 1) == Pieces(cells, width, i);
    }
  }

  lemma LosslessExtend(cells: seq<Cell>, width: nat, i: nat)
    requires i < |cells| && width > 0 && Continues(cells, width, i)
    requires Tokens(Pieces(cells, width, i)) == CellTokens(cells, width, i)
    ensures Tokens(Pieces(cells, width, i + 1)) == CellTokens(cells, width, i + 1)
  {
    var prev := Pieces(cells, width, i);
    var last := prev[|prev| - 1];
    var init := prev[..|prev| - 1];
    var grown := last.(count := last.count + 1);
    PiecesExtend(cells, width, i, last.count);
    assert prev == init + [last];
    TokensSnoc(init, last);
    TokensSnoc(init, grown);
    assert PieceTokens(grown) == PieceTokens(last) + [Glyph(cells[i].glyph, KeyOf(cells[i]))];
    assert CellTokens(cells, width, i + 1) == CellTokens(cells, width, i) + [Glyph(cells[i].glyph, KeyOf(cells[i]))];
  }

  lemma LosslessOpen(cells: seq<Cell>, width: nat, i: nat)
    requires i < |cells| && width > 0 && cells[i].glyph != [] && !Continues(cells, width, i)
    requires Tokens(Pieces(cells, width, i)) == CellTokens(cells, width, i)
    ensures Tokens(Pieces(cells, width, i + 1)) == CellTokens(cells, width, i + 1)
  {
    var prev := Pieces(cells, width, i);
    var brk: seq<Piece> := if RowStart(i, width) then [Break] else [];
    var sp := Span(cells[i].glyph, 1, KeyOf(cells[i]));
    PiecesOpen(cells, width, i);
    TokensSnoc(prev + brk, sp);
    if RowStart(i, width) {
      TokensSnoc(prev, Break);
    } else {
      assert prev + brk == prev;
    }
    assert PieceTokens(sp) == [Glyph(cells[i].glyph, KeyOf(cells[i]))];
  }

  /** Run-length encoding loses nothing: reading the pieces back cell by cell
      gives every non-empty glyph, in order, in its own integer colour, with a
      separator between rows. */
  lemma {:induction false} PiecesLossless(cells: seq<Cell>, width: nat, n: nat)
    requires n <= |cells| && (width > 0 || n == 0)
    ensures Tokens(Pieces(cells, width, n)) == CellTokens(cells, width, n)
    decreases n
  {
    if n > 0 {
      var i := n - 1;
      PiecesLossless(cells, width, i);
      if cells[i].glyph == [] {
        LosslessSkip(cells, width, i);
      } else if Continues(cells, width, i) {
        LosslessExtend(cells, width, i);
      } else {
        LosslessOpen(cells, width, i);
      }
    }
  }

  /** The runs are maximal: when every cell has a glyph, two spans next to each
      other always differ in glyph or colour (otherwise they would have been
      one run). */
  lemma {:induction false} AdjacentSpansDiffer(cells: seq<Cell>, width: nat, n: nat, j: nat)
    requires n <= |cells| && (width > 0 || n == 0)
    requires forall i :: 0 <= i < n ==> cells[i].glyph != []
    requires j + 1 < |Pieces(cells, width, n)|
    requires Pieces(cells, width, n)[j].Span? && Pieces(cells, width, n)[j + 1].Span?
    ensures Pieces(cells, width, n)[j].glyph != Pieces(cells, width, n)[j + 1].glyph
         || Pieces(cells, width, n)[j].key != Pieces(cells, width, n)[j + 1].key
    decreases n
  {
    var i := n - 1;
    var prev := Pieces(cells, width, i);
    var ps := Pieces(cells, width, n);
    var c := cells[i];
    assert c.glyph != [];
    if Continues(cells, width, i) {
      var last := prev[|prev| - 1];
      PiecesExtend(cells, width, i, last.count);
      var grown := Span(c.glyph, last.count + 1, KeyOf(c));
      assert ps == prev[..|prev| - 1] + [grown];
      assert ps[j] == prev[j];
      if j + 1 < |ps| - 1 {
        assert ps[j + 1] == prev[j + 1];
      } else {
        assert ps[j + 1] == grown;
      }
      AdjacentSpansDiffer(cells, width, i, j);
    } else {
      PiecesOpen(cells, width, i);
      var sp := Span(c.glyph, 1, KeyOf(c));
      if RowStart(i, width) {
        assert ps == prev + [Break] + [sp];
        assert ps[j] == prev[j] && ps[j + 1] == prev[j + 1];
        AdjacentSpansDiffer(cells, width, i, j);
      } else {
        assert ps == prev + [sp];
        assert ps[j] == prev[j];
        if j + 1 < |prev| {
          assert ps[j + 1] == prev[j + 1];
          AdjacentSpansDiffer(cells, width, i, j);
        } else {
          assert ps[j + 1] == sp && i > 0;
          assert prev[|prev| - 1].glyph == cells[i - 1].glyph && prev[|prev| - 1].key == KeyOf(cells[i - 1]);
        }
      }
    }
  }

  lemma RenderSnoc(ps: seq<Piece>, p: Piece)
    ensures Render(ps + [p]) == Render(ps) + RenderPiece(p)
  {
    assert (ps + [p])[..|ps + [p]| - 1] == ps;
  }

  lemma SpanHtmlOneLine(k: Key, run: string)
    requires '\n' !in run
    ensures '\n' !in SpanHtml(k, run)
  {
    IntToStringPlain(k.h);
    IntToStringPlain(k.s);
    IntToStringPlain(k.l);
    var open: string := "<span style=\"color:hsl(";
    var close: string := "%)\">";
    var tail: string := "</span>";
    assert '\n' !in open && '\n' !in close && '\n' !in tail && '\n' !in "," && '\n' !in "%,";
    assert SpanHtml(k, run) == open + IntToString(k.h) + "," + IntToString(k.s) + "%," + IntToString(k.l) + close + run + tail;
  }

  /** The fragment is one line: it holds no line feed unless a glyph does. */
  lemma {:induction false} RenderOneLine(ps: seq<Piece>)
    requires forall j :: 0 <= j < |ps| && ps[j].Span? ==> '\n' !in ps[j].glyph
    ensures '\n' !in Render(ps)
    decreases |ps|
  {
    if ps != [] {
      var init := ps[..|ps| - 1];
      assert forall j :: 0 <= j < |init| && init[j].Span? ==> '\n' !in init[j].glyph by {
        forall j | 0 <= j < |init| ensures init[j] == ps[j] { }
      }
      RenderOneLine(init);
      assert Render(ps) == Render(init) + RenderPiece(ps[|ps| - 1]);
      match ps[|ps| - 1]
      case Span(g, c, k) =>
        RepeatAvoids(g, c, '\n');
        SpanHtmlOneLine(k, Repeat(g, c));
      case Break =>
        assert '\n' !in ROW_BREAK;
    }
  }

  /** After `i` cells the run of cell `i - 1` is still being collected when
      that cell has a glyph; `add_html` has then written every piece but the last. */
  predicate RunOpen(cells: seq<Cell>, i: nat)
    requires i <= |cells|
  {
    i > 0 && cells[i - 1].glyph != []
  }

  /** The pieces already written to the fragment after `i` cells. */
  ghost function Closed(cells: seq<Cell>, width: nat, i: nat): (ps: seq<Piece>)
    requires i <= |cells| && (width > 0 || i == 0)
    ensures RunOpen(cells, i) ==> Pieces(cells, width, i) == ps + [OpenRun(cells, width, i)]
    ensures !RunOpen(cells, i) ==> ps == Pieces(cells, width, i)
  {
    var all := Pieces(cells, width, i);
    if RunOpen(cells, i) then all[..|all| - 1] else all
  }

  /** The run still being collected after `i` cells. */
  ghost function OpenRun(cells: seq<Cell>, width: nat, i: nat): (p: Piece)
    requires i <= |cells| && (width > 0 || i == 0) && RunOpen(cells, i)
    ensures p.Span? && p.glyph == cells[i - 1].glyph && p.key == KeyOf(cells[i - 1]) && p.count >= 1
  {
    var all := Pieces(cells, width, i);
    SpansNonEmpty(cells, width, i, |all| - 1);
    all[|all| - 1]
  }

  /** Cell `i` after a row break: nothing was open. */
  lemma StepStart(cells: seq<Cell>, width: nat, i: nat)
    requires i < |cells| && width > 0 && !Continues(cells, width, i)
    ensures var before := Pieces(cells, width, i) + (if RowStart(i, width) then [Break] else []);
      Closed(cells, width, i + 1) == before
      && (RunOpen(cells, i + 1) ==> OpenRun(cells, width, i + 1).count == 1)
  {
    if cells[i].glyph == [] {
      PiecesSkip(cells, width, i);
    } else {
      PiecesOpen(cells, width, i);
    }
  }

  /** Cell `i` lengthens the open run. */
  lemma StepExtend(cells: seq<Cell>, width: nat, i: nat)
    requires i < |cells| && width > 0 && Continues(cells, width, i)
    ensures RunOpen(cells, i) && RunOpen(cells, i + 1)
    ensures Closed(cells, width, i + 1) == Closed(cells, width, i)
    ensures OpenRun(cells, width, i + 1).count == OpenRun(cells, width, i).count + 1
  {
    var p := OpenRun(cells, width, i);
    PiecesExtend(cells, width, i, p.count);
  }

  /** Cell `i` ends the open run of its row and opens its own, if it has a glyph. */
  lemma StepFlush(cells: seq<Cell>, width: nat, i: nat)
    requires i < |cells| && width > 0 && RunOpen(cells, i) && !RowStart(i, width) && !Continues(cells, width, i)
    ensures Closed(cells, width, i + 1) == Closed(cells, width, i) + [OpenRun(cells, width, i)]
    ensures RunOpen(cells, i + 1) ==> OpenRun(cells, width, i + 1).count == 1
  {
    StepStart(cells, width, i);
  }

  /** The state `add_html` carries from cell to cell: the fragment so far,
      the glyph and integer colour of the open run, and the run text. */
  datatype Scan = Scan(html: string, lastGlyph: Bytes, lastKey: Key, run: string)

  /** The "no colour yet" sentinel (-1, -1, -1). */
  const NO_KEY: Key := Key(-1, -1, -1)

  /** `flush_run` on values: the run, if any, becomes one span. */
  function Flushed(html: string, run: string, k: Key): (r: string)
    ensures run == [] ==> r == html
    ensures run != [] ==> r == html + SpanHtml(k, run)
  {
    if run == [] then html else html + SpanHtml(k, run)
  }

  /** The row-break step of one iteration (`brk` is the row-start test). */
  function BreakStep(st: Scan, brk: bool): Scan
  {
    if brk then Scan(Flushed(st.html, st.run, st.lastKey) + ROW_BREAK, [], NO_KEY, []) else st
  }

  /** The rest of one iteration: start, extend or switch the run. */
  function CellStep(st: Scan, c: Cell): Scan
  {
    var key := KeyOf(c);
    if st.lastGlyph == [] then Scan(st.html, c.glyph, key, st.run + c.glyph)
    else if c.glyph == st.lastGlyph && key == st.lastKey then Scan(st.html, st.lastGlyph, st.lastKey, st.run + c.glyph)
    else Scan(Flushed(st.html, st.run, st.lastKey), c.glyph, key, c.glyph)
  }

  /** The state after the first `n` iterations. */
  ghost function ScanUpTo(cells: seq<Cell>, width: nat, n: nat): Scan
    requires n <= |cells| && (width > 0 || n == 0)
    decreases n
  {
    if n == 0 then Scan("", [], NO_KEY, "")
    else CellStep(BreakStep(ScanUpTo(cells, width, n - 1), RowStart(n - 1, width)), cells[n - 1])
  }

  /** The scan state after `i` cells stands for `Pieces`: the closed pieces
      are written, and the run text is the open run's glyph repeated. */
  ghost predicate Agrees(cells: seq<Cell>, width: nat, i: nat, st: Scan)
    requires i <= |cells| && (width > 0 || i == 0)
  {
    && st.html == Render(Closed(cells, width, i))
    && st.lastGlyph == (if i == 0 then [] else cells[i - 1].glyph)
    && (st.lastGlyph == [] ==> st.run == [])
    && (st.lastGlyph != [] ==>
         st.lastKey == KeyOf(cells[i - 1]) && st.run == Repeat(st.lastGlyph, OpenRun(cells, width, i).count))
  }

  /** The state between the row-break test and the cell itself. */
  ghost predicate MidAgrees(cells: seq<Cell>, width: nat, i: nat, st: Scan)
    requires i < |cells| && width > 0
  {
    && (st.lastGlyph == [] ==>
         st.run == [] && (RowStart(i, width) || !RunOpen(cells, i))
         && st.html == Render(Pieces(cells, width, i) + (if RowStart(i, width) then [Break] else [])))
    && (st.lastGlyph != [] ==>
         !RowStart(i, width) && RunOpen(cells, i) && st.lastGlyph == cells[i - 1].glyph
         && st.html == Render(Closed(cells, width, i)) && st.lastKey == KeyOf(cells[i - 1])
         && st.run == Repeat(st.lastGlyph, OpenRun(cells, width, i).count))
  }

  /** At a row start the open run and the separator are written. */
  lemma BreakAgrees(cells: seq<Cell>, width: nat, i: nat, st: Scan)
    requires i < |cells| && width > 0 && Agrees(cells, width, i, st) && RowStart(i, width)
    ensures MidAgrees(cells, width, i, BreakStep(st, true))
  {
    var all := Pieces(cells, width, i);
    if RunOpen(cells, i) {
      RenderSnoc(Closed(cells, width, i), OpenRun(cells, width, i));
      assert st.run != [];
      assert Flushed(st.html, st.run, st.lastKey) == Render(all);
    } else {
      assert st.run == [];
      assert Flushed(st.html, st.run, st.lastKey) == Render(all);
    }
    RenderSnoc(all, Break);
  }

  /** Inside a row the state is left as it is. */
  lemma NoBreakAgrees(cells: seq<Cell>, width: nat, i: nat, st: Scan)
    requires i < |cells| && width > 0 && Agrees(cells, width, i, st) && !RowStart(i, width)
    ensures MidAgrees(cells, width, i, BreakStep(st, false))
  {
    if st.lastGlyph == [] {
      assert !RunOpen(cells, i);
      var all := Pieces(cells, width, i);
      assert Closed(cells, width, i) == all;
      assert all + [] == all;
    } else {
      assert RunOpen(cells, i);
    }
  }

  lemma StartAgrees(cells: seq<Cell>, width: nat, i: nat, st: Scan)
    requires i < |cells| && width > 0 && MidAgrees(cells, width, i, st) && st.lastGlyph == []
    ensures Agrees(cells, width, i + 1, CellStep(st, cells[i]))
  {
    StepStart(cells, width, i);
    assert st.run + cells[i].glyph == Repeat(cells[i].glyph, 1);
  }

  /** Extending the open run by one more copy of its glyph. */
  lemma ExtendCore(cells: seq<Cell>, width: nat, i: nat, html: string, run: string)
    requires i < |cells| && width > 0 && Continues(cells, width, i)
    requires html == Render(Closed(cells, width, i))
    requires run == Repeat(cells[i].glyph, OpenRun(cells, width, i).count)
    ensures Agrees(cells, width, i + 1, Scan(html, cells[i].glyph, KeyOf(cells[i]), run + cells[i].glyph))
  {
    StepExtend(cells, width, i);
    assert Repeat(cells[i].glyph, OpenRun(cells, width, i).count + 1) == run + cells[i].glyph;
  }

  lemma ExtendAgrees(cells: seq<Cell>, width: nat, i: nat, st: Scan)
    requires i < |cells| && width > 0 && MidAgrees(cells, width, i, st) && st.lastGlyph != []
    requires cells[i].glyph == st.lastGlyph && KeyOf(cells[i]) == st.lastKey
    ensures Agrees(cells, width, i + 1, CellStep(st, cells[i]))
  {
    assert Continues(cells, width, i);
    ExtendCore(cells, width, i, st.html, st.run);
    assert CellStep(st, cells[i]) == Scan(st.html, st.lastGlyph, st.lastKey, st.run + st.lastGlyph);
  }

  lemma SwitchAgrees(cells: seq<Cell>, width: nat, i: nat, st: Scan)
    requires i < |cells| && width > 0 && MidAgrees(cells, width, i, st) && st.lastGlyph != []
    requires cells[i].glyph != st.lastGlyph || KeyOf(cells[i]) != st.lastKey
    ensures Agrees(cells, width, i + 1, CellStep(st, cells[i]))
  {
    StepFlush(cells, width, i);
    RenderSnoc(Closed(cells, width, i), OpenRun(cells, width, i));
    assert cells[i].glyph == Repeat(cells[i].glyph, 1);
  }

  /** Every iteration keeps the scan state in step with `Pieces`. */
  lemma {:induction false} ScanAgrees(cells: seq<Cell>, width: nat, n: nat)
    requires n <= |cells| && (width > 0 || n == 0)
    ensures Agrees(cells, width, n, ScanUpTo(cells, width, n))
    decreases n
  {
    if n > 0 {
      var i := n - 1;
      ScanAgrees(cells, width, i);
      var mid := BreakStep(ScanUpTo(cells, width, i), RowStart(i, width));
      if RowStart(i, width) {
        BreakAgrees(cells, width, i, ScanUpTo(cells, width, i));
      } else {
        NoBreakAgrees(cells, width, i, ScanUpTo(cells, width, i));
      }
      if mid.lastGlyph == [] {
        StartAgrees(cells, width, i, mid);
      } else if cells[i].glyph == mid.lastGlyph && KeyOf(cells[i]) == mid.lastKey {
        ExtendAgrees(cells, width, i, mid);
      } else {
        SwitchAgrees(cells, width, i, mid);
      }
    }
  }

  /** The last flush completes the fragment: it is the rendering of all pieces. */
  lemma ScanRenders(cells: seq<Cell>, width: nat)
    requires width > 0 || cells == []
    ensures var st := ScanUpTo(cells, width, |cells|);
      Flushed(st.html, st.run, st.lastKey) == Render(Pieces(cells, width, |cells|))
  {
    var n := |cells|;
    ScanAgrees(cells, width, n);
    if RunOpen(cells, n) {
      RenderSnoc(Closed(cells, width, n), OpenRun(cells, width, n));
    }
  }

  /** `flush_run`: write the collected run, if any, as one span and clear it. */
  method FlushRun(html: string, run: string, k: Key) returns (html': string, run': string)
    ensures run' == []
    ensures html' == Flushed(html, run, k)
  {
    html', run' := html, run;
    if run' == [] {
      return;
    }
    html' := html' + SpanHtml(k, run');
    run' := [];
  }

  /** `add_html`. The integers `lastH`, `lastS`, `lastL` are kept together as
      `lastKey`; the sentinel -1 colour is `NO_KEY`. */
  method AddHtml(cells: seq<Cell>, width: nat) returns (html: string)
    requires width > 0 || cells == []
    ensures html == Render(Pieces(cells, width, |cells|))
    ensures cells == [] ==> html == ""
  {
    html := "";
    var lastGlyph: Bytes := [];
    var lastKey := NO_KEY;
    var run: string := "";
    var i := 0;
    while i < |cells|
      invariant i <= |cells|
      invariant Scan(html, lastGlyph, lastKey, run) == ScanUpTo(cells, width, i)
    {
      if RowStart(i, width) {
        html, run := FlushRun(html, run, lastKey);
        html := html + ROW_BREAK;
        lastGlyph := [];
        lastKey := NO_KEY;
      }
      var cell := cells[i];
      var glyph := cell.glyph;
      var key := KeyOf(cell);
      if lastGlyph == [] {
        lastGlyph := glyph;
        lastKey := key;
        run := run + glyph;
      } else if glyph == lastGlyph && key == lastKey {
        run := run + glyph;
      } else {
        html, run := FlushRun(html, run, lastKey);
        lastGlyph := glyph;
        lastKey := key;
        run := run + glyph;
      }
      i := i + 1;
    }
    html, run := FlushRun(html, run, lastKey);
    ScanRenders(cells, width);
  }
}
