/** The browser player of player/hugo-integration/static/js/asciiPlayerJsonl.js:
    the frame store it fills from the cell stream, the spans it lays out, and
    the renderer that rewrites only the spans whose cell changed. */
module Player {
  import opened Text
  import opened JsonText
  import Cells
  import Writer
  import Converter

  /** One cell as the player receives it from `JSON.parse`: `g` is the glyph
      string as its code points, and a field the record lacks is `None`. */
  datatype JsonCell = JsonCell(g: Option<seq<nat>>, h: Option<nat>, s: Option<nat>, l: Option<nat>)

  /** What the four typed arrays hold at one index. */
  datatype Stored = Stored(glyph: nat, h: nat, s: nat, l: nat)

  const UINT16: nat := 65536
  const UINT8: nat := 256

  /** `codePointAt(0) || 0`, stored in a Uint16Array: the first code point,
      0 for the empty string, reduced modulo 2^16. */
  function GlyphCode(g: seq<nat>): (code: nat)
    ensures code < UINT16
    ensures g == [] ==> code == 0
    ensures g != [] && g[0] < UINT16 ==> code == g[0]
  {
    (if g == [] then 0 else g[0]) % UINT16
  }

  /** `cell.x || 0` stored in a typed array of `modulus` values: a missing
      field is 0 and a present one is reduced modulo the array's range. */
  function StoreField(v: Option<nat>, modulus: nat): (r: nat)
    requires modulus > 0
    ensures r < modulus
    ensures v.None? ==> r == 0
    ensures v.Some? && v.value < modulus ==> r == v.value
  {
    match v
    case None => 0
    case Some(x) => x % modulus
  }

  /** The four array entries written for one cell that has a glyph. */
  function StoredOf(c: JsonCell): Stored
    requires c.g.Some?
  {
    Stored(GlyphCode(c.g.value), StoreField(c.h, UINT16), StoreField(c.s, UINT8), StoreField(c.l, UINT8))
  }

  /** The values the compact writer puts in a record reach the player's arrays
      unchanged: none of them wraps. */
  lemma WriterFieldsKept(c: Cells.Cell, code: seq<nat>)
    ensures var st := StoredOf(JsonCell(Some(code), Some(Writer.HueByte(c)), Some(Writer.SatByte(c)), Some(Writer.LumByte(c))));
      st.h == Writer.HueByte(c) && st.s == Writer.SatByte(c) && st.l == Writer.LumByte(c)
  {
  }

  /** The compact writer scales hue, saturation and lightness to 0..255, and
      the player prints what it stores as degrees and percentages: a pure blue
      cell (hue 240, saturation 1, lightness 0.0722) reaches the page as
      `hsl(170, 255%, 18%)`. */
  lemma BlueCellShown(c: Cells.Cell)
    requires c == Cells.Cell(" ", 240.0, 1.0, 0.0722)
    ensures var st := StoredOf(JsonCell(Some([32]), Some(Writer.HueByte(c)), Some(Writer.SatByte(c)), Some(Writer.LumByte(c))));
      HslToString(st.h, st.s, st.l) == HslToString(170, 255, 18)
  {
    assert c.h * 255.0 / 360.0 == 170.0;
    assert c.l * 255.0 == 18.411;
    assert (18.411).Floor == 18;
    WriterFieldsKept(c, [32]);
  }

  /** A typed-array store: an index past the end is ignored. */
  function Put(st: seq<Stored>, idx: nat, v: Stored): (r: seq<Stored>)
    ensures |r| == |st|
    ensures forall j :: 0 <= j < |st| ==> r[j] == (if j == idx then v else st[j])
  {
    if idx < |st| then st[idx := v] else st
  }

  predicate HasGlyphs(frame: seq<JsonCell>)
  {
    forall k :: 0 <= k < |frame| ==> frame[k].g.Some?
  }

  predicate AllHaveGlyphs(frames: seq<seq<JsonCell>>)
  {
    forall f :: 0 <= f < |frames| ==> HasGlyphs(frames[f])
  }

  /** Fresh typed arrays: `n` entries of 0. */
  function Zeros(n: nat): (st: seq<Stored>)
    ensures |st| == n
    ensures forall i :: 0 <= i < n ==> st[i] == Stored(0, 0, 0, 0)
  {
    if n == 0 then [] else Zeros(n - 1) + [Stored(0, 0, 0, 0)]
  }

  /** The arrays after the frames `done` and then the cells `cur` of frame
      `|done|` were stored, cell `c` of frame `f` at index `f * cellCount + c`,
      into arrays of `total` zeros. */
  function FillUpTo(done: seq<seq<JsonCell>>, cur: seq<JsonCell>, cellCount: nat, total: nat): (st: seq<Stored>)
    requires AllHaveGlyphs(done) && HasGlyphs(cur)
    ensures |st| == total
    decreases |done|, |cur|
  {
    if cur != [] then
      Put(FillUpTo(done, cur[..|cur| - 1], cellCount, total), |done| * cellCount + (|cur| - 1), StoredOf(cur[|cur| - 1]))
    else if done == [] then
      Zeros(total)
    else
      FillUpTo(done[..|done| - 1], done[|done| - 1], cellCount, total)
  }

  /** The arrays once every frame is stored: `frameCount * cellCount` entries. */
  function Store(frames: seq<seq<JsonCell>>, cellCount: nat): (st: seq<Stored>)
    requires AllHaveGlyphs(frames)
    ensures |st| == |frames| * cellCount
  {
    FillUpTo(frames, [], cellCount, |frames| * cellCount)
  }

  /** Slot `c` of frame `g` comes before every slot of frame `f > g`. */
  lemma SlotBefore(g: nat, c: nat, cellCount: nat, f: nat)
    requires g < f && c < cellCount
    ensures g * cellCount + c < f * cellCount
  {
    Converter.MulMono(g + 1, f, cellCount);
    assert (g + 1) * cellCount == g * cellCount + cellCount;
  }

  /** Each of the frames `done` holds its first `cellCount` cells in `st`. */
  predicate FramesKept(st: seq<Stored>, done: seq<seq<JsonCell>>, cellCount: nat)
  {
    forall g, c :: 0 <= g < |done| && 0 <= c < cellCount ==>
      c < |done[g]| && done[g][c].g.Some?
      && g * cellCount + c < |st| && st[g * cellCount + c] == StoredOf(done[g][c])
  }

  /** The first `cellCount` of the cells `cur` are held from index `base` on. */
  predicate CellsKept(st: seq<Stored>, base: nat, cur: seq<JsonCell>, cellCount: nat)
  {
    forall c :: 0 <= c < |cur| && c < cellCount ==>
      cur[c].g.Some? && base + c < |st| && st[base + c] == StoredOf(cur[c])
  }

  /** Storing a cell of the current frame keeps the earlier frames: their
      slots all come before the current frame's. */
  lemma EarlierFramesKept(before: seq<Stored>, st: seq<Stored>, done: seq<seq<JsonCell>>, n: nat, v: Stored, cellCount: nat)
    requires AllHaveGlyphs(done)
    requires forall g :: 0 <= g < |done| ==> |done[g]| >= cellCount
    requires st == Put(before, |done| * cellCount + n, v)
    requires FramesKept(before, done, cellCount)
    ensures FramesKept(st, done, cellCount)
  {
    var idx := |done| * cellCount + n;
    forall g, c | 0 <= g < |done| && 0 <= c < cellCount
      ensures c < |done[g]| && done[g][c].g.Some?
        && g * cellCount + c < |st| && st[g * cellCount + c] == StoredOf(done[g][c])
    {
      var j := g * cellCount + c;
      SlotBefore(g, c, cellCount, |done|);
      assert j < |before| && before[j] == StoredOf(done[g][c]);
      assert j != idx;
    }
  }

  /** Storing cell `|cur| - 1` of the current frame at its slot keeps the
      frame's earlier cells. */
  lemma CurrentCellsKept(before: seq<Stored>, st: seq<Stored>, base: nat, cur: seq<JsonCell>, cellCount: nat)
    requires HasGlyphs(cur) && cur != []
    requires base + Min(|cur|, cellCount) <= |before|
    requires st == Put(before, base + (|cur| - 1), StoredOf(cur[|cur| - 1]))
    requires CellsKept(before, base, cur[..|cur| - 1], cellCount)
    ensures CellsKept(st, base, cur, cellCount)
  {
    var n := |cur| - 1;
    forall c | 0 <= c < |cur| && c < cellCount
      ensures base + c < |st| && st[base + c] == StoredOf(cur[c])
    {
      if c < n {
        assert cur[..n][c] == cur[c];
        assert before[base + c] == StoredOf(cur[c]);
      }
    }
  }

  /** Storing one more cell of the current frame keeps the earlier frames and
      the current frame's earlier cells. */
  lemma CellKept(before: seq<Stored>, st: seq<Stored>, done: seq<seq<JsonCell>>, cur: seq<JsonCell>, cellCount: nat)
    requires AllHaveGlyphs(done) && HasGlyphs(cur) && cur != []
    requires forall g :: 0 <= g < |done| ==> |done[g]| >= cellCount
    requires |done| * cellCount + Min(|cur|, cellCount) <= |before|
    requires st == Put(before, |done| * cellCount + (|cur| - 1), StoredOf(cur[|cur| - 1]))
    requires FramesKept(before, done, cellCount)
    requires CellsKept(before, |done| * cellCount, cur[..|cur| - 1], cellCount)
    ensures FramesKept(st, done, cellCount)
    ensures CellsKept(st, |done| * cellCount, cur, cellCount)
  {
    EarlierFramesKept(before, st, done, |cur| - 1, StoredOf(cur[|cur| - 1]), cellCount);
    CurrentCellsKept(before, st, |done| * cellCount, cur, cellCount);
  }

  /** A finished frame with at least `cellCount` cells joins the kept frames. */
  lemma FrameKept(st: seq<Stored>, done: seq<seq<JsonCell>>, cellCount: nat)
    requires AllHaveGlyphs(done) && done != []
    requires forall g :: 0 <= g < |done| ==> |done[g]| >= cellCount
    requires FramesKept(st, done[..|done| - 1], cellCount)
    requires CellsKept(st, (|done| - 1) * cellCount, done[|done| - 1], cellCount)
    ensures FramesKept(st, done, cellCount)
  {
    var m := |done| - 1;
    forall g, c | 0 <= g < |done| && 0 <= c < cellCount
      ensures g * cellCount + c < |st| && st[g * cellCount + c] == StoredOf(done[g][c])
    {
      if g < m {
        assert done[..m][g] == done[g];
        var cell := done[..m][g][c];
        assert g * cellCount + c < |st| && st[g * cellCount + c] == StoredOf(cell);
      } else {
        var cell := done[m][c];
        assert m * cellCount + c < |st| && st[m * cellCount + c] == StoredOf(cell);
      }
    }
  }

  /** While frames are stored in order, every frame stored so far holds its own
      first `cellCount` cells: a frame's surplus cells land in later frames'
      slots, which those frames overwrite. */
  lemma {:induction false} FillKeeps(done: seq<seq<JsonCell>>, cur: seq<JsonCell>, cellCount: nat, total: nat)
    requires AllHaveGlyphs(done) && HasGlyphs(cur)
    requires forall g :: 0 <= g < |done| ==> |done[g]| >= cellCount
    requires |done| * cellCount + Min(|cur|, cellCount) <= total
    ensures FramesKept(FillUpTo(done, cur, cellCount, total), done, cellCount)
    ensures CellsKept(FillUpTo(done, cur, cellCount, total), |done| * cellCount, cur, cellCount)
    decreases |done|, |cur|
  {
    if cur != [] {
      assert HasGlyphs(cur[..|cur| - 1]);
      var before := FillUpTo(done, cur[..|cur| - 1], cellCount, total);
      FillKeeps(done, cur[..|cur| - 1], cellCount, total);
      CellKept(before, FillUpTo(done, cur, cellCount, total), done, cur, cellCount);
    } else if done != [] {
      var m := |done| - 1;
      assert AllHaveGlyphs(done[..m]);
      assert m * cellCount + cellCount == |done| * cellCount;
      FillKeeps(done[..m], done[m], cellCount, total);
      assert FillUpTo(done, [], cellCount, total) == FillUpTo(done[..m], done[m], cellCount, total);
      FrameKept(FillUpTo(done, [], cellCount, total), done, cellCount);
    }
  }

  /** Cell `c` of frame `f` is at flat index `f * cellCount + c` once all frames
      are loaded, when every frame has at least `cellCount` cells. */
  lemma StoreLayout(frames: seq<seq<JsonCell>>, cellCount: nat, f: nat, c: nat)
    requires AllHaveGlyphs(frames)
    requires forall g :: 0 <= g < |frames| ==> |frames[g]| >= cellCount
    requires f < |frames| && c < cellCount
    ensures f * cellCount + c < |Store(frames, cellCount)|
    ensures Store(frames, cellCount)[f * cellCount + c] == StoredOf(frames[f][c])
  {
    var st := Store(frames, cellCount);
    FillKeeps(frames, [], cellCount, |frames| * cellCount);
    assert FramesKept(st, frames, cellCount);
    var cell := frames[f][c];
    assert f * cellCount + c < |st| && st[f * cellCount + c] == StoredOf(cell);
  }

  /** The manifest announces `height / 2` rows while a frame holds
      `(height + 1) / 2` rows of cells, so every frame the converter makes has
      at least `rows * cols` cells and `StoreLayout` applies to it. */
  lemma ConverterFramesFill(width: nat, height: nat)
    ensures (height / 2) * width <= Converter.CellRows(height) * width
  {
    Converter.MulMono(height / 2, Converter.CellRows(height), width);
  }

  /** `hslToString`: the CSS colour of a cell. */
  function HslToString(h: nat, s: nat, l: nat): string
  {
    "hsl(" + (NatToString(h) + (", " + (NatToString(s) + ("%, " + (NatToString(l) + "%)")))))
  }

  /** Reads a colour string back into its three numbers. */
  function ReadHsl(t: string): Option<(nat, nat, nat)>
  {
    match Expect("hsl(", t)
    case None => None
    case Some(t1) =>
      match ReadNat(t1)
      case None => None
      case Some((h, t2)) =>
        match Expect(", ", t2)
        case None => None
        case Some(t3) =>
          match ReadNat(t3)
          case None => None
          case Some((s, t4)) =>
            match Expect("%, ", t4)
            case None => None
            case Some(t5) =>
              match ReadNat(t5)
              case None => None
              case Some((l, t6)) =>
                if t6 == "%)" then Some((h, s, l)) else None
  }

  /** A colour string determines its three numbers. */
  lemma HslRoundTrip(h: nat, s: nat, l: nat)
    ensures ReadHsl(HslToString(h, s, l)) == Some((h, s, l))
  {
    var tail5 := NatToString(l) + "%)";
    var tail4 := "%, " + tail5;
    var tail3 := NatToString(s) + tail4;
    var tail2 := ", " + tail3;
    var tail1 := NatToString(h) + tail2;
    ExpectLiteral("hsl(", tail1);
    ReadNatRoundTrip(h, tail2);
    ExpectLiteral(", ", tail3);
    ReadNatRoundTrip(s, tail4);
    ExpectLiteral("%, ", tail5);
    ReadNatRoundTrip(l, "%)");
  }

  /** Two cells get the same colour string exactly when their h, s and l agree. */
  lemma HslInjective(h: nat, s: nat, l: nat, h': nat, s': nat, l': nat)
    ensures HslToString(h, s, l) == HslToString(h', s', l') <==> (h, s, l) == (h', s', l')
  {
    HslRoundTrip(h, s, l);
    HslRoundTrip(h', s', l');
  }

  /** One line of the cell stream: `None` when `JSON.parse` throws on it or it
      has no `cells` array. */
  type Line = Option<seq<JsonCell>>

  predicate Loadable(lines: seq<Line>)
  {
    forall f :: 0 <= f < |lines| ==> lines[f].Some? && HasGlyphs(lines[f].value)
  }

  function Frames(lines: seq<Line>): (frames: seq<seq<JsonCell>>)
    requires Loadable(lines)
    ensures |frames| == |lines| && AllHaveGlyphs(frames)
    ensures forall f :: 0 <= f < |lines| ==> frames[f] == lines[f].value
  {
    seq(|lines|, f requires 0 <= f < |lines| => lines[f].value)
  }

  /** The arrays `a` hold the entries `st`, one field each. */
  ghost predicate Holds(ga: array<nat>, ha: array<nat>, sa: array<nat>, la: array<nat>, st: seq<Stored>)
    reads ga, ha, sa, la
  {
    ga.Length == |st| && ha.Length == |st| && sa.Length == |st| && la.Length == |st|
    && forall i :: 0 <= i < |st| ==> ga[i] == st[i].glyph && ha[i] == st[i].h && sa[i] == st[i].s && la[i] == st[i].l
  }

  /** One more cell of the current frame: its slot is overwritten. */
  lemma FillStep(done: seq<seq<JsonCell>>, frame: seq<JsonCell>, k: nat, cellCount: nat, total: nat)
    requires AllHaveGlyphs(done) && k < |frame| && HasGlyphs(frame[..k]) && frame[k].g.Some?
    ensures HasGlyphs(frame[..k + 1])
    ensures FillUpTo(done, frame[..k + 1], cellCount, total)
      == Put(FillUpTo(done, frame[..k], cellCount, total), |done| * cellCount + k, StoredOf(frame[k]))
  {
    assert frame[..k + 1][..k] == frame[..k];
    assert frame[..k + 1][k] == frame[k];
  }

  /** The four typed-array writes of one cell; a write past the end of a
      typed array is ignored. */
  method StoreCell(ga: array<nat>, ha: array<nat>, sa: array<nat>, la: array<nat>,
                   idx: nat, cell: JsonCell, ghost st: seq<Stored>)
    requires cell.g.Some?
    requires ga != ha && ga != sa && ga != la && ha != sa && ha != la && sa != la
    requires Holds(ga, ha, sa, la, st)
    modifies ga, ha, sa, la
    ensures Holds(ga, ha, sa, la, Put(st, idx, StoredOf(cell)))
  {
    if idx < ga.Length {
      ga[idx] := GlyphCode(cell.g.value);
      ha[idx] := StoreField(cell.h, UINT16);
      sa[idx] := StoreField(cell.s, UINT8);
      la[idx] := StoreField(cell.l, UINT8);
    }
  }

  /** The body of the inner `forEach` of `loadFrames`: the cells of frame `f`
      stored at `f * cellCount + c`. A cell without `g` throws. */
  method StoreFrame(ga: array<nat>, ha: array<nat>, sa: array<nat>, la: array<nat>,
                    f: nat, ghost done: seq<seq<JsonCell>>, frame: seq<JsonCell>, cellCount: nat)
    returns (ok: bool)
    requires AllHaveGlyphs(done) && |done| == f
    requires ga != ha && ga != sa && ga != la && ha != sa && ha != la && sa != la
    requires Holds(ga, ha, sa, la, FillUpTo(done, [], cellCount, ga.Length))
    modifies ga, ha, sa, la
    ensures ok <==> HasGlyphs(frame)
    ensures ok ==> HasGlyphs(frame) && Holds(ga, ha, sa, la, FillUpTo(done + [frame], [], cellCount, ga.Length))
  {
    var total := ga.Length;
    var base := f * cellCount;
    var k := 0;
    while k < |frame|
      invariant 0 <= k <= |frame|
      invariant HasGlyphs(frame[..k])
      invariant Holds(ga, ha, sa, la, FillUpTo(done, frame[..k], cellCount, total))
    {
      var cell := frame[k];
      if cell.g.None? {
        return false;
      }
      FillStep(done, frame, k, cellCount, total);
      StoreCell(ga, ha, sa, la, base + k, cell, FillUpTo(done, frame[..k], cellCount, total));
      k := k + 1;
    }
    assert frame[..k] == frame;
    assert (done + [frame])[..|done|] == done;
    assert FillUpTo(done + [frame], [], cellCount, total) == FillUpTo(done, frame, cellCount, total);
    ok := true;
  }

  /** The colour pass of `loadFrames`: one `hsl()` string per entry. */
  method ColorStrings(ha: array<nat>, sa: array<nat>, la: array<nat>) returns (colors: seq<string>)
    requires ha.Length == sa.Length == la.Length
    ensures |colors| == ha.Length
    ensures forall i :: 0 <= i < ha.Length ==> colors[i] == HslToString(ha[i], sa[i], la[i])
  {
    var cs := new string[ha.Length](_ => "");
    var i := 0;
    while i < ha.Length
      invariant 0 <= i <= ha.Length
      invariant forall j :: 0 <= j < i ==> cs[j] == HslToString(ha[j], sa[j], la[j])
      modifies cs
    {
      cs[i] := HslToString(ha[i], sa[i], la[i]);
      i := i + 1;
    }
    colors := cs[..];
  }

  /** The parse and colour passes of `loadFrames`: the four typed arrays of
      `|lines| * cellCount` entries and their colour strings, or failure when a
      line does not parse or a cell has no glyph. */
  method LoadFrames(lines: seq<Line>, cellCount: nat)
    returns (ok: bool, glyphs: seq<nat>, hues: seq<nat>, saturations: seq<nat>, lightness: seq<nat>, colors: seq<string>)
    ensures ok <==> Loadable(lines)
    ensures ok ==>
      var st := Store(Frames(lines), cellCount);
      |glyphs| == |st| && |hues| == |st| && |saturations| == |st| && |lightness| == |st| && |colors| == |st|
      && (forall i :: 0 <= i < |st| ==>
            glyphs[i] == st[i].glyph && hues[i] == st[i].h && saturations[i] == st[i].s && lightness[i] == st[i].l)
      && (forall i :: 0 <= i < |st| ==> colors[i] == HslToString(hues[i], saturations[i], lightness[i]))
  {
    var total := |lines| * cellCount;
    var ga := new nat[total](_ => 0);
    var ha := new nat[total](_ => 0);
    var sa := new nat[total](_ => 0);
    var la := new nat[total](_ => 0);
    ghost var done: seq<seq<JsonCell>> := [];
    var f := 0;
    while f < |lines|
      invariant 0 <= f <= |lines| && |done| == f
      modifies ga, ha, sa, la
      invariant AllHaveGlyphs(done)
      invariant forall g :: 0 <= g < f ==> lines[g].Some? && lines[g].value == done[g]
      invariant Holds(ga, ha, sa, la, FillUpTo(done, [], cellCount, total))
    {
      if lines[f].None? {
        return false, [], [], [], [], [];
      }
      var frame := lines[f].value;
      var frameOk := StoreFrame(ga, ha, sa, la, f, done, frame, cellCount);
      if !frameOk {
        return false, [], [], [], [], [];
      }
      done := done + [frame];
      f := f + 1;
    }
    assert Loadable(lines);
    assert done == Frames(lines);
    var cs := ColorStrings(ha, sa, la);
    ok := true;
    glyphs, hues, saturations, lightness, colors := ga[..], ha[..], sa[..], la[..], cs;
  }

  /** `loadManifest`'s frame rate: `maxFps` when given, otherwise the
      manifest's `fps` unless it is missing or zero, otherwise 12; capped at 18. */
  function EffectiveFps(maxFps: Option<int>, manifestFps: Option<int>): (fps: int)
    ensures fps <= 18
    ensures maxFps.Some? ==> fps == Min(maxFps.value, 18)
    ensures maxFps.None? && manifestFps.Some? && manifestFps.value != 0 ==> fps == Min(manifestFps.value, 18)
    ensures maxFps.None? && (manifestFps.None? || manifestFps.value == 0) ==> fps == 12
  {
    var target := if maxFps.Some? then maxFps.value
      else if manifestFps.Some? && manifestFps.value != 0 then manifestFps.value
      else 12;
    if target > 18 then 18 else target
  }

  /** A manifest written for a single image carries `fps` 0, so the player
      falls back to 12 frames per second unless the page asks for another rate. */
  lemma ImageManifestPlaysAt12(maxFps: Option<int>)
    ensures EffectiveFps(maxFps, Some(0)) == (if maxFps.Some? then Min(maxFps.value, 18) else 12)
  {
  }

  /** A child of the player's container. */
  datatype Node = Span(index: nat) | Newline

  /** `initializeDOMStructure` puts a line break after span `i` when `i + 1` is
      a multiple of `cols` and `i` is not the last span (a zero `cols` makes the
      remainder NaN, which is never 0). */
  predicate BreakAfter(cols: nat, cellCount: nat, i: nat)
  {
    cols != 0 && (i + 1) % cols == 0 && i < cellCount - 1
  }

  /** The container's children after the first `n` spans. */
  function LayoutUpTo(cols: nat, cellCount: nat, n: nat): seq<Node>
    decreases n
  {
    if n == 0 then []
    else LayoutUpTo(cols, cellCount, n - 1) + [Span(n - 1)] + (if BreakAfter(cols, cellCount, n - 1) then [Newline] else [])
  }

  function Layout(cols: nat, cellCount: nat): seq<Node>
  {
    LayoutUpTo(cols, cellCount, cellCount)
  }

  lemma DivModUnique(n: int, d: int, q: int, r: int)
    requires d > 0 && 0 <= r < d && n == q * d + r
    ensures n / d == q && n % d == r
  {
    var q', r' := n / d, n % d;
    assert n == q' * d + r';
    assert (q - q') * d == r' - r;
    if q > q' {
      Converter.MulMono(1, q - q', d);
    } else if q < q' {
      Converter.MulMono(1, q' - q, d);
    }
  }

  lemma DivStep(n: nat, d: nat)
    requires n > 0 && d > 0
    ensures n / d == (n - 1) / d + (if n % d == 0 then 1 else 0)
  {
    var q, r := (n - 1) / d, (n - 1) % d;
    if r + 1 == d {
      DivModUnique(n, d, q + 1, 0);
    } else {
      DivModUnique(n, d, q, r + 1);
    }
  }

  /** Before the last span, the first `n` spans are followed by one line break
      per complete row. */
  lemma {:induction false} LayoutLength(cols: nat, cellCount: nat, n: nat)
    requires cols > 0 && n < cellCount
    ensures |LayoutUpTo(cols, cellCount, n)| == n + n / cols
    decreases n
  {
    if n > 0 {
      LayoutLength(cols, cellCount, n - 1);
      DivStep(n, cols);
    }
  }

  /** A shorter layout is a prefix of a longer one: spans are only appended. */
  lemma {:induction false} LayoutPrefix(cols: nat, cellCount: nat, m: nat, n: nat)
    requires m <= n
    ensures LayoutUpTo(cols, cellCount, m) <= LayoutUpTo(cols, cellCount, n)
    decreases n
  {
    if m < n {
      LayoutPrefix(cols, cellCount, m, n - 1);
    }
  }

  /** Span `i` is child `i + i / cols` of the container, and a line break
      follows it exactly when `i + 1` is a multiple of `cols` and `i` is not the
      last span; there are `(cellCount - 1) / cols` breaks in all. */
  lemma LayoutShape(cols: nat, cellCount: nat, i: nat)
    requires cols > 0 && i < cellCount
    ensures var nodes := Layout(cols, cellCount);
      |nodes| == cellCount + (cellCount - 1) / cols
      && i + i / cols < |nodes| && nodes[i + i / cols] == Span(i)
      && ((i + i / cols + 1 < |nodes| && nodes[i + i / cols + 1] == Newline) <==> BreakAfter(cols, cellCount, i))
  {
    var nodes := Layout(cols, cellCount);
    var last := cellCount - 1;
    LayoutLength(cols, cellCount, last);
    assert !BreakAfter(cols, cellCount, last);
    assert |nodes| == cellCount + last / cols;
    LayoutLength(cols, cellCount, i);
    var upto := LayoutUpTo(cols, cellCount, i + 1);
    assert upto[i + i / cols] == Span(i);
    LayoutPrefix(cols, cellCount, i + 1, cellCount);
    if BreakAfter(cols, cellCount, i) {
      assert upto[i + i / cols + 1] == Newline;
    } else if i < last {
      var next := LayoutUpTo(cols, cellCount, i + 2);
      LayoutLength(cols, cellCount, i + 1);
      DivStep(i + 1, cols);
      assert next[i + i / cols + 1] == Span(i + 1);
      LayoutPrefix(cols, cellCount, i + 2, cellCount);
    }
  }

  /** The frame after `frameIndex`, wrapping to 0 after the last. */
  function NextIndex(frameIndex: nat, frameCount: nat): (next: nat)
    requires frameCount > 0
    ensures next < frameCount
    ensures frameIndex + 1 < frameCount ==> next == frameIndex + 1
    ensures frameIndex + 1 == frameCount ==> next == 0
  {
    (frameIndex + 1) % frameCount
  }

  /** `renderFrame`'s next index as written: 1 after the full render, without
      the modulus every other render applies. */
  function NextIndexAsWritten(frameIndex: nat, frameCount: nat): nat
    requires frameCount > 0
  {
    if frameIndex == 0 then 1 else (frameIndex + 1) % frameCount
  }

  /** With two frames or more the written step is the intended one. */
  lemma AsWrittenAgrees(frameIndex: nat, frameCount: nat)
    requires frameCount >= 2
    ensures NextIndexAsWritten(frameIndex, frameCount) == NextIndex(frameIndex, frameCount)
  {
  }

  /** With a single frame the written step leaves the frame range: the next
      render's offset `frameIndex * cellCount` is the end of the loaded store,
      so every cell it reads lies past the glyph, hue, saturation, lightness
      and colour arrays. */
  lemma AsWrittenSingleFrameOverruns(st: FrameStore, i: nat)
    requires StoreShape(st) && st.frameCount == 1 && i < st.cellCount
    ensures NextIndexAsWritten(0, st.frameCount) == st.frameCount
    ensures var off := NextIndexAsWritten(0, st.frameCount) * st.cellCount;
      off + i >= |st.glyphs| && off + i >= |st.hues| && off + i >= |st.saturations|
      && off + i >= |st.lightness| && off + i >= |st.colorStrings|
  {
  }

  /** Every colour string is the one made from its entry's h, s and l. */
  ghost predicate ColorsOf(hues: seq<nat>, saturations: seq<nat>, lightness: seq<nat>, colors: seq<string>)
  {
    |saturations| == |hues| && |lightness| == |hues| && |colors| == |hues|
    && forall i :: 0 <= i < |hues| ==> colors[i] == HslToString(hues[i], saturations[i], lightness[i])
  }

  /** The spans hold the glyph codes and colours of the frame stored at
      offset `off`. */
  ghost predicate SpansShow(sg: array<int>, sc: array<string>, glyphs: seq<nat>, colors: seq<string>, off: nat)
    reads sg, sc
  {
    sg.Length == sc.Length && off + sg.Length <= |glyphs| && |colors| == |glyphs|
    && forall j :: 0 <= j < sg.Length ==> sg[j] == glyphs[off + j] && sc[j] == colors[off + j]
  }

  /** The full render of `renderFrame`: every span is given the glyph and
      colour of the frame at offset `curr`. */
  method PaintAll(sg: array<int>, sc: array<string>, glyphs: seq<nat>, colors: seq<string>, curr: nat)
    requires sg.Length == sc.Length && curr + sg.Length <= |glyphs| && |colors| == |glyphs|
    modifies sg, sc
    ensures SpansShow(sg, sc, glyphs, colors, curr)
  {
    var i := 0;
    while i < sg.Length
      invariant 0 <= i <= sg.Length
      invariant forall j :: 0 <= j < i ==> sg[j] == glyphs[curr + j] && sc[j] == colors[curr + j]
    {
      sg[i] := glyphs[curr + i];
      sc[i] := colors[curr + i];
      i := i + 1;
    }
  }

  /** Span `j` has a different glyph code in the frames at offsets `prev` and `curr`. */
  predicate GlyphChanged(glyphs: seq<nat>, prev: nat, curr: nat, j: nat)
    requires prev + j < |glyphs| && curr + j < |glyphs|
  {
    glyphs[prev + j] != glyphs[curr + j]
  }

  /** Span `j` differs in hue, saturation or lightness between the frames at
      offsets `prev` and `curr`. */
  predicate HslChanged(hues: seq<nat>, saturations: seq<nat>, lightness: seq<nat>, prev: nat, curr: nat, j: nat)
    requires prev + j < |hues| && curr + j < |hues| && |saturations| == |hues| && |lightness| == |hues|
  {
    hues[prev + j] != hues[curr + j] || saturations[prev + j] != saturations[curr + j]
    || lightness[prev + j] != lightness[curr + j]
  }

  /** The spans below `i + 1` whose glyph changed are those below `i`, plus `i` if its glyph changed. */
  lemma GlyphSetStep(glyphs: seq<nat>, prev: nat, curr: nat, i: nat)
    requires prev + i < |glyphs| && curr + i < |glyphs|
    ensures (set j: nat | j < i + 1 && GlyphChanged(glyphs, prev, curr, j))
      == (set j: nat | j < i && GlyphChanged(glyphs, prev, curr, j))
         + (if GlyphChanged(glyphs, prev, curr, i) then {i} else {})
  {
  }

  /** The same step for the spans whose colour changed. */
  lemma HslSetStep(hues: seq<nat>, saturations: seq<nat>, lightness: seq<nat>, prev: nat, curr: nat, i: nat)
    requires prev + i < |hues| && curr + i < |hues| && |saturations| == |hues| && |lightness| == |hues|
    ensures (set j: nat | j < i + 1 && HslChanged(hues, saturations, lightness, prev, curr, j))
      == (set j: nat | j < i && HslChanged(hues, saturations, lightness, prev, curr, j))
         + (if HslChanged(hues, saturations, lightness, prev, curr, i) then {i} else {})
  {
  }

  /** The diff render of `renderFrame`: a span's text is written only when its
      glyph code differs between the frames at offsets `prev` and `curr`, and its
      colour only when h, s or l differs. `textWritten` and `colourWritten` are
      the spans each write reached. Spans that showed the previous frame show
      the current one afterwards. */
  method PaintChanges(sg: array<int>, sc: array<string>, glyphs: seq<nat>, hues: seq<nat>,
                      saturations: seq<nat>, lightness: seq<nat>, colors: seq<string>, prev: nat, curr: nat)
    returns (ghost textWritten: set<nat>, ghost colourWritten: set<nat>)
    requires |hues| == |glyphs| && ColorsOf(hues, saturations, lightness, colors)
    requires SpansShow(sg, sc, glyphs, colors, prev) && curr + sg.Length <= |glyphs|
    modifies sg, sc
    ensures SpansShow(sg, sc, glyphs, colors, curr)
    ensures textWritten == set j: nat | j < sg.Length && GlyphChanged(glyphs, prev, curr, j)
    ensures colourWritten == set j: nat | j < sg.Length && HslChanged(hues, saturations, lightness, prev, curr, j)
  {
    textWritten, colourWritten := {}, {};
    var i := 0;
    while i < sg.Length
      invariant 0 <= i <= sg.Length
      invariant forall j :: 0 <= j < i ==> sg[j] == glyphs[curr + j] && sc[j] == colors[curr + j]
      invariant forall j :: i <= j < sg.Length ==> sg[j] == glyphs[prev + j] && sc[j] == colors[prev + j]
      invariant textWritten == set j: nat | j < i && GlyphChanged(glyphs, prev, curr, j)
      invariant colourWritten == set j: nat | j < i && HslChanged(hues, saturations, lightness, prev, curr, j)
    {
      GlyphSetStep(glyphs, prev, curr, i);
      HslSetStep(hues, saturations, lightness, prev, curr, i);
      if GlyphChanged(glyphs, prev, curr, i) {
        sg[i] := glyphs[curr + i];
        textWritten := textWritten + {i};
      }
      if HslChanged(hues, saturations, lightness, prev, curr, i) {
        sc[i] := colors[curr + i];
        colourWritten := colourWritten + {i};
      }
      i := i + 1;
    }
  }

  /** The manifest fields the player reads. */
  datatype Manifest = Manifest(cols: nat, rows: nat, fps: Option<int>)

  /** No text in a freshly created span. */
  const NO_GLYPH: int := -1

  /** `initializeDOMStructure`: `count` fresh, empty spans, with a line break
      after each complete row of `cols` but the last. */
  method InitializeDom(cols: nat, count: nat) returns (nodes: seq<Node>, spanGlyph: array<int>, spanColor: array<string>)
    ensures nodes == Layout(cols, count)
    ensures fresh(spanGlyph) && fresh(spanColor)
    ensures spanGlyph.Length == count && spanColor.Length == count
    ensures forall i :: 0 <= i < count ==> spanGlyph[i] == NO_GLYPH && spanColor[i] == ""
  {
    spanGlyph := new int[count](_ => NO_GLYPH);
    spanColor := new string[count](_ => "");
    nodes := [];
    var i := 0;
    while i < count
      invariant 0 <= i <= count
      invariant nodes == LayoutUpTo(cols, count, i)
      modifies {}
    {
      nodes := nodes + [Span(i)];
      if cols != 0 && (i + 1) % cols == 0 && i < count - 1 {
        nodes := nodes + [Newline];
      }
      i := i + 1;
    }
  }

  /** The typed arrays `loadFrames` fills, with their dimensions: glyph codes
      and h, s, l values for `frameCount * cellCount` cells, and the colour
      string of each. */
  datatype FrameStore = FrameStore(frameCount: nat, cellCount: nat, glyphs: seq<nat>, hues: seq<nat>,
                                   saturations: seq<nat>, lightness: seq<nat>, colorStrings: seq<string>)

  /** A loaded store: `frameCount * cellCount` entries in each typed array, and
      every colour string made from its entry's h, s and l. */
  ghost predicate StoreShape(st: FrameStore)
  {
    |st.glyphs| == st.frameCount * st.cellCount && |st.hues| == |st.glyphs|
    && ColorsOf(st.hues, st.saturations, st.lightness, st.colorStrings)
  }

  /** The store holds the frames `lines` describe, `st.cellCount` cells per
      frame, as `loadFrames` lays them out. */
  ghost predicate HoldsFrames(st: FrameStore, lines: seq<Line>)
    requires Loadable(lines)
  {
    var s := Store(Frames(lines), st.cellCount);
    |st.glyphs| == |s| && |st.hues| == |s| && |st.saturations| == |s| && |st.lightness| == |s|
    && forall i :: 0 <= i < |s| ==>
      st.glyphs[i] == s[i].glyph && st.hues[i] == s[i].h && st.saturations[i] == s[i].s && st.lightness[i] == s[i].l
  }

  /** The player's closure state. The typed arrays and colour strings are kept
      as one store value: `loadFrames` fills them once and nothing writes them
      after. A span shows the glyph code in `spanGlyph` and the colour in
      `spanColor`. */
  class AsciiPlayer {
    const hasOnReady: bool
    const maxFps: Option<int>
    var cols: nat
    var rows: nat
    var fps: int
    var store: FrameStore
    var nodes: seq<Node>
    var spanGlyph: array<int>
    var spanColor: array<string>
    var frameIndex: nat
    var running: bool
    var rafId: nat
    var readyPending: bool
    var readyCalls: nat

    /** The spans show frame `k`. */
    ghost predicate Shows(k: nat)
      reads this`spanGlyph, this`spanColor, this`store, spanGlyph, spanColor
    {
      k < store.frameCount && spanGlyph.Length == store.cellCount
      && SpansShow(spanGlyph, spanColor, store.glyphs, store.colorStrings, k * store.cellCount)
    }

    ghost predicate Valid()
      reads this, spanGlyph, spanColor
    {
      StoreShape(store)
      && spanGlyph.Length == store.cellCount && spanColor.Length == store.cellCount
      && (running ==> store.frameCount > 0)
      && (frameIndex == 0 || frameIndex < store.frameCount)
      && (frameIndex > 0 ==> Shows(frameIndex - 1))
      && readyCalls + (if readyPending then 1 else 0) == (if hasOnReady then 1 else 0)
    }

    /** `createAsciiPlayerJsonl`: nothing loaded, not running, 12 fps. */
    constructor (onReady: bool, maxFps: Option<int>)
      ensures Valid()
      ensures hasOnReady == onReady && this.maxFps == maxFps
      ensures !running && rafId == 0 && frameIndex == 0 && fps == 12
      ensures store.frameCount == 0 && store.cellCount == 0
      ensures readyPending == onReady && readyCalls == 0
      ensures cols == 0 && rows == 0 && nodes == []
      ensures spanGlyph.Length == 0 && spanColor.Length == 0
    {
      hasOnReady := onReady;
      this.maxFps := maxFps;
      cols, rows, fps := 0, 0, 12;
      store := FrameStore(0, 0, [], [], [], [], []);
      nodes := [];
      spanGlyph := new int[0];
      spanColor := new string[0];
      frameIndex := 0;
      running := false;
      rafId := 0;
      readyPending := onReady;
      readyCalls := 0;
    }

    /** The fields `renderFrame` leaves alone. */
    twostate predicate KeepsStore()
      reads this
    {
      cols == old(cols) && rows == old(rows) && fps == old(fps)
      && store == old(store) && nodes == old(nodes)
      && spanGlyph == old(spanGlyph) && spanColor == old(spanColor)
      && running == old(running) && rafId == old(rafId)
    }

    /** The first branch of `renderFrame`: every span is written from frame 0,
        `onReady` runs if it has not yet, and the index moves to frame 1, or
        back to 0 when there is only one frame. */
    method RenderFull()
      requires Valid() && running && frameIndex == 0
      modifies this, spanGlyph, spanColor
      ensures Valid() && KeepsStore()
      ensures Shows(0) && frameIndex == NextIndex(0, store.frameCount)
      ensures readyCalls == old(readyCalls) + (if old(readyPending) then 1 else 0) && !readyPending
    {
      var st := store;
      Converter.MulMono(1, st.frameCount, st.cellCount);
      PaintAll(spanGlyph, spanColor, st.glyphs, st.colorStrings, 0);
      assert Shows(0);
      if readyPending {
        readyCalls := readyCalls + 1;
        readyPending := false;
      }
      assert 1 % st.frameCount == NextIndex(0, st.frameCount);
      frameIndex := 1 % st.frameCount;
    }

    /** The second branch of `renderFrame`: spans showing frame `k - 1` are
        brought to frame `k` by writing only what differs, and the index moves
        on modulo `frameCount`. */
    method RenderDiff()
      requires Valid() && running && frameIndex > 0
      modifies this, spanGlyph, spanColor
      ensures Valid() && KeepsStore()
      ensures Shows(old(frameIndex)) && frameIndex == NextIndex(old(frameIndex), store.frameCount)
      ensures readyCalls == old(readyCalls) && readyPending == old(readyPending)
    {
      var st := store;
      var k := frameIndex;
      var curr := k * st.cellCount;
      var prev := (k - 1) * st.cellCount;
      Converter.MulMono(k + 1, st.frameCount, st.cellCount);
      assert prev + st.cellCount == curr;
      ghost var textWritten, colourWritten :=
        PaintChanges(spanGlyph, spanColor, st.glyphs, st.hues, st.saturations, st.lightness, st.colorStrings, prev, curr);
      assert Shows(k);
      frameIndex := NextIndex(k, st.frameCount);
    }

    /** `renderFrame`: at frame 0 every span is written from frame 0 and
        `onReady` runs if it has not yet; at a later frame only the spans whose
        glyph code or h, s, l differ from the previous frame are written. The
        next index is taken modulo `frameCount` in both cases. */
    method RenderFrame()
      requires Valid() && running
      modifies this, spanGlyph, spanColor
      ensures Valid() && KeepsStore()
      ensures Shows(old(frameIndex))
      ensures frameIndex == NextIndex(old(frameIndex), store.frameCount)
      ensures readyCalls == old(readyCalls) + (if old(frameIndex) == 0 && old(readyPending) then 1 else 0)
      ensures readyCalls <= 1 && (old(frameIndex) == 0 ==> !readyPending)
      ensures old(frameIndex) != 0 ==> readyPending == old(readyPending)
    {
      if frameIndex == 0 {
        RenderFull();
      } else {
        RenderDiff();
      }
    }

    /** `tick` with its timing reduced to `due` (the accumulated time has
        reached one frame) and `handle` the id `requestAnimationFrame` returns. */
    method Tick(due: bool, handle: nat)
      requires Valid()
      modifies this, spanGlyph, spanColor
      ensures Valid()
      ensures spanGlyph == old(spanGlyph) && spanColor == old(spanColor)
      ensures !old(running) ==> unchanged(this) && unchanged(spanGlyph, spanColor)
      ensures old(running) ==> rafId == handle
      ensures old(running) && !due ==>
        unchanged(spanGlyph, spanColor) && frameIndex == old(frameIndex)
        && readyPending == old(readyPending) && readyCalls == old(readyCalls)
      ensures old(running) && due ==>
        Shows(old(frameIndex)) && frameIndex == NextIndex(old(frameIndex), store.frameCount)
        && readyCalls == old(readyCalls) + (if old(frameIndex) == 0 && old(readyPending) then 1 else 0)
        && readyCalls <= 1 && (old(frameIndex) == 0 ==> !readyPending)
        && (old(frameIndex) != 0 ==> readyPending == old(readyPending))
      ensures running == old(running) && store == old(store) && nodes == old(nodes)
      ensures cols == old(cols) && rows == old(rows) && fps == old(fps)
    {
      if !running {
        return;
      }
      if due {
        RenderFrame();
      }
      rafId := handle;
    }

    /** The end of a successful `start`: the loaded store and the laid-out
        spans are kept, and playback begins at frame 0. */
    method Install(st: FrameStore, n: seq<Node>, sg: array<int>, sc: array<string>, handle: nat)
      requires readyCalls + (if readyPending then 1 else 0) == (if hasOnReady then 1 else 0)
      requires st.frameCount > 0 && StoreShape(st)
      requires sg.Length == st.cellCount && sc.Length == st.cellCount
      modifies this
      ensures Valid()
      ensures store == st && nodes == n && spanGlyph == sg && spanColor == sc
      ensures running && frameIndex == 0 && rafId == handle
      ensures cols == old(cols) && rows == old(rows) && fps == old(fps)
      ensures readyPending == old(readyPending) && readyCalls == old(readyCalls)
    {
      store := st;
      nodes, spanGlyph, spanColor := n, sg, sc;
      frameIndex := 0;
      running := true;
      rafId := handle;
    }

    /** The part of `start` after the running check. */
    method Launch(manifest: Manifest, lines: seq<Line>, handle: nat) returns (ok: bool)
      requires Valid() && !running && lines != []
      modifies this
      ensures Valid()
      ensures cols == manifest.cols && rows == manifest.rows && fps == EffectiveFps(maxFps, manifest.fps)
      ensures ok <==> Loadable(lines)
      ensures !ok ==> !running && frameIndex == old(frameIndex) && rafId == old(rafId)
      ensures !ok ==> nodes == old(nodes) && spanGlyph == old(spanGlyph) && spanColor == old(spanColor)
      ensures ok ==>
        running && frameIndex == 0 && rafId == handle
        && store.frameCount == |lines| && store.cellCount == manifest.rows * manifest.cols
        && HoldsFrames(store, lines) && nodes == Layout(manifest.cols, store.cellCount)
      ensures ok ==> fresh(spanGlyph) && fresh(spanColor)
      ensures ok ==> forall i :: 0 <= i < spanGlyph.Length ==> spanGlyph[i] == NO_GLYPH && spanColor[i] == ""
      ensures readyPending == old(readyPending) && readyCalls == old(readyCalls)
    {
      cols := manifest.cols;
      rows := manifest.rows;
      fps := EffectiveFps(maxFps, manifest.fps);
      var count := rows * cols;
      var loaded, g, h, s, l, cs := LoadFrames(lines, count);
      if !loaded {
        return false;
      }
      var n, sg, sc := InitializeDom(cols, count);
      Install(FrameStore(|lines|, count, g, h, s, l, cs), n, sg, sc, handle);
      ok := true;
    }

    /** `start`: nothing when already running; otherwise the manifest's size
        and frame rate are taken, the frames loaded, the spans laid out and
        playback begun at frame 0. A line that does not parse or a cell without
        a glyph makes it fail, and the player stays stopped. */
    method Start(manifest: Manifest, lines: seq<Line>, handle: nat) returns (ok: bool)
      requires Valid()
      requires lines != []
      modifies this
      ensures Valid()
      ensures old(running) ==> ok && unchanged(this)
      ensures !old(running) ==> cols == manifest.cols && rows == manifest.rows && fps == EffectiveFps(maxFps, manifest.fps)
      ensures !old(running) ==> (ok <==> Loadable(lines))
      ensures !old(running) && !ok ==> !running && frameIndex == old(frameIndex) && rafId == old(rafId)
      ensures !old(running) && !ok ==> nodes == old(nodes) && spanGlyph == old(spanGlyph) && spanColor == old(spanColor)
      ensures !old(running) && ok ==>
        running && frameIndex == 0 && rafId == handle
        && store.frameCount == |lines| && store.cellCount == manifest.rows * manifest.cols
        && HoldsFrames(store, lines) && nodes == Layout(manifest.cols, store.cellCount)
      ensures !old(running) && ok ==> fresh(spanGlyph) && fresh(spanColor)
      ensures !old(running) && ok ==>
        forall i :: 0 <= i < spanGlyph.Length ==> spanGlyph[i] == NO_GLYPH && spanColor[i] == ""
      ensures readyPending == old(readyPending) && readyCalls == old(readyCalls)
    {
      if running {
        return true;
      }
      ok := Launch(manifest, lines, handle);
    }

    /** `stop`: playback ends and a pending animation frame is cancelled. */
    method Stop()
      requires Valid()
      modifies this
      ensures Valid()
      ensures !running && rafId == 0
      ensures cols == old(cols) && rows == old(rows) && fps == old(fps)
      ensures frameIndex == old(frameIndex) && store == old(store) && nodes == old(nodes)
      ensures spanGlyph == old(spanGlyph) && spanColor == old(spanColor)
      ensures readyPending == old(readyPending) && readyCalls == old(readyCalls)
    {
      running := false;
      if rafId != 0 {
        rafId := 0;
      }
    }
  }
}
