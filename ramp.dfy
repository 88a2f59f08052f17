/** Glyph ramps: the built-in palettes and the hand-written UTF-8 segmentation
    that `pixels_to_cells` performs before it quantises any pixel. */
module Ramps {
  import opened Text

  /** The byte length a UTF-8 lead byte announces, by the four bit masks the
      converter tests in turn; continuation bytes and invalid lead bytes count
      as 1. */
  function MaskLen(b: bv8): nat
  {
    if b & 0x80 == 0 then 1
    else if b & 0xE0 == 0xC0 then 2
    else if b & 0xF0 == 0xE0 then 3
    else if b & 0xF8 == 0xF0 then 4
    else 1
  }

  /** The same length read off the byte's value: 110xxxxx is C0..DF,
      1110xxxx is E0..EF, 11110xxx is F0..F7. */
  function CharLen(c: Byte): (n: nat)
    ensures 1 <= n <= 4
  {
    if 0xC0 <= c as int < 0xE0 then 2
    else if 0xE0 <= c as int < 0xF0 then 3
    else if 0xF0 <= c as int < 0xF8 then 4
    else 1
  }

  /** What each mask test says about the byte's value. */
  lemma MaskRanges(b: bv8)
    ensures b & 0x80 == 0 <==> b < 0x80
    ensures b & 0xE0 == 0xC0 <==> 0xC0 <= b < 0xE0
    ensures b & 0xF0 == 0xE0 <==> 0xE0 <= b < 0xF0
    ensures b & 0xF8 == 0xF0 <==> 0xF0 <= b < 0xF8
  {
  }

  /** The value ranges agree with the masks on every byte. */
  lemma CharLenMasks(c: Byte)
    ensures CharLen(c) == MaskLen(c as int as bv8)
    ensures CharLen(c) == 2 <==> 0xC0 <= c as int < 0xE0
    ensures CharLen(c) == 3 <==> 0xE0 <= c as int < 0xF0
    ensures CharLen(c) == 4 <==> 0xF0 <= c as int < 0xF8
  {
    var b := c as int as bv8;
    MaskRanges(b);
    assert b < 0x80 <==> c as int < 0x80;
    assert 0xC0 <= b < 0xE0 <==> 0xC0 <= c as int < 0xE0;
    assert 0xE0 <= b < 0xF0 <==> 0xE0 <= c as int < 0xF0;
    assert 0xF0 <= b < 0xF8 <==> 0xF0 <= c as int < 0xF8;
  }

  /** The glyphs of a ramp: each glyph is the bytes its lead byte announces,
      cut short when the ramp ends first (`substr` clamps at the end). */
  function Segment(s: Bytes): (glyphs: seq<Bytes>)
    ensures |glyphs| <= |s|
    ensures |glyphs| == 0 <==> |s| == 0
    decreases |s|
  {
    if s == [] then []
    else
      var n := Min(CharLen(s[0]), |s|);
      [s[..n]] + Segment(s[n..])
  }

  /** One step of the segmentation from byte `i`: the glyph the byte there
      announces, clamped at the end, then the rest. */
  lemma SegmentFrom(s: Bytes, i: nat)
    requires i < |s|
    ensures var end := Min(i + CharLen(s[i]), |s|);
      i < end && Segment(s[i..]) == [s[i..end]] + Segment(s[end..])
  {
    var end := Min(i + CharLen(s[i]), |s|);
    var t := s[i..];
    assert t[0] == s[i];
    assert t[..end - i] == s[i..end];
    assert t[end - i..] == s[end..];
  }

  /** The segmentation loop of `pixels_to_cells`. */
  method SegmentRamp(ramp: Bytes) returns (chars: seq<Bytes>)
    ensures chars == Segment(ramp)
  {
    chars := [];
    var i: nat := 0;
    while i < |ramp|
      invariant i <= |ramp|
      invariant Segment(ramp) == chars + Segment(ramp[i..])
      decreases |ramp| - i
    {
      var c := ramp[i];
      var charLen := CharLen(c);
      var end := Min(i + charLen, |ramp|);
      SegmentFrom(ramp, i);
      assert chars + Segment(ramp[i..]) == (chars + [ramp[i..end]]) + Segment(ramp[end..]);
      chars := chars + [ramp[i..end]];
      i := end;
    }
    assert ramp[i..] == [];
  }

  /** Joining the glyphs gives back the ramp bytes exactly. */
  lemma {:induction false} SegmentConcat(s: Bytes)
    ensures Concat(Segment(s)) == s
    decreases |s|
  {
    if s != [] {
      var n := Min(CharLen(s[0]), |s|);
      SegmentConcat(s[n..]);
      assert s[..n] + s[n..] == s;
    }
  }

  /** Every glyph is one to four bytes, as many as its lead byte announces;
      only the last glyph can be shorter, when the ramp ends inside it. */
  lemma {:induction false} SegmentShape(s: Bytes)
    ensures forall k :: 0 <= k < |Segment(s)| ==>
      var g := Segment(s)[k];
      1 <= |g| <= CharLen(g[0]) <= 4 && (k < |Segment(s)| - 1 ==> |g| == CharLen(g[0]))
    decreases |s|
  {
    if s != [] {
      var n := Min(CharLen(s[0]), |s|);
      SegmentShape(s[n..]);
      var gs := Segment(s);
      assert gs == [s[..n]] + Segment(s[n..]);
      forall k | 0 <= k < |gs|
        ensures var g := gs[k]; 1 <= |g| <= CharLen(g[0]) <= 4 && (k < |gs| - 1 ==> |g| == CharLen(g[0]))
      {
        if k > 0 {
          assert gs[k] == Segment(s[n..])[k - 1];
        } else if k < |gs| - 1 {
          assert |Segment(s[n..])| > 0;
          assert n == CharLen(s[0]);
        }
      }
    }
  }

  predicate IsAscii(s: Bytes) { forall k :: 0 <= k < |s| ==> s[k] as int < 0x80 }

  /** An all-ASCII ramp segments into one glyph per byte. */
  lemma {:induction false} SegmentAscii(s: Bytes)
    requires IsAscii(s)
    ensures |Segment(s)| == |s|
    ensures forall k :: 0 <= k < |s| ==> Segment(s)[k] == [s[k]]
    decreases |s|
  {
    if s != [] {
      assert IsAscii(s[1..]);
      SegmentAscii(s[1..]);
      assert CharLen(s[0]) == 1 && s[..1] == [s[0]];
      assert Segment(s) == [[s[0]]] + Segment(s[1..]);
    }
  }

  /** A glyph whose length is the one its lead byte announces is cut off whole. */
  lemma SegmentCons(g: Bytes, rest: Bytes)
    requires |g| > 0 && |g| == CharLen(g[0])
    ensures Segment(g + rest) == [g] + Segment(rest)
  {
    var s := g + rest;
    assert s[0] == g[0] && s[..|g|] == g && s[|g|..] == rest;
  }

  /** UTF-8 of U+2588 FULL BLOCK, U+2591..U+2593 shades and U+2022 BULLET. */
  const FULL_BLOCK: Bytes := "\U{E2}\U{96}\U{88}"
  const LIGHT_SHADE: Bytes := "\U{E2}\U{96}\U{91}"
  const MEDIUM_SHADE: Bytes := "\U{E2}\U{96}\U{92}"
  const DARK_SHADE: Bytes := "\U{E2}\U{96}\U{93}"
  const BULLET: Bytes := "\U{E2}\U{80}\U{A2}"

  // The built-in ramps of include/rune/ramp.hpp, byte for byte. Each is one
  // literal in the header; here the longer ones are written as pieces of the
  // same bytes (DENSE in runs of ten, the others glyph by glyph).
  const SIMPLE: Bytes := " .:-=+*#%@"
  const DENSE: Bytes := DENSE_FRONT + DENSE_BACK
  const BLOCKS: Bytes := " " + LIGHT_SHADE + MEDIUM_SHADE + DARK_SHADE + FULL_BLOCK
  const DOT: Bytes := FULL_BLOCK + BULLET
  const DOT2: Bytes := FULL_BLOCK

  lemma SimpleGlyphs()
    ensures |Segment(SIMPLE)| == 10
    ensures Segment(SIMPLE)[0] == " " && Segment(SIMPLE)[2] == ":" && Segment(SIMPLE)[9] == "@"
  {
    assert IsAscii(SIMPLE);
    SegmentAscii(SIMPLE);
  }

  lemma AsciiAppend(a: Bytes, b: Bytes)
    requires IsAscii(a) && IsAscii(b)
    ensures IsAscii(a + b)
  {
  }

  const DENSE_FRONT: Bytes := " .'`^,:;Il" + "!i><~+_-?]" + "[}{1)(|\\/t" + "fjrxnuvczX"
  const DENSE_BACK: Bytes := "YUJCLQ0OZm" + "wqpdbkhao*" + "#MW&8%B@$"

  /** The first forty bytes of DENSE are ASCII, with the backslash at 27. */
  lemma DenseFront()
    ensures |DENSE_FRONT| == 40 && IsAscii(DENSE_FRONT)
    ensures DENSE_FRONT[0] == ' ' && DENSE_FRONT[27] == '\\'
  {
    var p1: Bytes, p2: Bytes, p3: Bytes, p4: Bytes := " .'`^,:;Il", "!i><~+_-?]", "[}{1)(|\\/t", "fjrxnuvczX";
    assert IsAscii(p1);
    assert IsAscii(p2);
    assert IsAscii(p3);
    assert IsAscii(p4);
    AsciiAppend(p1, p2);
    AsciiAppend(p1 + p2, p3);
    AsciiAppend(p1 + p2 + p3, p4);
    assert DENSE_FRONT[27] == p3[7];
  }

  /** The last twenty-nine bytes of DENSE are ASCII, ending in the dollar sign. */
  lemma DenseBack()
    ensures |DENSE_BACK| == 29 && IsAscii(DENSE_BACK) && DENSE_BACK[28] == '$'
  {
    var p5: Bytes, p6: Bytes, p7: Bytes := "YUJCLQ0OZm", "wqpdbkhao*", "#MW&8%B@$";
    assert IsAscii(p5);
    assert IsAscii(p6);
    assert IsAscii(p7);
    AsciiAppend(p5, p6);
    AsciiAppend(p5 + p6, p7);
    assert DENSE_BACK[28] == p7[8];
  }

  lemma DenseGlyphs()
    ensures |DENSE| == 69 && |Segment(DENSE)| == 69
    ensures Segment(DENSE)[0] == " " && Segment(DENSE)[68] == "$"
    ensures Segment(DENSE)[27] == "\\"
  {
    DenseFront();
    DenseBack();
    assert DENSE == DENSE_FRONT + DENSE_BACK;
    AsciiAppend(DENSE_FRONT, DENSE_BACK);
    SegmentAscii(DENSE);
    assert DENSE[0] == ' ' && DENSE[27] == '\\' && DENSE[68] == '$';
  }

  lemma BlocksGlyphs()
    ensures Segment(BLOCKS) == [" ", LIGHT_SHADE, MEDIUM_SHADE, DARK_SHADE, FULL_BLOCK]
  {
    var t3 := DARK_SHADE + FULL_BLOCK;
    var t2 := MEDIUM_SHADE + t3;
    var t1 := LIGHT_SHADE + t2;
    SegmentCons(FULL_BLOCK, []);
    assert FULL_BLOCK + [] == FULL_BLOCK;
    SegmentCons(DARK_SHADE, FULL_BLOCK);
    assert Segment(t3) == [DARK_SHADE, FULL_BLOCK];
    SegmentCons(MEDIUM_SHADE, t3);
    assert Segment(t2) == [MEDIUM_SHADE, DARK_SHADE, FULL_BLOCK];
    SegmentCons(LIGHT_SHADE, t2);
    assert Segment(t1) == [LIGHT_SHADE, MEDIUM_SHADE, DARK_SHADE, FULL_BLOCK];
    SegmentCons(" ", t1);
    assert BLOCKS == " " + t1;
  }

  lemma DotGlyphs()
    ensures Segment(DOT) == [FULL_BLOCK, BULLET]
    ensures Segment(DOT2) == [FULL_BLOCK]
  {
    SegmentCons(BULLET, []);
    assert BULLET + [] == BULLET;
    SegmentCons(FULL_BLOCK, BULLET);
    SegmentCons(FULL_BLOCK, []);
    assert FULL_BLOCK + [] == FULL_BLOCK;
  }

  /** Glyph counts of the built-ins: none is empty, so `ramp_chars.size() - 1`
      cannot wrap for any of them. */
  lemma BuiltinGlyphCounts()
    ensures |Segment(SIMPLE)| == 10 && |Segment(DENSE)| == 69 && |Segment(BLOCKS)| == 5
    ensures |Segment(DOT)| == 2 && |Segment(DOT2)| == 1
  {
    SimpleGlyphs();
    DenseGlyphs();
    BlocksGlyphs();
    DotGlyphs();
  }
}
