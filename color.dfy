/** `rgb_to_hsl`: a luma-style lightness with hue and saturation from the
    max/min/delta construction. The source computes in `float`; this model
    computes the same formulas over exact reals, so rounding is idealised away. */
module Color {

  /** One 8-bit channel sample of the decoded image. */
  type Sample = x: int | 0 <= x < 256

  /** Hue in degrees, saturation and lightness as ratios. */
  datatype HSL = HSL(h: real, s: real, l: real)

  const LUMA_R: real := 0.2126
  const LUMA_G: real := 0.7152
  const LUMA_B: real := 0.0722

  function Max3(a: real, b: real, c: real): (m: real)
    ensures m >= a && m >= b && m >= c && (m == a || m == b || m == c)
  {
    if a >= b && a >= c then a else if b >= c then b else c
  }

  function Min3(a: real, b: real, c: real): (m: real)
    ensures m <= a && m <= b && m <= c && (m == a || m == b || m == c)
  {
    if a <= b && a <= c then a else if b <= c then b else c
  }

  /** `static_cast<int>` of a floating-point value: truncation toward zero. */
  function Trunc(x: real): (n: int)
    ensures x >= 0.0 ==> n as real <= x < n as real + 1.0
    ensures x < 0.0 ==> n as real - 1.0 < x <= n as real
  {
    if x >= 0.0 then x.Floor else -((-x).Floor)
  }

  /** `std::fmod`: the remainder of the truncated quotient, with the sign of `x`. */
  function FMod(x: real, y: real): real
    requires y != 0.0
  {
    x - y * Trunc(x / y) as real
  }

  /** Within (-y, y) `fmod` by y is the identity, which is why the red branch of
      the hue never wraps. */
  lemma FModSmall(x: real, y: real)
    requires y > 0.0 && -y < x < y
    ensures FMod(x, y) == x
  {
    var q := x / y;
    assert q * y == x;
    assert -1.0 < q < 1.0 by {
      if q >= 1.0 {
        assert false;
      } else if q <= -1.0 {
        assert false;
      }
    }
  }

  lemma UnitRatio(a: real, d: real)
    requires d > 0.0 && -d <= a <= d
    ensures -1.0 <= a / d <= 1.0
  {
    assert a / d * d == a;
  }

  /** The three luma weights sum to one, so lightness stays a ratio. */
  lemma LumaWeightsSumToOne()
    ensures LUMA_R + LUMA_G + LUMA_B == 1.0
  {
  }

  function Luma(rf: real, gf: real, bf: real): real
  {
    LUMA_R * rf + LUMA_G * gf + LUMA_B * bf
  }

  /** Hue in degrees from channel ratios: 60 degrees per unit of the
      max-channel-relative difference, shifted into [0, 360). */
  function Hue(rf: real, gf: real, bf: real): (h: real)
    requires 0.0 <= rf <= 1.0 && 0.0 <= gf <= 1.0 && 0.0 <= bf <= 1.0
    ensures 0.0 <= h < 360.0
    ensures Max3(rf, gf, bf) == Min3(rf, gf, bf) ==> h == 0.0
  {
    var maxc := Max3(rf, gf, bf);
    var minc := Min3(rf, gf, bf);
    var delta := maxc - minc;
    if delta == 0.0 then 0.0
    else
      var h0 :=
        if maxc == rf then
          (UnitRatio(gf - bf, delta);
           FModSmall((gf - bf) / delta, 6.0);
           60.0 * FMod((gf - bf) / delta, 6.0))
        else if maxc == gf then
          (UnitRatio(bf - rf, delta);
           60.0 * ((bf - rf) / delta + 2.0))
        else
          (UnitRatio(rf - gf, delta);
           60.0 * ((rf - gf) / delta + 4.0));
      if h0 < 0.0 then h0 + 360.0 else h0
  }

  /** Saturation `delta / max`, or 0 for black. */
  function Saturation(maxc: real, minc: real): (s: real)
    requires 0.0 <= minc <= maxc
    ensures 0.0 <= s <= 1.0
    ensures minc == maxc ==> s == 0.0
  {
    if maxc == 0.0 then 0.0
    else
      var delta := maxc - minc;
      assert delta / maxc * maxc == delta;
      delta / maxc
  }

  /** `rgb_to_hsl` on 8-bit channels. */
  function RgbToHsl(r: Sample, g: Sample, b: Sample): (c: HSL)
    ensures 0.0 <= c.l <= 1.0 && 0.0 <= c.s <= 1.0 && 0.0 <= c.h < 360.0
    ensures r == g == b ==> c.h == 0.0 && c.s == 0.0 && c.l == r as real / 255.0
  {
    var rf := r as real / 255.0;
    var gf := g as real / 255.0;
    var bf := b as real / 255.0;
    var maxc := Max3(rf, gf, bf);
    var minc := Min3(rf, gf, bf);
    HSL(Hue(rf, gf, bf), Saturation(maxc, minc), Luma(rf, gf, bf))
  }

  /** Pure red, green and blue land on hues 0, 120 and 240 with full saturation,
      and each channel's lightness is its luma weight. */
  lemma PrimaryColours()
    ensures RgbToHsl(255, 0, 0) == HSL(0.0, 1.0, LUMA_R)
    ensures RgbToHsl(0, 255, 0) == HSL(120.0, 1.0, LUMA_G)
    ensures RgbToHsl(0, 0, 255) == HSL(240.0, 1.0, LUMA_B)
  {
    FModSmall(0.0, 6.0);
  }
}
