/** The `rtcvRgbaValue` pixel: four channel bytes, and the hue,
    saturation and value that the colour segmentation reads from it. */
module Rgba {
  import opened Base

  /** A pixel. The source overlays the channels on an `int` and a
      `byte[4]`; only the named channels are modelled. */
  datatype RgbaValue = RgbaValue(r: byte, g: byte, b: byte, a: byte)

  // ----------------------------------------------------------- constructors

  /** `rtcvRgbaValue()`: opaque black. */
  function Black(): (p: RgbaValue)
    ensures p.a == 255 && Value(p) == 0
    ensures Hue(p) == 0 && Saturation(p) == 0
  {
    RgbaValue(0, 0, 0, 255)
  }

  /** `rtcvRgbaValue(gray)`: the level on all three colour channels. */
  function Gray(level: byte): (p: RgbaValue)
    ensures p.a == 255 && Value(p) == level && MinChannel(p) == level
    ensures Hue(p) == 0 && Saturation(p) == 0
  {
    RgbaValue(level, level, level, 255)
  }

  /** `rtcvRgbaValue(r, g, b)`: alpha defaults to 255. */
  function Opaque(r: byte, g: byte, b: byte): (p: RgbaValue)
    ensures Equals(p, RgbaValue(r, g, b, 255))
    ensures Value(p) == Max(r, Max(g, b)) && MinChannel(p) == Min(r, Min(g, b))
  {
    RgbaValue(r, g, b, 255)
  }

  // ------------------------------------------------------------------ value

  /** `getV`: the largest colour channel. */
  function Value(p: RgbaValue): (v: byte)
    ensures v >= p.r && v >= p.g && v >= p.b
    ensures v == p.r || v == p.g || v == p.b
  {
    Max(p.r, Max(p.g, p.b))
  }

  /** The smallest colour channel. */
  function MinChannel(p: RgbaValue): (m: byte)
    ensures m <= p.r && m <= p.g && m <= p.b
    ensures m == p.r || m == p.g || m == p.b
  {
    Min(p.r, Min(p.g, p.b))
  }

  // -------------------------------------------------------------------- hue

  /** `getHue` before the `int` is returned as `unsigned char`: the sector
      of the largest channel (red tested first, then green) plus 43 times
      the difference of the other two over the spread, divided as C does. */
  function HueAngle(p: RgbaValue): (a: int)
    ensures Value(p) == MinChannel(p) ==> a == 0
    ensures -43 <= a <= 214
    ensures a < 0 ==> Value(p) == p.r && p.g < p.b
  {
    var v := Value(p);
    if v == 0 then 0
    else
      var diff := v - MinChannel(p);
      if diff == 0 then 0
      else if v == p.r then
        TDivBounds(43 * (p.g - p.b), diff, -43, 43);
        if p.g >= p.b then TDivBounds(43 * (p.g - p.b), diff, 0, 43); TDiv(43 * (p.g - p.b), diff)
        else TDiv(43 * (p.g - p.b), diff)
      else if v == p.g then
        TDivBounds(43 * (p.b - p.r), diff, -43, 43);
        85 + TDiv(43 * (p.b - p.r), diff)
      else
        TDivBounds(43 * (p.r - p.g), diff, -43, 43);
        171 + TDiv(43 * (p.r - p.g), diff)
  }

  /** `getHue`: the angle converted to `unsigned char`, so a negative
      red-sector angle wraps round to the top of the range. */
  function Hue(p: RgbaValue): (h: byte)
    ensures Value(p) == MinChannel(p) ==> h == 0
    ensures 0 <= HueAngle(p) ==> h == HueAngle(p)
    ensures HueAngle(p) < 0 ==> h == HueAngle(p) + 256
  {
    HueAngle(p) % 256
  }

  /** Where each sector's hues fall: red within 43 of 0 (below 0 only when
      blue exceeds green, and then wrapped to 213 .. 255), green in
      42 .. 128 and blue in 128 .. 214; black and gray have hue 0. */
  lemma HueSectors(p: RgbaValue)
    ensures Value(p) == MinChannel(p) ==> Hue(p) == 0
    ensures Value(p) > MinChannel(p) && Value(p) == p.r ==>
      -43 <= HueAngle(p) <= 43 && (HueAngle(p) < 0 ==> p.g < p.b) &&
      (Hue(p) <= 43 || 213 <= Hue(p))
    ensures Value(p) > MinChannel(p) && Value(p) != p.r && Value(p) == p.g ==>
      Hue(p) == HueAngle(p) && 42 <= Hue(p) <= 128
    ensures Value(p) > MinChannel(p) && Value(p) != p.r && Value(p) != p.g ==>
      Hue(p) == HueAngle(p) && 128 <= Hue(p) <= 214
  {
    var v, m := Value(p), MinChannel(p);
    if v > m {
      var diff := v - m;
      if v == p.r {
        TDivBounds(43 * (p.g - p.b), diff, -43, 43);
        if p.g >= p.b { TDivBounds(43 * (p.g - p.b), diff, 0, 43); }
      } else if v == p.g {
        TDivBounds(43 * (p.b - p.r), diff, -43, 43);
      } else {
        TDivBounds(43 * (p.r - p.g), diff, -43, 43);
      }
    }
  }

  /** The six fully saturated primaries and secondaries land on the sector
      constants: red 0, yellow 43, green 85, cyan 128, blue 171, and
      magenta, whose angle -43 wraps to 213. */
  lemma HuePrimaries(a: byte)
    ensures Hue(RgbaValue(255, 0, 0, a)) == 0
    ensures Hue(RgbaValue(255, 255, 0, a)) == 43
    ensures Hue(RgbaValue(0, 255, 0, a)) == 85
    ensures Hue(RgbaValue(0, 255, 255, a)) == 128
    ensures Hue(RgbaValue(0, 0, 255, a)) == 171
    ensures Hue(RgbaValue(255, 0, 255, a)) == 213
  {
    TDivExact(43, 255);
    TDivExact(-43, 255);
  }

  // ------------------------------------------------------------- saturation

  /** `getSat` as the source computes it: one scan that keeps a running
      maximum and minimum, then `255 * (max - min) / max`. */
  function Saturation(p: RgbaValue): (s: byte)
    ensures p.r == p.g == p.b ==> s == 0
    ensures Value(p) > 0 && MinChannel(p) == 0 ==> s == 255
  {
    var max1 := if p.g > p.r then p.g else p.r;
    var min1 := if p.g > p.r then p.r else p.g;
    var max2 := if p.b > max1 then p.b else max1;
    var min2 := if p.b > max1 then min1 else if p.b < min1 then p.b else min1;
    if max2 == 0 then 0 else Scaled(max2 - min2, max2)
  }

  /** `255 * spread / v` for a spread no larger than v. */
  function Scaled(spread: nat, v: nat): (s: byte)
    requires 0 < v && spread <= v
    ensures s * v <= 255 * spread < s * v + v
    ensures spread == 0 ==> s == 0
    ensures spread == v ==> s == 255
  {
    DivAtMost(255 * spread, v, 255);
    DivAtLeast(255 * spread, v, 0);
    if spread == v then MulDiv(255, v); 255 * spread / v
    else 255 * spread / v
  }

  /** The ratio is 0 exactly for no spread and 255 exactly for the full
      spread. */
  lemma ScaledExtremes(spread: nat, v: byte)
    requires 0 < v && spread <= v
    ensures Scaled(spread, v) == 0 <==> spread == 0
    ensures Scaled(spread, v) == 255 <==> spread == v
  {
    if spread > 0 {
      DivAtLeast(255 * spread, v, 1);
    }
    if spread == v {
      MulDiv(255, v);
    } else {
      DivAtMost(255 * spread, v, 254);
    }
  }

  /** The scan finds the true largest and smallest channel, so saturation
      is the spread over the value. */
  lemma SaturationSpread(p: RgbaValue)
    ensures Value(p) == 0 ==> Saturation(p) == 0
    ensures Value(p) > 0 ==> Saturation(p) == Scaled(Value(p) - MinChannel(p), Value(p))
  {
  }

  /** Saturation is 0 exactly for black and grays, and 255 exactly when
      some channel is 0 and another is not. */
  lemma SaturationExtremes(p: RgbaValue)
    ensures Saturation(p) == 0 <==> p.r == p.g == p.b
    ensures Saturation(p) == 255 <==> Value(p) > 0 && MinChannel(p) == 0
  {
    SaturationSpread(p);
    if Value(p) > 0 {
      ScaledExtremes(Value(p) - MinChannel(p), Value(p));
    }
  }

  // ------------------------------------------------------------- comparison

  /** `operator==`: all four channels agree. */
  function Equals(p: RgbaValue, q: RgbaValue): (e: bool)
    ensures e <==> p == q
  {
    p.r == q.r && p.g == q.g && p.b == q.b && p.a == q.a
  }
}
