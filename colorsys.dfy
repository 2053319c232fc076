/** The hexcone RGB <-> HSV conversions of Python's `colorsys` module,
    transcribed over exact real arithmetic. Channel values are not
    normalised: whatever scale the RGB channels use, the value component
    uses the same scale. */
module Colorsys {

  datatype Rgb = Rgb(r: real, g: real, b: real)
  datatype Hsv = Hsv(h: real, s: real, v: real)

  /** Python's `max(r, g, b)`. */
  function Max3(c: Rgb): (m: real)
    ensures m == c.r || m == c.g || m == c.b
    ensures c.r <= m && c.g <= m && c.b <= m
  {
    if c.r >= c.g && c.r >= c.b then c.r else if c.g >= c.b then c.g else c.b
  }

  /** Python's `min(r, g, b)`. */
  function Min3(c: Rgb): (m: real)
    ensures m == c.r || m == c.g || m == c.b
    ensures m <= c.r && m <= c.g && m <= c.b
  {
    if c.r <= c.g && c.r <= c.b then c.r else if c.g <= c.b then c.g else c.b
  }

  /** Python's `int(x)` on a float: truncation toward zero. */
  function Trunc(x: real): (n: int)
    ensures 0.0 <= x ==> 0 <= n && n as real <= x < n as real + 1.0
    ensures x < 0.0 ==> n <= 0 && n as real - 1.0 < x <= n as real
  {
    if x >= 0.0 then x.Floor else -((-x).Floor)
  }

  /** Python's `x % 1.0`: the floored remainder, which lies in [0, 1). */
  function RemOne(x: real): (r: real)
    ensures 0.0 <= r < 1.0
    ensures (x - r).Floor as real == x - r
  {
    x - x.Floor as real
  }

  /** `rgb_to_hsv` divides by the largest channel unless the colour is grey;
      this is the condition under which it does not raise ZeroDivisionError. */
  predicate HsvDefined(c: Rgb)
  {
    Min3(c) == Max3(c) || Max3(c) != 0.0
  }

  /** `colorsys.rgb_to_hsv`. */
  function RgbToHsv(c: Rgb): (hsv: Hsv)
    requires HsvDefined(c)
    ensures hsv.v == Max3(c)
    ensures 0.0 <= hsv.h < 1.0
    ensures Min3(c) == Max3(c) ==> hsv.h == 0.0 && hsv.s == 0.0
  {
    var maxc := Max3(c);
    var minc := Min3(c);
    var rangec := maxc - minc;
    if minc == maxc then Hsv(0.0, 0.0, maxc)
    else
      var s := rangec / maxc;
      var h := RawHue(c, maxc, rangec);
      Hsv(RemOne(h / 6.0), s, maxc)
  }

  /** `colorsys.hsv_to_rgb`: one of six sectors, chosen by `int(h*6) % 6`. */
  function HsvToRgb(hsv: Hsv): (c: Rgb)
    ensures hsv.s == 0.0 ==> c == Rgb(hsv.v, hsv.v, hsv.v)
    ensures c.r == hsv.v || c.g == hsv.v || c.b == hsv.v
  {
    var h, s, v := hsv.h, hsv.s, hsv.v;
    if s == 0.0 then Rgb(v, v, v)
    else
      var i := Trunc(h * 6.0);
      var f := h * 6.0 - i as real;
      SectorColor(i % 6, v, LowChannel(v, s), FallingChannel(v, s, f), RisingChannel(v, s, f))
  }

  /** The three non-trivial channels `hsv_to_rgb` builds from v, s and the
      fractional part f of h*6. */
  function LowChannel(v: real, s: real): real { v * (1.0 - s) }
  function FallingChannel(v: real, s: real, f: real): real { v * (1.0 - s * f) }
  function RisingChannel(v: real, s: real, f: real): real { v * (1.0 - s * (1.0 - f)) }

  /** The colour of sector k, with v the top channel, p the bottom one,
      q falling and t rising across the sector. */
  function SectorColor(k: int, v: real, p: real, q: real, t: real): (c: Rgb)
    ensures c.r in {v, p, q, t} && c.g in {v, p, q, t} && c.b in {v, p, q, t}
    ensures c.r == v || c.g == v || c.b == v
    ensures c.r == p || c.g == p || c.b == p
  {
    if k == 0 then Rgb(v, t, p)
    else if k == 1 then Rgb(q, v, p)
    else if k == 2 then Rgb(p, v, t)
    else if k == 3 then Rgb(p, q, v)
    else if k == 4 then Rgb(t, p, v)
    else Rgb(v, p, q)
  }

  /** For a non-negative value v and 0 <= lo <= x <= 1, v*lo <= v*x <= v. */
  lemma ScaleBetween(v: real, lo: real, x: real)
    requires 0.0 <= v && lo <= x <= 1.0
    ensures v * lo <= v * x <= v
  {
    assert v * (x - lo) >= 0.0;
    assert v * (1.0 - x) >= 0.0;
  }

  /** The falling and rising channels lie between the low channel and v. */
  lemma ChannelBounds(v: real, s: real, f: real)
    requires 0.0 <= v && 0.0 <= s <= 1.0 && 0.0 <= f <= 1.0
    ensures LowChannel(v, s) <= FallingChannel(v, s, f) <= v
    ensures LowChannel(v, s) <= RisingChannel(v, s, f) <= v
    ensures LowChannel(v, s) <= v
  {
    assert 0.0 <= s * f <= s by { ScaleBetween(s, 0.0, f); }
    assert 0.0 <= s * (1.0 - f) <= s by { ScaleBetween(s, 0.0, 1.0 - f); }
    ScaleBetween(v, 1.0 - s, 1.0 - s * f);
    ScaleBetween(v, 1.0 - s, 1.0 - s * (1.0 - f));
    ScaleBetween(v, 1.0 - s, 1.0 - s);
  }

  /** h*6 splits into its truncation i and a fraction f in [0, 1) when h >= 0. */
  lemma SplitHue(h: real)
    requires 0.0 <= h
    ensures var i := Trunc(h * 6.0); 0 <= i && 0.0 <= h * 6.0 - i as real < 1.0
    ensures h < 1.0 ==> Trunc(h * 6.0) < 6
  {
  }

  /** With a non-negative hue, a saturation in [0, 1] and a non-negative
      value, every channel `hsv_to_rgb` returns lies in [v*(1-s), v]. */
  lemma HsvToRgbBounds(hsv: Hsv)
    requires 0.0 <= hsv.h && 0.0 <= hsv.s <= 1.0 && 0.0 <= hsv.v
    ensures var c := HsvToRgb(hsv); var lo := hsv.v * (1.0 - hsv.s);
      lo <= c.r <= hsv.v && lo <= c.g <= hsv.v && lo <= c.b <= hsv.v
  {
    var h, s, v := hsv.h, hsv.s, hsv.v;
    if s != 0.0 {
      SplitHue(h);
      var i := Trunc(h * 6.0);
      var f := h * 6.0 - i as real;
      ChannelBounds(v, s, f);
      assert HsvToRgb(hsv) ==
        SectorColor(i % 6, v, LowChannel(v, s), FallingChannel(v, s, f), RisingChannel(v, s, f));
    }
  }

  /** a / b == x whenever a == b * x and b is not zero. */
  lemma Quotient(a: real, b: real, x: real)
    requires b != 0.0 && a == b * x
    ensures a / b == x
  {
  }

  /** With the spread range = v*s, the low channel is v - range, the falling
      channel v - range*f and the rising channel v - range*(1-f). */
  lemma ChannelSpread(v: real, s: real, f: real, range: real, a: real, b: real)
    requires range == v * s && a == range * f && b == range * (1.0 - f)
    ensures LowChannel(v, s) == v - range
    ensures FallingChannel(v, s, f) == v - a
    ensures RisingChannel(v, s, f) == v - b
  {
  }

  /** The hue `rgb_to_hsv` computes, before dividing by 6 and reducing
      modulo 1, from the distances of the channels to the top channel maxc
      relative to the spread rangec. */
  function RawHue(c: Rgb, maxc: real, rangec: real): real
    requires rangec != 0.0
  {
    var rc := (maxc - c.r) / rangec;
    var gc := (maxc - c.g) / rangec;
    var bc := (maxc - c.b) / rangec;
    if c.r == maxc then bc - gc
    else if c.g == maxc then 2.0 + rc - bc
    else 4.0 + gc - rc
  }

  /** `rgb_to_hsv` of a colour that is not grey, given its extremes. */
  lemma RgbToHsvSpread(c: Rgb, maxc: real, minc: real)
    requires Max3(c) == maxc && Min3(c) == minc && minc < maxc && maxc != 0.0
    ensures HsvDefined(c)
    ensures RgbToHsv(c) == Hsv(RemOne(RawHue(c, maxc, maxc - minc) / 6.0), (maxc - minc) / maxc, maxc)
  {
  }

  /** A sector colour with top v and a falling and rising channel between
      v - range and v has v as its largest and v - range as its smallest channel. */
  lemma SectorExtremes(k: int, v: real, range: real, a: real, b: real)
    requires 0 <= k < 6 && 0.0 < range && 0.0 <= a <= range && 0.0 <= b <= range
    ensures var c := SectorColor(k, v, v - range, v - a, v - b);
      Max3(c) == v && Min3(c) == v - range
  {
  }

  /** In sector k, with a falling channel v - a and a rising one v - b,
      the raw hue is k plus a / range, less 6 in the last sector. */
  lemma {:induction false} SectorRawHue(k: int, v: real, range: real, a: real, b: real)
    requires 0 <= k < 6 && 0.0 < range && 0.0 <= a < range && a + b == range
    ensures RawHue(SectorColor(k, v, v - range, v - a, v - b), v, range)
      == (if k == 5 then a / range - 1.0 else k as real + a / range)
  {
    var one, zero, fa, fb := range / range, 0.0 / range, a / range, b / range;
    assert range * fa == a;
    assert range * (1.0 - fa) == b;
    Quotient(b, range, 1.0 - fa);
    Quotient(range, range, 1.0);
    Quotient(0.0, range, 0.0);
    assert one == 1.0 && zero == 0.0 && fb == 1.0 - fa;
    var c := SectorColor(k, v, v - range, v - a, v - b);
    var x := RawHue(c, v, range);
    if k == 0 {
      assert c == Rgb(v, v - b, v - range);
      assert x == one - fb;
    } else if k == 1 {
      assert c == Rgb(v - a, v, v - range);
      if a == 0.0 {
        assert x == one - zero;
      } else {
        assert x == 2.0 + fa - one;
      }
    } else if k == 2 {
      assert c == Rgb(v - range, v, v - b);
      assert x == 2.0 + one - fb;
    } else if k == 3 {
      assert c == Rgb(v - range, v - a, v);
      if a == 0.0 {
        assert x == 2.0 + one - zero;
      } else {
        assert x == 4.0 + fa - one;
      }
    } else if k == 4 {
      assert c == Rgb(v - b, v - range, v);
      assert v - b != v;
      assert x == 4.0 + one - fb;
    } else {
      assert c == Rgb(v, v - range, v - a);
      assert x == fa - one;
    }
  }

  /** 0 <= a < range gives 0 <= a / range < 1. */
  lemma QuotientBelowOne(a: real, range: real)
    requires 0.0 <= a < range
    ensures 0.0 <= a / range < 1.0
  {
    var q := a / range;
    assert range * q == a;
    assert q < 0.0 ==> range * q < 0.0;
    assert q >= 1.0 ==> range * (q - 1.0) >= 0.0;
  }

  /** On a sector colour with top v, spread range > 0 and falling channel
      v - a, `rgb_to_hsv` recovers the hue (k + a/range)/6, the saturation
      range/v and the value v. */
  lemma {:induction false} SectorInverse(k: int, v: real, range: real, a: real, b: real)
    requires 0 <= k < 6 && 0.0 < range <= v && 0.0 <= a < range && a + b == range
    ensures var c := SectorColor(k, v, v - range, v - a, v - b);
      HsvDefined(c) && RgbToHsv(c) == Hsv((k as real + a / range) / 6.0, range / v, v)
  {
    var c := SectorColor(k, v, v - range, v - a, v - b);
    SectorExtremes(k, v, range, a, b);
    RgbToHsvSpread(c, v, v - range);
    assert v - (v - range) == range;
    SectorRawHue(k, v, range, a, b);
    var fa := a / range;
    QuotientBelowOne(a, range);
    var x := RawHue(c, v, range);
    if k == 5 {
      assert x == fa - 1.0;
      assert (x / 6.0).Floor == -1;
    } else {
      assert x == k as real + fa;
      assert (x / 6.0).Floor == 0;
    }
  }

  /** For s != 0, `hsv_to_rgb` gives the colour of sector int(h*6) % 6,
      with the fraction f = h*6 - int(h*6). */
  lemma HsvToRgbSector(hsv: Hsv, i: int, f: real)
    requires hsv.s != 0.0 && i == Trunc(hsv.h * 6.0) && f == hsv.h * 6.0 - i as real
    ensures HsvToRgb(hsv) == SectorColor(i % 6, hsv.v, LowChannel(hsv.v, hsv.s),
                                         FallingChannel(hsv.v, hsv.s, f), RisingChannel(hsv.v, hsv.s, f))
  {
  }

  /** The arithmetic linking v, s and f to the spread v*s of a sector. */
  lemma SpreadArithmetic(v: real, s: real, f: real)
    requires 0.0 < s <= 1.0 && 0.0 < v && 0.0 <= f < 1.0
    ensures var range := v * s; var a, b := range * f, range * (1.0 - f);
      0.0 < range <= v && 0.0 <= a < range && 0.0 < b && a + b == range &&
      a / range == f && range / v == s
  {
    var range := v * s;
    ScaleBetween(v, 0.0, s);
    assert range > 0.0;
    var a, b := range * f, range * (1.0 - f);
    ScaleBetween(range, 0.0, f);
    assert b > 0.0;
    Quotient(a, range, f);
    Quotient(range, v, s);
  }

  /** The quantities of a sector colour of hue h, saturation s and value v:
      the spread range = v*s and the falling distance a = range*f give back
      h = (i + a/range)/6 and s = range/v. */
  lemma SectorParameters(hsv: Hsv, i: int, f: real, range: real, a: real, b: real)
    requires 0.0 < hsv.s <= 1.0 && 0.0 < hsv.v
    requires 0 <= i < 6 && 0.0 <= f < 1.0 && hsv.h * 6.0 == i as real + f
    requires range == hsv.v * hsv.s && a == range * f && b == range * (1.0 - f)
    ensures 0.0 < range <= hsv.v && 0.0 <= a < range && a + b == range
    ensures (i as real + a / range) / 6.0 == hsv.h && range / hsv.v == hsv.s
  {
    SpreadArithmetic(hsv.v, hsv.s, f);
    Quotient(i as real + f, 6.0, hsv.h);
  }

  /** `rgb_to_hsv` recovers (h, s, v) from the colour of sector i with
      fraction f, where h*6 = i + f, spread range = v*s, falling channel
      v - range*f and rising channel v - range*(1-f). */
  lemma SectorRoundTrip(hsv: Hsv, i: int, f: real, range: real, a: real, b: real)
    requires 0.0 < hsv.s <= 1.0 && 0.0 < hsv.v
    requires 0 <= i < 6 && 0.0 <= f < 1.0 && hsv.h * 6.0 == i as real + f
    requires range == hsv.v * hsv.s && a == range * f && b == range * (1.0 - f)
    ensures HsvDefined(SectorColor(i, hsv.v, hsv.v - range, hsv.v - a, hsv.v - b))
    ensures RgbToHsv(SectorColor(i, hsv.v, hsv.v - range, hsv.v - a, hsv.v - b)) == hsv
  {
    SectorParameters(hsv, i, f, range, a, b);
    assert hsv == Hsv((i as real + a / range) / 6.0, range / hsv.v, hsv.v);
    SectorInverse(i, hsv.v, range, a, b);
  }

  /** For h in [0, 1), `hsv_to_rgb` gives the colour of sector i = int(h*6)
      with the spread range = v*s and the channel distances a = range*f and
      b = range*(1-f). */
  lemma HsvToRgbSpread(hsv: Hsv, i: int, f: real, range: real, a: real, b: real)
    requires 0.0 <= hsv.h < 1.0 && hsv.s != 0.0
    requires i == Trunc(hsv.h * 6.0) && f == hsv.h * 6.0 - i as real
    requires range == hsv.v * hsv.s && a == range * f && b == range * (1.0 - f)
    ensures 0 <= i < 6 && 0.0 <= f < 1.0
    ensures HsvToRgb(hsv) == SectorColor(i, hsv.v, hsv.v - range, hsv.v - a, hsv.v - b)
  {
    SplitHue(hsv.h);
    HsvToRgbSector(hsv, i, f);
    ChannelSpread(hsv.v, hsv.s, f, range, a, b);
    assert i % 6 == i;
  }

  /** `rgb_to_hsv` inverts `hsv_to_rgb` on every colour that is not grey
      and whose hue lies in [0, 1). */
  lemma HsvRoundTrip(hsv: Hsv)
    requires 0.0 <= hsv.h < 1.0 && 0.0 < hsv.s <= 1.0 && 0.0 < hsv.v
    ensures HsvDefined(HsvToRgb(hsv)) && RgbToHsv(HsvToRgb(hsv)) == hsv
  {
    var i := Trunc(hsv.h * 6.0);
    var f := hsv.h * 6.0 - i as real;
    var range := hsv.v * hsv.s;
    var a, b := range * f, range * (1.0 - f);
    HsvToRgbSpread(hsv, i, f, range, a, b);
    SectorRoundTrip(hsv, i, f, range, a, b);
  }
}
