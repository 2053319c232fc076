/** `palette_to_hex`: every palette colour is pushed to a fixed saturation
    through HSV, truncated channel by channel and written as a six-digit
    lowercase hex string for the LED controller. */
module Palette {
  import opened Colorsys
  import opened HexFormat

  /** The saturation every colour is forced to ("exaggerated for LEDs"). */
  const Saturation: real := 0.8

  /** Channels on the 0-255 scale the palette extractor produces. */
  predicate InRange(c: Rgb)
    ensures InRange(c) ==> HsvDefined(c)
  {
    0.0 <= c.r <= 255.0 && 0.0 <= c.g <= 255.0 && 0.0 <= c.b <= 255.0
  }

  /** The colour with its saturation replaced, before truncation. Its largest
      channel is the original's largest channel. */
  function Correct(c: Rgb): (d: Rgb)
    requires HsvDefined(c)
    ensures d.r == Max3(c) || d.g == Max3(c) || d.b == Max3(c)
  {
    var hsv := RgbToHsv(c);
    HsvToRgb(Hsv(hsv.h, Saturation, hsv.v))
  }

  function Channels(c: Rgb): seq<real>
  {
    [c.r, c.g, c.b]
  }

  /** The integers `int(channel)` of the corrected colour, red first. */
  function CorrectedBytes(c: Rgb): seq<int>
    requires HsvDefined(c)
  {
    var d := Correct(c);
    [Trunc(d.r), Trunc(d.g), Trunc(d.b)]
  }

  /** The two-digit renderings of the truncated channels, concatenated in order. */
  function EncodeChannels(cs: seq<real>): (s: string)
    ensures |s| >= 2 * |cs|
  {
    if |cs| == 0 then "" else EncodeChannels(cs[..|cs| - 1]) + Format(Trunc(cs[|cs| - 1]), 2)
  }

  /** The hex string `palette_to_hex` produces for one colour. */
  function ColorToHex(c: Rgb): (s: string)
    requires HsvDefined(c)
    ensures |s| >= 6
  {
    EncodeChannels(Channels(Correct(c)))
  }

  /** The tuple `palette_to_hex` returns: one string per colour, and string i
      determined by colour i alone. */
  function HexPalette(palette: seq<Rgb>): (hs: seq<string>)
    requires forall i :: 0 <= i < |palette| ==> HsvDefined(palette[i])
    ensures |hs| == |palette|
    ensures forall i :: 0 <= i < |palette| ==> hs[i] == ColorToHex(palette[i])
  {
    if |palette| == 0 then [] else [ColorToHex(palette[0])] + HexPalette(palette[1..])
  }

  /** The body of `palette_to_hex`'s outer loop for one colour: convert to
      HSV, overwrite the saturation, convert back, then append the two-digit
      rendering of each truncated channel in order. */
  method EncodeColor(color: Rgb) returns (hexColor: string)
    requires HsvDefined(color)
    ensures hexColor == ColorToHex(color)
  {
    var hsv := RgbToHsv(color);
    hsv := hsv.(s := Saturation);
    var corrected := HsvToRgb(hsv);
    var channels := Channels(corrected);
    hexColor := "";
    for k := 0 to |channels|
      invariant hexColor == EncodeChannels(channels[..k])
    {
      assert channels[..k + 1][..k] == channels[..k];
      hexColor := hexColor + Format(Trunc(channels[k]), 2);
    }
    assert channels[..|channels|] == channels;
  }

  /** `palette_to_hex`: one string per colour, appended in input order. */
  method PaletteToHex(palette: seq<Rgb>) returns (hexPalette: seq<string>)
    requires forall i :: 0 <= i < |palette| ==> HsvDefined(palette[i])
    ensures hexPalette == HexPalette(palette)
  {
    hexPalette := [];
    for n := 0 to |palette|
      invariant |hexPalette| == n
      invariant forall i :: 0 <= i < n ==> hexPalette[i] == ColorToHex(palette[i])
    {
      var hexColor := EncodeColor(palette[n]);
      hexPalette := hexPalette + [hexColor];
    }
  }

  /** For a colour on the 0-255 scale, every corrected channel lies between
      0.2 and 1 times the largest input channel, so within [0, 255]. */
  lemma CorrectedBounds(c: Rgb)
    requires InRange(c)
    ensures var d := Correct(c); var v := Max3(c);
      (1.0 - Saturation) * v <= d.r <= v && (1.0 - Saturation) * v <= d.g <= v &&
      (1.0 - Saturation) * v <= d.b <= v && InRange(d)
  {
    var hsv := RgbToHsv(c);
    HsvToRgbBounds(Hsv(hsv.h, Saturation, hsv.v));
  }

  /** Appending the two digits of the last channel to the pairs of the
      others gives the pairs of all channels. */
  lemma AppendPair(prefix: string, last: string, cs: seq<real>)
    requires |cs| > 0 && |prefix| == 2 * (|cs| - 1) && AllHexDigits(prefix)
    requires forall j :: 0 <= j < |cs| - 1 ==> Value(prefix[2 * j..2 * j + 2]) == Trunc(cs[j])
    requires |last| == 2 && AllHexDigits(last) && Value(last) == Trunc(cs[|cs| - 1])
    ensures var s := prefix + last;
      |s| == 2 * |cs| && AllHexDigits(s) &&
      forall j :: 0 <= j < |cs| ==> Value(s[2 * j..2 * j + 2]) == Trunc(cs[j])
  {
    var s := prefix + last;
    forall j | 0 <= j < |cs|
      ensures Value(s[2 * j..2 * j + 2]) == Trunc(cs[j])
    {
      if j < |cs| - 1 {
        assert s[2 * j..2 * j + 2] == prefix[2 * j..2 * j + 2];
      } else {
        assert s[2 * j..2 * j + 2] == last;
      }
    }
  }

  /** Channel j of cs occupies characters 2j and 2j+1 of its encoding. */
  lemma {:induction false} EncodeChannelsBytes(cs: seq<real>)
    requires forall j :: 0 <= j < |cs| ==> 0.0 <= cs[j] < 256.0
    ensures var s := EncodeChannels(cs);
      |s| == 2 * |cs| && AllHexDigits(s) &&
      forall j :: 0 <= j < |cs| ==> Value(s[2 * j..2 * j + 2]) == Trunc(cs[j])
  {
    if |cs| > 0 {
      var init := cs[..|cs| - 1];
      EncodeChannelsBytes(init);
      var n := Trunc(cs[|cs| - 1]);
      ByteFormat(n);
      var prefix, last := EncodeChannels(init), Format(n, 2);
      assert forall j :: 0 <= j < |cs| - 1 ==> init[j] == cs[j];
      AppendPair(prefix, last, cs);
      assert EncodeChannels(cs) == prefix + last;
    }
  }

  /** For a colour on the 0-255 scale the string is six lowercase hex digits,
      and each pair of digits reads back as the truncated corrected channel,
      which is a byte. */
  lemma ColorToHexWellFormed(c: Rgb)
    requires InRange(c)
    ensures var s, bytes := ColorToHex(c), CorrectedBytes(c);
      |s| == 6 && AllHexDigits(s) &&
      forall j :: 0 <= j < 3 ==> 0 <= bytes[j] <= 255 && Value(s[2 * j..2 * j + 2]) == bytes[j]
  {
    CorrectedBounds(c);
    var d := Correct(c);
    var cs := Channels(d);
    EncodeChannelsBytes(cs);
    var s, bytes := ColorToHex(c), CorrectedBytes(c);
    assert s == EncodeChannels(cs);
    forall j | 0 <= j < 3
      ensures 0 <= bytes[j] <= 255 && Value(s[2 * j..2 * j + 2]) == bytes[j]
    {
      assert bytes[j] == Trunc(cs[j]);
    }
  }

  /** The largest byte of the string is `int(max(r, g, b))`: the value
      component passes through unchanged. */
  lemma MaxByte(c: Rgb)
    requires InRange(c)
    ensures var bytes := CorrectedBytes(c);
      (bytes[0] == Trunc(Max3(c)) || bytes[1] == Trunc(Max3(c)) || bytes[2] == Trunc(Max3(c))) &&
      bytes[0] <= Trunc(Max3(c)) && bytes[1] <= Trunc(Max3(c)) && bytes[2] <= Trunc(Max3(c))
  {
    CorrectedBounds(c);
  }

  /** Black stays black. */
  lemma BlackHex()
    ensures ColorToHex(Rgb(0.0, 0.0, 0.0)) == "000000"
  {
    var black := Rgb(0.0, 0.0, 0.0);
    assert RgbToHsv(black) == Hsv(0.0, 0.0, 0.0);
    assert Correct(black) == black;
    assert Digits(0) == "0";
    assert Format(0, 2) == "00";
    var cs := Channels(black);
    assert cs[..0] == [] && cs[..1][..0] == [] && cs[..2][..1] == cs[..1] && cs[..3][..2] == cs[..2];
    assert EncodeChannels(cs[..1]) == "00";
    assert EncodeChannels(cs[..2]) == "0000";
    assert cs[..3] == cs;
    assert EncodeChannels(cs) == "000000";
  }

  /** A grey colour has hue 0, so it comes out in the red sector with the
      two other channels at 1 - 0.8 of its value (over exact reals). */
  lemma GreyBecomesRed(c: Rgb)
    requires InRange(c) && c.r == c.g == c.b
    ensures Correct(c) == Rgb(c.r, (1.0 - Saturation) * c.r, (1.0 - Saturation) * c.r)
  {
    var v := c.r;
    assert RgbToHsv(c) == Hsv(0.0, 0.0, v);
    assert Trunc(0.0 * 6.0) == 0;
    assert LowChannel(v, Saturation) == (1.0 - Saturation) * v;
    assert RisingChannel(v, Saturation, 0.0) == (1.0 - Saturation) * v;
    assert HsvToRgb(Hsv(0.0, Saturation, v)) ==
      SectorColor(0, v, LowChannel(v, Saturation), FallingChannel(v, Saturation, 0.0), RisingChannel(v, Saturation, 0.0));
  }

  /** The original saturation plays no part: colours with the same hue and
      value give the same string. */
  lemma SaturationDiscarded(c1: Rgb, c2: Rgb)
    requires HsvDefined(c1) && HsvDefined(c2)
    requires RgbToHsv(c1).h == RgbToHsv(c2).h && Max3(c1) == Max3(c2)
    ensures ColorToHex(c1) == ColorToHex(c2)
  {
  }

  /** Before truncation the corrected colour has exactly the original hue and
      value and the forced saturation. */
  lemma CorrectedHsv(c: Rgb)
    requires InRange(c) && 0.0 < Max3(c)
    ensures HsvDefined(Correct(c))
    ensures RgbToHsv(Correct(c)) == Hsv(RgbToHsv(c).h, Saturation, Max3(c))
  {
    HsvRoundTrip(Hsv(RgbToHsv(c).h, Saturation, Max3(c)));
  }

  /** Correcting a corrected colour changes nothing (before truncation). */
  lemma CorrectIdempotent(c: Rgb)
    requires InRange(c)
    ensures HsvDefined(Correct(c)) && Correct(Correct(c)) == Correct(c)
  {
    if Max3(c) == 0.0 {
      assert c == Rgb(0.0, 0.0, 0.0);
      assert RgbToHsv(c) == Hsv(0.0, 0.0, 0.0);
      assert Correct(c) == c;
    } else {
      CorrectedHsv(c);
    }
  }
}
