/** The demo page of the website (`website/src/app/ClientPage.tsx`): its own
    HSV to RGB converter, on a 0..1 scale, and the split of the converted
    `onChange` list into the gradient's base colour and its wave colours. */
module ClientPage {
  import opened JsMath
  import opened Utils

  /** `i`: the sector of the hue, `Math.floor(h / 360 * 6)`. */
  function Sector(h: real): int
  {
    (h / 360.0 * 6.0).Floor
  }

  /** `f`: how far the hue lies into its sector. */
  function Fraction(h: real): real
  {
    h / 360.0 * 6.0 - Sector(h) as real
  }

  /** The `switch` on `i % 6`: which of `v`, `p`, `q` and `t` go to red,
      green and blue. A value outside 0..5 matches no case. */
  function Pick(sector: int, v: real, p: real, q: real, t: real): (c: Option<Rgb>)
    ensures c.None? <==> sector < 0 || 5 < sector
  {
    if sector == 0 then Some(Rgb(v, t, p))
    else if sector == 1 then Some(Rgb(q, v, p))
    else if sector == 2 then Some(Rgb(p, v, t))
    else if sector == 3 then Some(Rgb(p, q, v))
    else if sector == 4 then Some(Rgb(t, p, v))
    else if sector == 5 then Some(Rgb(v, p, q))
    else None
  }

  /** The channels once the case and the fraction are known: `p`, `q` and
      `t`, then the `switch`. */
  function SectorColor(sector: int, f: real, s: real, v: real): Option<Rgb>
  {
    Pick(sector, v, v * (1.0 - s), v * (1.0 - f * s), v * (1.0 - (1.0 - f) * s))
  }

  /** `HSVtoRGB`. The channels are picked by `i % 6`, JavaScript's truncating
      remainder; for a negative hue that remainder can be negative, no case
      matches and the channels stay undefined, which is `None` here. */
  function HsvToRgb(h: real, s: real, v: real): Option<Rgb>
  {
    SectorColor(JsIntRem(Sector(h), 6), Fraction(h), s, v)
  }

  /** The sector and the fraction lie where the `switch` expects them: for a
      hue in [0,360) the sector is one of the six cases and the fraction is in
      [0,1); a hue of exactly 360 is sector 6, which wraps to case 0 with
      fraction 0. */
  lemma SectorRange(h: real)
    ensures 0.0 <= h < 360.0 ==> 0 <= Sector(h) <= 5 && JsIntRem(Sector(h), 6) == Sector(h)
    ensures 0.0 <= Fraction(h) < 1.0
    ensures h == 360.0 ==> Sector(h) == 6 && JsIntRem(Sector(h), 6) == 0 && Fraction(h) == 0.0
  {
  }

  /** The sector has the sign of the hue. */
  lemma SectorSign(h: real)
    ensures Sector(h) < 0 <==> h < 0.0
  {
    if h < 0.0 {
      assert h / 360.0 * 6.0 < 0.0;
    } else {
      NonNegMul(h / 360.0, 6.0);
    }
  }

  /** JavaScript's `i % 6` is negative exactly for a negative `i` that is not
      a multiple of six. */
  lemma NegativeRemainder(i: int)
    ensures JsIntRem(i, 6) < 0 <==> i < 0 && i % 6 != 0
  {
    if i < 0 {
      var n := -i;
      var q, r := n / 6, n % 6;
      assert i == 6 * -q - r;
      if r != 0 {
        assert i == 6 * (-q - 1) + (6 - r);
      }
    }
  }

  /** The channels are undefined exactly for a negative hue whose sector is
      not a multiple of six. */
  lemma HsvToRgbDefined(h: real, s: real, v: real)
    ensures HsvToRgb(h, s, v).None? <==> h < 0.0 && Sector(h) % 6 != 0
  {
    SectorSign(h);
    NegativeRemainder(Sector(h));
  }

  /** A hue just below 0 has no case: `HSVtoRGB(-30, s, v)` leaves the
      channels undefined. */
  lemma NegativeHueUndefined(s: real, v: real)
    ensures HsvToRgb(-30.0, s, v) == None
  {
    assert Sector(-30.0) == -1;
  }

  /** The channels in terms of the chroma `c = v s`, the offset
      `m = v - c` and the fraction `f`. */
  lemma SectorColorForm(sector: int, f: real, s: real, v: real, c: real, m: real)
    requires c == v * s && m == v - c
    ensures SectorColor(sector, f, s, v) == Pick(sector, m + c, m, m + c * (1.0 - f), m + c * f)
  {
    assert SectorColor(sector, f, s, v)
      == Pick(sector, v, v * (1.0 - s), v * (1.0 - f * s), v * (1.0 - (1.0 - f) * s));
    assert v * (1.0 - s) == m;
    assert c * f == v * (f * s);
    assert v * (1.0 - f * s) == m + c * (1.0 - f);
    assert v * (1.0 - (1.0 - f) * s) == m + c * f;
  }

  /** When `p`, `q` and `t` lie between `lo` and `v`, so does every channel
      the `switch` picks, and one of them is `v`: red for cases 0 and 5, green
      for 1 and 2, blue for 3 and 4. */
  lemma PickPeak(sector: int, v: real, p: real, q: real, t: real, lo: real)
    requires 0 <= sector <= 5
    requires lo <= p <= v && lo <= q <= v && lo <= t <= v
    ensures var c := Pick(sector, v, p, q, t).value;
      && Within(c, lo, v)
      && HasChannel(c, v)
      && (sector == 0 || sector == 5 ==> c.r == v)
      && (sector == 1 || sector == 2 ==> c.g == v)
      && (sector == 3 || sector == 4 ==> c.b == v)
  {
  }

  /** With saturation in [0,1], a non-negative value and a fraction in [0,1],
      every channel of every case lies in [0,v], and the case's peak channel
      is `v`. */
  lemma SectorColorPeak(sector: int, f: real, s: real, v: real)
    requires 0 <= sector <= 5
    requires 0.0 <= f <= 1.0 && 0.0 <= s <= 1.0 && 0.0 <= v
    ensures var c := SectorColor(sector, f, s, v).value;
      && Within(c, 0.0, v)
      && HasChannel(c, v)
      && (sector == 0 || sector == 5 ==> c.r == v)
      && (sector == 1 || sector == 2 ==> c.g == v)
      && (sector == 3 || sector == 4 ==> c.b == v)
  {
    var c := v * s;
    var m := v - c;
    SectorColorForm(sector, f, s, v, c, m);
    Share(v, s);
    Share(c, f);
    Share(c, 1.0 - f);
    PickPeak(sector, m + c, m, m + c * (1.0 - f), m + c * f, 0.0);
  }

  /** A share `w` in [0,1] of a non-negative amount `a` lies between 0 and
      `a`. */
  lemma Share(a: real, w: real)
    requires 0.0 <= a && 0.0 <= w <= 1.0
    ensures 0.0 <= a * w <= a
  {
    NonNegMul(a, w);
    NonNegMul(a, 1.0 - w);
  }

  /** For saturation and value in [0,1] every channel lies in [0,v], so in
      [0,1]: the output is not scaled to 255. */
  lemma HsvToRgbBounds(h: real, s: real, v: real)
    requires 0.0 <= s <= 1.0 && 0.0 <= v <= 1.0
    requires HsvToRgb(h, s, v).Some?
    ensures Within(HsvToRgb(h, s, v).value, 0.0, v)
    ensures Within(HsvToRgb(h, s, v).value, 0.0, 1.0)
  {
    SectorRange(h);
    SectorColorPeak(JsIntRem(Sector(h), 6), Fraction(h), s, v);
  }

  /** Every case assigns `v` to one channel and no channel exceeds it: the
      red channel for cases 0 and 5, green for 1 and 2, blue for 3 and 4. */
  lemma HsvToRgbPeak(h: real, s: real, v: real)
    requires 0.0 <= s <= 1.0 && 0.0 <= v
    requires HsvToRgb(h, s, v).Some?
    ensures var c := HsvToRgb(h, s, v).value;
      var sector := JsIntRem(Sector(h), 6);
      && HasChannel(c, v)
      && (sector == 0 || sector == 5 ==> c.r == v)
      && (sector == 1 || sector == 2 ==> c.g == v)
      && (sector == 3 || sector == 4 ==> c.b == v)
      && c.r <= v && c.g <= v && c.b <= v
  {
    SectorRange(h);
    SectorColorPeak(JsIntRem(Sector(h), 6), Fraction(h), s, v);
  }

  /** With saturation 0 the colour is the grey of level `v`. */
  lemma HsvToRgbGrey(h: real, v: real)
    requires HsvToRgb(h, 0.0, v).Some?
    ensures HsvToRgb(h, 0.0, v) == Some(Rgb(v, v, v))
  {
  }

  function Scaled(c: Rgb, k: real): Rgb
  {
    Rgb(k * c.r, k * c.g, k * c.b)
  }

  function Lift(c: Rgb, m: real): Rgb
  {
    Rgb(c.r + m, c.g + m, c.b + m)
  }

  /** `x` of the wheel's converter, read on the sectors of this one: for a
      hue at fraction `f` into sector `i`, it is `f` of the chroma in an even
      sector and `1 - f` of it in an odd one. */
  lemma IntermediateOnSector(h: real, chroma: real)
    requires 0.0 <= h
    ensures var i := Sector(h);
      var f := Fraction(h);
      var x := Intermediate(h / 60.0, chroma);
      (i % 2 == 0 ==> x == chroma * f) && (i % 2 == 1 ==> x == chroma * (1.0 - f))
  {
    var hue1 := h / 60.0;
    var i := Sector(h);
    var f := Fraction(h);
    assert hue1 == i as real + f;
    SectorRange(h);
    SectorSign(h);
    JsRemOfNonNegative(hue1, 2.0);
    var m := i / 2;
    if i % 2 == 0 {
      assert hue1 / 2.0 == m as real + f / 2.0;
      assert (hue1 / 2.0).Floor == m;
      assert JsRem(hue1, 2.0) == f;
    } else {
      assert hue1 / 2.0 == m as real + (1.0 + f) / 2.0;
      assert (hue1 / 2.0).Floor == m;
      assert JsRem(hue1, 2.0) == 1.0 + f;
    }
  }

  /** The page's case `sector` at fraction `f` is the wheel's sextant at
      `hue1 = sector + f`, lifted by `m = v - c`, when the wheel's `x` is `f`
      of the chroma `c = v s` in an even sector and `1 - f` of it in an odd
      one. On a sector boundary the wheel takes the earlier sextant, which
      gives the same channels there. */
  lemma SextantAgrees(sector: int, f: real, hue1: real, x: real, c: real, m: real, s: real, v: real)
    requires 0 <= sector <= 5 && 0.0 <= f < 1.0 && hue1 == sector as real + f
    requires c == v * s && m == v - c
    requires x == if sector % 2 == 0 then c * f else c * (1.0 - f)
    ensures SectorColor(sector, f, s, v) == Some(Lift(Sextant(hue1, c, x), m))
  {
    SectorColorForm(sector, f, s, v, c, m);
    assert f == 0.0 ==> c * (1.0 - f) == c && c * f == 0.0;
    if sector == 0 {
    } else if sector == 1 {
    } else if sector == 2 {
    } else if sector == 3 {
    } else if sector == 4 {
    } else if f == 0.0 {
      assert Sextant(hue1, c, x) == Rgb(c, 0.0, c);
    } else {
      assert Sextant(hue1, c, x) == Rgb(c, 0.0, x);
    }
  }

  /** Inside [0,360) the page's case and fraction pick the channels of the
      wheel's sextant, lifted by `m = v - v s`. */
  lemma SectorColorIsSextant(h: real, s: real, v: real)
    requires 0.0 <= h < 360.0
    ensures HsvToRgb(h, s, v) == Some(Lift(Sextant(h / 60.0, v * s, Intermediate(h / 60.0, v * s)), v - v * s))
  {
    SectorRange(h);
    IntermediateOnSector(h, v * s);
    SextantAgrees(Sector(h), Fraction(h), h / 60.0, Intermediate(h / 60.0, v * s), v * s, v - v * s, s, v);
  }

  /** At hue 360 the page wraps to case 0 and the wheel takes its last
      sextant: both give red at `v` and the other channels at `v - v s`. */
  lemma FullTurnIsSextant(s: real, v: real)
    ensures HsvToRgb(360.0, s, v) == Some(Lift(Sextant(6.0, v * s, Intermediate(6.0, v * s)), v - v * s))
  {
    SectorRange(360.0);
    assert HsvToRgb(360.0, s, v) == Some(Rgb(v, v - v * s, v - v * s)) by {
      assert v * (1.0 - (1.0 - Fraction(360.0)) * s) == v - v * s;
    }
    assert Sextant(6.0, v * s, Intermediate(6.0, v * s)) == Rgb(v * s, 0.0, 0.0);
  }

  /** On hues in [0,360] the page's converter and the wheel's `hsv2rgb` give
      the same colour, up to the wheel's scaling by 255, for every saturation
      and value. */
  lemma HsvToRgbAgreesWithWheel(h: real, s: real, v: real)
    requires 0.0 <= h <= 360.0
    ensures HsvToRgb(h, s, v).Some?
    ensures Hsv2Rgb(h, s, v) == Scaled(HsvToRgb(h, s, v).value, 255.0)
  {
    if h < 360.0 {
      SectorColorIsSextant(h, s, v);
    } else {
      FullTurnIsSextant(s, v);
      assert h / 60.0 == 6.0;
    }
  }

  /** The colour `handleColorChange` computes from one wheel colour. */
  function ToGradient(c: Hsv): Option<Rgb>
  {
    HsvToRgb(c.hue, c.saturation, c.value)
  }

  /** `[base, ...waves]`: the first element and the rest, or `None` for an
      empty list, where `base` is undefined. */
  function SplitFirst<T>(items: seq<T>): (split: Option<(T, seq<T>)>)
    ensures split.None? <==> |items| == 0
    ensures split.Some? ==> [split.value.0] + split.value.1 == items
  {
    if |items| == 0 then None else Some((items[0], items[1..]))
  }

  /** The gradient's colours in `handleColorChange`: each wheel colour
      converted in order, then split into the base colour and the waves. */
  function GradientColors(colors: seq<Hsv>): Option<(Option<Rgb>, seq<Option<Rgb>>)>
  {
    SplitFirst(seq(|colors|, i requires 0 <= i < |colors| => ToGradient(colors[i])))
  }

  /** Element 0 becomes the base colour and elements 1.. become the wave
      colours, in the same order. */
  lemma GradientOrder(colors: seq<Hsv>)
    ensures GradientColors(colors).None? <==> |colors| == 0
    ensures 0 < |colors| ==>
      var split := GradientColors(colors).value;
      && split.0 == ToGradient(colors[0])
      && |split.1| == |colors| - 1
      && forall i :: 0 <= i < |split.1| ==> split.1[i] == ToGradient(colors[i + 1])
  {
  }

  /** Every colour the wheel hands over (hue in [0,360], saturation in
      [0,1], value 1) converts to a defined gradient colour, which is the
      wheel's own `hsv2rgb` colour scaled down to [0,1]. */
  lemma GradientOfWheelColors(colors: seq<Hsv>)
    requires forall c :: c in colors ==> 0.0 <= c.hue <= 360.0 && 0.0 <= c.saturation <= 1.0 && c.value == 1.0
    requires 0 < |colors|
    ensures var split := GradientColors(colors).value;
      var all := [split.0] + split.1;
      |all| == |colors| &&
      forall i :: 0 <= i < |all| ==>
        && all[i].Some?
        && Within(all[i].value, 0.0, 1.0)
        && Scaled(all[i].value, 255.0) == Hsv2Rgb(colors[i].hue, colors[i].saturation, colors[i].value)
  {
    var split := GradientColors(colors).value;
    var all := [split.0] + split.1;
    GradientOrder(colors);
    forall i | 0 <= i < |all|
      ensures && all[i].Some?
              && Within(all[i].value, 0.0, 1.0)
              && Scaled(all[i].value, 255.0) == Hsv2Rgb(colors[i].hue, colors[i].saturation, colors[i].value)
    {
      var c := colors[i];
      assert all[i] == ToGradient(c) by {
        if 0 < i {
          assert all[i] == split.1[i - 1];
        }
      }
      HsvToRgbAgreesWithWheel(c.hue, c.saturation, c.value);
      HsvToRgbBounds(c.hue, c.saturation, c.value);
    }
  }
}
