/** The colour and coordinate helpers of the wheel (`src/utils.ts`): the
    harmony table, Cartesian/polar conversion, the angle-to-hue phase shift, the
    HSV to RGB conversion and the two compositions that go from a disc pixel to
    a colour (`xy2rgb`) and from a colour to a disc position (`hsv2xy`). */
module Utils {
  import opened JsMath

  /** The named harmony patterns. */
  datatype Harmony = Triad | Tetradic | Complementary | Analogous | Square

  /** The hue offsets, in degrees, of each pattern, in the order the derived
      colours are produced. */
  function Offsets(harmony: Harmony): (offsets: seq<real>)
    ensures 1 <= |offsets| <= 3
    ensures forall i :: 0 <= i < |offsets| ==> -360.0 < offsets[i] < 360.0
  {
    match harmony
    case Triad => [120.0, 240.0]
    case Tetradic => [60.0, 180.0, 240.0]
    case Complementary => [180.0]
    case Analogous => [-30.0, 30.0]
    case Square => [90.0, 180.0, 270.0]
  }

  /** A pixel count of the canvas element: its width or height (never zero
      here). */
  type Pixels = n: nat | 0 < n witness 1

  datatype Point = Point(x: real, y: real)

  /** Distance `r` from the origin and angle `phi` measured by `atan2`. */
  datatype Polar = Polar(r: real, phi: real)

  datatype Hsv = Hsv(hue: real, saturation: real, value: real)

  datatype Rgb = Rgb(r: real, g: real, b: real)

  function Xy2Polar(math: Math, x: real, y: real): Polar
  {
    Polar(math.sqrt(x * x + y * y), math.atan2(y, x))
  }

  function Polar2Xy(math: Math, r: real, phi: real): Point
  {
    Point(r * math.cos(phi), r * math.sin(phi))
  }

  /** Going to polar form and back returns the point. */
  ghost predicate PolarRoundTrip(math: Math, x: real, y: real)
  {
    var p := Xy2Polar(math, x, y);
    Polar2Xy(math, p.r, p.phi) == Point(x, y)
  }

  /** Going to Cartesian form and back returns the polar pair, for a positive
      distance and an angle in the range of `atan2`. */
  ghost predicate CartesianRoundTrip(math: Math, r: real, phi: real)
  {
    var pi: real := math.pi;
    0.0 < r && -pi < phi <= pi ==>
      var p := Polar2Xy(math, r, phi);
      Xy2Polar(math, p.x, p.y) == Polar(r, phi)
  }

  /** Turning by half a turn negates cosine and sine. */
  ghost predicate HalfTurn(math: Math, phi: real)
  {
    var pi: real := math.pi;
    math.cos(phi - pi) == -math.cos(phi) && math.sin(phi - pi) == -math.sin(phi)
  }

  /** The facts about `Math.sqrt`, `Math.atan2`, `Math.cos` and `Math.sin`
      that hold of the real functions and that the wheel relies on: the square
      root squares back, `atan2` lands in (-pi, pi] and is 0 at the origin,
      cos^2 + sin^2 = 1, half a turn negates cosine and sine, and the two polar
      conversions invert each other. The round trips and the half turn are
      stated pointwise so that they are used only where a proof asks for them
      (`PolarToXy`, `XyToPolar` and `Opposite`). */
  ghost predicate Lawful(math: Math)
  {
    var pi: real := math.pi;
    && (forall s :: 0.0 <= s ==> 0.0 <= math.sqrt(s) && math.sqrt(s) * math.sqrt(s) == s)
    && (forall y, x :: -pi < math.atan2(y, x) <= pi)
    && math.atan2(0.0, 0.0) == 0.0
    && (forall phi :: math.cos(phi) * math.cos(phi) + math.sin(phi) * math.sin(phi) == 1.0)
    && (forall phi :: HalfTurn(math, phi))
    && (forall x, y :: PolarRoundTrip(math, x, y))
    && (forall r, phi :: CartesianRoundTrip(math, r, phi))
  }

  lemma PolarToXy(math: Math, x: real, y: real)
    requires Lawful(math)
    ensures var p := Xy2Polar(math, x, y); Polar2Xy(math, p.r, p.phi) == Point(x, y)
  {
    assert PolarRoundTrip(math, x, y);
  }

  lemma XyToPolar(math: Math, r: real, phi: real)
    requires Lawful(math)
    requires 0.0 < r && -(math.pi as real) < phi <= math.pi
    ensures var p := Polar2Xy(math, r, phi); Xy2Polar(math, p.x, p.y) == Polar(r, phi)
  {
    assert CartesianRoundTrip(math, r, phi);
  }

  /** Half a turn further round, a point lands opposite the origin: its
      coordinates are negated. */
  lemma Opposite(math: Math, r: real, phi: real)
    requires Lawful(math)
    ensures var p := Polar2Xy(math, r, phi);
      Polar2Xy(math, r, phi - math.pi as real) == Point(-p.x, -p.y)
  {
    assert HalfTurn(math, phi);
  }

  /** The angles -pi and pi name the same direction. */
  lemma HalfTurnSeam(math: Math, r: real)
    requires Lawful(math)
    ensures Polar2Xy(math, r, -(math.pi as real)) == Polar2Xy(math, r, math.pi)
  {
    var pi: real := math.pi;
    assert HalfTurn(math, pi);
    assert HalfTurn(math, 0.0);
    assert pi - pi == 0.0 && 0.0 - pi == -pi;
  }

  /** Angle to hue in degrees, shifted by half a turn: angle 0 (the positive
      x axis) is hue 180. */
  function Rad2Deg(math: Math, rad: real): (deg: real)
    ensures -(math.pi as real) <= rad <= math.pi ==> 0.0 <= deg <= 360.0
    ensures -(math.pi as real) < rad <= math.pi ==> 0.0 < deg <= 360.0
    ensures rad == 0.0 ==> deg == 180.0
  {
    var pi: real := math.pi;
    QuotientBounds(rad + pi, 2.0 * pi, 1.0, 0.0);
    assert pi / (2.0 * pi) == 0.5;
    ((rad + pi) / (2.0 * pi)) * 360.0
  }

  function Deg2Rad(math: Math, hue: real): real
  {
    hue * (math.pi / 180.0)
  }

  /** Subtracting 180 degrees before `Deg2Rad` undoes the phase shift of
      `Rad2Deg`, in both directions. */
  lemma PhaseShiftInverse(math: Math, phi: real, hue: real)
    ensures Deg2Rad(math, Rad2Deg(math, phi) - 180.0) == phi
    ensures Rad2Deg(math, Deg2Rad(math, hue - 180.0)) == hue
  {
    var pi := math.pi;
    assert Rad2Deg(math, phi) - 180.0 == phi * (180.0 / pi);
    assert (phi * (180.0 / pi)) * (pi / 180.0) == phi;
    assert Deg2Rad(math, hue - 180.0) + pi == hue * (pi / 180.0);
    assert (hue * (pi / 180.0)) / (2.0 * pi) == hue / 360.0;
  }

  /** The "From HSV" conversion of Wikipedia's "HSL and HSV" article: chroma,
      the sextant of the hue, and the lightness offset `m`; the channels are
      scaled to 0..255. Sextants are tested in order, both ends inclusive; a
      hue outside 0..360 matches none and gives grey. */
  function Hsv2Rgb(hue: real, saturation: real, value: real): Rgb
  {
    var chroma := value * saturation;
    var hue1 := hue / 60.0;
    var x := Intermediate(hue1, chroma);
    var c1 := Sextant(hue1, chroma, x);
    var m := value - chroma;
    Rgb(255.0 * (c1.r + m), 255.0 * (c1.g + m), 255.0 * (c1.b + m))
  }

  /** `x`, the second-largest channel before the offset is added. */
  function Intermediate(hue1: real, chroma: real): real
  {
    chroma * (1.0 - Abs(JsRem(hue1, 2.0) - 1.0))
  }

  /** The channels before the offset, picked by the first sextant of `hue1`
      that matches. */
  function Sextant(hue1: real, chroma: real, x: real): Rgb
  {
    if 0.0 <= hue1 <= 1.0 then Rgb(chroma, x, 0.0)
    else if 1.0 <= hue1 <= 2.0 then Rgb(x, chroma, 0.0)
    else if 2.0 <= hue1 <= 3.0 then Rgb(0.0, chroma, x)
    else if 3.0 <= hue1 <= 4.0 then Rgb(0.0, x, chroma)
    else if 4.0 <= hue1 <= 5.0 then Rgb(x, 0.0, chroma)
    else if 5.0 <= hue1 <= 6.0 then Rgb(chroma, 0.0, x)
    else Rgb(0.0, 0.0, 0.0)
  }

  predicate Within(c: Rgb, lo: real, hi: real)
  {
    lo <= c.r <= hi && lo <= c.g <= hi && lo <= c.b <= hi
  }

  predicate HasChannel(c: Rgb, level: real)
  {
    c.r == level || c.g == level || c.b == level
  }

  /** The second-largest channel before the offset, `x`, lies between 0 and
      the chroma. */
  lemma IntermediateBounds(hue1: real, chroma: real)
    requires 0.0 <= hue1 && 0.0 <= chroma
    ensures 0.0 <= Intermediate(hue1, chroma) <= chroma
  {
    JsRemBounds(hue1, 2.0);
    var w := 1.0 - Abs(JsRem(hue1, 2.0) - 1.0);
    assert 0.0 <= w <= 1.0;
    NonNegMul(chroma, w);
    NonNegMul(chroma, 1.0 - w);
  }

  /** For saturation and value in [0,1] every channel lies in [0,255], whatever
      the hue: each is between 255 (value - chroma) and 255 value. */
  lemma Hsv2RgbBounds(hue: real, saturation: real, value: real)
    requires 0.0 <= saturation <= 1.0 && 0.0 <= value <= 1.0
    ensures Within(Hsv2Rgb(hue, saturation, value), 255.0 * (value - value * saturation), 255.0 * value)
    ensures Within(Hsv2Rgb(hue, saturation, value), 0.0, 255.0)
  {
    var chroma := value * saturation;
    var hue1 := hue / 60.0;
    assert 0.0 <= chroma <= value by {
      NonNegMul(value, saturation);
      NonNegMul(value, 1.0 - saturation);
    }
    var c1 := Sextant(hue1, chroma, Intermediate(hue1, chroma));
    assert Within(c1, 0.0, chroma) by {
      if 0.0 <= hue1 {
        IntermediateBounds(hue1, chroma);
      }
    }
    OffsetBounds(c1, chroma, value);
  }

  /** Adding the offset `value - chroma` to channels in [0, chroma] and scaling
      lands them in [255 (value - chroma), 255 value]. */
  lemma OffsetBounds(c1: Rgb, chroma: real, value: real)
    requires Within(c1, 0.0, chroma)
    ensures var m := value - chroma;
      Within(Rgb(255.0 * (c1.r + m), 255.0 * (c1.g + m), 255.0 * (c1.b + m)), 255.0 * m, 255.0 * value)
  {
  }

  /** For a hue in [0,360] one channel carries the full value: every sextant
      gives the chroma to one channel and chroma + m = value. */
  lemma Hsv2RgbPeak(hue: real, saturation: real, value: real)
    requires 0.0 <= hue <= 360.0
    ensures HasChannel(Hsv2Rgb(hue, saturation, value), 255.0 * value)
  {
  }

  /** Zero saturation is grey at 255 value, whatever the hue. */
  lemma Hsv2RgbGrey(hue: real, value: real)
    ensures Hsv2Rgb(hue, 0.0, value) == Rgb(255.0 * value, 255.0 * value, 255.0 * value)
  {
  }

  /** A hue whose sextant index falls outside [0,6] matches no branch, so every
      channel is the offset alone. */
  lemma Hsv2RgbOutOfRange(hue: real, saturation: real, value: real)
    requires hue / 60.0 < 0.0 || 6.0 < hue / 60.0
    ensures var m := 255.0 * (value - value * saturation); Hsv2Rgb(hue, saturation, value) == Rgb(m, m, m)
  {
  }

  /** Hue 0 and hue 360 are the same colour: both fall in a sextant whose
      intermediate channel is 0, leaving red at the peak. */
  lemma Hsv2RgbFullTurn(saturation: real, value: real)
    ensures Hsv2Rgb(0.0, saturation, value) == Hsv2Rgb(360.0, saturation, value)
  {
    var chroma := value * saturation;
    assert JsRem(0.0, 2.0) == 0.0;
    assert JsRem(6.0, 2.0) == 0.0;
    assert Intermediate(0.0, chroma) == 0.0;
    assert Intermediate(6.0, chroma) == 0.0;
  }

  /** The colour of a point given by its offset `(dx, dy)` from the centre of a
      disc: hue from the angle, saturation the distance over the radius, value
      fixed at 1. */
  function OffsetToHsv(math: Math, dx: real, dy: real, radius: Positive): Hsv
  {
    var p := Xy2Polar(math, dx, dy);
    Hsv(Rad2Deg(math, p.phi), p.r / radius, 1.0)
  }

  /** The squared distance of a point from `(cx, cy)`. */
  function Dist2(p: Point, cx: real, cy: real): (d: real)
    ensures 0.0 <= d
  {
    (p.x - cx) * (p.x - cx) + (p.y - cy) * (p.y - cy)
  }

  /** The square root of a square is the non-negative root. */
  lemma SqrtOfSquare(math: Math, s: real, r: real)
    requires Lawful(math)
    requires 0.0 <= r && r * r == s
    ensures math.sqrt(s) == r
  {
    var q := math.sqrt(s);
    assert 0.0 <= q && q * q == s;
    if q < r {
      SquareStrictMonotone(q, r);
    } else if r < q {
      SquareStrictMonotone(r, q);
    }
  }

  /** `sqrt(d) <= radius` exactly when `d <= radius^2`, for a non-negative
      radius. */
  lemma SqrtAtMost(math: Math, d: real, radius: real)
    requires Lawful(math)
    requires 0.0 <= d && 0.0 <= radius
    ensures math.sqrt(d) <= radius <==> d <= radius * radius
  {
    var q := math.sqrt(d);
    assert 0.0 <= q && q * q == d;
    if q < radius {
      SquareStrictMonotone(q, radius);
    } else if radius < q {
      SquareStrictMonotone(radius, q);
    }
  }

  /** The distance `xy2polar` measures from a centre is never negative and
      squares back to the squared distance. */
  lemma DistanceSquared(math: Math, p: Point, cx: real, cy: real)
    requires Lawful(math)
    ensures var r := Xy2Polar(math, p.x - cx, p.y - cy).r; 0.0 <= r && r * r == Dist2(p, cx, cy)
  {
    assert 0.0 <= Dist2(p, cx, cy);
  }

  /** The hue of any offset lies in (0,360], the value is 1, and the
      saturation is at most 1 exactly when the offset lies in the disc. */
  lemma OffsetToHsvRange(math: Math, dx: real, dy: real, radius: Positive)
    requires Lawful(math)
    ensures var c := OffsetToHsv(math, dx, dy, radius);
      && 0.0 < c.hue <= 360.0
      && 0.0 <= c.saturation
      && c.value == 1.0
      && (c.saturation <= 1.0 <==> dx * dx + dy * dy <= radius * radius)
  {
    var d := dx * dx + dy * dy;
    var r := math.sqrt(d);
    SqrtAtMost(math, d, radius);
    QuotientBounds(r, radius, 0.0, 1.0);
    assert r / radius <= 1.0 <==> r <= radius;
  }

  /** The colour at a disc pixel: `(x, y)` has its origin at the top-left corner
      and the centre at `(radius, radius)`. */
  function Xy2Rgb(math: Math, x: real, y: real, radius: Positive): Rgb
  {
    var c := OffsetToHsv(math, x - radius, y - radius, radius);
    Hsv2Rgb(c.hue, c.saturation, c.value)
  }

  /** The centre pixel has saturation 0, so it is white. */
  lemma Xy2RgbCentreWhite(math: Math, radius: Positive)
    requires Lawful(math)
    ensures Xy2Rgb(math, radius, radius, radius) == Rgb(255.0, 255.0, 255.0)
  {
    SqrtOfSquare(math, 0.0, 0.0);
    var c := OffsetToHsv(math, 0.0, 0.0, radius);
    assert c.saturation == 0.0;
    Hsv2RgbGrey(c.hue, 1.0);
  }

  /** Every pixel inside the disc is a fully bright colour: all channels in
      [0,255] and the largest is 255. */
  lemma Xy2RgbInDisc(math: Math, x: real, y: real, radius: Positive)
    requires Lawful(math)
    requires Dist2(Point(x, y), radius, radius) <= radius * radius
    ensures Within(Xy2Rgb(math, x, y, radius), 0.0, 255.0)
    ensures HasChannel(Xy2Rgb(math, x, y, radius), 255.0)
  {
    var c := OffsetToHsv(math, x - radius, y - radius, radius);
    OffsetToHsvRange(math, x - radius, y - radius, radius);
    Hsv2RgbBounds(c.hue, c.saturation, c.value);
    Hsv2RgbPeak(c.hue, c.saturation, c.value);
  }

  /** The disc position of a colour: the angle is the hue less the 180 degree
      phase shift, the distance from the centre is saturation times radius. */
  function Hsv2Xy(math: Math, hue: real, saturation: real, value: real, radius: real): Point
  {
    var adjustedHue := hue - 180.0;
    var p := Polar2Xy(math, radius * saturation, Deg2Rad(math, adjustedHue));
    Point(p.x + radius, p.y + radius)
  }

  /** A point placed by `Hsv2Xy` is `radius * saturation` from the centre, so a
      saturation in [0,1] places it inside the disc. */
  lemma Hsv2XyDistance(math: Math, hue: real, saturation: real, value: real, radius: real)
    requires Lawful(math)
    ensures var d := Dist2(Hsv2Xy(math, hue, saturation, value, radius), radius, radius);
      && d == (radius * saturation) * (radius * saturation)
      && (0.0 <= radius && 0.0 <= saturation <= 1.0 ==> d <= radius * radius)
  {
    PolarDistance(math, radius * saturation, Deg2Rad(math, hue - 180.0));
    if 0.0 <= radius && 0.0 <= saturation <= 1.0 {
      NonNegMul(radius, saturation);
      NonNegMul(radius, 1.0 - saturation);
      WithinRadius(math, radius * saturation, Deg2Rad(math, hue - 180.0), radius);
    }
  }

  /** A point at most `radius` from the origin, in polar form, lies in the
      disc of that radius. */
  lemma WithinRadius(math: Math, r: real, phi: real, radius: real)
    requires Lawful(math)
    requires 0.0 <= r <= radius
    ensures Dist2(Polar2Xy(math, r, phi), 0.0, 0.0) <= radius * radius
  {
    PolarDistance(math, r, phi);
    if r < radius {
      SquareStrictMonotone(r, radius);
    }
  }

  /** A point `r` away along any angle has squared distance `r^2`. */
  lemma PolarDistance(math: Math, r: real, phi: real)
    requires Lawful(math)
    ensures Dist2(Polar2Xy(math, r, phi), 0.0, 0.0) == r * r
  {
    var c, s := math.cos(phi), math.sin(phi);
    assert c * c + s * s == 1.0;
    assert (r * c) * (r * c) + (r * s) * (r * s) == r * r * (c * c + s * s);
  }

  /** The point opposite the one at angle `Deg2Rad(hue)` shows `hue` on the
      disc: half a turn is the 180 degree shift of `Rad2Deg`. Hue 0 shows as
      360, the same colour. */
  lemma OppositeShowsHue(math: Math, r: real, hue: real, radius: Positive)
    requires Lawful(math)
    requires 0.0 < r && 0.0 <= hue <= 360.0
    ensures var p := Polar2Xy(math, r, Deg2Rad(math, hue));
      OffsetToHsv(math, -p.x, -p.y, radius) == Hsv(if hue == 0.0 then 360.0 else hue, r / radius, 1.0)
  {
    Opposite(math, r, Deg2Rad(math, hue));
    assert Deg2Rad(math, hue) - math.pi as real == Deg2Rad(math, hue - 180.0);
    if 0.0 < hue {
      OppositeInRange(math, r, hue);
    } else {
      OppositeOfZero(math, r);
    }
  }

  lemma OppositeInRange(math: Math, r: real, hue: real)
    requires Lawful(math)
    requires 0.0 < r && 0.0 < hue <= 360.0
    ensures var p := Xy2Polar(math, Polar2Xy(math, r, Deg2Rad(math, hue - 180.0)).x, Polar2Xy(math, r, Deg2Rad(math, hue - 180.0)).y);
      p.r == r && Rad2Deg(math, p.phi) == hue
  {
    HalfTurnRange(math, hue);
    XyToPolar(math, r, Deg2Rad(math, hue - 180.0));
    PhaseShiftInverse(math, 0.0, hue);
  }

  lemma OppositeOfZero(math: Math, r: real)
    requires Lawful(math)
    requires 0.0 < r
    ensures var p := Xy2Polar(math, Polar2Xy(math, r, Deg2Rad(math, -180.0)).x, Polar2Xy(math, r, Deg2Rad(math, -180.0)).y);
      p.r == r && Rad2Deg(math, p.phi) == 360.0
  {
    assert Deg2Rad(math, -180.0) == -(math.pi as real);
    HalfTurnSeam(math, r);
    XyToPolar(math, r, math.pi);
    assert Rad2Deg(math, math.pi) == 360.0;
  }

  /** Reading the colour back from the position `Hsv2Xy` gives (hue,
      saturation, 1) again, for a positive saturation and a hue in (0,360]. */
  lemma Hsv2XyRoundTrip(math: Math, hue: real, saturation: real, radius: Positive)
    requires Lawful(math)
    requires 0.0 < saturation && 0.0 < hue <= 360.0
    ensures var p := Hsv2Xy(math, hue, saturation, 1.0, radius);
      OffsetToHsv(math, p.x - radius, p.y - radius, radius) == Hsv(hue, saturation, 1.0)
  {
    PhaseShiftInverse(math, 0.0, hue);
    HalfTurnRange(math, hue);
    XyToPolar(math, radius * saturation, Deg2Rad(math, hue - 180.0));
    assert (radius * saturation) / radius == saturation;
  }

  /** A hue in (0,360], shifted by 180 degrees and converted to radians, lies
      in the range of `atan2`. */
  lemma HalfTurnRange(math: Math, hue: real)
    requires 0.0 < hue <= 360.0
    ensures -(math.pi as real) < Deg2Rad(math, hue - 180.0) <= math.pi
  {
    var k := math.pi / 180.0;
    assert Deg2Rad(math, hue - 180.0) == (hue - 180.0) * k;
    assert 180.0 * k == math.pi as real;
    MulStrictMonotone(-180.0, hue - 180.0, k);
    if hue < 360.0 {
      MulStrictMonotone(hue - 180.0, 180.0, k);
    } else {
      assert (hue - 180.0) * k == 180.0 * k;
    }
  }
}
