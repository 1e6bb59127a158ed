/** The `ColorWheel` component of `src/index.tsx`, without its rendering: the
    selected position it keeps as state, the radial clamp applied when the
    handle is dragged, and the harmony expansion that turns the position into
    the list of colours handed to `onChange` and the positions of the derived
    handles. */
module Wheel {
  import opened JsMath
  import opened Utils

  /** The canvas once it is mounted and sized. */
  datatype Canvas = Canvas(width: Pixels, height: Pixels)

  /** A derived handle: where it is drawn, and the colour it stands for. */
  datatype Handle = Handle(x: real, y: real, hue: real, saturation: real, value: real)

  /** The result of recomputing the handles: the derived handles, and the list
      passed to `onChange` (`None` when it is not called). */
  datatype Frame = Frame(handles: seq<Handle>, emitted: Option<seq<Hsv>>)

  /** A hue plus an offset, wrapped into [0,360) with the truncating `%` and a
      fix-up for negative remainders. */
  function WrapHue(sum: real): (hue: real)
    ensures 0.0 <= hue < 360.0
  {
    JsRemBounds(sum, 360.0);
    var newHue := JsRem(sum, 360.0);
    if newHue < 0.0 then 360.0 + newHue else newHue
  }

  /** The wrapped hue is the floor-based modulo of the sum: JavaScript's
      truncating `%` plus the fix-up agree with the mathematical one. */
  lemma WrapHueIsFloorMod(sum: real)
    ensures WrapHue(sum) == sum - 360.0 * (sum / 360.0).Floor as real
  {
    var q := sum / 360.0;
    JsRemBounds(sum, 360.0);
    if 0.0 <= sum {
      JsRemOfNonNegative(sum, 360.0);
    } else if q.Floor as real == q {
      assert Trunc(q) == q.Floor;
    } else {
      assert Trunc(q) == q.Floor + 1;
    }
  }

  /** A hue already in [0,360) is left as it is. */
  lemma WrapHueOfHue(sum: real)
    requires 0.0 <= sum < 360.0
    ensures WrapHue(sum) == sum
  {
    WrapHueIsFloorMod(sum);
    assert (sum / 360.0).Floor == 0;
  }

  /** Whole turns make no difference: the wrapped hue depends only on the
      angle. */
  lemma WrapHuePeriodic(sum: real, turns: int)
    ensures WrapHue(sum + 360.0 * turns as real) == WrapHue(sum)
  {
    var q := sum / 360.0;
    WrapHueIsFloorMod(sum);
    WrapHueIsFloorMod(sum + 360.0 * turns as real);
    assert (sum + 360.0 * turns as real) / 360.0 == q + turns as real;
    assert (q + turns as real).Floor == q.Floor + turns;
  }

  /** A hue in [0,360) turned by an offset in (-360,360) is wrapped by at
      most one whole turn. */
  lemma WrapHueOneTurn(sum: real)
    requires -360.0 <= sum < 720.0
    ensures WrapHue(sum) == if sum < 0.0 then sum + 360.0 else if sum < 360.0 then sum else sum - 360.0
  {
    WrapHueIsFloorMod(sum);
    if sum < 0.0 {
      assert (sum / 360.0).Floor == -1;
    } else if sum < 360.0 {
      assert (sum / 360.0).Floor == 0;
    } else {
      assert (sum / 360.0).Floor == 1;
    }
  }

  /** The colour a harmony offset derives from the primary colour: only the
      hue turns. */
  function Derive(primary: Hsv, offset: real): Hsv
  {
    Hsv(WrapHue(primary.hue + offset), primary.saturation, primary.value)
  }

  /** The list handed to `onChange`: the primary colour first, then one colour
      per offset in the order of the offsets, each with the primary's
      saturation and value and its hue turned by the offset, modulo 360. */
  function ColorSet(primary: Hsv, offsets: seq<real>): (colors: seq<Hsv>)
    ensures |colors| == 1 + |offsets|
    ensures colors[0] == primary
    ensures forall i :: 0 <= i < |offsets| ==>
      && colors[i + 1].saturation == primary.saturation
      && colors[i + 1].value == primary.value
      && colors[i + 1].hue == WrapHue(primary.hue + offsets[i])
  {
    [primary] + seq(|offsets|, i requires 0 <= i < |offsets| => Derive(primary, offsets[i]))
  }

  /** The primary colour of a position on the canvas: its offset from the
      canvas centre, read as a colour on a disc of half the canvas width. */
  function Primary(math: Math, canvas: Canvas, position: Point): Hsv
  {
    var radius: Positive := canvas.width as real / 2.0;
    OffsetToHsv(math, position.x - radius, position.y - canvas.height as real / 2.0, radius)
  }

  /** The handle an offset derives: its hue is the primary's turned by the
      offset, and it is drawn `r` from the centre `(cx, cy)`, opposite the
      point at angle `newHue` (the 180 degree phase shift of `Rad2Deg`). */
  function DerivedHandle(math: Math, r: real, cx: real, cy: real, primary: Hsv, offset: real): (h: Handle)
    ensures ColorOf(h) == Derive(primary, offset)
  {
    var newHue := WrapHue(primary.hue + offset);
    var p := Polar2Xy(math, r, Deg2Rad(math, newHue));
    Handle(-p.x + cx, -p.y + cy, newHue, primary.saturation, primary.value)
  }

  function ColorOf(h: Handle): Hsv
  {
    Hsv(h.hue, h.saturation, h.value)
  }

  /** The colours of a list of handles, in order. */
  function Colors(handles: seq<Handle>): (colors: seq<Hsv>)
    ensures |colors| == |handles|
    ensures forall i :: 0 <= i < |handles| ==> colors[i] == ColorOf(handles[i])
  {
    seq(|handles|, i requires 0 <= i < |handles| => ColorOf(handles[i]))
  }

  /** Handles derived from the offsets carry the colours of the colour set. */
  lemma DerivedColors(primary: Hsv, handles: seq<Handle>, offsets: seq<real>)
    requires |handles| == |offsets|
    requires forall i :: 0 <= i < |offsets| ==> ColorOf(handles[i]) == Derive(primary, offsets[i])
    ensures [primary] + Colors(handles) == ColorSet(primary, offsets)
  {
  }

  /** The `handles` memo: without a canvas there are no handles and `onChange`
      is not called; otherwise each offset gives a handle, and `onChange`
      receives the primary colour followed by the handles' colours. */
  function Handles(math: Math, ctx: Option<Canvas>, position: Point, offsets: seq<real>): (frame: Frame)
    ensures ctx.None? ==> frame == Frame([], None)
    ensures ctx.Some? ==> |frame.handles| == |offsets|
    ensures ctx.Some? ==>
      var cx, cy := ctx.value.width as real / 2.0, ctx.value.height as real / 2.0;
      var r := Xy2Polar(math, position.x - cx, position.y - cy).r;
      forall i :: 0 <= i < |offsets| ==>
        frame.handles[i] == DerivedHandle(math, r, cx, cy, Primary(math, ctx.value, position), offsets[i])
    ensures ctx.Some? ==> frame.emitted.Some? && |frame.emitted.value| == 1 + |offsets|
  {
    match ctx
    case None => Frame([], None)
    case Some(canvas) =>
      var cx := canvas.width as real / 2.0;
      var cy := canvas.height as real / 2.0;
      var polar := Xy2Polar(math, position.x - cx, position.y - cy);
      var primary := Primary(math, canvas, position);
      var colors := seq(|offsets|, i requires 0 <= i < |offsets| =>
        DerivedHandle(math, polar.r, cx, cy, primary, offsets[i]));
      Frame(colors, Some([primary] + Colors(colors)))
  }

  /** `onChange` receives the colour set of the harmony: the primary colour,
      then one colour per offset with the hue turned by that offset. */
  lemma EmittedColorSet(math: Math, canvas: Canvas, position: Point, offsets: seq<real>)
    ensures Handles(math, Some(canvas), position, offsets).emitted
      == Some(ColorSet(Primary(math, canvas, position), offsets))
  {
    DerivedColors(Primary(math, canvas, position), Handles(math, Some(canvas), position, offsets).handles, offsets);
  }

  /** A derived handle is drawn `r` from the centre it is placed around. */
  lemma DerivedHandleDistance(math: Math, r: real, cx: real, cy: real, primary: Hsv, offset: real)
    requires Lawful(math)
    ensures var h := DerivedHandle(math, r, cx, cy, primary, offset);
      Dist2(Point(h.x, h.y), cx, cy) == r * r
  {
    var h := DerivedHandle(math, r, cx, cy, primary, offset);
    var phi := Deg2Rad(math, h.hue);
    var p := Polar2Xy(math, r, phi);
    assert h.x == -p.x + cx;
    assert h.y == -p.y + cy;
    assert Dist2(Point(h.x, h.y), cx, cy) == Dist2(p, 0.0, 0.0);
    PolarDistance(math, r, phi);
  }

  /** The handle the `i`-th offset derives on a mounted canvas is as far from
      the canvas centre as `position` is. */
  lemma DerivedHandleKeepsDistance(math: Math, canvas: Canvas, position: Point, offsets: seq<real>, i: int)
    requires Lawful(math)
    requires 0 <= i < |offsets|
    ensures var cx, cy := canvas.width as real / 2.0, canvas.height as real / 2.0;
      var r := Xy2Polar(math, position.x - cx, position.y - cy).r;
      var h := DerivedHandle(math, r, cx, cy, Primary(math, canvas, position), offsets[i]);
      Dist2(Point(h.x, h.y), cx, cy) == Dist2(position, cx, cy)
  {
    DerivedHandleDistance(math, Xy2Polar(math, position.x - canvas.width as real / 2.0, position.y - canvas.height as real / 2.0).r,
      canvas.width as real / 2.0, canvas.height as real / 2.0, Primary(math, canvas, position), offsets[i]);
    DistanceSquared(math, position, canvas.width as real / 2.0, canvas.height as real / 2.0);
  }

  /** Every derived handle is drawn at the primary's distance from the canvas
      centre: a harmony turns the hue and keeps the saturation. */
  lemma HandlesOnPrimaryCircle(math: Math, canvas: Canvas, position: Point, offsets: seq<real>, i: int)
    requires Lawful(math)
    requires 0 <= i < |offsets|
    ensures var frame := Handles(math, Some(canvas), position, offsets);
      var cx, cy := canvas.width as real / 2.0, canvas.height as real / 2.0;
      Dist2(Point(frame.handles[i].x, frame.handles[i].y), cx, cy) == Dist2(position, cx, cy)
  {
    DerivedHandleKeepsDistance(math, canvas, position, offsets, i);
  }

  /** A derived handle is drawn where the disc shows its colour: read back
      from its offset to the centre it is placed around, it has its own hue
      and saturation `r / radius`. Placing the handle opposite the point at
      angle `newHue` is the same half turn as the 180 degree shift of
      `Rad2Deg`; hue 0 reads back as 360, the same colour. */
  lemma DerivedHandleShowsColour(math: Math, r: real, cx: real, cy: real, radius: Positive, primary: Hsv, offset: real)
    requires Lawful(math)
    requires 0.0 < r
    ensures var h := DerivedHandle(math, r, cx, cy, primary, offset);
      OffsetToHsv(math, h.x - cx, h.y - cy, radius) == Hsv(if h.hue == 0.0 then 360.0 else h.hue, r / radius, 1.0)
  {
    OppositeShowsHue(math, r, WrapHue(primary.hue + offset), radius);
  }

  /** A handle derived around the centre of the disc, at the distance its
      saturation gives, lies on a point painted in its own colour. */
  lemma HandleColourOnDisc(math: Math, r: real, radius: Positive, primary: Hsv, offset: real)
    requires Lawful(math)
    requires 0.0 <= r && primary.saturation == r / radius && primary.value == 1.0
    ensures var h := DerivedHandle(math, r, radius, radius, primary, offset);
      Xy2Rgb(math, h.x, h.y, radius) == Hsv2Rgb(h.hue, h.saturation, h.value)
  {
    if 0.0 < r {
      HandleOffCentre(math, r, radius, primary, offset);
    } else {
      HandleAtCentre(math, radius, primary, offset);
    }
  }

  lemma HandleOffCentre(math: Math, r: real, radius: Positive, primary: Hsv, offset: real)
    requires Lawful(math)
    requires 0.0 < r && primary.saturation == r / radius && primary.value == 1.0
    ensures var h := DerivedHandle(math, r, radius, radius, primary, offset);
      Xy2Rgb(math, h.x, h.y, radius) == Hsv2Rgb(h.hue, h.saturation, h.value)
  {
    DerivedHandleShowsColour(math, r, radius, radius, radius, primary, offset);
    Hsv2RgbFullTurn(primary.saturation, 1.0);
  }

  /** A handle at the centre has saturation 0, where every hue gives white. */
  lemma HandleAtCentre(math: Math, radius: Positive, primary: Hsv, offset: real)
    requires Lawful(math)
    requires primary.saturation == 0.0 && primary.value == 1.0
    ensures var h := DerivedHandle(math, 0.0, radius, radius, primary, offset);
      Xy2Rgb(math, h.x, h.y, radius) == Hsv2Rgb(h.hue, h.saturation, h.value)
  {
    var h := DerivedHandle(math, 0.0, radius, radius, primary, offset);
    assert h.x == radius && h.y == radius;
    SqrtOfSquare(math, 0.0, 0.0);
    Hsv2RgbGrey(180.0, 1.0);
    Hsv2RgbGrey(h.hue, 1.0);
  }

  /** On a square canvas every derived handle sits on a point of the painted
      disc whose colour is the handle's own colour. */
  lemma HandleShowsItsColour(math: Math, canvas: Canvas, position: Point, offsets: seq<real>, i: int)
    requires Lawful(math)
    requires canvas.height == canvas.width
    requires 0 <= i < |offsets|
    ensures var h := Handles(math, Some(canvas), position, offsets).handles[i];
      Xy2Rgb(math, h.x, h.y, canvas.width as real / 2.0) == Hsv2Rgb(h.hue, h.saturation, h.value)
  {
    DistanceSquared(math, position, canvas.width as real / 2.0, canvas.width as real / 2.0);
    HandleColourOnDisc(math, Xy2Polar(math, position.x - canvas.width as real / 2.0, position.y - canvas.width as real / 2.0).r,
      canvas.width as real / 2.0, Primary(math, canvas, position), offsets[i]);
  }

  /** A harmony keeps a valid colour valid: if the primary colour has its hue
      in [0,360], its saturation in [0,1] and value 1, so has every colour of
      the list. */
  lemma ColorSetInRange(primary: Hsv, offsets: seq<real>)
    requires 0.0 <= primary.hue <= 360.0 && 0.0 <= primary.saturation <= 1.0 && primary.value == 1.0
    ensures var colors := ColorSet(primary, offsets);
      forall i :: 0 <= i < |colors| ==>
        0.0 <= colors[i].hue <= 360.0 && 0.0 <= colors[i].saturation <= 1.0 && colors[i].value == 1.0
  {
    var colors := ColorSet(primary, offsets);
    forall i | 0 <= i < |colors|
      ensures 0.0 <= colors[i].hue <= 360.0 && 0.0 <= colors[i].saturation <= 1.0 && colors[i].value == 1.0
    {
      if i > 0 {
        assert colors[(i - 1) + 1].hue < 360.0;
      }
    }
  }

  /** The complementary harmony adds the opposite hue. */
  lemma ComplementaryIsOpposite(primary: Hsv)
    requires 0.0 <= primary.hue < 360.0
    ensures var opposite := if primary.hue < 180.0 then primary.hue + 180.0 else primary.hue - 180.0;
      ColorSet(primary, Offsets(Complementary)) == [primary, Hsv(opposite, primary.saturation, primary.value)]
  {
    WrapHueOneTurn(primary.hue + 180.0);
    var colors := ColorSet(primary, Offsets(Complementary));
    assert colors[1] == colors[0 + 1];
  }

  /** The analogous harmony adds the two hues 30 degrees either side, in the
      order -30, +30, across the 0/360 seam as well. */
  lemma AnalogousNeighbours(primary: Hsv)
    requires 0.0 <= primary.hue < 360.0
    ensures var colors := ColorSet(primary, Offsets(Analogous));
      && |colors| == 3
      && colors[1].hue == (if primary.hue < 30.0 then primary.hue + 330.0 else primary.hue - 30.0)
      && colors[2].hue == (if primary.hue < 330.0 then primary.hue + 30.0 else primary.hue - 330.0)
  {
    WrapHueOneTurn(primary.hue - 30.0);
    WrapHueOneTurn(primary.hue + 30.0);
    var colors := ColorSet(primary, Offsets(Analogous));
    assert colors[1] == colors[0 + 1] && colors[2] == colors[1 + 1];
  }

  /** The square harmony on a hue of 300 gives 300, 30, 120 and 210. */
  lemma SquareFromMagenta(saturation: real, value: real)
    ensures var colors := ColorSet(Hsv(300.0, saturation, value), Offsets(Square));
      Hues(colors) == [300.0, 30.0, 120.0, 210.0]
  {
    WrapHueOneTurn(390.0);
    WrapHueOneTurn(480.0);
    WrapHueOneTurn(570.0);
    var colors := ColorSet(Hsv(300.0, saturation, value), Offsets(Square));
    assert colors[1] == colors[0 + 1] && colors[2] == colors[1 + 1] && colors[3] == colors[2 + 1];
  }

  function Hues(colors: seq<Hsv>): (hues: seq<real>)
    ensures |hues| == |colors|
    ensures forall i :: 0 <= i < |colors| ==> hues[i] == colors[i].hue
  {
    seq(|colors|, i requires 0 <= i < |colors| => colors[i].hue)
  }

  /** While the position stays in the disc, every colour handed to `onChange`
      is a valid HSV colour: hue in [0,360], saturation in [0,1], value 1. */
  lemma EmittedColorsInRange(math: Math, canvas: Canvas, position: Point, offsets: seq<real>)
    requires Lawful(math)
    requires var radius := canvas.width as real / 2.0;
      Dist2(position, radius, canvas.height as real / 2.0) <= radius * radius
    ensures var colors := Handles(math, Some(canvas), position, offsets).emitted.value;
      forall i :: 0 <= i < |colors| ==>
        0.0 <= colors[i].hue <= 360.0 && 0.0 <= colors[i].saturation <= 1.0 && colors[i].value == 1.0
  {
    var radius: Positive := canvas.width as real / 2.0;
    OffsetToHsvRange(math, position.x - radius, position.y - canvas.height as real / 2.0, radius);
    ColorSetInRange(Primary(math, canvas, position), offsets);
    EmittedColorSet(math, canvas, position, offsets);
  }

  /** The position `handleDrag` stores for a pointer at `(px, py)` on a disc
      of the given radius: same angle from the centre, distance clamped to the
      radius. */
  function Clamp(math: Math, radius: real, px: real, py: real): Point
  {
    var polar := Xy2Polar(math, px - radius, py - radius);
    var p := Polar2Xy(math, Min(polar.r, radius), polar.phi);
    Point(p.x + radius, p.y + radius)
  }

  /** Measured from the centre, the stored position keeps the pointer's angle
      and its distance is the smaller of the pointer's distance and the
      radius. */
  lemma ClampPolar(math: Math, radius: real, px: real, py: real)
    requires Lawful(math)
    requires 0.0 < radius
    ensures var before := Xy2Polar(math, px - radius, py - radius);
      var c := Clamp(math, radius, px, py);
      Xy2Polar(math, c.x - radius, c.y - radius) == Polar(Min(before.r, radius), before.phi)
  {
    var before := Xy2Polar(math, px - radius, py - radius);
    var m := Min(before.r, radius);
    var c := Clamp(math, radius, px, py);
    var p := Polar2Xy(math, m, before.phi);
    assert c.x - radius == p.x && c.y - radius == p.y;
    DistanceSquared(math, Point(px, py), radius, radius);
    if 0.0 < m {
      XyToPolar(math, m, before.phi);
    } else {
      assert before.r == 0.0;
      PolarToXy(math, px - radius, py - radius);
      assert px - radius == 0.0 && py - radius == 0.0;
      assert p == Point(0.0, 0.0);
      SqrtOfSquare(math, 0.0, 0.0);
    }
  }

  /** The stored position never leaves the disc. */
  lemma ClampInDisc(math: Math, radius: real, px: real, py: real)
    requires Lawful(math)
    requires 0.0 < radius
    ensures Dist2(Clamp(math, radius, px, py), radius, radius) <= radius * radius
  {
    DistanceSquared(math, Point(px, py), radius, radius);
    WithinRadius(math, Min(Xy2Polar(math, px - radius, py - radius).r, radius),
      Xy2Polar(math, px - radius, py - radius).phi, radius);
  }

  /** A pointer already inside the disc is stored unchanged. */
  lemma ClampInsideUnchanged(math: Math, radius: real, px: real, py: real)
    requires Lawful(math)
    requires Xy2Polar(math, px - radius, py - radius).r <= radius
    ensures Clamp(math, radius, px, py) == Point(px, py)
  {
    PolarToXy(math, px - radius, py - radius);
  }

  /** A pointer outside the disc is pulled onto its rim: the colour read at the
      stored position has saturation exactly 1. */
  lemma ClampOutsideOnRim(math: Math, radius: Positive, px: real, py: real)
    requires Lawful(math)
    requires radius < Xy2Polar(math, px - radius, py - radius).r
    ensures var c := Clamp(math, radius, px, py);
      OffsetToHsv(math, c.x - radius, c.y - radius, radius).saturation == 1.0
  {
    ClampPolar(math, radius, px, py);
  }

  /** The component's state: the selected position and, once mounted, the
      canvas. */
  class ColorWheel {
    var position: Point
    var canvas: Option<Canvas>

    constructor ()
      ensures position == Point(144.0, 144.0) && canvas == None
    {
      position := Point(144.0, 144.0);
      canvas := None;
    }

    /** The canvas becomes available after mounting and is sized then. */
    method Mount(c: Canvas)
      modifies this
      ensures canvas == Some(c) && position == old(position)
    {
      canvas := Some(c);
    }

    /** `handleDrag`: a no-op before the canvas exists; otherwise the pointer
        position is clamped radially to the disc and stored. */
    method Drag(math: Math, dataX: real, dataY: real)
      modifies this
      ensures canvas == old(canvas)
      ensures canvas.None? ==> position == old(position)
      ensures canvas.Some? ==> position == Clamp(math, canvas.value.width as real / 2.0, dataX, dataY)
    {
      if canvas.None? {
        return;
      }
      var radius := canvas.value.width as real / 2.0;
      var polar := Xy2Polar(math, dataX - radius, dataY - radius);
      var r := Min(polar.r, radius);
      var p := Polar2Xy(math, r, polar.phi);
      position := Point(p.x + radius, p.y + radius);
    }

    /** The handles and the `onChange` list for the current state. */
    function Recompute(math: Math, harmony: Harmony): (frame: Frame)
      reads this
      ensures canvas.None? <==> frame.emitted.None?
      ensures canvas.Some? ==> |frame.emitted.value| == 1 + |Offsets(harmony)|
    {
      Handles(math, canvas, position, Offsets(harmony))
    }
  }

  /** After any drag on a mounted square canvas, every colour handed to
      `onChange` is a valid HSV colour. */
  lemma DragKeepsColorsValid(math: Math, canvas: Canvas, px: real, py: real, harmony: Harmony)
    requires Lawful(math)
    requires canvas.height == canvas.width
    ensures var radius := canvas.width as real / 2.0;
      var colors := Handles(math, Some(canvas), Clamp(math, radius, px, py), Offsets(harmony)).emitted.value;
      forall c :: c in colors ==> 0.0 <= c.hue <= 360.0 && 0.0 <= c.saturation <= 1.0 && c.value == 1.0
  {
    var radius := canvas.width as real / 2.0;
    ClampInDisc(math, radius, px, py);
    EmittedColorsInRange(math, canvas, Clamp(math, radius, px, py), Offsets(harmony));
  }
}
