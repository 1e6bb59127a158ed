/** `drawCircle` of `src/index.tsx`: the colour disc painted once into the
    canvas's RGBA image buffer. Every pixel whose centre-relative distance is
    at most the radius gets the colour of its angle and distance; the others
    keep the zero bytes a fresh image buffer starts with. */
module Disc {
  import opened JsMath
  import opened Utils

  /** One slot of a `Uint8ClampedArray`. */
  newtype Byte = b: int | 0 <= b < 256

  /** The four bytes of one pixel of image data. */
  datatype Rgba = Rgba(r: Byte, g: Byte, b: Byte, a: Byte)

  /** A pixel nobody wrote: all four bytes zero. */
  const Transparent := Rgba(0, 0, 0, 0)

  /** Byte `channel` of a pixel, in the order red, green, blue, alpha. */
  function Channel(p: Rgba, channel: nat): Byte
    requires channel < 4
  {
    if channel == 0 then p.r else if channel == 1 then p.g else if channel == 2 then p.b else p.a
  }

  function Bytes(p: Rgba): seq<Byte>
  {
    [p.r, p.g, p.b, p.a]
  }

  /** The number of slots in the image data of a `width` x `width` image:
      four per pixel. */
  function BufferLength(width: nat): nat
  {
    width * width * 4
  }

  /** The first slot of pixel `(ax, ay)`: rows are `width` pixels long. */
  function PixelIndex(ax: nat, ay: nat, width: nat): nat
  {
    (ax + ay * width) * 4
  }

  /** The column of pixel number `p` in rows `width` pixels long, that is
      `p % width`, by repeated subtraction of whole rows. */
  function Column(p: nat, width: Pixels): (ax: nat)
    ensures ax < width
  {
    if p < width then p else Column(p - width, width)
  }

  /** The row of pixel number `p` in rows `width` pixels long, that is
      `p / width`. */
  function Row(p: nat, width: Pixels): nat
  {
    if p < width then 0 else 1 + Row(p - width, width)
  }

  /** Column and row put the pixel number back together. */
  lemma {:induction false} ColumnRow(p: nat, width: Pixels)
    ensures p == Column(p, width) + Row(p, width) * width
  {
    if width <= p {
      ColumnRow(p - width, width);
      var r := Row(p - width, width);
      assert (1 + r) * width == r * width + width;
    }
  }

  /** Pixel `(ax, ay)` has number `ax + ay * width`, and that number reads
      back as column `ax` and row `ay`. */
  lemma {:induction false} PixelColumnRow(ax: nat, ay: nat, width: Pixels)
    requires ax < width
    ensures Column(ax + ay * width, width) == ax && Row(ax + ay * width, width) == ay
  {
    if 0 < ay {
      assert ax + ay * width - width == ax + (ay - 1) * width;
      PixelColumnRow(ax, ay - 1, width);
    }
  }

  /** A pixel number inside a `width` x `width` image lies in one of its
      `width` rows. */
  lemma RowBound(p: nat, width: Pixels)
    requires p < width * width
    ensures Row(p, width) < width
  {
    ColumnRow(p, width);
    FactorLess(Row(p, width), width, width);
  }

  /** A product below `b * c` has a factor below `b`. */
  lemma FactorLess(a: nat, b: nat, c: nat)
    ensures a * c < b * c ==> a < b
  {
    if b <= a {
      var d: nat := a - b;
      assert a * c == b * c + d * c;
    }
  }

  /** Slot `4 * p + channel` belongs to pixel number `p`. */
  lemma SlotOfPixelNumber(p: nat, channel: nat)
    requires channel < 4
    ensures (p * 4 + channel) / 4 == p && (p * 4 + channel) % 4 == channel
  {
  }

  /** The only pixel number whose four slots include slot `k` is `k / 4`. */
  lemma SlotsOfPixelNumber(p: nat, k: nat)
    ensures p * 4 <= k < p * 4 + 4 ==> k / 4 == p
  {
  }

  /** The four slots of pixel `(ax, ay)` lie inside the buffer, and reading a
      slot back gives the pixel's column, row and channel. */
  lemma PixelSlot(ax: nat, ay: nat, width: Pixels, channel: nat)
    requires ax < width && ay < width && channel < 4
    ensures var k := PixelIndex(ax, ay, width) + channel;
      && k < BufferLength(width)
      && k / 4 == ax + ay * width && k % 4 == channel
      && Column(k / 4, width) == ax && Row(k / 4, width) == ay
  {
    var p := ax + ay * width;
    SlotOfPixelNumber(p, channel);
    PixelColumnRow(ax, ay, width);
    PixelNumberBound(ax, ay, width);
  }

  /** Every pixel of a `width` x `width` image has a number below
      `width * width`. */
  lemma PixelNumberBound(ax: nat, ay: nat, width: Pixels)
    requires ax < width && ay < width
    ensures ax + ay * width < width * width
  {
    var gap: nat := width - 1 - ay;
    assert width * width == ay * width + (gap + 1) * width;
    assert width <= (gap + 1) * width;
  }

  /** The image data of a `width` x `width` image whose pixel `(ax, ay)` has
      colour `pixel(ax, ay)`: row after row, four bytes per pixel. */
  function Image(width: Pixels, pixel: (nat, nat) -> Rgba): (image: seq<Byte>)
    ensures |image| == BufferLength(width)
  {
    seq(BufferLength(width), k requires 0 <= k =>
      Channel(pixel(Column(k / 4, width), Row(k / 4, width)), k % 4))
  }

  /** The four slots at `PixelIndex(ax, ay, width)` are pixel `(ax, ay)`. */
  lemma ImagePixel(width: Pixels, pixel: (nat, nat) -> Rgba, ax: nat, ay: nat)
    requires ax < width && ay < width
    ensures PixelIndex(ax, ay, width) + 4 <= BufferLength(width)
    ensures var index := PixelIndex(ax, ay, width);
      Image(width, pixel)[index..index + 4] == Bytes(pixel(ax, ay))
  {
    var index := PixelIndex(ax, ay, width);
    PixelSlot(ax, ay, width, 0);
    PixelSlot(ax, ay, width, 1);
    PixelSlot(ax, ay, width, 2);
    PixelSlot(ax, ay, width, 3);
    var image := Image(width, pixel);
    assert image[index..index + 4] == [image[index], image[index + 1], image[index + 2], image[index + 3]];
  }

  /** Whether slot `k` has been visited once the columns before `ax`, and the
      rows before `ay` of column `ax`, are done. */
  predicate Done(k: nat, width: Pixels, ax: nat, ay: nat)
  {
    var p := k / 4;
    Column(p, width) < ax || (Column(p, width) == ax && Row(p, width) < ay)
  }

  /** Finishing pixel `(ax, ay)` adds exactly its own slots to those done. */
  lemma DoneStep(k: nat, width: Pixels, ax: nat, ay: nat)
    ensures Done(k, width, ax, ay + 1) <==> Done(k, width, ax, ay) || k / 4 == ax + ay * width
  {
    ColumnRow(k / 4, width);
    if ax < width {
      PixelColumnRow(ax, ay, width);
    }
  }

  /** Finishing the last row of a column is starting the next column. */
  lemma DoneColumn(k: nat, width: Pixels, ax: nat)
    requires k < BufferLength(width)
    ensures Done(k, width, ax, width) <==> Done(k, width, ax + 1, 0)
  {
    RowBound(k / 4, width);
  }

  /** The buffer after the columns before `ax`, and the rows before `ay` of
      column `ax`: visited slots hold their final byte, the rest are zero. */
  ghost predicate Painted(width: Pixels, pixel: (nat, nat) -> Rgba, image: seq<Byte>, ax: nat, ay: nat)
  {
    && |image| == BufferLength(width)
    && forall k :: 0 <= k < |image| ==>
         image[k] == if Done(k, width, ax, ay) then Image(width, pixel)[k] else 0
  }

  /** Nothing is painted at the start. */
  lemma PaintedStart(width: Pixels, pixel: (nat, nat) -> Rgba)
    ensures Painted(width, pixel, seq(BufferLength(width), _ => 0 as Byte), 0, 0)
  {
  }

  /** Skipping a transparent pixel leaves the buffer as it is. */
  lemma PaintSkip(width: Pixels, pixel: (nat, nat) -> Rgba, image: seq<Byte>, ax: nat, ay: nat)
    requires ax < width && ay < width
    requires Painted(width, pixel, image, ax, ay)
    requires pixel(ax, ay) == Transparent
    ensures Painted(width, pixel, image, ax, ay + 1)
  {
    forall k | 0 <= k < |image|
      ensures image[k] == if Done(k, width, ax, ay + 1) then Image(width, pixel)[k] else 0
    {
      DoneStep(k, width, ax, ay);
      if k / 4 == ax + ay * width {
        PixelColumnRow(ax, ay, width);
      }
    }
  }

  /** Writing the four bytes of pixel `(ax, ay)` paints exactly that pixel. */
  lemma PaintPixel(width: Pixels, pixel: (nat, nat) -> Rgba, image: seq<Byte>, ax: nat, ay: nat)
    requires ax < width && ay < width
    requires Painted(width, pixel, image, ax, ay)
    ensures PixelIndex(ax, ay, width) + 3 < |image|
    ensures var p := pixel(ax, ay);
      var index := PixelIndex(ax, ay, width);
      Painted(width, pixel, image[index := p.r][index + 1 := p.g][index + 2 := p.b][index + 3 := p.a], ax, ay + 1)
  {
    var p := pixel(ax, ay);
    var index := PixelIndex(ax, ay, width);
    PixelSlot(ax, ay, width, 3);
    var after := image[index := p.r][index + 1 := p.g][index + 2 := p.b][index + 3 := p.a];
    forall k | 0 <= k < |after|
      ensures after[k] == if Done(k, width, ax, ay + 1) then Image(width, pixel)[k] else 0
    {
      DoneStep(k, width, ax, ay);
      if k / 4 == ax + ay * width {
        var c := k % 4;
        PixelSlot(ax, ay, width, c);
        assert k == index + c;
      } else {
        SlotsOfPixelNumber(ax + ay * width, k);
      }
    }
  }

  /** Finishing a column is starting the next one. */
  lemma PaintColumn(width: Pixels, pixel: (nat, nat) -> Rgba, image: seq<Byte>, ax: nat)
    requires Painted(width, pixel, image, ax, width)
    ensures Painted(width, pixel, image, ax + 1, 0)
  {
    forall k | 0 <= k < |image|
      ensures image[k] == if Done(k, width, ax + 1, 0) then Image(width, pixel)[k] else 0
    {
      DoneColumn(k, width, ax);
    }
  }

  /** Once every column is done the buffer is the finished image. */
  lemma PaintFinished(width: Pixels, pixel: (nat, nat) -> Rgba, image: seq<Byte>)
    requires Painted(width, pixel, image, width, 0)
    ensures image == Image(width, pixel)
  {
  }

  /** `drawCircle` skips a pixel when its distance from the centre exceeds
      the radius; the comparison is on the distance `xy2polar` returns. */
  predicate Drawn(math: Math, x: real, y: real, radius: real)
  {
    !(Xy2Polar(math, x, y).r > radius)
  }

  /** A pixel is painted exactly when it lies in the closed disc. */
  lemma DrawnInDisc(math: Math, x: real, y: real, radius: real)
    requires Lawful(math)
    requires 0.0 <= radius
    ensures Drawn(math, x, y, radius) <==> x * x + y * y <= radius * radius
  {
    assert 0.0 <= Dist2(Point(x, y), 0.0, 0.0);
    SqrtAtMost(math, x * x + y * y, radius);
  }

  /** The colour of a painted pixel at centre offset `(x, y)`: the hue from
      the angle, the saturation from the distance over the radius, value 1,
      each channel stored into the clamped array, then an opaque alpha. */
  function PixelColor(math: Math, x: real, y: real, radius: Positive): Rgba
  {
    var polar := Xy2Polar(math, x, y);
    var rgb := Hsv2Rgb(Rad2Deg(math, polar.phi), polar.r / radius, 1.0);
    Rgba(ToUint8Clamp(rgb.r) as Byte, ToUint8Clamp(rgb.g) as Byte, ToUint8Clamp(rgb.b) as Byte, 255)
  }

  /** What `drawCircle` leaves at pixel `(ax, ay)` of a canvas `width` pixels
      wide: the pixel's colour if it is drawn, transparent black if it is
      skipped. */
  function WheelPixel(math: Math, width: Pixels, ax: nat, ay: nat): Rgba
  {
    var radius: Positive := width as real / 2.0;
    var x, y := ax as real - radius, ay as real - radius;
    if Drawn(math, x, y, radius) then PixelColor(math, x, y, radius) else Transparent
  }

  function WheelPixels(math: Math, width: Pixels): (nat, nat) -> Rgba
  {
    (ax: nat, ay: nat) => WheelPixel(math, width, ax, ay)
  }

  /** The whole image buffer after `drawCircle`. */
  function Raster(math: Math, width: Pixels): seq<Byte>
  {
    Image(width, WheelPixels(math, width))
  }

  /** A pixel `drawCircle` skips stays transparent black. */
  lemma SkippedPixel(math: Math, width: Pixels, ax: nat, ay: nat, radius: real, x: real, y: real)
    requires radius == width as real / 2.0 && x == ax as real - radius && y == ay as real - radius
    requires Xy2Polar(math, x, y).r > radius
    ensures WheelPixels(math, width)(ax, ay) == Transparent
  {
  }

  /** A pixel `drawCircle` paints gets the colour of its angle and distance. */
  lemma DrawnPixel(math: Math, width: Pixels, ax: nat, ay: nat, radius: real, x: real, y: real)
    requires radius == width as real / 2.0 && x == ax as real - radius && y == ay as real - radius
    requires !(Xy2Polar(math, x, y).r > radius)
    ensures var polar := Xy2Polar(math, x, y);
      var rgb := Hsv2Rgb(Rad2Deg(math, polar.phi), polar.r / radius, 1.0);
      WheelPixels(math, width)(ax, ay)
        == Rgba(ToUint8Clamp(rgb.r) as Byte, ToUint8Clamp(rgb.g) as Byte, ToUint8Clamp(rgb.b) as Byte, 255)
  {
  }

  /** `drawCircle`: allocate a zeroed square RGBA buffer as wide as the canvas
      and paint every pixel of the disc, column by column. The loops run over
      the buffer coordinates `ax = x + radius` and `ay = y + radius`. */
  method DrawCircle(math: Math, width: Pixels) returns (data: array<Byte>)
    ensures fresh(data)
    ensures data[..] == Raster(math, width)
  {
    var radius: Positive := width as real / 2.0;
    ghost var pixel := WheelPixels(math, width);
    data := new Byte[BufferLength(width)](_ => 0);
    PaintedStart(width, pixel);
    assert data[..] == seq(BufferLength(width), _ => 0 as Byte);
    for ax := 0 to width
      invariant Painted(width, pixel, data[..], ax, 0)
    {
      for ay := 0 to width
        invariant Painted(width, pixel, data[..], ax, ay)
      {
        var x := ax as real - radius;
        var y := ay as real - radius;
        var polar := Xy2Polar(math, x, y);
        if polar.r > radius {
          SkippedPixel(math, width, ax, ay, radius, x, y);
          PaintSkip(width, pixel, data[..], ax, ay);
          continue;
        }
        var deg := Rad2Deg(math, polar.phi);
        var rgb := Hsv2Rgb(deg, polar.r / radius, 1.0);
        var index := PixelIndex(ax, ay, width);
        PixelSlot(ax, ay, width, 3);
        ghost var before := data[..];
        data[index] := ToUint8Clamp(rgb.r) as Byte;
        data[index + 1] := ToUint8Clamp(rgb.g) as Byte;
        data[index + 2] := ToUint8Clamp(rgb.b) as Byte;
        data[index + 3] := 255;
        ghost var p := pixel(ax, ay);
        DrawnPixel(math, width, ax, ay, radius, x, y);
        assert data[..] == before[index := p.r][index + 1 := p.g][index + 2 := p.b][index + 3 := p.a];
        PaintPixel(width, pixel, before, ax, ay);
      }
      PaintColumn(width, pixel, data[..], ax);
    }
    PaintFinished(width, pixel, data[..]);
  }

  /** Pixel `(ax, ay)` is painted exactly when, in buffer coordinates, it
      lies in the closed disc around `(radius, radius)`. */
  lemma PixelDrawnInDisc(math: Math, width: Pixels, ax: nat, ay: nat)
    requires Lawful(math)
    ensures var radius: Positive := width as real / 2.0;
      var inDisc := Dist2(Point(ax as real, ay as real), radius, radius) <= radius * radius;
      Drawn(math, ax as real - radius, ay as real - radius, radius) <==> inDisc
  {
    var radius: Positive := width as real / 2.0;
    var x, y := ax as real - radius, ay as real - radius;
    DrawnInDisc(math, x, y, radius);
    assert Dist2(Point(ax as real, ay as real), radius, radius) == x * x + y * y;
  }

  /** The colour of a painted pixel is the colour `xy2rgb` gives for its
      buffer coordinates, each channel stored into the clamped array. */
  lemma PixelColorIsXy2Rgb(math: Math, px: real, py: real, radius: Positive)
    ensures var rgb := Xy2Rgb(math, px, py, radius);
      PixelColor(math, px - radius, py - radius, radius)
        == Rgba(ToUint8Clamp(rgb.r) as Byte, ToUint8Clamp(rgb.g) as Byte, ToUint8Clamp(rgb.b) as Byte, 255)
  {
  }

  /** A pixel inside the closed disc holds the colour `xy2rgb` gives for its
      buffer coordinates, stored into the clamped array, with alpha 255. */
  lemma RasterInside(math: Math, width: Pixels, ax: nat, ay: nat)
    requires Lawful(math)
    requires ax < width && ay < width
    requires var radius: Positive := width as real / 2.0;
      Dist2(Point(ax as real, ay as real), radius, radius) <= radius * radius
    ensures PixelIndex(ax, ay, width) + 4 <= BufferLength(width)
    ensures var radius: Positive := width as real / 2.0;
      var index := PixelIndex(ax, ay, width);
      var rgb := Xy2Rgb(math, ax as real, ay as real, radius);
      Raster(math, width)[index..index + 4]
        == [ToUint8Clamp(rgb.r) as Byte, ToUint8Clamp(rgb.g) as Byte, ToUint8Clamp(rgb.b) as Byte, 255]
  {
    ImagePixel(width, WheelPixels(math, width), ax, ay);
    PixelDrawnInDisc(math, width, ax, ay);
    PixelColorIsXy2Rgb(math, ax as real, ay as real, width as real / 2.0);
  }

  /** A pixel outside the disc is left transparent black. */
  lemma RasterOutside(math: Math, width: Pixels, ax: nat, ay: nat)
    requires Lawful(math)
    requires ax < width && ay < width
    requires var radius: Positive := width as real / 2.0;
      radius * radius < Dist2(Point(ax as real, ay as real), radius, radius)
    ensures PixelIndex(ax, ay, width) + 4 <= BufferLength(width)
    ensures var index := PixelIndex(ax, ay, width);
      Raster(math, width)[index..index + 4] == [0, 0, 0, 0]
  {
    ImagePixel(width, WheelPixels(math, width), ax, ay);
    PixelDrawnInDisc(math, width, ax, ay);
  }

  /** Every pixel inside the disc is opaque and fully bright: its largest
      colour byte is 255. */
  lemma RasterDiscBright(math: Math, width: Pixels, ax: nat, ay: nat)
    requires Lawful(math)
    requires ax < width && ay < width
    requires var radius: Positive := width as real / 2.0;
      Dist2(Point(ax as real, ay as real), radius, radius) <= radius * radius
    ensures PixelIndex(ax, ay, width) + 4 <= BufferLength(width)
    ensures var pixel := Raster(math, width)[PixelIndex(ax, ay, width)..PixelIndex(ax, ay, width) + 4];
      pixel[3] == 255 && (pixel[0] == 255 || pixel[1] == 255 || pixel[2] == 255)
  {
    Xy2RgbInDisc(math, ax as real, ay as real, width as real / 2.0);
    RasterInside(math, width, ax, ay);
  }

  /** On a canvas of even width the pixel at the centre is opaque white. */
  lemma RasterCentreWhite(math: Math, width: Pixels)
    requires Lawful(math)
    requires width % 2 == 0
    ensures var centre := PixelIndex(width / 2, width / 2, width);
      centre + 4 <= BufferLength(width)
      && Raster(math, width)[centre..centre + 4] == [255, 255, 255, 255]
  {
    var radius: Positive := width as real / 2.0;
    assert (width / 2) as real == radius;
    assert Dist2(Point(radius, radius), radius, radius) == 0.0;
    RasterInside(math, width, width / 2, width / 2);
    Xy2RgbCentreWhite(math, radius);
    ToUint8ClampOfInteger(255);
  }
}
