# Harmony colour wheel, modelled in Dafny

A model of the colour-harmony wheel. The wheel is a React component that
paints an HSV colour disc on a canvas. The user drags a handle over the disc.
The component reads the handle's position as a primary colour and derives one
more colour per offset of the chosen harmony. The offsets are turns of the hue
(complementary adds 180 degrees, a triad adds 120 and 240, and so on). A
derived handle is placed on the disc at each derived colour. The whole list of
colours goes to `onChange`. The demo page converts each colour to RGB and
feeds the first one to a gradient as its base colour and the rest as its waves.

The project has five modules, one per concern of the source:

- `JsMath` (`js_math.dfy`): the parts of the JavaScript runtime the wheel
  relies on, over exact reals.
  - `Math.sqrt`, `Math.atan2`, `Math.cos`, `Math.sin` and `Math.PI` are carried
    as a `Math` value. The predicate `Utils.Lawful` states their laws.
  - The truncating `%` on reals (`JsRem`) and on integers (`JsIntRem`).
  - `Math.min` and `Math.abs`.
  - The ToUint8Clamp conversion a `Uint8ClampedArray` applies to every store
    (section 7.1.12 of ECMA-262).
- `Utils` (`utils.dfy`): `src/utils.ts`, which is pure.
  - The harmony table.
  - The Cartesian/polar conversions and the 180-degree phase shift between an
    angle and a hue.
  - `hsv2rgb`, and the compositions `xy2rgb` and `hsv2xy`.
  - `src/index.tsx` repeats `xy2polar`, `polar2xy`, `rad2deg` and `hsv2rgb`
    word for word (lines 45-59 and 92-118). They are modelled once, here.
- `Wheel` (`wheel.dfy`): the state and the pure logic of `src/index.tsx`.
  - The component's state is the class `ColorWheel`. Its fields are the
    selected position and, once mounted, the canvas.
  - `handleDrag` is the method `Drag`. It clamps the pointer radially to the
    disc.
  - The `handles` memo is the function `Handles`. It gives the derived handles
    and the list passed to `onChange`.
- `Disc` (`disc.dfy`): `drawCircle`, as an imperative method. It allocates a
  zeroed byte array and paints it in two nested loops.
  - Its postcondition ties the array to `Raster`, the image the disc defines.
  - The lemmas state what each pixel of that image is.
- `ClientPage` (`clientpage.dfy`): the demo page's `HSVtoRGB` and the
  `[base, ...waves]` split of `handleColorChange`.

Decisions that shape the model:

- All arithmetic is on exact reals.
- Colours are `Hsv`/`Rgb` records.
- The canvas width is a positive natural number.
- Where the page's converter leaves its channels undefined (a negative hue
  with no `switch` case), the model returns `None`.

## Model

| member | source | states |
|---|---|---|
| JsMath.JsRemBounds | src/index.tsx:76 | `%` keeps the sign of the dividend: the remainder lies in [0,b) for a non-negative dividend and in (-b,0] for a negative one |
| JsMath.JsRem | src/utils.ts:36 | JavaScript's `%` on numbers, truncating toward zero; its bounds are `JsRemBounds` and `JsRemOfNonNegative` |
| JsMath.JsRemOfNonNegative | src/utils.ts:36 | for a non-negative dividend the truncating remainder equals the floor-based one |
| JsMath.JsIntRem | website/src/app/ClientPage.tsx:18 | `i % 6` on integers lies in [0,6) for `i >= 0` and in (-6,0] for `i < 0` |
| JsMath.Abs | src/utils.ts:36 | `Math.abs` is non-negative and equals `a` or `-a` |
| JsMath.Min | src/index.tsx:40 | `Math.min(r, radius)` is at most both and equals one of them |
| JsMath.ToUint8Clamp | src/index.tsx:147-149 | a channel stored into the image data is an integer in [0,255]: 0 at or below 0, 255 at or above 255, within 0.5 of the value in between |
| JsMath.ToUint8ClampOfInteger | src/index.tsx:150 | an integral value in [0,255], such as the alpha 255, is stored unchanged |
| Utils.Offsets | src/utils.ts:1-7 | every harmony has one to three hue offsets, each strictly between -360 and 360 |
| Utils.Xy2Polar | src/utils.ts:9-13 | `xy2polar`: the distance `sqrt(x^2 + y^2)` and the angle `atan2(y, x)`; its properties are `DistanceSquared` and the round trips |
| Utils.Polar2Xy | src/utils.ts:15-19 | `polar2xy`: `(r cos phi, r sin phi)`; its properties are `PolarDistance`, `WithinRadius`, `Opposite` and the round trips |
| Utils.PolarToXy | src/utils.ts:9-19 | assumed law (part of `Lawful`), taken at one point: `polar2xy(xy2polar(x, y))` is `(x, y)` again |
| Utils.XyToPolar | src/utils.ts:9-19 | assumed law (part of `Lawful`), taken at one point: `xy2polar(polar2xy(r, phi))` is `(r, phi)` for `r > 0` and `phi` in (-pi, pi] |
| Utils.Opposite | src/utils.ts:15-19 | half a turn further round, `polar2xy` gives the negated point (from the assumed half-turn law) |
| Utils.HalfTurnSeam | src/utils.ts:15-19 | the angles -pi and pi give the same point |
| Utils.Rad2Deg | src/utils.ts:21-23 | `rad2deg` maps [-pi,pi] into [0,360] and (-pi,pi] into (0,360], and sends angle 0 to hue 180 |
| Utils.Deg2Rad | src/utils.ts:25-27 | `deg2rad`: degrees times pi/180; `PhaseShiftInverse` and `HalfTurnRange` state what it does with a hue |
| Utils.PhaseShiftInverse | src/utils.ts:21-27 | the 180-degree shift of `rad2deg` is undone by subtracting 180 before `deg2rad`, in both directions |
| Utils.HalfTurnRange | src/utils.ts:74-76 | a hue in (0,360], less 180 and in radians, lies in (-pi, pi], the range of `atan2` |
| Utils.Hsv2Rgb | src/utils.ts:33-59 | `hsv2rgb`: chroma, the sextant chosen by the first matching inclusive test, the offset `m`, scaled by 255; its properties are `Hsv2RgbBounds`, `Hsv2RgbPeak`, `Hsv2RgbGrey`, `Hsv2RgbOutOfRange` and `Hsv2RgbFullTurn` |
| Utils.Intermediate | src/utils.ts:36 | `x = chroma * (1 - abs(hue1 % 2 - 1))` with the truncating `%`; bounded by `IntermediateBounds` |
| Utils.Sextant | src/utils.ts:40-52 | the six inclusive range tests, taken in order, and the grey default when none matches |
| Utils.IntermediateBounds | src/utils.ts:36 | the second-largest channel `x` lies between 0 and the chroma |
| Utils.Hsv2RgbBounds | src/utils.ts:33-59 | for saturation and value in [0,1], every channel lies in [255(v - vs), 255v], so in [0,255], for any hue |
| Utils.OffsetBounds | src/utils.ts:54-58 | adding `m` and scaling by 255 maps channels in [0, chroma] into [255m, 255v] |
| Utils.Hsv2RgbPeak | src/utils.ts:40-58 | for a hue in [0,360] one channel is exactly 255 times the value |
| Utils.Hsv2RgbGrey | src/utils.ts:33-58 | zero saturation gives the grey 255v on all three channels, whatever the hue |
| Utils.Hsv2RgbOutOfRange | src/utils.ts:40-55 | a hue outside [0,360] matches no branch, so every channel is 255 times the offset `m` alone |
| Utils.Hsv2RgbFullTurn | src/utils.ts:40-51 | hue 0 and hue 360 give the same colour |
| Utils.SqrtOfSquare | src/utils.ts:10 | the square root of `r*r` for `r >= 0` is `r` |
| Utils.SqrtAtMost | src/utils.ts:10 | `sqrt(d) <= radius` exactly when `d <= radius^2`, for a non-negative radius |
| Utils.DistanceSquared | src/utils.ts:9-13 | the distance `xy2polar` returns is non-negative and squares to the squared offset |
| Utils.OffsetToHsv | src/utils.ts:65-69 | the colour of an offset from the disc centre: hue from the angle through `rad2deg`, saturation distance over radius, value 1; bounded by `OffsetToHsvRange` |
| Utils.OffsetToHsvRange | src/utils.ts:61-72 | the colour of any offset has hue in (0,360] and value 1, and its saturation is at most 1 exactly when the offset lies in the disc |
| Utils.Xy2Rgb | src/utils.ts:61-72 | `xy2rgb`: the colour of a canvas point around the centre `(radius, radius)`; see `Xy2RgbCentreWhite`, `Xy2RgbInDisc` and `Hsv2XyRoundTrip` |
| Utils.Xy2RgbCentreWhite | src/utils.ts:61-72 | the centre of the disc is white (255,255,255) |
| Utils.Xy2RgbInDisc | src/utils.ts:61-72 | every point in the disc gets channels in [0,255], one of them exactly 255 |
| Utils.Hsv2Xy | src/utils.ts:74-81 | `hsv2xy`: the point `radius * saturation` from the centre at the hue less 180 degrees; see `Hsv2XyDistance` and `Hsv2XyRoundTrip` |
| Utils.Hsv2XyDistance | src/utils.ts:74-81 | `hsv2xy` places a colour `radius * saturation` from the centre, so a saturation in [0,1] lands in the disc |
| Utils.WithinRadius | src/utils.ts:15-19 | `polar2xy(r, phi)` with `0 <= r <= radius` lies in the disc of that radius |
| Utils.PolarDistance | src/utils.ts:15-19 | `polar2xy(r, phi)` is at squared distance `r^2` from the origin |
| Utils.Hsv2XyRoundTrip | src/utils.ts:61-81 | reading the colour at the position `hsv2xy` gives returns the hue and saturation put in, with value 1 |
| Utils.OppositeShowsHue | src/index.tsx:79-80 | the point opposite the one at angle `hue` in radians reads back as `hue` (hue 0 as 360), at saturation `r / radius` |
| Utils.OppositeInRange | src/index.tsx:79-80 | for a hue in (0,360], the point at `hue - 180` degrees reads back with distance `r` and hue `hue` |
| Utils.OppositeOfZero | src/index.tsx:79-80 | the point at -180 degrees reads back with distance `r` and hue 360 |
| Wheel.WrapHue | src/index.tsx:76-77 | a hue plus an offset wraps into [0,360) |
| Wheel.WrapHueIsFloorMod | src/index.tsx:76-77 | the truncating `%` plus the negative fix-up is the floor-based modulo `sum - 360 floor(sum/360)` |
| Wheel.WrapHueOfHue | src/index.tsx:76-77 | a sum already in [0,360) is left unchanged |
| Wheel.WrapHuePeriodic | src/index.tsx:76-77 | adding whole turns does not change the wrapped hue |
| Wheel.WrapHueOneTurn | src/index.tsx:76-77 | a sum in [-360,720) is wrapped by adding or removing at most one turn |
| Wheel.Derive | src/index.tsx:76-77 | a derived colour: the hue turned by the offset and wrapped, saturation and value kept |
| Wheel.ColorSet | src/index.tsx:75-83 | the `onChange` list has one more entry than there are offsets; it starts with the primary colour; entry `i+1` keeps its saturation and value and has its hue wrapped after turning by offset `i` |
| Wheel.Primary | src/index.tsx:66-73 | the primary colour: the position's offset from the canvas centre read as hue, saturation and value 1 on a disc of half the width |
| Wheel.DerivedHandle | src/index.tsx:75-81 | a derived handle carries the primary colour with only the hue turned by the offset |
| Wheel.DerivedColors | src/index.tsx:83 | the primary followed by the colours of the derived handles is the harmony's colour set |
| Wheel.Handles | src/index.tsx:61-86 | without a canvas there are no handles and no colour list; with one, handle `i` is the one derived from offset `i` at the position's distance, and the list for `onChange` has one more colour than there are offsets |
| Wheel.EmittedColorSet | src/index.tsx:83 | the list `onChange` receives is exactly the colour set of the harmony for the primary colour |
| Wheel.DerivedHandleDistance | src/index.tsx:79-80 | a derived handle is drawn at distance `r` from the centre it is placed around |
| Wheel.DerivedHandleKeepsDistance | src/index.tsx:66-80 | the handle derived from an offset is as far from the canvas centre as the selected position |
| Wheel.DerivedHandleShowsColour | src/index.tsx:79-80 | the handle placed by `-x + width / 2` reads back, around its centre, as its own hue (0 as 360) at saturation `r / radius` |
| Wheel.HandleColourOnDisc | src/index.tsx:75-81 | a handle placed around the disc centre at the distance its saturation gives sits on a point painted in its own colour |
| Wheel.HandleOffCentre | src/index.tsx:79-80 | the same, for a handle away from the centre |
| Wheel.HandleAtCentre | src/index.tsx:79-80 | the same at the centre, where the saturation is 0 and every hue is white |
| Wheel.HandleShowsItsColour | src/index.tsx:61-86 | on a square canvas each handle of the memo sits on a point of the painted disc whose colour is the handle's own colour |
| Wheel.HandlesOnPrimaryCircle | src/index.tsx:61-86 | every derived handle lies on the circle through the selected position around the canvas centre |
| Wheel.ColorSetInRange | src/index.tsx:75-83 | if the primary colour has hue in [0,360], saturation in [0,1] and value 1, so has every colour of the list |
| Wheel.ComplementaryIsOpposite | src/index.tsx:7 | the complementary harmony adds the opposite hue, `hue + 180` or `hue - 180` |
| Wheel.AnalogousNeighbours | src/index.tsx:8 | the analogous harmony adds the hues 30 degrees below and above, in that order, wrapping across 0/360 |
| Wheel.SquareFromMagenta | src/index.tsx:9 | the square harmony on hue 300 gives the hues 300, 30, 120 and 210 |
| Wheel.EmittedColorsInRange | src/index.tsx:66-83 | while the position lies in the disc, every colour passed to `onChange` has hue in [0,360], saturation in [0,1] and value 1 |
| Wheel.Clamp | src/index.tsx:37-42 | the drag clamp: the pointer's offset from `(width/2, width/2)` in polar form, the distance cut to the radius, and back; see `ClampPolar` |
| Wheel.ClampPolar | src/index.tsx:35-43 | measured from the centre, the stored position keeps the pointer's angle and its distance becomes `min(r, radius)` |
| Wheel.ClampInDisc | src/index.tsx:35-43 | the stored position never leaves the disc |
| Wheel.ClampInsideUnchanged | src/index.tsx:38-42 | a pointer already inside the disc is stored as it is |
| Wheel.ClampOutsideOnRim | src/index.tsx:38-42 | a pointer outside the disc is pulled onto the rim, so its colour has saturation exactly 1 |
| Wheel.ColorWheel.constructor | src/index.tsx:18-19 | the initial position is (144, 144) and there is no canvas yet |
| Wheel.ColorWheel.Mount | src/index.tsx:23-33 | mounting makes the canvas available and leaves the position alone |
| Wheel.ColorWheel.Drag | src/index.tsx:35-43 | without a canvas nothing changes; with one, the position becomes the clamped pointer and the canvas is unchanged |
| Wheel.ColorWheel.Recompute | src/index.tsx:61-86 | the colour list for `onChange` is produced exactly when the canvas exists, with one colour more than the harmony has offsets |
| Wheel.DragKeepsColorsValid | src/index.tsx:35-86 | after any drag on a square canvas, every colour passed to `onChange` is a valid HSV colour |
| Disc.Column | src/index.tsx:134-138 | the column of a pixel number is below the width |
| Disc.ColumnRow | src/index.tsx:134-138 | column and row put the pixel number back together |
| Disc.PixelColumnRow | src/index.tsx:134-138 | pixel number `ax + ay * width` reads back as column `ax` and row `ay` |
| Disc.RowBound | src/index.tsx:122-138 | a pixel number inside the image lies in one of its `width` rows |
| Disc.PixelNumberBound | src/index.tsx:122-138 | every pixel of the image has a number below `width * width` |
| Disc.PixelSlot | src/index.tsx:138-150 | the four slots of pixel `(ax, ay)` lie in the buffer and read back as that pixel's column, row and channel |
| Disc.Image | src/index.tsx:122-123 | the image of a pixel colouring has the length of the buffer |
| Disc.ImagePixel | src/index.tsx:138-150 | the four slots at `PixelIndex(ax, ay, width)` of an image are the bytes of pixel `(ax, ay)` |
| Disc.DoneStep | src/index.tsx:125-126 | finishing pixel `(ax, ay)` adds exactly its own four slots to those visited |
| Disc.DoneColumn | src/index.tsx:125-126 | finishing the last row of a column is starting the next column |
| Disc.PaintedStart | src/index.tsx:122-123 | the freshly created image data is all zero, nothing visited |
| Disc.PaintSkip | src/index.tsx:129 | skipping a pixel outside the disc keeps the invariant, since that pixel of the image is transparent black |
| Disc.PaintPixel | src/index.tsx:147-150 | writing the four bytes of pixel `(ax, ay)` paints exactly that pixel |
| Disc.PaintColumn | src/index.tsx:125-126 | a finished column carries the invariant to the next column |
| Disc.PaintFinished | src/index.tsx:125-126 | once every column is done the buffer is the finished image |
| Disc.DrawnInDisc | src/index.tsx:127-129 | a pixel is painted exactly when it lies in the closed disc |
| Disc.PixelColor | src/index.tsx:127-150 | the bytes of a pixel at offset `(x, y)`: transparent black outside the disc, else the clamped `hsv2rgb` channels and alpha 255 |
| Disc.WheelPixel | src/index.tsx:127-150 | the pixel at buffer coordinates `(ax, ay)`, at offset `(ax - radius, ay - radius)` from the centre |
| Disc.Raster | src/index.tsx:120-155 | the whole wheel image; `DrawCircle` is proved to produce it and `RasterInside`, `RasterOutside`, `RasterDiscBright`, `RasterCentreWhite` state its pixels |
| Disc.SkippedPixel | src/index.tsx:127-129 | a pixel whose distance exceeds the radius is transparent black in the image |
| Disc.DrawnPixel | src/index.tsx:127-150 | a painted pixel holds the clamped channels of `hsv2rgb(rad2deg(phi), r / radius, 1)` and alpha 255 |
| Disc.DrawCircle | src/index.tsx:120-155 | the method returns a fresh array whose contents are the whole wheel image, `Raster(math, width)` |
| Disc.PixelDrawnInDisc | src/index.tsx:127-138 | in buffer coordinates, pixel `(ax, ay)` is painted exactly when it lies in the closed disc around `(radius, radius)` |
| Disc.PixelColorIsXy2Rgb | src/index.tsx:131-150 | the colour painted at a pixel is what `xy2rgb` gives for its buffer coordinates, stored into the clamped array, with alpha 255 |
| Disc.RasterInside | src/index.tsx:127-150 | a pixel inside the disc holds the clamped `xy2rgb` colour of its coordinates and alpha 255 |
| Disc.RasterOutside | src/index.tsx:129 | a pixel outside the disc is left as four zero bytes |
| Disc.RasterDiscBright | src/index.tsx:127-150 | every pixel inside the disc is opaque and has a channel at 255 |
| Disc.RasterCentreWhite | src/index.tsx:120-150 | on an even-width canvas the centre pixel is opaque white |
| ClientPage.Pick | website/src/app/ClientPage.tsx:18-37 | the `switch` assigns channels exactly for the cases 0 to 5 and leaves them undefined otherwise |
| ClientPage.Sector | website/src/app/ClientPage.tsx:12-13 | `i = floor(h / 360 * 6)`, the hue's sector; see `SectorRange` and `SectorSign` |
| ClientPage.Fraction | website/src/app/ClientPage.tsx:14 | `f = h * 6 - i`, how far the hue lies into its sector, in [0,1) |
| ClientPage.SectorColor | website/src/app/ClientPage.tsx:15-37 | `p`, `q`, `t` and the `switch`; see `SectorColorForm` and `SectorColorPeak` |
| ClientPage.HsvToRgb | website/src/app/ClientPage.tsx:10-43 | `HSVtoRGB`, `None` where the channels stay undefined; see `HsvToRgbDefined` and `HsvToRgbAgreesWithWheel` |
| ClientPage.SectorRange | website/src/app/ClientPage.tsx:12-18 | for a hue in [0,360) the case is the sector 0..5; the fraction lies in [0,1); hue 360 gives sector 6, case 0 and fraction 0 |
| ClientPage.SectorSign | website/src/app/ClientPage.tsx:13 | the sector is negative exactly when the hue is |
| ClientPage.NegativeRemainder | website/src/app/ClientPage.tsx:18 | `i % 6` is negative exactly for a negative `i` that is not a multiple of 6 |
| ClientPage.HsvToRgbDefined | website/src/app/ClientPage.tsx:10-43 | the channels are undefined exactly for a negative hue whose sector is not a multiple of 6 |
| ClientPage.NegativeHueUndefined | website/src/app/ClientPage.tsx:10-43 | `HSVtoRGB(-30, s, v)` leaves the channels undefined |
| ClientPage.SectorColorForm | website/src/app/ClientPage.tsx:15-17 | `p`, `q` and `t` are the offset `m = v - vs` plus none, `1 - f` or `f` of the chroma `vs` |
| ClientPage.PickPeak | website/src/app/ClientPage.tsx:18-37 | every case gives `v` to one channel and keeps the others among `p`, `q` and `t` |
| ClientPage.SectorColorPeak | website/src/app/ClientPage.tsx:15-37 | with saturation in [0,1], a non-negative value and a fraction in [0,1], every channel of every case lies in [0,v] and the case's peak channel (red, green or blue by case) equals `v` |
| ClientPage.Share | website/src/app/ClientPage.tsx:16-17 | a share in [0,1] of a non-negative amount lies between 0 and that amount |
| ClientPage.HsvToRgbBounds | website/src/app/ClientPage.tsx:10-43 | for saturation and value in [0,1] every defined channel lies in [0,v] and so in [0,1] |
| ClientPage.HsvToRgbPeak | website/src/app/ClientPage.tsx:10-43 | every defined result has one channel equal to `v` and none above it |
| ClientPage.HsvToRgbGrey | website/src/app/ClientPage.tsx:15-17 | with saturation 0 every defined result is the grey `(v, v, v)` |
| ClientPage.IntermediateOnSector | website/src/app/ClientPage.tsx:12-14 | the wheel's second-largest channel `x` is `c f` on even sectors and `c (1 - f)` on odd ones |
| ClientPage.SextantAgrees | website/src/app/ClientPage.tsx:18-37 | case `i` at fraction `f` gives the channels of the wheel's sextant at `i + f`, shifted by `m` |
| ClientPage.SectorColorIsSextant | website/src/app/ClientPage.tsx:10-43 | for a hue in [0,360) the page's result is the wheel's sextant colour shifted by `m` |
| ClientPage.FullTurnIsSextant | website/src/app/ClientPage.tsx:10-43 | at hue 360 the page wraps to case 0 and still agrees with the wheel's last sextant |
| ClientPage.HsvToRgbAgreesWithWheel | website/src/app/ClientPage.tsx:10-43 | on hues in [0,360] the page's converter is defined, and scaled by 255 it equals the wheel's `hsv2rgb` |
| ClientPage.SplitFirst | website/src/app/ClientPage.tsx:74 | `[base, ...waves]` is undefined exactly for an empty list, and otherwise base followed by waves is the list |
| ClientPage.ToGradient | website/src/app/ClientPage.tsx:69-71 | one wheel colour converted by `HSVtoRGB` |
| ClientPage.GradientColors | website/src/app/ClientPage.tsx:67-74 | the converted list split into base and waves; see `GradientOrder` and `GradientOfWheelColors` |
| ClientPage.GradientOrder | website/src/app/ClientPage.tsx:67-74 | colour 0 becomes the base and colours 1.. become the waves, in order, each converted by `HSVtoRGB` |
| ClientPage.GradientOfWheelColors | website/src/app/ClientPage.tsx:61-83 | for the colours the wheel emits, every converted colour is defined with channels in [0,1], and scaled by 255 equals the wheel's own `hsv2rgb` |

## Left out

- Rendering is not modelled: React, JSX, `react-draggable`, the handle `div`s, `getContext`, `getBoundingClientRect` and `putImageData`. Mounting is the method `Mount`, which receives the measured canvas size. `drawCircle` returns its buffer instead of putting it on the canvas.
- Floating point is not modelled: numbers are exact reals, so rounding, NaN, infinities and `-0` do not arise. `Math.sqrt`, `Math.atan2`, `Math.cos`, `Math.sin` and `Math.PI` are the fields of a `Math` value. Only the laws in `Utils.Lawful` are assumed of them, and every lemma that needs a law requires `Lawful`.
- `atan2` is taken to return angles in (-pi, pi] and 0 at the origin. This is the exact-real reading of JavaScript's behaviour, where the signed zeros are ignored.
- The canvas is never zero pixels wide: `Pixels` is a positive natural number, and no guard for an empty canvas is modelled.
- Disc.DrawCircle: the image is `width` x `width`, as in the source, which creates it as `2 * radius` square. The canvas height plays no part in drawing.
- Disc.DrawCircle: the loops run over buffer coordinates `ax, ay` in [0, width), with `x = ax - radius`. In exact reals this visits the same values as the source's `x` from `-radius` below `radius`.
- Disc.Image: a slot's pixel is found by dividing by 4 and by `Column`/`Row`, which use repeated subtraction. This is a specification device only.
- Disc.RasterCentreWhite: stated for even widths only. An odd-width canvas has no pixel at the exact centre.
- Utils.Hsv2XyRoundTrip: requires a hue in (0,360] and a positive saturation. Hue 0 reads back as 360, and at saturation 0 the angle is lost.
- Wheel.Handles: the `onChange` prop is assumed supplied. The source declares it optional and calls it as `onChange?.(…)`, so without it nothing is emitted even with a canvas; the model always produces the list.
- Wheel.Handles: the `onChange` list holds colours only. The handle objects spread into it in the source also carry their `x` and `y`, and those are dropped.
- Wheel.ColorWheel.Drag: the pointer is clamped around `(width/2, width/2)`, as in the source, which uses the width for both axes. `Wheel.DragKeepsColorsValid` therefore assumes a square canvas.
- ClientPage.HsvToRgb: the channels JavaScript leaves `undefined` when no `case` matches are modelled as `None`.
- ClientPage.GradientColors: an empty colour list is modelled as `None`, where the source would assign an undefined base colour.
- In `handleColorChange` the `Gradient` object, its `material.uniforms`, the `setTimeout` retry while the gradient is not ready, and the CSS set-up of the page are left out. Only the colour conversion and the base/waves split are modelled.
