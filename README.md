# coriolis-sim-ts: the exact parts, in Dafny

This project models the parts of the Coriolis simulator (a satellite over a turning Earth) that behave exactly. Three source files are covered:

- `src/components/Animation2.tsx`. The 3D view keeps a trajectory trail in a `Float32Array(3000)`, three slots per point. The geometry's `drawRange.count` says how many points are drawn. Each frame pushes the marker position. Below 1000 points it writes the next free point. At 1000 points it shifts the array left by one point with `copyWithin` and writes the new point at the end. Module `TrailBuffer` models this as a class `Trail` with an `array<real>` field, a `count` field and a `Push` method. Push is proved against pure functions of the old buffer (`PushSlots`, `PushCount`). A ghost history `Pushed` holds every point ever pushed. The class invariant says the drawn prefix `positions[..3*count]` is exactly the flattened last `min(n, 1000)` pushed points, oldest first.
- `src/components/Animation3.tsx`. The 2D map does the following:
  - It sizes the canvas to the image's aspect ratio inside the window (`Fit`).
  - It maps longitudes to columns with JavaScript's `%`, which truncates toward zero. `JsRem` models that operator; Dafny's own `%` is Euclidean. `ObjectColumn` is the formula for the object and the initial point. `GridColumn` is the formula for the meridians.
  - It draws a grid with two stepping loops (`DrawGrid`).
  - It joins consecutive object positions with strokes through the closure variable `lastPosition`. This is the class `TrajectoryPen` with its method `DrawTrajectory`.
  Module `MapCanvas` holds all of this.
- `src/utils.ts`. `degreeToRadian`, `radianToDegree` and `absoluteToEarth` are exact linear maps over the reals (module `Utils`). `Math.PI` is the constant `PI`, the exact value of the IEEE double `0x400921FB54442D18`.

Coordinates and pixel values are Dafny `real`s. Float32 and double rounding is not modelled.

The meridians and the objects use different column formulas. The meridian column (`Animation3.tsx:86`) subtracts `initialLongitude`. The object and initial-point columns (`Animation3.tsx:45`, `:156`) do not. Both are modelled as written. `GridMatchesObjectOnlyAtAntimeridian` proves what this means: on the canvas, a meridian and an object at the same longitude coincide exactly when `initialLongitude` is 180 or -180.

On the 2D map, `animate` clears the canvas (`Animation3.tsx:159`) before each `drawTrajectory` call, so only the newest stroke stays visible. `TrajectoryPen.Drawn()` is the sequence of strokes issued, one per call after the first. Whether they stay on screen is a rendering matter and is outside the model.

## Model

| member | source | states |
|---|---|---|
| `Utils.PiIsPositive` | src/utils.ts:19 | The value used for `Math.PI` lies strictly between 3.14159 and 3.1416, so in particular it is positive. |
| `Utils.DegreeRadianRoundTrip` | src/utils.ts:18-24 | About `DegreeToRadian` and `RadianToDegree`: `radianToDegree(degreeToRadian(d)) == d` for every real `d`. |
| `Utils.RadianDegreeRoundTrip` | src/utils.ts:18-24 | About `DegreeToRadian` and `RadianToDegree`: `degreeToRadian(radianToDegree(r)) == r` for every real `r`. |
| `Utils.DegreeToRadianLinear` | src/utils.ts:18-20 | About `DegreeToRadian`: `degreeToRadian` is additive and commutes with scaling. It maps 0 to 0 and 180 to `PI`. |
| `Utils.ConversionsMonotonic` | src/utils.ts:18-24 | About `DegreeToRadian` and `RadianToDegree`: both conversions are strictly increasing. |
| `Utils.AbsoluteToEarthShifts` | src/utils.ts:26-28 | About `AbsoluteToEarth`: `absoluteToEarth` keeps latitude and moves longitude west by exactly `earthRotation`. |
| `Utils.AbsoluteToEarthIdentity` | src/utils.ts:26-28 | About `AbsoluteToEarth`: a rotation of 0 returns the position unchanged. |
| `Utils.AbsoluteToEarthCompose` | src/utils.ts:26-28 | About `AbsoluteToEarth`: a rotation by `r1` and then by `r2` equals one rotation by `r1 + r2`. A rotation by `-r1` undoes one by `r1`. |
| `Utils.AbsoluteToEarthNoWraparound` | src/utils.ts:27 | About `AbsoluteToEarth`: no wrap-around is applied. Once the rotation reaches `lon + 180`, the result is outside (-180, 180]. Each further 360 of rotation lowers it by another 360. |
| `TrailBuffer.FlattenAt` | src/components/Animation2.tsx:51 | About `Flatten`: in the flat coordinate layout (item size 3), point `i` sits at slots `3i`, `3i+1`, `3i+2`. |
| `TrailBuffer.FlattenSnoc` | src/components/Animation2.tsx:71-73 | About `Flatten`: appending a point appends its x, y, z to the flat layout. |
| `TrailBuffer.FlattenTail` | src/components/Animation2.tsx:76 | About `Flatten`: dropping the oldest point drops exactly the first three coordinates. |
| `TrailBuffer.Recent` | src/components/Animation2.tsx:69-81 | The kept window has `min(n, 1000)` points. They are the last points of the history, in their original order. |
| `TrailBuffer.RecentSnoc` | src/components/Animation2.tsx:69-81 | One more point is appended while fewer than 1000 are kept. Otherwise the oldest is evicted and the new point appended. |
| `TrailBuffer.RecentSlotsAt` | src/components/Animation2.tsx:69-81 | Drawn slots `3k..3k+2` hold the `k`-th of the last `min(n, 1000)` pushed points, counting from the oldest one kept. |
| `TrailBuffer.PushCount` | src/components/Animation2.tsx:74-80 | After a push the count is between 1 and 1000. Below capacity it grows by one. At capacity it stays 1000. |
| `TrailBuffer.PushSlots` | src/components/Animation2.tsx:70-79 | A push keeps the buffer at exactly 3000 slots. Every write index lies inside it. |
| `TrailBuffer.PushWritesFreeSlot` | src/components/Animation2.tsx:70-74 | Below capacity a push writes x, y, z at `3c`, `3c+1`, `3c+2` (all below 3000) and changes no other slot. |
| `TrailBuffer.PushShiftsWhenFull` | src/components/Animation2.tsx:75-79 | At capacity, slot `i+3` moves to slot `i` for every `i < 2997`, and x, y, z land in slots 2997..2999. |
| `TrailBuffer.PushKeepsRecent` | src/components/Animation2.tsx:69-81 | If the drawn prefix held the most recent points of a history, then after a push it holds the most recent points of the history extended by the new point. |
| `TrailBuffer.PushDrawsLast` | src/components/Animation2.tsx:71-79 | After any push, the last drawn point is the one just pushed. |
| `TrailBuffer.Trail.constructor` | src/components/Animation2.tsx:50-52 | A zero-filled 3000-slot buffer with count 0 and an empty history. |
| `TrailBuffer.Trail.CopyWithin` | src/components/Animation2.tsx:76 | `copyWithin(0, 3, length)` moves every coordinate three slots left and leaves the last three slots as they were. |
| `TrailBuffer.Trail.Push` | src/components/Animation2.tsx:69-81 | The new buffer is `PushSlots` of the old buffer and count, and the new count is `PushCount` of the old. The history grows by the point. The invariant is kept: count <= 1000, and the drawn prefix is the flattened last `min(n, 1000)` points in order. |
| `MapCanvas.Fit` | src/components/Animation3.tsx:23-35 | For positive window and image sizes, the canvas has the image's aspect ratio (`width * imageHeight == height * imageWidth`). It fits inside the window and reaches the window's full width or full height. `animate` repeats the same computation at lines 144-154, so one definition serves both. |
| `MapCanvas.FitsByHeight` | src/components/Animation3.tsx:29-31 | When the window is relatively wider than the image, the height-bound width `innerHeight * aspectRatio` is positive and below `innerWidth`. |
| `MapCanvas.FitsByWidth` | src/components/Animation3.tsx:32-34 | Otherwise the width-bound height `innerWidth / aspectRatio` is positive and at most `innerHeight`. |
| `MapCanvas.Trunc` | src/components/Animation3.tsx:45 | Truncation toward zero: the result is within one of `q` on the side of zero. |
| `MapCanvas.JsRem` | src/components/Animation3.tsx:45 | JavaScript `%` with a positive divisor: the result has the dividend's sign, its magnitude is below the divisor, and it differs from the dividend by a whole multiple of the divisor. |
| `MapCanvas.JsRemUnique` | src/components/Animation3.tsx:45 | Those three properties determine the remainder uniquely. |
| `MapCanvas.JsRemPeriodic` | src/components/Animation3.tsx:86 | For a non-negative dividend, adding one divisor does not change the remainder. |
| `MapCanvas.ObjectColumnInRange` | src/components/Animation3.tsx:156 | About `ObjectColumn`: for `lon` in [-180, 180] and a positive width, `((lon + 180) % 360) / 360 * width` is in [0, width). |
| `MapCanvas.ObjectColumnLinear` | src/components/Animation3.tsx:45 | About `ObjectColumn`: on [-180, 180) the column is `(lon + 180) / 360 * width`, with no wrap. |
| `MapCanvas.ObjectColumnAntimeridian` | src/components/Animation3.tsx:156 | About `ObjectColumn`: `lon = 180` and `lon = -180` both map to column 0. |
| `MapCanvas.ObjectColumnWestOfRange` | src/components/Animation3.tsx:45 | About `ObjectColumn`: because `%` truncates, a longitude in (-540, -180) is not wrapped. It gets a negative column, left of the canvas. |
| `MapCanvas.GridColumnInRange` | src/components/Animation3.tsx:86 | About `GridColumn`: for `lon` and `initialLongitude` in [-180, 180] and a positive width, the meridian column is in [0, width). |
| `MapCanvas.GridMatchesObjectOnlyAtAntimeridian` | src/components/Animation3.tsx:86 | About `GridColumn` and `ObjectColumn`: both longitudes in [-180, 180], positive width: a meridian's column equals an object's column at the same longitude (line 156) if and only if `initialLongitude` is 180 or -180. |
| `MapCanvas.DrawGrid` | src/components/Animation3.tsx:71-92 | Exactly 11 parallels, at -75 + 15k, all strictly inside (-90, 90). Exactly 25 meridians, the k-th at the column of longitude -180 + 15k, all in [0, width) when `initialLongitude` is in [-180, 180]. |
| `MapCanvas.Segments` | src/components/Animation3.tsx:112-122 | n points give `max(n - 1, 0)` strokes, the i-th from point i to point i + 1. |
| `MapCanvas.SegmentsSnoc` | src/components/Animation3.tsx:112-121 | One more point adds exactly one stroke, from the previous last point to the new one. |
| `MapCanvas.TrajectoryPen.constructor` | src/components/Animation3.tsx:58 | `lastPosition` starts as null and nothing has been drawn. |
| `MapCanvas.TrajectoryPen.DrawTrajectory` | src/components/Animation3.tsx:112-122 | The first call draws no stroke. Every later call draws one stroke from the previous point to the current one. Afterwards `lastPosition` is the current point. After n calls, n - 1 strokes have been drawn, one between each pair of consecutive points. |

## Left out

- `geoToXyz` and `xyzToGeo` (`src/utils.ts:3-16`) are left out. So are `calculatePosition` in `src/App.tsx` and `calculateOrbitPosition` (`Animation3.tsx:124-137`). They are sin/cos/asin/atan2 floating-point numerics with no exact real counterpart.
- `mercatorY` (`Animation3.tsx:94-96`) and every y coordinate computed from it are left out. They use log and tan. `DrawGrid` therefore returns the parallels' latitudes, not their rows.
- The `updateGlobalTime` clock and the earth-rotation coupling in `src/App.tsx` are left out. They are driven by `requestAnimationFrame` and React state.
- React effects and their lifecycle are left out. This includes the trail buffer being rebuilt whenever `position` changes, and animation loops that are never cancelled. The model covers one buffer and one pen from their creation on.
- THREE.js scene setup and rendering, canvas drawing calls, image loading, resize listeners and `drawMap`'s image placement (`Animation3.tsx:60-69`) are left out.
- Assigning `canvas.width = width` truncates to an integer in the DOM. The model keeps the real width, which is what the drawing code goes on using.
- `MapCanvas.Fit` requires a positive window and image. A zero-sized window or image gives Infinity or NaN in JavaScript, and that is not modelled.
- `MapCanvas.JsRem`: only positive divisors are modelled, since the source only ever divides by 360.
- Float32 storage of the trail and IEEE double rounding throughout are left out. Values are exact reals, and the grid's loop counters are integers (they stay exact doubles in the source).
