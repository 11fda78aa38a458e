# UnityBezierCurve in Dafny

A model of the two classes at the heart of the UnityBezierCurve component.

`LineSegment` is a two-point segment whose ends can be reassigned. It evaluates
points along itself with `Vector2.Lerp`.

`BezierCurve` is a cubic Bézier curve with four control points A, B, C and D.
It holds three base segments (A-B, B-C, C-D) that mirror the control points,
and three scratch segments (D, E, F). Every call to `Point` or `Tangent`
overwrites the scratch segments with the levels of De Casteljau's construction.
A lazily built lookup table of 32 entries pairs parameters t = i/31 with
accumulated chord lengths. A dirty flag marks the table stale whenever a control
point moves. `Length`, `Distance`, `T` and the `...Dist` variants rebuild a stale
table before reading it.

The model keeps the form of the C# code:

- `LineSegment` and `BezierCurve` are classes whose methods update fields in
  place. The two table columns are `array<real>`.
- `BuildLUT` and `SampleT` are methods with loops. Each is proved against a
  pure specification function: `DTable`/`TTable`/`TotalLength` for the build,
  `SampledT` for the scan.
- The pure parts are functions with lemmas: the interpolation helpers, the
  curve mathematics, and the read of the distance column by parameter
  (`SampleDistance`).
- The object invariant `Valid` states:
  - the six segment objects are six different objects;
  - the base segments always equal the current control points;
  - the two table columns are separate arrays of the same size, at least 1;
  - the magnitude function is never negative and is 0 on the zero vector;
  - a table marked built holds exactly what a fresh build from the current
    control points would write.

The main results:

- The curve point is the cubic Bernstein polynomial at t clamped to [0,1]
  (`CurvePointIsBernstein`). It is also De Casteljau's general construction
  (`CurvePointByReduction`).
- The tangent difference is one third of the polynomial's derivative
  (`TangentIsBernsteinVelocity`). The normal is perpendicular to the tangent.
- The built table starts at (0, 0). Its parameters rise strictly from 0 to 1.
  Its distances never decrease and end at the total length.
- `Distance` is monotone, stays within [0, total length], and returns entry i
  at the parameter of entry i.
- `T` always lies in [0,1] and maps distance 0 to parameter 0. It never
  decreases on [0, total length]. On a strictly increasing distance column it
  undoes `Distance` at every entry.

Where a reader might expect otherwise, the model follows the code:

- `Vector2.Lerp` and `Mathf.Lerp` clamp their parameter. So `Point(t)` for t
  outside [0,1] stays at A or D; it does not extrapolate.
- `T(dist)` for a distance below 0 finds no enclosing pair of entries. It falls
  through to the LAST parameter, 1, not to 0 (`ParamBeforeStart`). So `T` is
  monotone only from distance 0 on (`ParamNotMonotoneAcrossZero`).
- The `idLower < 0` fallback in `SampleT` cannot be reached, because `idLower`
  counts up from 0. The model omits it.

## Model

| member | source | states |
|---|---|---|
| Geometry.Lerp | BezierCurve.cs:249 | `Mathf.Lerp` clamps t: the result lies between a and b, equals a for t <= 0 and b for t >= 1 |
| Geometry.LerpMonotone | BezierCurve.cs:282 | for a <= b, interpolation is monotone in t (what makes `Distance` monotone) |
| Geometry.InverseLerp | BezierCurve.cs:231 | `Mathf.InverseLerp` lies in [0,1], is 0 on an empty interval, and is undone by `Lerp` for a value inside the interval |
| Geometry.InverseLerpMonotone | BezierCurve.cs:231 | for a <= b, a larger value never gets a smaller `Mathf.InverseLerp` fraction |
| Geometry.VecLerp | LineSegment.cs:30 | `Vector2.Lerp` stays in the box spanned by its ends and clamps t at both ends |
| Geometry.VecLerpReversed | LineSegment.cs:33-36 | interpolating from b to a at t equals interpolating from a to b at 1 - t, for every t |
| Geometry.QuarterTurnClockwise | BezierCurve.cs:196-199 | `RotatedDeg(-90)` gives a vector perpendicular to its input, of the same length, turned clockwise |
| LineSegments.LineSegment.constructor | LineSegment.cs:22-26 | both ends are stored as given |
| LineSegments.LineSegment.SetBegin | LineSegment.cs:10-14 | the `Begin` setter changes the start and leaves the end alone |
| LineSegments.LineSegment.SetEnd | LineSegment.cs:16-20 | the `End` setter changes the end and leaves the start alone |
| LineSegments.LineSegment.Point | LineSegment.cs:28-31 | the point stays on the segment, is the start for t <= 0 and the end for t >= 1, and is begin + (end - begin)·t inside [0,1] |
| LineSegments.LineSegment.NegPoint | LineSegment.cs:33-36 | walking backwards: the end at t <= 0, the start at t >= 1, and always `Point(1 - t)` |
| Bezier.FirstLevel | BezierCurve.cs:144-148 | the ends written to the scratch segments D and E: the base segments A-B, B-C and C-D evaluated at t |
| Bezier.SecondLevel | BezierCurve.cs:150-151 | the ends written to the scratch segment F: segments D and E evaluated at t |
| Bezier.CurvePoint | BezierCurve.cs:142-154 | the point `Point(t)` returns: segment F evaluated at t |
| Bezier.TangentDifference | BezierCurve.cs:185-188 | `p2 - p1`, the tangent before normalisation |
| Bezier.CurvePointIsBernstein | BezierCurve.cs:142-154 | the three levels of segment interpolation give the cubic Bernstein polynomial of A, B, C, D at t clamped to [0,1] |
| Bezier.CurvePointByReduction | BezierCurve.cs:142-154 | the fixed three levels are De Casteljau's construction run on the control polygon |
| Bezier.CurveEndpoints | BezierCurve.cs:142-154 | the curve starts at A and ends at D, and stays there outside [0,1] |
| Bezier.DegenerateCurve | BezierCurve.cs:142-154 | with four equal control points the curve is that point and the tangent difference is zero |
| Bezier.TangentIsBernsteinVelocity | BezierCurve.cs:177-189 | the tangent difference p2 - p1 is one third of the polynomial's derivative at t clamped to [0,1] |
| Bezier.TangentEndpoints | BezierCurve.cs:177-189 | the tangent difference is B - A at the start and D - C at the end |
| Lookup.SampleParam | BezierCurve.cs:85-92 | the parameter stored at entry i: 0 for entry 0 and i/(n-1) after |
| Lookup.TTable | BezierCurve.cs:85-96 | the parameter column a build writes, one `SampleParam` per entry, of size n |
| Lookup.TTableShape | BezierCurve.cs:85-99 | the parameter column starts at 0, ends at 1, strictly increases and stays in [0,1] |
| Lookup.SampleDistance | BezierCurve.cs:253-283 | the guards for 0 and 1 entries and for t outside [0,1); inside, the index floor(t·(n-1)) is in range and the result is interpolated between that entry and the next |
| Lookup.IndexFacts | BezierCurve.cs:268-270 | the upper index is the lower plus one; it passes the end exactly when t >= 1, and the lower index is negative exactly when t < 0 |
| Lookup.SampleDistanceAtEntry | BezierCurve.cs:253-283 | read at the parameter of entry k, the table returns entry k |
| Lookup.SampleDistanceWithinColumn | BezierCurve.cs:253-283 | on a non-decreasing column every read lies between the first and the last entry |
| Lookup.SampleDistanceMonotone | BezierCurve.cs:253-283 | on a non-decreasing column a larger parameter never reads a smaller distance |
| Lookup.FirstBracket | BezierCurve.cs:221-237 | the scan stops at the first pair enclosing the distance, or at the last index when no pair does |
| Lookup.SampledT | BezierCurve.cs:206-250 | `SampleT`: 0 for an empty table, the only parameter for a one-entry table, the last parameter when no pair encloses the distance, and otherwise the interpolation inside the first enclosing pair |
| Lookup.BracketFound | BezierCurve.cs:224-242 | on a non-decreasing column, a distance between the first and last entries is enclosed by some pair, so the scan never falls through |
| Lookup.BracketsInOrder | BezierCurve.cs:224-237 | on a non-decreasing column the scan for a larger distance never stops at an earlier pair |
| Lookup.SampledTFirstMatch | BezierCurve.cs:224-249 | when pair j is the first to enclose the distance, the result is interpolated inside pair j and lies between its two parameters |
| Lookup.SampledTNoMatch | BezierCurve.cs:239-242 | when no pair encloses the distance, the result is the last parameter |
| Lookup.SampledTAtEntry | BezierCurve.cs:206-250 | on a strictly increasing distance column, looking up entry i's distance returns entry i's parameter |
| Lookup.SampledTMonotone | BezierCurve.cs:206-250 | on non-decreasing columns, between the first and last distance entries a larger distance never gives a smaller parameter |
| ArcLength.SamplePoint | BezierCurve.cs:88-98 | the point each chord of the build ends at: A for entry 0, the curve point at i/(n-1) after |
| ArcLength.ArcTo | BezierCurve.cs:94-97 | entry i of the distance column: the magnitudes of the first i chords, added up |
| ArcLength.DTable | BezierCurve.cs:86-97 | the distance column a build writes, of size n |
| ArcLength.TotalLength | BezierCurve.cs:87-95 | the total length a build leaves: the last entry of the distance column |
| ArcLength.ArcToMonotone | BezierCurve.cs:94-97 | accumulated chord lengths are non-negative and never decrease |
| ArcLength.DTableShape | BezierCurve.cs:85-99 | the distance column starts at 0, never decreases and ends at the total length |
| ArcLength.DegenerateArc | BezierCurve.cs:90-99 | a curve whose control points coincide has length 0 |
| ArcLength.PrefixesAreColumns | BezierCurve.cs:90-99 | the entries the build loop has written so far are the first entries of the two columns |
| ArcLength.DistanceAtSample | BezierCurve.cs:157-162 | `Distance` at the parameter of entry i is the length of the first i chords |
| ArcLength.DistanceMonotone | BezierCurve.cs:157-162 | `Distance` never decreases along the curve and stays within [0, total length] |
| ArcLength.ParamOfDistanceAtSample | BezierCurve.cs:157-170 | `T(Distance(t))` is t at every table parameter when the distance column strictly increases |
| ArcLength.ParamInUnitRange | BezierCurve.cs:165-170 | `T` always returns a parameter in [0,1] |
| ArcLength.ParamAtStart | BezierCurve.cs:165-170 | `T(0)` is 0 |
| ArcLength.ParamMonotone | BezierCurve.cs:165-170 | `T` never decreases between distance 0 and the total length |
| ArcLength.ParamNotMonotoneAcrossZero | BezierCurve.cs:229-241 | `T(-1)` is greater than `T(0)`: a negative distance falls through to 1 |
| ArcLength.ParamBeforeStart | BezierCurve.cs:229-241 | a negative distance finds no enclosing pair, so `T` returns the last parameter, 1 |
| ArcLength.ParamPastEnd | BezierCurve.cs:229-241 | a distance beyond the total length finds no enclosing pair either, so `T` returns 1 |
| Curves.BezierCurve.constructor | BezierCurve.cs:39-47 | the invariant holds, the table is not built, the base and scratch segments are set as `Init` sets them, both columns are zero-filled and of size n |
| Curves.BezierCurve.OnPointAChanged | BezierCurve.cs:104-111 | A moves, the start of segment A-B follows, the table goes stale, nothing else changes |
| Curves.BezierCurve.OnPointBChanged | BezierCurve.cs:113-121 | B moves, the end of A-B and the start of B-C follow, the table goes stale |
| Curves.BezierCurve.OnPointCChanged | BezierCurve.cs:123-131 | C moves, the end of B-C and the start of C-D follow, the table goes stale |
| Curves.BezierCurve.OnPointDChanged | BezierCurve.cs:133-140 | D moves, the end of C-D follows, the table goes stale |
| Curves.BezierCurve.Point | BezierCurve.cs:142-154 | returns the curve point of the current control points; the scratch segments hold the first and second levels, and D's end is E's start |
| Curves.BezierCurve.Tangent | BezierCurve.cs:177-189 | returns the normalised tangent difference; the scratch segments D and E hold the first level |
| Curves.BezierCurve.Normal | BezierCurve.cs:196-199 | returns the tangent turned a quarter clockwise |
| Curves.BezierCurve.BuildLut | BezierCurve.cs:80-102 | leaves a built table untouched; otherwise fills both columns and the total length from the current control points and marks the table built |
| Curves.BezierCurve.FillTable | BezierCurve.cs:85-99 | the build loop writes exactly the parameter column, the distance column and the total length of the current control points |
| Curves.BezierCurve.Length | BezierCurve.cs:29-37 | rebuilds a stale table and returns the total chord length of the current control points |
| Curves.BezierCurve.SampleT | BezierCurve.cs:206-250 | the scan returns the specified lookup of the current columns |
| Curves.BezierCurve.Distance | BezierCurve.cs:157-162 | rebuilds a stale table and reads the freshly specified distance column at t |
| Curves.BezierCurve.T | BezierCurve.cs:165-170 | rebuilds a stale table and looks up the parameter of the current control points' columns |
| Curves.BezierCurve.PointDist | BezierCurve.cs:172-175 | the curve point at the parameter `T` gives for the distance |
| Curves.BezierCurve.TangentDist | BezierCurve.cs:191-194 | the tangent at the parameter `T` gives for the distance |
| Curves.BezierCurve.NormalDist | BezierCurve.cs:201-204 | the normal at the parameter `T` gives for the distance |
| Curves.DefaultTable | BezierCurve.cs:23 | the 32-entry table steps by 1/31 from 0 to 1, strictly increasing; `T` maps 0 to 0 and every negative distance to 1 |

## Left out

- Floating point: every `float` and `Vector2` coordinate is an exact real, so rounding, overflow and `NaN` are not modelled.
- `Vector2.magnitude` and `Vector2.normalized` are function parameters of the curve object. The model assumes only that the magnitude is non-negative and zero on the zero vector.
- Curves.BezierCurve.Tangent: the normalisation is an uninterpreted parameter, so unit length of the tangent is not stated.
- `RotatedDeg(-90)` comes from an extension library that is not part of this model. It is modelled as the exact quarter turn (x, y) to (y, -x).
- The constructor taking `BezierPoint` objects and its subscriptions to `OnTransformChanged` (BezierCurve.cs:49-62) are not modelled: Unity events. The four handler methods take the new position directly. BezierPoint.cs is not part of this model.
- `Debug.LogError` on an empty table is dropped. The error paths return 0 as the C# code does.
- The table size is a constructor parameter n (`LutDetail` = 32 in the C# code) and must be at least 1. The C# code always uses 32; with an empty array the writes at BezierCurve.cs:85-86 would throw.
- Curves.BezierCurve.BuildLut: the loop after the guard is the separate method `FillTable`, so that each proof stays small. The statements are those of the C# method, in the original order.
- The `idLower < 0` fallback in `SampleT` (BezierCurve.cs:244-247) is dead code and is left out.
- The segment objects and the table arrays are `const` fields. The C# code assigns them only in `Init`.
- That `Distance` and `T` approximate true arc length is not modelled. Only the chord-length table the code builds is.
