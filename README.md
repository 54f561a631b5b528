# Hermite curves with Catmull-Rom tangents — a verified model

This project models the core of `hermite.js`. The program draws a smooth
curve through a handful of draggable control points. Each segment between
consecutive points is a cubic Hermite blend. The tangents come from the
Catmull-Rom rule and are scaled by a smoothness factor `k`. Every frame the
curve is sampled `steps` times per segment and stroked as a polyline. Mouse
events pick and drag the control points.

The model has four modules:

- `Points` (`points.dfy`): the immutable `Point` value with `Mul`, `Sub` and
  `Add`, and the square hit box `Intersects`.
- `Hermite` (`hermite.dfy`): the basis polynomials `H1`–`H4`, the
  Catmull-Rom tangent `Tangent` (the source's `CRS`) and the segment blend
  `Curve`. The point sequence is a parameter instead of the global array.
- `Sampling` (`sampling.dfy`): the nested sampling loop of `render` as the
  method `Sample`. It is proved equal to the closed-form `Polyline`, whose
  vertex `n` is given by `Vertex`. The module also holds the corrected
  sampling described under Findings.
- `Editing` (`editor.dfy`): the class `Editor`. It owns the points array,
  the `mouseDown` flag and the selection. The selection is an optional index;
  in the source it is a reference to an array element. The class has the
  three mouse handlers and the hit-test loop `HitTest`.

Coordinates, `k` and `s` are `real`, so identities such as
`Curve(pts, i, i+1, k, 0) == pts[i]` hold exactly. `render` indexes
`points[0]` without a check, and `steps` is a positive constant. So
`Sample` and `Editor.Render` require at least one point and `steps >= 1`.
They have no error results.

Three features of the code shape the model:

- Dragging. The code has no separate drag operations. A point is selected
  by hovering over it while no drag is in progress (hermite.js:166-174). It
  moves when the mouse moves with the button held (hermite.js:161-164).
  A release clears both the flag and the selection (hermite.js:153-156).
- Errors. The code has no error results. `render` indexes `points[0]`
  without a check (hermite.js:200), so zero points would fail there, and
  one point draws a single vertex. The model accepts one point and states
  `|pts| >= 1` and `steps >= 1` as preconditions.
- Tangent rule. `CRS` returns the zero vector for every
  `i >= points.length - 1` (hermite.js:115), not only for the last index.
  The model uses the same test.

## Model

| member | source | states |
|---|---|---|
| `Points.Abs` | hermite.js:52-53 | `Math.abs`: the result is non-negative and equals `v` or `-v` |
| `Points.Point.Intersects` | hermite.js:48-57 | a hit holds iff the cursor lies strictly inside the open interval of half-width 25 around the point on both axes, each axis checked separately |
| `Points.HitAtOwnPosition` | hermite.js:48-57 | the point's own coordinates always hit |
| `Points.NoHitBeyondHalfWidth` | hermite.js:48-57 | an offset of 25 or more on either axis never hits |
| `Points.HitBoxIsSquare` | hermite.js:48-57 | the hit box is a square, not a disc: offset (24, 24) hits although its Euclidean distance exceeds 25 |
| `Points.Point.Mul` | hermite.js:23-26 | scalar multiplication; its laws are stated by `MulIdentities`, `MulMul` and `MulDistributesOverSub` |
| `Points.Point.Sub` | hermite.js:31-34 | point subtraction; `SubAddRoundTrip` states that `add` undoes it |
| `Points.Point.Add` | hermite.js:39-42 | point addition; `SubAddRoundTrip` and `AddZero` state its laws |
| `Points.SubAddRoundTrip` | hermite.js:31-42 | `sub` and `add` undo each other |
| `Points.MulIdentities` | hermite.js:23-26 | scaling by 1 is the identity, scaling by 0 gives the zero vector, and the zero vector stays zero |
| `Points.MulMul` | hermite.js:23-26 | scaling twice is scaling by the product |
| `Points.MulDistributesOverSub` | hermite.js:23-34 | scaling distributes over subtraction |
| `Points.AddZero` | hermite.js:39-42 | the zero vector is neutral for `add` |
| `Hermite.H1` | hermite.js:92-94 | H1(0) = 1 and H1(1) = 0 |
| `Hermite.H2` | hermite.js:96-98 | H2(0) = 0 and H2(1) = 1 |
| `Hermite.H3` | hermite.js:100-102 | H3(0) = H3(1) = 0 |
| `Hermite.H4` | hermite.js:104-106 | H4(0) = H4(1) = 0 |
| `Hermite.PartitionOfUnity` | hermite.js:92-98 | H1(s) + H2(s) = 1 for every s |
| `Hermite.Tangent` | hermite.js:110-119 | the Catmull-Rom rule `CRS`; its properties are stated by `TangentVanishesAtEnds`, `TangentInterior`, `TangentScales` and `TangentTranslates` |
| `Hermite.TangentVanishesAtEnds` | hermite.js:110-117 | the tangent is the zero vector at index 0 and at every index >= N-1, for every k |
| `Hermite.TangentInterior` | hermite.js:118 | at an interior index the tangent is (points[i+1] - points[i-1]) scaled by k |
| `Hermite.TangentScales` | hermite.js:110-118 | the tangent is linear in k: scaling k by c scales every tangent by c (end tangents stay zero), and k = 0 gives zero |
| `Hermite.TangentTranslates` | hermite.js:110-118 | moving every control point by the same vector leaves every tangent unchanged |
| `Hermite.Curve` | hermite.js:121-128 | the segment blend; its properties are stated by `CurveAtStart`, `CurveAtEnd`, `CurveTranslates` and `HorizontalStaysHorizontal` |
| `Hermite.CurveAtStart` | hermite.js:121-128 | Curve(i, j, k, 0) is exactly points[i], for every k |
| `Hermite.CurveAtEnd` | hermite.js:121-128 | Curve(i, j, k, 1) is exactly points[j], for every k |
| `Hermite.CurveTranslates` | hermite.js:121-128 | moving every control point by d moves every curve point by d |
| `Hermite.HorizontalStaysHorizontal` | hermite.js:121-128 | control points on one horizontal line give a curve on that line, for every k and s |
| `Hermite.CollinearExample` | hermite.js:110-128 | for (0,0), (100,0), (200,0) and k = 0.5, the interior tangent is (100,0) and the end tangents are zero; segment 0 gives (0,0) at s = 0 and (70.3125, 0) at s = 0.75 |
| `Sampling.Vertex` | hermite.js:200-204 | closed form of vertex n of the frame's polyline; `VertexOfSegment` ties it to segment i and sample j |
| `Sampling.Polyline` | hermite.js:200-207 | closed form of the whole polyline; `Sample` is proved equal to it, and `PolylineShape`, `SegmentStartsAtControlPoint` and `LastVertex` state its shape |
| `Sampling.VertexOfSegment` | hermite.js:201-204 | sample j of segment i sits at index 1 + i·steps + j and is Curve(i, i+1, k, j/steps) |
| `Sampling.SampledParameterRange` | hermite.js:202-203 | every sampled parameter j/steps lies in [0, 1), so s = 1 is never sampled |
| `Sampling.PolylineShape` | hermite.js:200-207 | the polyline has exactly 1 + (N-1)·steps vertices; the first is points[0]; with two or more points the second repeats points[0] |
| `Sampling.SegmentStartsAtControlPoint` | hermite.js:200-207 | the first sample of segment i is exactly points[i], so every control point except the last is a vertex |
| `Sampling.LastVertex` | hermite.js:201-204 | the last vertex is the last segment at s = (steps-1)/steps, not at s = 1 |
| `Sampling.LastControlPointMissed` | hermite.js:200-207 | for (0,0), (100,0) and steps = 1, the polyline is [(0,0), (0,0)] and never reaches the second point |
| `Sampling.Sample` | hermite.js:200-207 | the nested loop builds exactly `Polyline`: points[0], then Curve(i, i+1, k, j/steps) for each i < N-1 and j < steps, in that order |
| `Sampling.ClosedVertexOfSegment` | hermite.js:201-204 | corrected sampling: sample j of segment i is Curve(i, i+1, k, (j+1)/steps) |
| `Sampling.SampleClosed` | hermite.js:200-207 | corrected loop with j = 1..steps builds exactly `ClosedPolyline` |
| `Sampling.ClosedThroughEveryPoint` | hermite.js:200-207 | the corrected polyline has control point m at vertex m·steps, so it passes through every control point and ends on the last |
| `Editing.HitTest` | hermite.js:166-174 | the scan returns the first index in array order whose hit box holds the cursor, or none when no hit box holds it |
| `Editing.FirstHitUnique` | hermite.js:166-174 | the first-hit answer is unique |
| `Editing.HitOnControlPoint` | hermite.js:166-174 | a cursor exactly on point i selects i, or an earlier point whose box covers it; it selects exactly i when no earlier box covers it |
| `Editing.FarFromEveryPoint` | hermite.js:166-174 | a cursor 25 or more away on some axis from every point selects nothing |
| `Editing.Editor.constructor` | hermite.js:150-151 | the editor starts with the given points, the button up and nothing selected |
| `Editing.Editor.MouseUp` | hermite.js:153-156 | after a release the button is up and nothing is selected, whatever the state before; no point moves; releasing again changes nothing |
| `Editing.Editor.MouseDown` | hermite.js:157 | a press only sets the button flag; the selection and the points are unchanged |
| `Editing.Editor.MouseMove` | hermite.js:158-176 | with the button down and a point selected, exactly that point takes the cursor coordinates and the selection stays; otherwise the selection becomes the first hit in the old points, and no point moves |
| `Editing.Editor.Render` | hermite.js:200-207 | a frame's vertex list is `Polyline` of the current points |
| `Editing.HoverPressDragRelease` | hermite.js:153-176 | hover on point 2, press, move to (10, 20), release twice, move: point 2 is at (10, 20), every other point is unchanged, the second release changes nothing, and the last move only hit-tests |

## Findings

| source | as written | input that shows it | evidently intended | confidence | as-written member | corrected member |
|---|---|---|---|---|---|---|
| hermite.js:202-203 | samples `s = j/steps` for `j = 0..steps-1`, so no segment is sampled at `s = 1`. Segment 0's `s = 0` sample repeats `points[0]` right after `moveTo` | points (0,0), (100,0) with steps = 1: the polyline is [(0,0), (0,0)] and the curve never reaches (100,0). For every input, the last segment is never sampled at s = 1 | `j = 1..steps`, so each segment ends on its second control point and the polyline passes through every control point | medium (visually small at steps = 25), not executed | `Sampling.LastControlPointMissed` | `Sampling.ClosedThroughEveryPoint` |

`Editor.Render` keeps the loop as written, so it matches the program's
output vertex for vertex. `Sampling.SampleClosed` and `ClosedPolyline` are
the corrected loop. They are proved to pass through every control point.

## Left out

- Canvas and context acquisition, `Point.prototype.render`, and the
  `clearRect`/`stroke`/`requestAnimationFrame` calls in `render`. These are
  drawing I/O. Only the vertex list that `render` strokes is modelled
  (`Editor.Render`).
- Random seeding of the eight initial points (hermite.js:78-86). It uses
  `Math.random`. The `Editor` constructor takes arbitrary initial points.
- `getMousePos` and the smoothness slider listener. These convert DOM
  geometry and widget input. The cursor position `(cx, cy)` and the
  smoothness `k` are plain parameters. `DefaultSteps` (25) and
  `DefaultSmoothness` (0.5) record the program's constants.
- IEEE-754 rounding. Coordinates and parameters are exact reals, so the
  identities hold exactly here but only approximately in the program.
- Event-loop scheduling. The handlers and the frame callback run one at a
  time, so they are modelled as methods called in sequence.
- Object identity of the selection. The source keeps a reference to the
  selected `Point` object. Its array never changes membership, so the model
  stores an index into the fixed `points` array.
