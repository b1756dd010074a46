# MediaGrapher curves core, in Dafny

MediaGrapher turns an image (or the frames of a video) into a line drawing.
A `Curves` object is built from a media object in four steps:

1. It picks an edge detector by name: Canny with a low and a high threshold, or Sobel.
2. It clamps the detector's 8-bit output to a 0/1 mask.
3. It hands the mask to the potrace bitmap tracer.
4. It keeps the traced path.

The path is a list of curves. Each curve has a start point and a list of
segments. A segment is either a corner (one control point) or a smooth cubic
segment (two control points), and carries only its end point.

Two walks render that path:

- `get_segments` emits one control polygon ("entry") per piece. A corner
  gives the two line entries `[start, c]` and `[c, end]`. A smooth segment
  gives the single cubic entry `[start, c1, c2, end]`. The running start is
  chained from segment to segment.
- `get_coordinates(n)` makes the same walk. It samples each piece at the
  `n` parameters of `numpy.linspace(0, 1, n)`. Corner halves use the linear
  Bezier evaluator and smooth segments the cubic one, one list of x values and
  one of y values per entry.

The Matplotlib grapher sizes its figure from the resolution it is given (the
entry point passes the image's). It reduces
`width:height` to lowest terms, halves both sides while either exceeds 10,
then scales both by 1.5 while either is below 5. The axes span
`[0, width] x [0, height]`.

The project has these modules:

- `Wrappers`: the `Result` type for the error paths.
- `Bezier`: the two evaluators over `real`.
- `TracedPath`: the tracer's output as an input datatype, and entry counts.
- `Edges`: detector dispatch, mask clamp and the constructor.
- `Segments`: `get_segments`.
- `Coordinates`: `get_coordinates` and `numpy.linspace`.
- `FigureSize`: the figure-size rule and the axis box.

Recursive reference functions are defined from the back (prefix, then last
element). The imperative methods that follow the Python loops keep invariants
of the form "the output so far is the reference function of the prefix".

The code does not validate its inputs, and the model keeps that:

- There is no check that `linspace >= 2`. With 0 samples every entry is two
  empty lists; with 1 sample it is the start value alone.
- A negative `linspace` is not rejected up front. `numpy.linspace` raises only
  once the walk reaches a segment, so a path without segments still returns
  an empty list.
- The Canny thresholds are not validated or ordered.
- Curves are not assumed to be closed.

Where the code and its docstrings disagree, the model follows the code:

- `get_coordinates` defaults to 50 samples (mediagrapher/curves.py:84),
  although its docstring says 100 (mediagrapher/curves.py:89).
  `GetCoordinates` defaults to 50.
- The docstrings of `cubic_bezier_curve` and of the `Curves` class list the
  arguments as (start, end, c1, c2) (mediagrapher/curves.py:28, 162-166). The
  signature and the formula take (start, c1, c2, end)
  (mediagrapher/curves.py:158, 172), and `Cubic` follows the signature.

## Model

| member | source | states |
|---|---|---|
| Bezier.Linear | mediagrapher/curves.py:144-156 | `linear_bezier_curve` is p0 moved by the fraction t of the way to p1: p0 at t = 0 and p1 at t = 1 |
| Bezier.Cubic | mediagrapher/curves.py:158-172 | `cubic_bezier_curve` passes through start at t = 0 and end at t = 1, and is constant when all four control values are equal |
| Bezier.LinearEndpoints | mediagrapher/curves.py:144-156 | the linear evaluator is p0 at t = 0 and p1 at t = 1 |
| Bezier.LinearConstant | mediagrapher/curves.py:156 | a degenerate segment p..p evaluates to p for every t |
| Bezier.LinearBetween | mediagrapher/curves.py:156 | for t in [0, 1] the value lies between the two end values, in either order |
| Bezier.CubicEndpoints | mediagrapher/curves.py:158-172 | the cubic evaluator is start at t = 0 and end at t = 1 |
| Bezier.CubicConstant | mediagrapher/curves.py:172 | the Bernstein weights sum to one: four equal control values give a constant |
| Bezier.CubicIsDeCasteljau | mediagrapher/curves.py:172 | the Bernstein form equals de Casteljau's three rounds of linear interpolation, for every t |
| Bezier.CubicDegreeElevation | mediagrapher/curves.py:144-172 | a cubic with inner controls at the thirds of p0..p1 traces exactly the linear evaluator |
| Bezier.LinearExamples | tests/test_curves_module.py:77-94 | the linear test values: (0, 10, 0.5) gives 5 and (5, 15, 0.2) gives 7 |
| Bezier.CubicExamples | mediagrapher/curves.py:158-172 | in signature order (start, c1, c2, end): (0, 2, 8, 10, 0.5) gives 5 and (1, -1, 4, 3, 0.5) gives 1.625 |
| Bezier.CubicTestArgumentOrder | tests/test_curves_module.py:97-116 | the arguments exactly as the cubic test passes them give 5.5 and 1.375, not the expected 5 and 1.625 |
| TracedPath.HasSegmentSnoc | mediagrapher/curves.py:97-101 | a prefix one curve longer holds a segment iff the shorter prefix or that curve does |
| TracedPath.SegmentsWeightAppend | mediagrapher/curves.py:71-80 | entry counts add up over a concatenation of segment runs |
| TracedPath.SegmentsWeightBounds | mediagrapher/curves.py:71-80 | a curve yields between one and two entries per segment, and two per segment exactly when every segment is a corner |
| TracedPath.PathWeightZero | mediagrapher/curves.py:68-82 | a path renders to no entries exactly when none of its curves holds a segment, the empty path included |
| Edges.Detect | mediagrapher/curves.py:43-49 | it fails with InvalidAlgorithm iff the name is neither "Canny" nor "Sobel"; Canny gets thresholds[0] as low and thresholds[1] as high; Sobel gets no thresholds |
| Edges.SobelIgnoresThresholds | mediagrapher/curves.py:46-47 | the Sobel result does not depend on the thresholds passed |
| Edges.ClampRow | mediagrapher/curves.py:52 | `row[row > 1] = 1` keeps the row's length, sets each sample above 1 to 1 and leaves the others unchanged |
| Edges.ClampMask | mediagrapher/curves.py:51-52 | the mask keeps the image's shape, is entirely 0/1, and each sample is 1 where the original exceeds 1 and the original otherwise |
| Edges.ClampIdempotent | mediagrapher/curves.py:51-52 | clamping an already clamped mask changes nothing |
| Edges.ClampFixedPoint | mediagrapher/curves.py:51-52 | the clamp leaves an image unchanged iff it is already binary |
| Edges.ClampRows | mediagrapher/curves.py:51-52 | the in-place row loop computes exactly the clamped mask |
| Edges.InitCurves | mediagrapher/curves.py:31-55 | with the defaults "Canny" and (50, 150) unless given, construction fails iff the name is invalid; otherwise the mask is exactly the clamped detector output (so binary and of the same shape), and the path is the tracer applied to that mask |
| Segments.SegmentEntries | mediagrapher/curves.py:73-80 | a segment yields its weight in entries (2 for a corner, 1 for a smooth segment), each of 2 or 4 points |
| Segments.CurveEntries | mediagrapher/curves.py:71-81 | a curve yields as many entries as its segments' weights sum to |
| Segments.PathEntries | mediagrapher/curves.py:68-82 | the whole output has as many entries as all segments' weights sum to |
| Segments.CurveEntriesChained | mediagrapher/curves.py:70-81 | a curve's entries are chained: the first begins at the curve's start, each begins where the previous one ends, and the last ends at the last segment's end |
| Segments.ChainedAppend | mediagrapher/curves.py:70-81 | two chained runs, the second starting where the first ends, concatenate to a chained run |
| Segments.CurveEntriesPrefix | mediagrapher/curves.py:71-81 | the entries of the first m segments are a prefix of the curve's entries |
| Segments.PathEntriesPrefix | mediagrapher/curves.py:69-82 | the entries of the first m curves are a prefix of the path's entries |
| Segments.CurveEntriesAt | mediagrapher/curves.py:71-81 | segment i's entries sit at offset "weight of segments 0..i-1", starting from the previous segment's end (or the curve start) |
| Segments.PathEntriesAt | mediagrapher/curves.py:69-82 | curve j's entries sit at offset "weight of curves 0..j-1": output follows curve order, then segment order |
| Segments.ClosedCurveEntries | mediagrapher/curves.py:70-81 | for a closed curve the entries form a chain whose last point is its first point |
| Segments.CornerOnlyCurve | mediagrapher/curves.py:73-76 | a curve of corners only yields twice as many entries as segments, each a 2-point line |
| Segments.GetSegments | mediagrapher/curves.py:57-82 | the nested loops return exactly the reference entries of the path |
| Segments.AppendCurve | mediagrapher/curves.py:70-81 | the inner loop appends exactly one curve's entries to what was emitted so far |
| Segments.EmitSegment | mediagrapher/curves.py:72-80 | the branch on is_corner emits exactly that segment's entries from the running start |
| Coordinates.Linspace | mediagrapher/curves.py:109 | `numpy.linspace(0, 1, n)`: n parameters in [0, 1], the first 0 and (for n of at least 2) the last 1 |
| Coordinates.LinspaceEvenlySpaced | mediagrapher/curves.py:109 | consecutive parameters are exactly 1 / (n - 1) apart |
| Coordinates.SampleLine | mediagrapher/curves.py:106-119 | a sampled line has one x value and one y value per parameter |
| Coordinates.SampleCubic | mediagrapher/curves.py:129-138 | a sampled cubic has one x value and one y value per parameter |
| Coordinates.SegmentSamples | mediagrapher/curves.py:102-140 | a segment yields its weight in sampled entries |
| Coordinates.CurveSamples | mediagrapher/curves.py:101-141 | a curve yields as many sampled entries as its segments' weights sum to |
| Coordinates.PathSamples | mediagrapher/curves.py:97-142 | the output has as many sampled entries as `get_segments` has entries |
| Coordinates.CurveSamplesSnoc | mediagrapher/curves.py:101-141 | sampling one more segment appends exactly that segment's samples |
| Coordinates.MirrorsAppend | mediagrapher/curves.py:121-140 | entry-by-entry correspondence survives concatenation |
| Coordinates.SegmentSamplesMirror | mediagrapher/curves.py:102-140 | a segment's samples are its `get_segments` entries sampled: linear for 2-point entries, cubic for 4-point ones |
| Coordinates.CurveSamplesMirror | mediagrapher/curves.py:98-141 | both walks carry the same running start, so a curve's samples are its entries sampled, position by position |
| Coordinates.PathSamplesMirror | mediagrapher/curves.py:97-142 | `get_coordinates(n)[k]` is `get_segments()[k]` sampled at the parameters, for every k, with the same length |
| Coordinates.SampleEntryEndpoints | mediagrapher/curves.py:99-133 | each coordinate list has exactly n values; the first is the entry's first point (n of at least 1) and the last is its last point (n of at least 2) |
| Coordinates.EmptyPathSamples | mediagrapher/curves.py:95-142 | a path without segments samples to the empty list, whatever n is |
| Coordinates.GetCoordinates | mediagrapher/curves.py:84-142 | with n = 50 unless given, fails iff n is negative and some curve has a segment; a negative n on a segment-free path gives []; otherwise the result is the reference sampling and mirrors `get_segments` |
| Coordinates.AppendCurveSamples | mediagrapher/curves.py:98-141 | the inner loop fails iff n is negative and the curve has a segment, else appends exactly the curve's samples |
| Coordinates.SampleSegment | mediagrapher/curves.py:102-140 | the branch on is_corner appends exactly that segment's samples from the running start |
| FigureSize.GcdDivides | mediagrapher/grapher/matplotlib_grapher.py:40-41 | the gcd of two numbers, not both zero, is positive and divides both |
| FigureSize.GcdGreatest | mediagrapher/grapher/matplotlib_grapher.py:40-41 | every common divisor of two numbers divides their gcd, so Euclid's result is the greatest common divisor |
| FigureSize.Coprime | mediagrapher/grapher/matplotlib_grapher.py:40-42 | two numbers with gcd 1, such as the parts of the reduced fraction, share no divisor but 1: the fraction is in lowest terms |
| FigureSize.GcdScale | mediagrapher/grapher/matplotlib_grapher.py:40-41 | gcd(k*x, k*y) = k * gcd(x, y) |
| FigureSize.Reduce | mediagrapher/grapher/matplotlib_grapher.py:40-42 | `Fraction(w, h)`: positive denominator, same ratio (cross-multiplied), coprime parts, numerator positive iff w and h have the same sign |
| FigureSize.HalvedRatio | mediagrapher/grapher/matplotlib_grapher.py:43-45 | halving both sides the same number of times keeps the ratio |
| FigureSize.HalvingBound | mediagrapher/grapher/matplotlib_grapher.py:43-45 | while a halved side still exceeds 10, 2^k is below the original value, which bounds the loop |
| FigureSize.Halve | mediagrapher/grapher/matplotlib_grapher.py:43-45 | the first loop ends with both sides at most 10, having halved both exactly k times, and stops at the first such k; a pair already at most 10 is untouched |
| FigureSize.GrownRatio | mediagrapher/grapher/matplotlib_grapher.py:47-49 | scaling both sides by 1.5 the same number of times keeps the ratio |
| FigureSize.GrownAtLeast | mediagrapher/grapher/matplotlib_grapher.py:47-49 | j scalings by 1.5 add at least half the start value per step, which bounds the loop |
| FigureSize.NonPositiveNeverGrows | mediagrapher/grapher/matplotlib_grapher.py:47-49 | a side that is zero or negative never reaches 5, so the loop would never end |
| FigureSize.Grow | mediagrapher/grapher/matplotlib_grapher.py:47-49 | for positive sides the second loop ends with both at least 5, having scaled both exactly j times, and stops at the first such j; a pair already at least 5 is untouched |
| FigureSize.HalvedAntitone | mediagrapher/grapher/matplotlib_grapher.py:43-45 | a positive side only shrinks as halving goes on |
| FigureSize.GrownMonotone | mediagrapher/grapher/matplotlib_grapher.py:47-49 | a non-negative side only grows as scaling goes on |
| FigureSize.HalvingPassed | mediagrapher/grapher/matplotlib_grapher.py:43-45 | once both sides are at most 10, every later halving sees both at most 10 |
| FigureSize.HalvingStopsUnique | mediagrapher/grapher/matplotlib_grapher.py:43-45 | the first loop's stopping conditions hold for one step count only, so they fix its result |
| FigureSize.GrowingPassed | mediagrapher/grapher/matplotlib_grapher.py:47-49 | once both sides are at least 5, every later scaling sees both at least 5 |
| FigureSize.GrowingStopsUnique | mediagrapher/grapher/matplotlib_grapher.py:47-49 | the second loop's stopping conditions hold for one step count only, so they fix its result |
| FigureSize.WidescreenFigure | mediagrapher/grapher/matplotlib_grapher.py:40-49 | 1920:1080 reduces to 16:9, and any step counts meeting both stopping conditions give exactly a 12 x 6.75 figure |
| FigureSize.TallFigureExceedsTen | mediagrapher/grapher/matplotlib_grapher.py:43-49 | there is no upper bound: a 1:100 ratio halves to 0.0625 : 6.25 and then needs 11 scalings, ending above 500 |
| FigureSize.ScaleToFigure | mediagrapher/grapher/matplotlib_grapher.py:43-49 | the size is the reduced pair halved k times and then scaled by 1.5 j times, where k and j are the points where the two loops stop; both loops give sides of at least 5 with the ratio of the reduced pair; a pair inside [5, 10] on both sides passes through unchanged |
| FigureSize.FigureFor | mediagrapher/grapher/matplotlib_grapher.py:30-55 | fails iff the height is 0; otherwise the size is `Fraction(width, height)` halved and then scaled to the loops' stopping points, at least 5 by 5 with ratio width:height, the dpi (100 unless given) is passed through, and the axes are [0, width] x [0, height]; `save_plot` (lines 73-88) repeats the same rule |

## Left out

- Tracing: potrace is a foreign library. Its output enters as the `Path` datatype, and `InitCurves` takes the tracer as a function parameter.
- Edge detection: the OpenCV Canny and Sobel detectors of the media classes are foreign code. They enter as the functions of a `Media` value returning an 8-bit grid.
- Image I/O and transformation in the media classes are not part of this model: PIL loading, resizing, rotation, mirroring and the HTTP download.
- Plotting: the matplotlib calls (figure, title, labels, plot, show, savefig) are output only. `FigureFor` returns the settings the grapher passes to them.
- The entry point, the GUI and the abstract `Media` and `Grapher` interfaces hold no logic of the core.
- Floating point: all coordinates, parameters and figure sizes are `real`. IEEE rounding is not reproduced, so the test literals hold exactly.
- Broadcast lists: `get_coordinates` builds `[value] * linspace` lists to map the evaluators over. The model evaluates the same scalar at every parameter, which is the same list.
- FigureFor: it requires a zero height or a width and height of the same sign. For a zero width, or opposite signs, the Python scaling loop never ends (`NonPositiveNeverGrows`). The model excludes these inputs rather than modelling divergence.
- Halve, Grow, ScaleToFigure, FigureFor: the step counts k and j are ghost outputs. They are not part of what the program returns, only of what the contract says about it.

## Findings

| source | as written | input that shows it | evidently intended | confidence | as-written member | corrected member |
|---|---|---|---|---|---|---|
| tests/test_curves_module.py:97-116 | the cubic test passes its parameters positionally as (start, end, c1, c2) into `cubic_bezier_curve(start_point, c1, c2, end_point, t)` | (0, 10, 2, 8, 0.5) evaluates to 5.5, not the expected 5; (1, 3, -1, 4, 0.5) to 1.375, not 1.625 | the expected values hold for the arguments in signature order, (0, 2, 8, 10, 0.5) and (1, -1, 4, 3, 0.5) | high (not executed) | Bezier.CubicTestArgumentOrder | Bezier.CubicExamples |
