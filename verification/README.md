# Curve geometry, capital database loader and canvas arithmetic

This project is a Dafny model of the computational core of a tick-based
network-building simulation game. It covers three parts:

- **Curves** (`curves.dfy`, module `Curves`):
  - The line `y = m*x + b`, with its evaluation and its intersection with
    another line or with a vertical line.
  - The quadratic `y = a*x^2 + b*x + c`:
    - its constructor, which replaces a zero `a` with `1e-14`;
    - `evaluate`, `vertex` and `roots`, which returns the empty list `[]` when
      the roots are complex and otherwise a set;
    - its intersection with a line.
  - The quadratic Bézier curve, with `evaluate`, `solve` (the parameters in
    `[0, 1]` that map to a point) and the intersection with a vertical line.
  - Square roots come from a parameter `sqrt` that must be a square root on
    the non-negative reals (`sqrt.dfy`, module `RealSqrt`).
- **Capital database** (`database.dfy`, module `ConfigDatabase`):
  - `loadDict` over the lines of a configuration file:
    - each line has trailing whitespace stripped and is split on `,`;
    - a line whose first field contains `#` is a comment and is skipped;
    - every other line is stored under the next integer id, starting at 0.
  - The five per-kind dictionaries of the database.
  - The five getters, each of which looks up an id and raises `KeyError` when
    the id is missing.
- **Canvas** (`canvas.dfy`, module `Canvas`): the simulation window's
  arithmetic, namely:
  - clamping positions into the canvas (`clip_x`, `clip_y`);
  - the resize rule, which keeps the canvas at least 400 by 250;
  - the zoom slider's table from level to scale;
  - the tick delay `400 - int(3.5 * speed)`.

Numbers are exact reals and integers are unbounded. Three points of the code
shape the model:

- `lines_intersect` divides by `m1 - m2` (curves.py:38), so equal slopes
  raise `ZeroDivisionError`. The model requires distinct slopes.
- `solve` tests `root in rooty` exactly (curves.py:180), and so does the
  model.
- The `[0, 1]` filter in `Bez_intersect_vline` is commented out
  (curves.py:207). The model keeps every real root, as the code does.

## Model

| member | source | states |
|---|---|---|
| `Curves.LinearEvaluate` | curves.py:18-19 | `Linear.evaluate`. It has no contract of its own: `Curves.LinearEvaluateSlope` pins it down as intercept `b` plus slope `m`, and the line routines use it through `OnLine`. |
| `Curves.LinearEvaluateSlope` | curves.py:18-19 | A line passes through `(0, b)` and rises by `m` per unit of `x`. |
| `Curves.LinesIntersect` | curves.py:30-41 | For distinct slopes, the returned point lies on both lines and is the only point that does. |
| `Curves.LinesIntersectSymmetric` | curves.py:30-41 | Swapping the two lines gives the same point. |
| `Curves.LineIntersectVline` | curves.py:43-45 | The returned point is the unique point of the line whose abscissa is the vertical line's. |
| `Curves.MakeQuadratic` | curves.py:50-57 | The leading coefficient is never zero: it is kept when non-zero and replaced by 1e-14 when zero; `b` and `c` are kept. |
| `Curves.QuadEvaluateAsWritten` | curves.py:60-61 | The written `evaluate` is the polynomial `a*x^2 + b*x + c` plus `b*(2 - x)`. |
| `Curves.QuadEvaluateAsWrittenShift` | curves.py:60-61 | The written `evaluate` differs from the polynomial by `b*(2 - x)`, so the two agree exactly when `b == 0` or `x == 2`. |
| `Curves.QuadEvaluateAsWrittenMissesRoot` | curves.py:60-61 | At the root -2 of `Quadratic(1,5,6)` the polynomial is 0 but the written `evaluate` gives 20. |
| `Curves.Vertex` | curves.py:64-78 | At the vertex the slope `2ax + b` is zero, and its `y` is the polynomial's value there. |
| `Curves.VertexForm` | curves.py:64-78 | The polynomial equals `a*(z - x)^2 + y` for the vertex `(x, y)`. |
| `Curves.VertexExtremum` | curves.py:64-78 | The vertex is the minimum of an upward parabola and the maximum of a downward one. |
| `Curves.NoRealZero` | curves.py:93-95 | A negative discriminant means the polynomial has no real zero, which justifies the early `[]`. |
| `Curves.QuadraticFormula` | curves.py:96-99 | With `s` the square root of the discriminant, `x` is a zero exactly when it is `(-b + s)/(2a)` or `(-b - s)/(2a)`. |
| `Curves.FormulaRootsDistinct` | curves.py:96-101 | The two formula roots coincide exactly when the discriminant is zero. |
| `Curves.Roots` | curves.py:81-101 | `[]` exactly when `b^2 - 4ac < 0`. Otherwise the set holds exactly the real zeros of the polynomial: one element when the discriminant is zero, two when it is positive. |
| `Curves.RootsNonEmpty` | curves.py:96-101 | A set result holds one or two roots. |
| `Curves.RootsExample` | curves.py:86-89 | The doctest: `Quadratic(1,5,6).roots()` is `{-3, -2}`. |
| `Curves.DerivedQuadratic` | curves.py:127 | The derived quadratic keeps the leading coefficient `a`, which is non-zero, so no 1e-14 substitution happens. `Curves.DerivedQuadraticMeets` gives its zeros and its discriminant. |
| `Curves.DerivedQuadraticMeets` | curves.py:110-128 | The derived quadratic `a x^2 + (b - m) x + (c - b_line)` vanishes exactly where the quadratic meets the line, and its discriminant is `(b - m)^2 - 4a(c - b_line)`. |
| `Curves.IntersectionPoints` | curves.py:134-139 | The built set is exactly the points `(x, yOf(x))` with `x` a meeting abscissa, and it has one or two elements. |
| `Curves.QuadLineIntersect` | curves.py:108-139 | `None` exactly when the derived discriminant is negative. Otherwise the result is exactly the points `(x, evaluate(x))` at abscissae where the curves meet, with the written `evaluate`; there are one or two of them. |
| `Curves.QuadLineIntersectCorrected` | curves.py:108-139 | With the polynomial in place of the written `evaluate`, the result is exactly the set of points common to the line and the quadratic's graph. `None` holds under the same condition. |
| `Curves.QuadLineIntersectOffLine` | curves.py:134-137 | Wherever the curves meet, both routines return a point. The written routine's point is on the line only when `b == 0` or `x == 2`; the corrected routine returns the common point. |
| `Curves.QuadLineIntersectOffLineExample` | curves.py:134-137 | `Quadratic(1,5,6)` against the x-axis yields `(-2, 20)`, which is off the axis. |
| `Curves.QuadLineIntersectTouching` | curves.py:117-119 | The first doctest, stated on the function: `quad_line_intersect(Quadratic(1,0,0), Linear(0,0))` is `{(0, 0)}`. |
| `Curves.QuadLineIntersectMissing` | curves.py:120-122 | The second doctest: `Quadratic(1,0,1)` and `Linear(0,0)` give `None`. |
| `Curves.BernsteinAsWritten` | curves.py:155-157 | Each coordinate the written `evaluate` computes is the Bernstein form minus `4(1-t)t` times the control value. |
| `Curves.BernsteinExpanded` | curves.py:165-171 | The Bernstein form expands to `(c0 - 2c1 + c2)t^2 + (-2c0 + 2c1)t + c0`, the coefficients `solve` builds. |
| `Curves.BezierEndpoints` | curves.py:141-159 | Both the written and the Bernstein evaluation start at `P0` and end at `P2`. |
| `Curves.BezierEvaluateAsWritten` | curves.py:155-159 | The written point is the Bernstein point moved by `-4(1-t)t * P1`, on each axis. |
| `Curves.BezierEvaluateAsWrittenDiffers` | curves.py:141-159 | At `t = 0.5` on the curve `(0,0),(1,1),(0,0)`, the Bernstein form gives `(0.5, 0.5)` and the written formula gives `(-0.5, -0.5)`. |
| `Curves.AxisQuadratic` | curves.py:166-172 | One axis's quadratic in `t`, as `solve` builds it. Its leading coefficient is never zero. When that coefficient is kept, its value at `t` is the Bernstein coordinate minus the target. When the coefficient is replaced by 1e-14, the value is off by an extra `1e-14 * t^2`. |
| `Curves.XQuadratic` | curves.py:166-168 | `quadx` of `solve`, and `quad` of `Bez_intersect_vline` at line 196. When the x-axis keeps its leading coefficient, its value at `t` is the curve's x-coordinate at `t` minus the target `x`. |
| `Curves.YQuadratic` | curves.py:170-172 | `quady` of `solve`. When the y-axis keeps its leading coefficient, its value at `t` is the curve's y-coordinate at `t` minus the target `y`. |
| `Curves.AxisQuadraticZeros` | curves.py:165-171 | When the axis's leading coefficient is non-zero, the axis quadratic vanishes at `t` exactly when the Bernstein coordinate equals the target. |
| `Curves.Solve` | curves.py:161-183 | `t` is in the result exactly when `0 <= t <= 1` and `t` is a root of both the x-axis and the y-axis quadratic. |
| `Curves.SolveStart` | curves.py:161-183 | Solving the start point `P0` finds parameter 0. |
| `Curves.SolveRoundTrip` | curves.py:161-183 | When both axis quadratics keep their leading coefficients, solving the Bernstein point at any `t` in `[0, 1]` finds `t`. |
| `Curves.SolveAsWrittenNoRoundTrip` | curves.py:155-183 | The round trip fails for the written `evaluate`: its midpoint on `(0,0),(1,1),(0,0)` does not solve back to 0.5. |
| `Curves.SolveDegenerateEnd` | curves.py:166-172 | For every curve whose control point is the midpoint of `P0` and `P2`, the 1e-14 substitution loses the end point: solving `P2` does not find 1. |
| `Curves.BezIntersectVline` | curves.py:186-211 | Every real root `t` of the x-axis quadratic contributes the written evaluation at `t`, and nothing else is returned. The result is empty for complex roots and has at most two points. |
| `Curves.BezIntersectVlineCorrected` | curves.py:186-211 | With the Bernstein evaluation and an x-axis quadratic that keeps its leading coefficient, every returned point is on the vertical line. Every point of the extended curve on that line is returned. |
| `Curves.BezIntersectVlineOffLine` | curves.py:204-208 | On the curve `(0,0),(1,0),(0,0)` the line `x = 0.5` is met at `t = 0.5`. The written routine returns `(-0.5, 0)` there, off the line; the corrected one returns `(0.5, 0)`. |
| `Curves.BezIntersectVlineUnfiltered` | curves.py:204-208 | With the `[0, 1]` filter commented out, a root outside `[0, 1]` still yields a point: `(4, 0)` on the curve `(0,0),(0,0),(1,0)`. |
| `Curves.BeyondEndMeetsOnlyOutside` | curves.py:204-208 | On that curve the line `x = 4` is met only at parameters outside `[0, 1]`. |
| `ConfigDatabase.RStrip` | database.py:59 | The result is a prefix of the line. What is dropped is all whitespace, and the result does not end in whitespace. |
| `ConfigDatabase.RStripIdempotent` | database.py:59 | Stripping twice strips nothing more. |
| `ConfigDatabase.RStripBlank` | database.py:59 | A line of whitespace only strips to the empty string. |
| `ConfigDatabase.Split` | database.py:60 | Splitting on `,` gives at least one field, and no field contains a comma. |
| `ConfigDatabase.JoinSplit` | database.py:60 | Joining the fields with `,` gives back the line. |
| `ConfigDatabase.SplitJoin` | database.py:60 | Splitting comma-free fields joined with `,` gives the fields back. |
| `ConfigDatabase.FirstFieldUpToComma` | database.py:60 | The first field is the line up to its first comma. |
| `ConfigDatabase.Entry` | database.py:59-60 | The stripped, split line that is stored. It has no contract of its own: `ConfigDatabase.EntryJoinsBack` shows that it is non-empty and comma-free and joins back to the stripped line. |
| `ConfigDatabase.IsComment` | database.py:63 | The test `'#' in fields[0]`. It has no contract of its own: `ConfigDatabase.CommentIffHashBeforeComma` characterises it. |
| `ConfigDatabase.CommentIffHashBeforeComma` | database.py:62-63 | A line is skipped exactly when `#` occurs in the stripped line before any comma, at any position of the first field. |
| `ConfigDatabase.CommentAtStart` | database.py:62-63 | `#id,name` is skipped. |
| `ConfigDatabase.CommentInsideFirstField` | database.py:62-63 | `T#2,100` is skipped even though `#` is not its first character. |
| `ConfigDatabase.HashInLaterFieldKept` | database.py:62-63 | `T2,#100` is not skipped. |
| `ConfigDatabase.BlankLineEntry` | database.py:58-63 | A blank or whitespace-only line is not skipped and is stored as the single empty field. |
| `ConfigDatabase.EntryJoinsBack` | database.py:59-67 | A stored field list is non-empty and comma-free, and it joins back to the stripped line. |
| `ConfigDatabase.KeepRejectsSkipped` | database.py:63 | No skipped line is kept. |
| `ConfigDatabase.KeptPositionsMatch` | database.py:56-70 | The `k`-th kept element is the element at the `k`-th kept position of the input. |
| `ConfigDatabase.KeptPositionsIncreasing` | database.py:69-70 | Kept positions strictly increase, so ids follow the input order. |
| `ConfigDatabase.KeptPositionsComplete` | database.py:58-70 | Every line that is not skipped is kept. |
| `ConfigDatabase.ParseLine` | database.py:59-67 | The loop body reports a comment exactly when the first field contains `#`, and it copies the full field list. |
| `ConfigDatabase.LoadDict` | database.py:53-72 | The keys are exactly `0 .. n-1` for the `n` non-comment lines. Key `k` holds the fields of the `k`-th non-comment line. |
| `ConfigDatabase.LoadDatabase` | database.py:40-46 | Each of the five dictionaries numbers its own file's non-comment lines. |
| `ConfigDatabase.LookupLoaded` | database.py:53-72 | In a loaded dictionary, an id is a key exactly when it numbers a kept line. The entry found is some input line's fields, non-empty and joining back to that line stripped. |
| `ConfigDatabase.GetTower` | database.py:74-75 | For an id in the towers dictionary, the result is a tower built from that entry. A missing id is outside the domain, matching `KeyError`. |
| `ConfigDatabase.GetRadio` | database.py:77-78 | For an id in the radios dictionary, the result is a radio built from that entry. |
| `ConfigDatabase.GetWired` | database.py:80-81 | For an id in the wired dictionary, the result is a wired item built from that entry. |
| `ConfigDatabase.GetRouter` | database.py:83-84 | For an id in the routers dictionary, the result is a router built from that entry. |
| `ConfigDatabase.GetBuilding` | database.py:86-87 | For an id in the buildings dictionary, the result is a building built from that entry. |
| `Canvas.InitialConsistentIff` | agentsim.py:138-145 | The initial sizes of 1000 match the corners `(0,0)`–`(xmax, ymax)` exactly when `xmax = ymax = 1000`. |
| `Canvas.Clip` | agentsim.py:425-432 | `max(lo, min(hi, v))` is never below `lo`, and it is within `[lo, hi]` when that range is non-empty. It is `v` when `v` is inside and `lo` when the range is empty. |
| `Canvas.ClipIdempotent` | agentsim.py:425-432 | Clipping twice is clipping once. |
| `Canvas.ClipNearest` | agentsim.py:425-432 | The clipped value is the point of the range nearest to `v`. |
| `Canvas.ClipMonotone` | agentsim.py:425-432 | Clipping preserves order. |
| `Canvas.ClipX` | agentsim.py:425-426 | `clip_x` lands between the x corners and leaves positions inside unchanged. |
| `Canvas.ClipY` | agentsim.py:431-432 | `clip_y` lands between the y corners and leaves positions inside unchanged. |
| `Canvas.ClipXYIdempotent` | agentsim.py:425-432 | `clip_x` and `clip_y` are idempotent when the corners are in order. |
| `Canvas.CanvasResize` | agentsim.py:434-452 | The far corner becomes the larger of the request and 400 (for x) or 250 (for y). The near corner stays, and each size is recomputed as the distance between the corners. |
| `Canvas.ResizeMinimumSize` | agentsim.py:443-452 | With the near corner at the origin, a resized canvas is at least 400 by 250, and `clip_x` lands inside it. |
| `Canvas.ResizeIdempotent` | agentsim.py:434-452 | Resizing twice to the same size is resizing once. |
| `Canvas.OnZoomChange` | agentsim.py:352-361 | Levels 0, 1, 2 and 3 give scales 0.2, 0.5, 0.8 and 1.0. Any other level keeps the previous scale. |
| `Canvas.ZoomKeepsPositive` | agentsim.py:352-363 | From a positive scale every zoom gives a positive scale, so the ratio `scale/lastscale` is defined and positive. |
| `Canvas.ZoomIncreasing` | agentsim.py:352-361 | On the slider's range, a higher level gives a strictly larger scale, never above 1.0. |
| `Canvas.ZoomForgetsHistory` | agentsim.py:352-361 | The scale after a slider level depends only on that level. |
| `Canvas.Truncate` | agentsim.py:397 | `int()` of a real truncates toward zero. |
| `Canvas.RescheduleDelay` | agentsim.py:397 | The delay `400 - int(3.5 * speed)` is `400 - floor(7 * speed / 2)` for a non-negative speed and `400 + floor(7 * -speed / 2)` for a negative one. |
| `Canvas.DelayRange` | agentsim.py:229-235 | On the speed slider's range 1..100 the delay stays within [50, 397]. |
| `Canvas.DelayNonIncreasing` | agentsim.py:397 | A higher speed never gives a longer delay. |
| `Canvas.DelayEndpoints` | agentsim.py:397 | The initial speed 1 gives 397, and the top speed 100 gives 50. |

## Left out

- The Tk window is not modelled: widgets, buttons, sliders, the event loop, images, mouse pan and `canvas.scale` drawing. Only the arithmetic these call is modelled.
- `Linear.angle` is not modelled, because it needs `atan2`, which has no exact real counterpart.
- The `print` methods and the diagnostic prints in `Bez_intersect_vline` are not modelled, since they are output only.
- `Bez_intersect` is not modelled. It is a numeric sampling search, and the comment at curves.py:214 says it does not work yet.
- Floating point: all arithmetic is over exact reals, so rounding, NaN and infinity are not modelled.
- `math.sqrt` becomes the `sqrt` parameter, which must be a square root on the non-negative reals.
- `Curves.LinesIntersect`: equal slopes are excluded by its requires. In the code they divide by zero (`ZeroDivisionError`).
- The database constructor's file opening, directory change and `quit()` on failure are I/O. `LoadDatabase` takes each file's lines as a parameter instead.
- The capital classes (`Tower`, `Radio`, `Wired`, `Router`, `Building`) are defined elsewhere and are not part of this model. A getter's result is the kind's constructor applied to the stored field list.
- The database doctest reads a data file and is not modelled.
- `Canvas.OnZoomChange`: the level is an integer. The slider value string and its `int()` conversion are not modelled.
- `Canvas.RescheduleDelay`: the speed is the integer the slider callback stores. Scheduling with `after` is not modelled.
- `Curves.BezIntersectVlineUnfiltered` states membership of the unfiltered point only. That the root lies outside `[0, 1]` is the separate lemma `Curves.BeyondEndMeetsOnlyOutside`.
- `Curves.SolveRoundTrip` and `Curves.BezIntersectVlineCorrected` promise exactness only for curves whose axis quadratics keep their leading coefficient. When the coefficient is replaced by 1e-14, roots shift, as `Curves.SolveDegenerateEnd` shows.

## Findings

| source | as written | input that shows it | evidently intended | confidence | as-written member | corrected member |
|---|---|---|---|---|---|---|
| curves.py:61 | `evaluate` computes `a*x**2 + b*2 + c` | `Quadratic(1,5,6)` at `x = -2` gives 20 instead of 0. `quad_line_intersect` with `Linear(0,0)` returns `(-2, 20)`, which is not on the line. | `a*x**2 + b*x + c` | not executed | `Curves.QuadLineIntersectOffLine` | `Curves.QuadLineIntersectCorrected` |
| curves.py:156-157 | the control point's term is `2*(t-1)*t*P1` | On the curve `(0,0),(1,0),(0,0)` at `t = 0.5` the result is `(-0.5, 0)`, not `(0.5, 0)`. `Bez_intersect_vline` at `x = 0.5` returns that off-line point. | `2*(1-t)*t*P1`, as the comment at line 143 states | not executed | `Curves.BezIntersectVlineOffLine` | `Curves.BezIntersectVlineCorrected` |
