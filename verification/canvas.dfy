/**
  The simulation window's canvas geometry.

  The window keeps the canvas corners and sizes as numbers: positions are
  clamped into the corner box, a resize grows the box to at least 400 by 250,
  the zoom slider's level picks a scale from a fixed table, and the tick delay
  shrinks as the speed slider grows. Everything here is arithmetic on those
  fields; the Tk widgets around them are not modelled.
 */
module Canvas {

  /** The canvas fields the geometry helpers read and write. */
  datatype CanvasFields = CanvasFields(xSize: real, ySize: real, xMin: real, yMin: real, xMax: real, yMax: real)

  /** The canvas as the window builds it: 1000 by 1000, corners at the origin
      and at `(xmax, ymax)`. */
  function InitialCanvas(xmax: real, ymax: real): CanvasFields {
    CanvasFields(1000.0, 1000.0, 0.0, 0.0, xmax, ymax)
  }

  /** Each size is the distance between its corners. */
  predicate SizesConsistent(c: CanvasFields) {
    c.xSize == c.xMax - c.xMin && c.ySize == c.yMax - c.yMin
  }

  /** The initial sizes match the corners only for the default `xmax = ymax = 1000`. */
  lemma InitialConsistentIff(xmax: real, ymax: real)
    ensures SizesConsistent(InitialCanvas(xmax, ymax)) <==> xmax == 1000.0 && ymax == 1000.0
  {
  }

  function Max(a: real, b: real): real {
    if a >= b then a else b
  }

  function Min(a: real, b: real): real {
    if a <= b then a else b
  }

  /** `max(lo, min(hi, v))`: never below `lo`; within `[lo, hi]` when that box is
      non-empty; `v` itself when already inside; `lo` when the box is empty. */
  function Clip(lo: real, hi: real, v: real): (r: real)
    ensures lo <= r
    ensures lo <= hi ==> r <= hi
    ensures lo <= v <= hi ==> r == v
    ensures hi < lo ==> r == lo
    ensures r == v || r == lo || r == hi
  {
    Max(lo, Min(hi, v))
  }

  /** Clipping what is already clipped changes nothing, when the box is non-empty. */
  lemma ClipIdempotent(lo: real, hi: real, v: real)
    requires lo <= hi
    ensures Clip(lo, hi, Clip(lo, hi, v)) == Clip(lo, hi, v)
  {
  }

  /** The clipped value is the point of the box nearest to `v`. */
  lemma ClipNearest(lo: real, hi: real, v: real, w: real)
    requires lo <= w <= hi
    ensures Distance(Clip(lo, hi, v), v) <= Distance(w, v)
  {
  }

  /** Clipping keeps order. */
  lemma ClipMonotone(lo: real, hi: real, v: real, w: real)
    requires v <= w
    ensures Clip(lo, hi, v) <= Clip(lo, hi, w)
  {
  }

  function Distance(a: real, b: real): real {
    if a <= b then b - a else a - b
  }

  /** `clip_x`: an x position clamped between the canvas's x corners. */
  function ClipX(c: CanvasFields, x: real): (r: real)
    ensures c.xMin <= r
    ensures c.xMin <= c.xMax ==> r <= c.xMax
    ensures c.xMin <= x <= c.xMax ==> r == x
  {
    Clip(c.xMin, c.xMax, x)
  }

  /** `clip_y`: a y position clamped between the canvas's y corners. */
  function ClipY(c: CanvasFields, y: real): (r: real)
    ensures c.yMin <= r
    ensures c.yMin <= c.yMax ==> r <= c.yMax
    ensures c.yMin <= y <= c.yMax ==> r == y
  {
    Clip(c.yMin, c.yMax, y)
  }

  /** `clip_x` and `clip_y` are idempotent on a canvas whose corners are in order. */
  lemma ClipXYIdempotent(c: CanvasFields, x: real, y: real)
    requires c.xMin <= c.xMax && c.yMin <= c.yMax
    ensures ClipX(c, ClipX(c, x)) == ClipX(c, x)
    ensures ClipY(c, ClipY(c, y)) == ClipY(c, y)
  {
    ClipIdempotent(c.xMin, c.xMax, x);
    ClipIdempotent(c.yMin, c.yMax, y);
  }

  /** `_canvas_resize`: the far corner follows the new size but never comes
      closer than 400 by 250; the sizes are recomputed from the corners and the
      near corner stays. */
  function CanvasResize(c: CanvasFields, newXSize: real, newYSize: real): (r: CanvasFields)
    ensures r.xMax >= 400.0 && r.xMax >= newXSize && (r.xMax == 400.0 || r.xMax == newXSize)
    ensures r.yMax >= 250.0 && r.yMax >= newYSize && (r.yMax == 250.0 || r.yMax == newYSize)
    ensures r.xMin == c.xMin && r.yMin == c.yMin
    ensures SizesConsistent(r)
  {
    var xMax := Max(400.0, newXSize);
    var yMax := Max(250.0, newYSize);
    c.(xMax := xMax, xSize := xMax - c.xMin, yMax := yMax, ySize := yMax - c.yMin)
  }

  /** With the near corner where the window puts it, a resized canvas is at
      least 400 by 250 and clipping lands inside it. */
  lemma ResizeMinimumSize(c: CanvasFields, newXSize: real, newYSize: real)
    requires c.xMin == 0.0 && c.yMin == 0.0
    ensures CanvasResize(c, newXSize, newYSize).xSize >= 400.0
    ensures CanvasResize(c, newXSize, newYSize).ySize >= 250.0
    ensures forall x :: 0.0 <= ClipX(CanvasResize(c, newXSize, newYSize), x) <= CanvasResize(c, newXSize, newYSize).xMax
  {
  }

  /** Resizing twice to the same size is resizing once; the result depends only
      on the near corner and the requested size. */
  lemma ResizeIdempotent(c: CanvasFields, newXSize: real, newYSize: real)
    ensures CanvasResize(CanvasResize(c, newXSize, newYSize), newXSize, newYSize) == CanvasResize(c, newXSize, newYSize)
  {
  }

  /** `on_zoom_change`: slider levels 0 to 3 pick scales 0.2, 0.5, 0.8 and 1.0;
      any other level keeps the previous scale. */
  function OnZoomChange(scale: real, level: int): (r: real)
    ensures level == 0 ==> r == 0.2
    ensures level == 1 ==> r == 0.5
    ensures level == 2 ==> r == 0.8
    ensures level == 3 ==> r == 1.0
    ensures !(0 <= level <= 3) ==> r == scale
  {
    if level == 0 then 0.2
    else if level == 1 then 0.5
    else if level == 2 then 0.8
    else if level == 3 then 1.0
    else scale
  }

  /** From a positive scale (the window starts at 1.0) every zoom gives a
      positive scale, so the rescale ratio `scale / lastscale` is always defined
      and positive. */
  lemma ZoomKeepsPositive(scale: real, level: int)
    requires 0.0 < scale
    ensures 0.0 < OnZoomChange(scale, level)
    ensures 0.0 < OnZoomChange(scale, level) / scale
  {
  }

  /** Higher slider levels zoom in: within the slider range the scale grows with
      the level, and it is at most 1.0. */
  lemma ZoomIncreasing(scale: real, i: int, j: int)
    requires 0 <= i < j <= 3
    ensures OnZoomChange(scale, i) < OnZoomChange(scale, j) <= 1.0
  {
  }

  /** The scale after a slider level depends only on that level, not on the
      earlier zooms. */
  lemma ZoomForgetsHistory(scale: real, earlier: int, level: int)
    requires 0 <= level <= 3
    ensures OnZoomChange(OnZoomChange(scale, earlier), level) == OnZoomChange(scale, level)
  {
  }

  /** Python's `int()` on a float: truncation toward zero. */
  function Truncate(v: real): (t: int)
    ensures 0.0 <= v ==> t as real <= v < t as real + 1.0
    ensures v < 0.0 ==> t as real - 1.0 < v <= t as real
  {
    if 0.0 <= v then v.Floor else -((-v).Floor)
  }

  /** The tick delay in milliseconds that `_run` re-arms itself with:
      `400 - int(3.5 * speed)`, which is 400 less `7 * |speed|` halved and
      rounded down, with the sign of `speed`. */
  function RescheduleDelay(speed: int): (d: int)
    ensures 0 <= speed ==> d == 400 - (7 * speed) / 2
    ensures speed < 0 ==> d == 400 + (7 * -speed) / 2
  {
    400 - Truncate(3.5 * speed as real)
  }

  /** On the speed slider's range 1..100 the delay stays within [50, 397]. */
  lemma DelayRange(speed: int)
    requires 1 <= speed <= 100
    ensures 50 <= RescheduleDelay(speed) <= 397
  {
  }

  /** A faster speed never means a longer delay. */
  lemma DelayNonIncreasing(slow: int, fast: int)
    requires 0 <= slow <= fast
    ensures RescheduleDelay(fast) <= RescheduleDelay(slow)
  {
  }

  /** The window starts at speed 1, a delay of 397; the fastest setting gives 50. */
  lemma DelayEndpoints()
    ensures RescheduleDelay(1) == 397
    ensures RescheduleDelay(100) == 50
  {
  }
}
