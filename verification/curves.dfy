/**
  Model of the curve library: lines `y = m*x + b`, quadratics
  `y = a*x^2 + b*x + c` and quadratic Bezier curves, with their evaluation,
  root solving and intersection routines.

  Everything is over exact reals. Square roots come from a `sqrt` parameter
  that satisfies `RealSqrt.IsSqrt`. Two evaluation routines of the library
  are defective; each is modelled twice, once as written (used where the
  library uses it) and once as evidently intended.
 */
module Curves {
  import opened RealSqrt

  datatype Point = Point(x: real, y: real)

  /** The library's `None` result. */
  datatype Option<T> = None | Some(value: T)

  // ---------------------------------------------------------------------
  // Lines
  // ---------------------------------------------------------------------

  /** The line `y = m*x + b`. */
  datatype Linear = Linear(m: real, b: real)

  function LinearEvaluate(l: Linear, x: real): real {
    l.m * x + l.b
  }

  predicate OnLine(l: Linear, p: Point) {
    p.y == LinearEvaluate(l, p.x)
  }

  /** A line is determined by its intercept and slope: it passes through `(0, b)`
      and rises by `m` per unit of `x`. */
  lemma LinearEvaluateSlope(l: Linear, x1: real, x2: real)
    ensures LinearEvaluate(l, 0.0) == l.b
    ensures LinearEvaluate(l, x2) - LinearEvaluate(l, x1) == l.m * (x2 - x1)
  {
    calc {
      LinearEvaluate(l, x2) - LinearEvaluate(l, x1);
    ==
      l.m * x2 - l.m * x1;
    ==
      l.m * (x2 - x1);
    }
  }

  /** The intersection of two lines. The library divides by `m1 - m2`, so lines
      of equal slope are outside its domain (Python raises ZeroDivisionError). */
  function LinesIntersect(l1: Linear, l2: Linear): (p: Point)
    requires l1.m != l2.m
    ensures OnLine(l1, p) && OnLine(l2, p)
    ensures forall q: Point :: OnLine(l1, q) && OnLine(l2, q) ==> q == p
  {
    var x := (l2.b - l1.b) / (l1.m - l2.m);
    assert (l1.m - l2.m) * x == l2.b - l1.b;
    CommonPointsAgree(l1, l2, x);
    Point(x, l1.m * x + l1.b)
  }

  /** Two lines of different slope meet at exactly one abscissa. */
  lemma CommonPointsAgree(l1: Linear, l2: Linear, x: real)
    requires l1.m != l2.m
    requires (l1.m - l2.m) * x == l2.b - l1.b
    ensures LinearEvaluate(l1, x) == LinearEvaluate(l2, x)
    ensures forall z :: LinearEvaluate(l1, z) == LinearEvaluate(l2, z) ==> z == x
  {
    calc {
      LinearEvaluate(l1, x) - LinearEvaluate(l2, x);
    ==
      (l1.m - l2.m) * x - (l2.b - l1.b);
    ==
      0.0;
    }
    forall z | LinearEvaluate(l1, z) == LinearEvaluate(l2, z)
      ensures z == x
    {
      calc {
        (l1.m - l2.m) * (z - x);
      ==
        (l1.m - l2.m) * z - (l1.m - l2.m) * x;
      ==
        (LinearEvaluate(l1, z) - LinearEvaluate(l2, z)) + (l2.b - l1.b) - (l1.m - l2.m) * x;
      ==
        0.0;
      }
      NonZeroProduct(l1.m - l2.m, z - x);
    }
  }

  /** A product of reals is zero only if a factor is. */
  lemma NonZeroProduct(u: real, v: real)
    requires u * v == 0.0
    ensures u == 0.0 || v == 0.0
  {
  }

  /** Intersecting two lines does not depend on their order. */
  lemma LinesIntersectSymmetric(l1: Linear, l2: Linear)
    requires l1.m != l2.m
    ensures LinesIntersect(l1, l2) == LinesIntersect(l2, l1)
  {
    var p := LinesIntersect(l1, l2);
    var q := LinesIntersect(l2, l1);
    assert OnLine(l1, q) && OnLine(l2, q);
  }

  /** The intersection of a line with the vertical line at `vx`. */
  function LineIntersectVline(l: Linear, vx: real): (p: Point)
    ensures p.x == vx && OnLine(l, p)
    ensures forall q: Point :: q.x == vx && OnLine(l, q) ==> q == p
  {
    Point(vx, LinearEvaluate(l, vx))
  }

  // ---------------------------------------------------------------------
  // Quadratics
  // ---------------------------------------------------------------------

  /** The library's stand-in for a zero leading coefficient (1e-14). */
  const Epsilon: real := 0.00000000000001

  /** `y = a*x^2 + b*x + c`; built through `MakeQuadratic`, so `a != 0`. */
  datatype Quadratic = Quadratic(a: real, b: real, c: real)

  /** The constructor: a zero leading coefficient is replaced by `Epsilon`. */
  function MakeQuadratic(a: real, b: real, c: real): (q: Quadratic)
    ensures q.a != 0.0
    ensures a != 0.0 ==> q.a == a
    ensures a == 0.0 ==> q.a == Epsilon
    ensures q.b == b && q.c == c
  {
    Quadratic(if a == 0.0 then Epsilon else a, b, c)
  }

  /** The quadratic's polynomial, `a*x^2 + b*x + c` (the intended `evaluate`). */
  function QuadEvaluate(q: Quadratic, x: real): real {
    q.a * x * x + q.b * x + q.c
  }

  /** `evaluate` as the library writes it: the linear term is `b*2`, not `b*x`,
      so the value is the polynomial's shifted by `b*(2 - x)`. */
  function QuadEvaluateAsWritten(q: Quadratic, x: real): (y: real)
    ensures y == QuadEvaluate(q, x) + q.b * (2.0 - x)
  {
    var y := q.a * x * x + q.b * 2.0 + q.c;
    calc {
      y - QuadEvaluate(q, x);
    ==
      q.b * 2.0 - q.b * x;
    ==
      q.b * (2.0 - x);
    }
    y
  }

  /** The as-written `evaluate` is off from the polynomial by `b*(2 - x)`, so it
      agrees with it only for `b == 0` or at `x == 2`. */
  lemma QuadEvaluateAsWrittenShift(q: Quadratic, x: real)
    ensures QuadEvaluateAsWritten(q, x) - QuadEvaluate(q, x) == q.b * (2.0 - x)
    ensures QuadEvaluateAsWritten(q, x) == QuadEvaluate(q, x) <==> q.b == 0.0 || x == 2.0
  {
    calc {
      QuadEvaluateAsWritten(q, x) - QuadEvaluate(q, x);
    ==
      q.b * 2.0 - q.b * x;
    ==
      q.b * (2.0 - x);
    }
    if q.b * (2.0 - x) == 0.0 {
      NonZeroProduct(q.b, 2.0 - x);
    }
  }

  /** The as-written `evaluate` does not vanish at a root: `Quadratic(1,5,6)` has
      the root -2, where the written formula gives 20. */
  lemma QuadEvaluateAsWrittenMissesRoot()
    ensures QuadEvaluate(MakeQuadratic(1.0, 5.0, 6.0), -2.0) == 0.0
    ensures QuadEvaluateAsWritten(MakeQuadratic(1.0, 5.0, 6.0), -2.0) == 20.0
  {
  }

  /** The vertex `(-b/(2a), y)`: the slope `2ax + b` vanishes there, `y` is the
      polynomial's value there, and the polynomial is `a*(z - x)^2 + y`. */
  function Vertex(q: Quadratic): (v: Point)
    requires q.a != 0.0
    ensures 2.0 * q.a * v.x + q.b == 0.0
    ensures v.y == QuadEvaluate(q, v.x)
  {
    var x := -q.b / (2.0 * q.a);
    assert 2.0 * q.a * x == -q.b;
    Point(x, q.a * x * x + q.b * x + q.c)
  }

  /** The polynomial in vertex form: `a*z^2 + b*z + c == a*(z - x)^2 + y`. */
  lemma VertexForm(q: Quadratic, z: real)
    requires q.a != 0.0
    ensures QuadEvaluate(q, z) == q.a * (z - Vertex(q).x) * (z - Vertex(q).x) + Vertex(q).y
  {
    var v := Vertex(q);
    calc {
      QuadEvaluate(q, z) - v.y;
    ==
      q.a * (z * z - v.x * v.x) + q.b * (z - v.x);
    ==
      (z - v.x) * (q.a * z + q.a * v.x + q.b);
    ==  { assert q.b == -2.0 * q.a * v.x; }
      (z - v.x) * (q.a * z - q.a * v.x);
    ==
      q.a * (z - v.x) * (z - v.x);
    }
  }

  /** The vertex is the minimum of an upward parabola and the maximum of a
      downward one. */
  lemma VertexExtremum(q: Quadratic, z: real)
    requires q.a != 0.0
    ensures 0.0 < q.a ==> Vertex(q).y <= QuadEvaluate(q, z)
    ensures q.a < 0.0 ==> QuadEvaluate(q, z) <= Vertex(q).y
  {
    var v := Vertex(q);
    VertexForm(q, z);
    var sq := (z - v.x) * (z - v.x);
    assert 0.0 <= sq;
    if 0.0 < q.a {
      assert 0.0 <= q.a * sq;
      calc {
        QuadEvaluate(q, z);
      ==
        q.a * sq + v.y;
      >=
        v.y;
      }
    } else {
      assert q.a * sq <= 0.0;
      calc {
        QuadEvaluate(q, z);
      ==
        q.a * sq + v.y;
      <=
        v.y;
      }
    }
  }

  /** `b^2 - 4ac`. */
  function Discriminant(q: Quadratic): real {
    q.b * q.b - 4.0 * q.a * q.c
  }

  /** What `roots` returns: the empty list `[]` when the roots are complex, or the
      set of real roots. */
  datatype RootResult = NoRealRoots | RootSet(roots: set<real>)

  /** The real values the result holds; iterating `[]` or testing membership in it
      finds nothing. */
  function RootsOf(r: RootResult): set<real> {
    match r
    case NoRealRoots => {}
    case RootSet(rs) => rs
  }

  /** `4a` times the polynomial completes the square: `(2ax + b)^2 - (b^2 - 4ac)`. */
  lemma CompleteSquare(q: Quadratic, x: real)
    ensures 4.0 * q.a * QuadEvaluate(q, x) == (2.0 * q.a * x + q.b) * (2.0 * q.a * x + q.b) - Discriminant(q)
  {
    calc {
      (2.0 * q.a * x + q.b) * (2.0 * q.a * x + q.b) - Discriminant(q);
    ==
      4.0 * q.a * q.a * x * x + 4.0 * q.a * q.b * x + q.b * q.b - (q.b * q.b - 4.0 * q.a * q.c);
    ==
      4.0 * q.a * (q.a * x * x + q.b * x + q.c);
    }
  }

  /** A negative discriminant leaves the polynomial without real zeros. */
  lemma NoRealZero(q: Quadratic)
    requires q.a != 0.0
    requires Discriminant(q) < 0.0
    ensures forall x :: QuadEvaluate(q, x) != 0.0
  {
    forall x
      ensures QuadEvaluate(q, x) != 0.0
    {
      var u := 2.0 * q.a * x + q.b;
      CompleteSquare(q, x);
      assert 0.0 <= u * u;
      calc {
        4.0 * q.a * QuadEvaluate(q, x);
      ==
        u * u - Discriminant(q);
      >
        0.0;
      }
    }
  }

  /** The quadratic formula: with `s` the square root of the discriminant, the
      zeros of the polynomial are exactly `(-b + s)/(2a)` and `(-b - s)/(2a)`. */
  lemma QuadraticFormula(q: Quadratic, s: real, x: real)
    requires q.a != 0.0
    requires 0.0 <= s && s * s == Discriminant(q)
    ensures QuadEvaluate(q, x) == 0.0 <==> x == (-q.b + s) / (q.a * 2.0) || x == (-q.b - s) / (q.a * 2.0)
  {
    var u := 2.0 * q.a * x + q.b;
    CompleteSquare(q, x);
    if QuadEvaluate(q, x) == 0.0 {
      assert u * u == s * s;
      SameSquare(u, s);
      assert x == (u - q.b) / (q.a * 2.0);
    } else {
      assert 4.0 * q.a * QuadEvaluate(q, x) != 0.0 by {
        if 4.0 * q.a * QuadEvaluate(q, x) == 0.0 {
          NonZeroProduct(4.0 * q.a, QuadEvaluate(q, x));
        }
      }
      assert u * u != s * s;
    }
  }

  /** The quadratic formula for every abscissa at once. */
  lemma QuadraticFormulaAll(q: Quadratic, s: real)
    requires q.a != 0.0
    requires 0.0 <= s && s * s == Discriminant(q)
    ensures forall x :: QuadEvaluate(q, x) == 0.0 <==> x == (-q.b + s) / (q.a * 2.0) || x == (-q.b - s) / (q.a * 2.0)
  {
    forall x
      ensures QuadEvaluate(q, x) == 0.0 <==> x == (-q.b + s) / (q.a * 2.0) || x == (-q.b - s) / (q.a * 2.0)
    {
      QuadraticFormula(q, s, x);
    }
  }

  /** The two formula roots coincide exactly when the discriminant is zero. */
  lemma FormulaRootsDistinct(q: Quadratic, s: real)
    requires q.a != 0.0
    requires 0.0 <= s && s * s == Discriminant(q)
    ensures (-q.b + s) / (q.a * 2.0) == (-q.b - s) / (q.a * 2.0) <==> Discriminant(q) == 0.0
  {
    var r1 := (-q.b + s) / (q.a * 2.0);
    var r2 := (-q.b - s) / (q.a * 2.0);
    assert (q.a * 2.0) * r1 == -q.b + s;
    assert (q.a * 2.0) * r2 == -q.b - s;
    calc {
      (q.a * 2.0) * (r1 - r2);
    ==
      (q.a * 2.0) * r1 - (q.a * 2.0) * r2;
    ==
      2.0 * s;
    }
    if r1 == r2 {
      assert s == 0.0;
    }
    if Discriminant(q) == 0.0 {
      NonZeroProduct(s, s);
    }
  }

  /** `roots`: the empty-list marker exactly when `b^2 - 4ac < 0`; otherwise the
      set of all zeros of the polynomial, of size 1 when the discriminant is zero
      and 2 when it is positive. */
  function Roots(q: Quadratic, sqrt: real -> real): (r: RootResult)
    requires q.a != 0.0
    requires IsSqrt(sqrt)
    ensures r.NoRealRoots? <==> Discriminant(q) < 0.0
    ensures forall x :: x in RootsOf(r) <==> QuadEvaluate(q, x) == 0.0
    ensures r.RootSet? ==> (|r.roots| == 1 <==> Discriminant(q) == 0.0)
    ensures r.RootSet? ==> (|r.roots| == 2 <==> 0.0 < Discriminant(q))
  {
    var d := q.b * q.b - 4.0 * q.a * q.c;
    if d < 0.0 then
      NoRealZero(q);
      NoRealRoots
    else
      var s := sqrt(d);
      assert 0.0 <= s && s * s == d;
      QuadraticFormulaAll(q, s);
      FormulaRootsDistinct(q, s);
      RootSet({(-q.b + s) / (q.a * 2.0), (-q.b - s) / (q.a * 2.0)})
  }

  /** A real root always exists when the result is a set. */
  lemma RootsNonEmpty(q: Quadratic, sqrt: real -> real)
    requires q.a != 0.0
    requires IsSqrt(sqrt)
    ensures Roots(q, sqrt).RootSet? ==> 1 <= |Roots(q, sqrt).roots| <= 2
  {
  }

  /** `Quadratic(1,5,6).roots() == {-3, -2}`. */
  lemma RootsExample(sqrt: real -> real)
    requires IsSqrt(sqrt)
    ensures Roots(MakeQuadratic(1.0, 5.0, 6.0), sqrt) == RootSet({-3.0, -2.0})
  {
    SqrtUnique(sqrt, 1.0, 1.0);
  }

  /** The intersection of a quadratic with a line: `None` when the derived
      quadratic has complex roots; otherwise the points `(x, y)` where the two
      curves meet at `x`, with `y` from the as-written `evaluate`. */
  function QuadLineIntersect(q: Quadratic, l: Linear, sqrt: real -> real): (r: Option<set<Point>>)
    requires q.a != 0.0
    requires IsSqrt(sqrt)
    ensures r.None? <==> (q.b - l.m) * (q.b - l.m) - 4.0 * q.a * (q.c - l.b) < 0.0
    ensures r.Some? ==> forall p :: p in r.value <==>
      QuadEvaluate(q, p.x) == LinearEvaluate(l, p.x) && p.y == QuadEvaluateAsWritten(q, p.x)
    ensures r.Some? ==> 1 <= |r.value| <= 2
  {
    var t := DerivedQuadratic(q, l);
    DerivedQuadraticMeets(q, l);
    var roots := Roots(t, sqrt);
    assert roots.NoRealRoots? <==> Discriminant(t) < 0.0;
    if roots.NoRealRoots? then
      None
    else
      Some(IntersectionPoints(q, l, roots.roots, x => QuadEvaluateAsWritten(q, x)))
  }

  /** `quad_line_intersect` with the polynomial in place of the as-written
      `evaluate`: the points returned are exactly the points common to the line
      and the quadratic's graph. */
  function QuadLineIntersectCorrected(q: Quadratic, l: Linear, sqrt: real -> real): (r: Option<set<Point>>)
    requires q.a != 0.0
    requires IsSqrt(sqrt)
    ensures r.None? <==> (q.b - l.m) * (q.b - l.m) - 4.0 * q.a * (q.c - l.b) < 0.0
    ensures r.Some? ==> forall p :: p in r.value <==> OnLine(l, p) && p.y == QuadEvaluate(q, p.x)
    ensures r.Some? ==> 1 <= |r.value| <= 2
  {
    var t := DerivedQuadratic(q, l);
    DerivedQuadraticMeets(q, l);
    var roots := Roots(t, sqrt);
    assert roots.NoRealRoots? <==> Discriminant(t) < 0.0;
    if roots.NoRealRoots? then
      None
    else
      Some(IntersectionPoints(q, l, roots.roots, x => QuadEvaluate(q, x)))
  }

  /** Wherever the quadratic meets the line, both routines return a point; the
      as-written one pairs the abscissa with the as-written `evaluate`, which lies
      on the line only when `b == 0` or `x == 2`, while the corrected one returns
      the common point itself. */
  lemma QuadLineIntersectOffLine(q: Quadratic, l: Linear, sqrt: real -> real, x: real)
    requires q.a != 0.0
    requires IsSqrt(sqrt)
    requires QuadEvaluate(q, x) == LinearEvaluate(l, x)
    ensures QuadLineIntersect(q, l, sqrt).Some? && QuadLineIntersectCorrected(q, l, sqrt).Some?
    ensures Point(x, QuadEvaluateAsWritten(q, x)) in QuadLineIntersect(q, l, sqrt).value
    ensures OnLine(l, Point(x, QuadEvaluateAsWritten(q, x))) <==> q.b == 0.0 || x == 2.0
    ensures Point(x, LinearEvaluate(l, x)) in QuadLineIntersectCorrected(q, l, sqrt).value
  {
    var t := DerivedQuadratic(q, l);
    DerivedQuadraticMeets(q, l);
    assert QuadEvaluate(t, x) == 0.0;
    assert 0.0 <= Discriminant(t) by {
      if Discriminant(t) < 0.0 {
        NoRealZero(t);
        assert false;
      }
    }
    QuadEvaluateAsWrittenShift(q, x);
  }

  /** `Quadratic(1,5,6)` meets the x-axis at -2, and the as-written routine
      returns `(-2, 20)` there, off the axis. */
  lemma QuadLineIntersectOffLineExample(sqrt: real -> real)
    requires IsSqrt(sqrt)
    ensures QuadLineIntersect(Quadratic(1.0, 5.0, 6.0), Linear(0.0, 0.0), sqrt).Some?
    ensures Point(-2.0, 20.0) in QuadLineIntersect(Quadratic(1.0, 5.0, 6.0), Linear(0.0, 0.0), sqrt).value
    ensures !OnLine(Linear(0.0, 0.0), Point(-2.0, 20.0))
  {
    QuadLineIntersectOffLine(Quadratic(1.0, 5.0, 6.0), Linear(0.0, 0.0), sqrt, -2.0);
  }

  /** The image `{g(x) | x in xs}` of a set of reals, as the library's loops
      build it with `set.add`. */
  function Image(xs: set<real>, g: real -> Point): (ps: set<Point>)
    ensures forall x :: x in xs ==> g(x) in ps
    ensures forall p :: p in ps ==> exists x :: x in xs && g(x) == p
  {
    set x | x in xs :: g(x)
  }

  /** A non-empty set has an element. */
  lemma Inhabited(xs: set<real>)
    requires xs != {}
    ensures exists x :: x in xs
  {
    if forall x :: x !in xs {
      assert false;
    }
  }

  /** An image is no larger than its domain, and non-empty when the domain is. */
  lemma {:induction false} ImageSize(xs: set<real>, g: real -> Point)
    ensures |Image(xs, g)| <= |xs|
    ensures xs != {} ==> Image(xs, g) != {}
    decreases |xs|
  {
    if xs != {} {
      Inhabited(xs);
      var u :| u in xs;
      ImageSize(xs - {u}, g);
      assert Image(xs, g) == Image(xs - {u}, g) + {g(u)};
    }
  }

  /** The points built from the meeting abscissae, each paired with `yOf` of it
      (the library pairs them with its `evaluate`). */
  function IntersectionPoints(q: Quadratic, l: Linear, rs: set<real>, yOf: real -> real): (ps: set<Point>)
    requires forall x :: x in rs <==> QuadEvaluate(q, x) == LinearEvaluate(l, x)
    requires 1 <= |rs| <= 2
    ensures forall p :: p in ps <==> QuadEvaluate(q, p.x) == LinearEvaluate(l, p.x) && p.y == yOf(p.x)
    ensures 1 <= |ps| <= 2
  {
    ImageSize(rs, x => Point(x, yOf(x)));
    GraphPointsCovered(q, l, rs, yOf);
    Image(rs, x => Point(x, yOf(x)))
  }

  /** Every point `(x, yOf(x))` above a meeting abscissa is among the built
      points. */
  lemma GraphPointsCovered(q: Quadratic, l: Linear, rs: set<real>, yOf: real -> real)
    requires forall x :: x in rs <==> QuadEvaluate(q, x) == LinearEvaluate(l, x)
    ensures forall p: Point ::
      (QuadEvaluate(q, p.x) == LinearEvaluate(l, p.x) && p.y == yOf(p.x)) ==> p in Image(rs, x => Point(x, yOf(x)))
  {
    forall p: Point | QuadEvaluate(q, p.x) == LinearEvaluate(l, p.x) && p.y == yOf(p.x)
      ensures p in Image(rs, x => Point(x, yOf(x)))
    {
      assert p == Point(p.x, yOf(p.x));
    }
  }

  /** `quad_line_intersect`'s derived quadratic `a x^2 + (b - m) x + (c - b_line)`. */
  function DerivedQuadratic(q: Quadratic, l: Linear): (t: Quadratic)
    requires q.a != 0.0
    ensures t.a == q.a
  {
    MakeQuadratic(q.a, q.b - l.m, q.c - l.b)
  }

  /** The derived quadratic vanishes exactly where the quadratic meets the line,
      and its discriminant is `(b - m)^2 - 4a(c - b_line)`. */
  lemma DerivedQuadraticMeets(q: Quadratic, l: Linear)
    requires q.a != 0.0
    ensures Discriminant(DerivedQuadratic(q, l)) == (q.b - l.m) * (q.b - l.m) - 4.0 * q.a * (q.c - l.b)
    ensures forall x :: QuadEvaluate(DerivedQuadratic(q, l), x) == 0.0 <==> QuadEvaluate(q, x) == LinearEvaluate(l, x)
  {
    var t := DerivedQuadratic(q, l);
    forall x
      ensures QuadEvaluate(t, x) == QuadEvaluate(q, x) - LinearEvaluate(l, x)
    {
      calc {
        QuadEvaluate(t, x);
      ==
        q.a * x * x + (q.b - l.m) * x + (q.c - l.b);
      ==
        q.a * x * x + q.b * x + q.c - (l.m * x + l.b);
      }
    }
  }

  /** Any result meeting `QuadLineIntersect`'s contract for `Quadratic(1,0,0)`
      and `Linear(0,0)` is `{(0, 0)}`: the contract pins the result down. */
  lemma TouchingResult(r: Option<set<Point>>)
    requires r.None? <==> (0.0 - 0.0) * (0.0 - 0.0) - 4.0 * 1.0 * (0.0 - 0.0) < 0.0
    requires r.Some? ==> forall p :: p in r.value <==>
      QuadEvaluate(Quadratic(1.0, 0.0, 0.0), p.x) == LinearEvaluate(Linear(0.0, 0.0), p.x)
      && p.y == QuadEvaluateAsWritten(Quadratic(1.0, 0.0, 0.0), p.x)
    ensures r == Some({Point(0.0, 0.0)})
  {
    assert r.Some?;
    forall p: Point | p in r.value
      ensures p == Point(0.0, 0.0)
    {
      assert p.x * p.x == 0.0;
      NonZeroProduct(p.x, p.x);
    }
    assert Point(0.0, 0.0) in r.value;
    assert r.value == {Point(0.0, 0.0)};
  }

  /** The library's first doctest: `Quadratic(1,0,0)` meets `Linear(0,0)` at the
      origin only. */
  lemma QuadLineIntersectTouching(sqrt: real -> real)
    requires IsSqrt(sqrt)
    ensures QuadLineIntersect(MakeQuadratic(1.0, 0.0, 0.0), Linear(0.0, 0.0), sqrt) == Some({Point(0.0, 0.0)})
  {
    TouchingResult(QuadLineIntersect(MakeQuadratic(1.0, 0.0, 0.0), Linear(0.0, 0.0), sqrt));
  }

  /** The library's second doctest: `Quadratic(1,0,1)` does not meet `Linear(0,0)`. */
  lemma QuadLineIntersectMissing(sqrt: real -> real)
    requires IsSqrt(sqrt)
    ensures QuadLineIntersect(MakeQuadratic(1.0, 0.0, 1.0), Linear(0.0, 0.0), sqrt) == None
  {
    assert MakeQuadratic(1.0, 0.0, 1.0) == Quadratic(1.0, 0.0, 1.0);
  }

  // ---------------------------------------------------------------------
  // Quadratic Bezier curves
  // ---------------------------------------------------------------------

  /** The curve from `p0` to `p2` with control point `p1`. */
  datatype Bezier = Bezier(p0: Point, p1: Point, p2: Point)

  /** One coordinate of the Bernstein form `(1-t)^2 c0 + 2(1-t)t c1 + t^2 c2`. */
  function Bernstein(c0: real, c1: real, c2: real, t: real): real {
    (1.0 - t) * (1.0 - t) * c0 + 2.0 * (1.0 - t) * t * c1 + t * t * c2
  }

  /** One coordinate as the library writes it, with `2(t-1)t` for `2(1-t)t`. */
  function BernsteinAsWritten(c0: real, c1: real, c2: real, t: real): (v: real)
    ensures v == Bernstein(c0, c1, c2, t) - 4.0 * (1.0 - t) * t * c1
  {
    var v := (1.0 - t) * (1.0 - t) * c0 + 2.0 * (t - 1.0) * t * c1 + t * t * c2;
    calc {
      v - Bernstein(c0, c1, c2, t);
    ==
      2.0 * (t - 1.0) * t * c1 - 2.0 * (1.0 - t) * t * c1;
    ==
      -4.0 * (1.0 - t) * t * c1;
    }
    v
  }

  /** The Bernstein form expanded in powers of `t`: the coefficients that `solve`
      and `Bez_intersect_vline` hand to `Quadratic`. */
  lemma BernsteinExpanded(c0: real, c1: real, c2: real, t: real)
    ensures Bernstein(c0, c1, c2, t) == (c0 - 2.0 * c1 + c2) * t * t + (-2.0 * c0 + 2.0 * c1) * t + c0
  {
    calc {
      Bernstein(c0, c1, c2, t);
    ==
      (1.0 - 2.0 * t + t * t) * c0 + (2.0 * t - 2.0 * t * t) * c1 + t * t * c2;
    ==
      (c0 - 2.0 * c1 + c2) * t * t + (-2.0 * c0 + 2.0 * c1) * t + c0;
    }
  }

  /** `B(t)` in Bernstein form, as the comment above the class states it (the
      intended `evaluate`). */
  function BezierEvaluate(bez: Bezier, t: real): Point {
    Point(Bernstein(bez.p0.x, bez.p1.x, bez.p2.x, t), Bernstein(bez.p0.y, bez.p1.y, bez.p2.y, t))
  }

  /** `evaluate` as written: the control point's term has the wrong sign, which
      moves the Bernstein point by `-4(1-t)t * p1`. */
  function BezierEvaluateAsWritten(bez: Bezier, t: real): (p: Point)
    ensures p.x == BezierEvaluate(bez, t).x - 4.0 * (1.0 - t) * t * bez.p1.x
    ensures p.y == BezierEvaluate(bez, t).y - 4.0 * (1.0 - t) * t * bez.p1.y
  {
    Point(BernsteinAsWritten(bez.p0.x, bez.p1.x, bez.p2.x, t), BernsteinAsWritten(bez.p0.y, bez.p1.y, bez.p2.y, t))
  }

  /** Both evaluations start at `p0` and end at `p2`: the defect's term vanishes
      at `t = 0` and `t = 1`. */
  lemma BezierEndpoints(bez: Bezier)
    ensures BezierEvaluateAsWritten(bez, 0.0) == bez.p0 && BezierEvaluateAsWritten(bez, 1.0) == bez.p2
    ensures BezierEvaluate(bez, 0.0) == bez.p0 && BezierEvaluate(bez, 1.0) == bez.p2
  {
  }

  /** The as-written and the Bernstein evaluation part at the midpoint of a curve
      whose control point is off the origin. */
  lemma BezierEvaluateAsWrittenDiffers()
    ensures BezierEvaluate(Bezier(Point(0.0, 0.0), Point(1.0, 1.0), Point(0.0, 0.0)), 0.5) == Point(0.5, 0.5)
    ensures BezierEvaluateAsWritten(Bezier(Point(0.0, 0.0), Point(1.0, 1.0), Point(0.0, 0.0)), 0.5) == Point(-0.5, -0.5)
  {
  }

  /** The quadratic in `t` whose zeros are the parameters at which one coordinate
      of the curve, with control values `c0, c1, c2`, equals `v`. */
  /** Its value at `t` is the Bernstein coordinate less `v`, plus `Epsilon * t^2`
      when the leading coefficient had to be replaced. */
  function AxisQuadratic(c0: real, c1: real, c2: real, v: real): (q: Quadratic)
    ensures q.a != 0.0
    ensures c0 - 2.0 * c1 + c2 != 0.0 ==> forall t :: QuadEvaluate(q, t) == Bernstein(c0, c1, c2, t) - v
    ensures c0 - 2.0 * c1 + c2 == 0.0 ==> forall t :: QuadEvaluate(q, t) == Bernstein(c0, c1, c2, t) - v + Epsilon * t * t
  {
    var q := MakeQuadratic(c0 - 2.0 * c1 + c2, -2.0 * c0 + 2.0 * c1, c0 - v);
    forall t
      ensures QuadEvaluate(q, t) == Bernstein(c0, c1, c2, t) - v + (q.a - (c0 - 2.0 * c1 + c2)) * t * t
    {
      BernsteinExpanded(c0, c1, c2, t);
    }
    q
  }

  /** When the leading coefficient is not replaced by `Epsilon`, the axis
      quadratic vanishes at `t` exactly when the Bernstein coordinate is `v`. */
  lemma AxisQuadraticZeros(c0: real, c1: real, c2: real, v: real, t: real)
    requires c0 - 2.0 * c1 + c2 != 0.0
    ensures QuadEvaluate(AxisQuadratic(c0, c1, c2, v), t) == 0.0 <==> Bernstein(c0, c1, c2, t) == v
  {
    BernsteinExpanded(c0, c1, c2, t);
  }

  /** The x-axis quadratic `solve` and `Bez_intersect_vline` build: on a curve
      whose x-axis keeps its leading coefficient, its value at `t` is the curve's
      x-coordinate there less `x`. */
  function XQuadratic(bez: Bezier, x: real): (q: Quadratic)
    ensures q.a != 0.0
    ensures bez.p0.x - 2.0 * bez.p1.x + bez.p2.x != 0.0 ==> forall t :: QuadEvaluate(q, t) == BezierEvaluate(bez, t).x - x
  {
    AxisQuadratic(bez.p0.x, bez.p1.x, bez.p2.x, x)
  }

  /** The y-axis quadratic `solve` builds, likewise for the y-coordinate. */
  function YQuadratic(bez: Bezier, y: real): (q: Quadratic)
    ensures q.a != 0.0
    ensures bez.p0.y - 2.0 * bez.p1.y + bez.p2.y != 0.0 ==> forall t :: QuadEvaluate(q, t) == BezierEvaluate(bez, t).y - y
  {
    AxisQuadratic(bez.p0.y, bez.p1.y, bez.p2.y, y)
  }

  /** `solve`: the parameters in `[0, 1]` that are roots of both the x-axis and the
      y-axis quadratic (compared exactly, as the library does). */
  function Solve(bez: Bezier, pt: Point, sqrt: real -> real): (ts: set<real>)
    requires IsSqrt(sqrt)
    ensures forall t :: t in ts <==>
      && 0.0 <= t <= 1.0
      && QuadEvaluate(XQuadratic(bez, pt.x), t) == 0.0
      && QuadEvaluate(YQuadratic(bez, pt.y), t) == 0.0
  {
    var rootx := RootsOf(Roots(XQuadratic(bez, pt.x), sqrt));
    var rooty := RootsOf(Roots(YQuadratic(bez, pt.y), sqrt));
    set t | t in rootx && t in rooty && 0.0 <= t <= 1.0
  }

  /** The start point solves to parameter 0. */
  lemma SolveStart(bez: Bezier, sqrt: real -> real)
    requires IsSqrt(sqrt)
    ensures 0.0 in Solve(bez, bez.p0, sqrt)
  {
  }

  /** Round trip: on a curve whose axis quadratics keep their leading
      coefficients, solving the Bernstein point at `t` in `[0, 1]` finds `t`. */
  lemma SolveRoundTrip(bez: Bezier, t: real, sqrt: real -> real)
    requires IsSqrt(sqrt)
    requires bez.p0.x - 2.0 * bez.p1.x + bez.p2.x != 0.0
    requires bez.p0.y - 2.0 * bez.p1.y + bez.p2.y != 0.0
    requires 0.0 <= t <= 1.0
    ensures t in Solve(bez, BezierEvaluate(bez, t), sqrt)
  {
    var p := BezierEvaluate(bez, t);
    AxisQuadraticZeros(bez.p0.x, bez.p1.x, bez.p2.x, p.x, t);
    AxisQuadraticZeros(bez.p0.y, bez.p1.y, bez.p2.y, p.y, t);
  }

  /** The round trip fails for the as-written evaluation: the midpoint it
      computes on this curve does not solve back to 0.5. */
  lemma SolveAsWrittenNoRoundTrip(sqrt: real -> real)
    requires IsSqrt(sqrt)
    ensures 0.5 !in Solve(Bezier(Point(0.0, 0.0), Point(1.0, 1.0), Point(0.0, 0.0)),
      BezierEvaluateAsWritten(Bezier(Point(0.0, 0.0), Point(1.0, 1.0), Point(0.0, 0.0)), 0.5), sqrt)
  {
  }

  /** The `Epsilon` policy costs exactness on every straight curve whose control
      point is the midpoint of its ends: its end point does not solve back to 1,
      because the axis quadratics are `Epsilon * t^2` off and do not vanish at 1. */
  lemma SolveDegenerateEnd(p0: Point, p2: Point, sqrt: real -> real)
    requires IsSqrt(sqrt)
    ensures 1.0 !in Solve(Bezier(p0, Point((p0.x + p2.x) / 2.0, (p0.y + p2.y) / 2.0), p2), p2, sqrt)
  {
    var bez := Bezier(p0, Point((p0.x + p2.x) / 2.0, (p0.y + p2.y) / 2.0), p2);
    assert bez.p0.x - 2.0 * bez.p1.x + bez.p2.x == 0.0;
    assert BezierEvaluate(bez, 1.0).x == p2.x;
    assert QuadEvaluate(XQuadratic(bez, p2.x), 1.0) == Epsilon;
  }

  /** `Bez_intersect_vline` as written: the as-written evaluation at every real root
      of the x-axis quadratic, with no filter to `[0, 1]`. */
  function BezIntersectVline(bez: Bezier, vx: real, sqrt: real -> real): (ps: set<Point>)
    requires IsSqrt(sqrt)
    ensures forall t :: QuadEvaluate(XQuadratic(bez, vx), t) == 0.0 ==> BezierEvaluateAsWritten(bez, t) in ps
    ensures forall p :: p in ps ==> exists t :: QuadEvaluate(XQuadratic(bez, vx), t) == 0.0 && p == BezierEvaluateAsWritten(bez, t)
    ensures Discriminant(XQuadratic(bez, vx)) < 0.0 ==> ps == {}
    ensures |ps| <= 2
  {
    var ts := RootsOf(Roots(XQuadratic(bez, vx), sqrt));
    ImageSize(ts, t => BezierEvaluateAsWritten(bez, t));
    Image(ts, t => BezierEvaluateAsWritten(bez, t))
  }

  /** `Bez_intersect_vline` with the Bernstein evaluation: on a curve whose x-axis
      quadratic keeps its leading coefficient, the points are exactly the points of
      the (extended) curve on the vertical line. */
  function BezIntersectVlineCorrected(bez: Bezier, vx: real, sqrt: real -> real): (ps: set<Point>)
    requires IsSqrt(sqrt)
    ensures forall p :: p in ps ==> exists t :: QuadEvaluate(XQuadratic(bez, vx), t) == 0.0 && p == BezierEvaluate(bez, t)
    ensures bez.p0.x - 2.0 * bez.p1.x + bez.p2.x != 0.0 ==> forall p :: p in ps ==> p.x == vx
    ensures bez.p0.x - 2.0 * bez.p1.x + bez.p2.x != 0.0 ==>
      forall t :: BezierEvaluate(bez, t).x == vx ==> BezierEvaluate(bez, t) in ps
    ensures |ps| <= 2
  {
    var ts := RootsOf(Roots(XQuadratic(bez, vx), sqrt));
    ImageSize(ts, t => BezierEvaluate(bez, t));
    if bez.p0.x - 2.0 * bez.p1.x + bez.p2.x != 0.0 then
      forall t ensures QuadEvaluate(XQuadratic(bez, vx), t) == 0.0 <==> BezierEvaluate(bez, t).x == vx {
        AxisQuadraticZeros(bez.p0.x, bez.p1.x, bez.p2.x, vx, t);
      }
      Image(ts, t => BezierEvaluate(bez, t))
    else
      Image(ts, t => BezierEvaluate(bez, t))
  }

  /** The as-written routine returns a point off the vertical line: on this curve
      the line `x = 0.5` is met at `t = 0.5`, where the written formula gives
      `(-0.5, 0)`; the Bernstein form gives `(0.5, 0)`. */
  lemma BezIntersectVlineOffLine(sqrt: real -> real)
    requires IsSqrt(sqrt)
    ensures Point(-0.5, 0.0) in BezIntersectVline(Bezier(Point(0.0, 0.0), Point(1.0, 0.0), Point(0.0, 0.0)), 0.5, sqrt)
    ensures Point(0.5, 0.0) in BezIntersectVlineCorrected(Bezier(Point(0.0, 0.0), Point(1.0, 0.0), Point(0.0, 0.0)), 0.5, sqrt)
  {
    var bez := Bezier(Point(0.0, 0.0), Point(1.0, 0.0), Point(0.0, 0.0));
    assert QuadEvaluate(XQuadratic(bez, 0.5), 0.5) == 0.0;
    assert BezierEvaluate(bez, 0.5).x == 0.5;
  }

  /** Parameters outside `[0, 1]` are not filtered: on this curve the line `x = 4`
      is met only at `t = 2` and `t = -2` (see `BeyondEndMeetsOnlyOutside`), and a
      point is still returned. */
  lemma BezIntersectVlineUnfiltered(sqrt: real -> real)
    requires IsSqrt(sqrt)
    ensures Point(4.0, 0.0) in BezIntersectVline(Bezier(Point(0.0, 0.0), Point(0.0, 0.0), Point(1.0, 0.0)), 4.0, sqrt)
  {
    var bez := Bezier(Point(0.0, 0.0), Point(0.0, 0.0), Point(1.0, 0.0));
    assert QuadEvaluate(XQuadratic(bez, 4.0), 2.0) == 0.0;
    assert BezierEvaluateAsWritten(bez, 2.0) == Point(4.0, 0.0);
  }

  /** On the curve of `BezIntersectVlineUnfiltered` the line `x = 4` is met only
      at parameters outside `[0, 1]`. */
  lemma BeyondEndMeetsOnlyOutside()
    ensures forall t :: QuadEvaluate(XQuadratic(Bezier(Point(0.0, 0.0), Point(0.0, 0.0), Point(1.0, 0.0)), 4.0), t) == 0.0 ==>
      t < 0.0 || 1.0 < t
  {
    var bez := Bezier(Point(0.0, 0.0), Point(0.0, 0.0), Point(1.0, 0.0));
    assert XQuadratic(bez, 4.0) == Quadratic(1.0, 0.0, -4.0);
    SquareIsFour();
  }

  /** `t^2 - 4` vanishes only at 2 and -2. */
  lemma SquareIsFour()
    ensures forall t :: QuadEvaluate(Quadratic(1.0, 0.0, -4.0), t) == 0.0 ==> t == 2.0 || t == -2.0
  {
    forall t | QuadEvaluate(Quadratic(1.0, 0.0, -4.0), t) == 0.0
      ensures t == 2.0 || t == -2.0
    {
      assert t * t == 2.0 * 2.0;
      SameSquare(t, 2.0);
    }
  }
}
