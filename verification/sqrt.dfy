/**
  Square roots over exact reals.

  The curve library calls `math.sqrt` only on a discriminant it has already
  checked to be non-negative. The model does not compute square roots: every
  operation that needs one takes a function `sqrt` as a parameter and requires
  that it is a square root on the non-negative reals.
 */
module RealSqrt {

  /** `sqrt` returns the non-negative square root of every non-negative real. */
  ghost predicate IsSqrt(sqrt: real -> real) {
    forall d :: 0.0 <= d ==> 0.0 <= sqrt(d) && sqrt(d) * sqrt(d) == d
  }

  /** Two reals with the same square are equal or opposite. */
  lemma SameSquare(s: real, t: real)
    requires s * s == t * t
    ensures s == t || s == -t
  {
    assert (s - t) * (s + t) == s * s - t * t;
  }

  /** The non-negative square root is unique, so `sqrt` is pinned down wherever a root is known. */
  lemma SqrtUnique(sqrt: real -> real, d: real, s: real)
    requires IsSqrt(sqrt)
    requires 0.0 <= s && s * s == d
    ensures sqrt(d) == s
  {
    SameSquare(sqrt(d), s);
  }

  /** The square root of zero is zero, and of a positive real is positive. */
  lemma SqrtSign(sqrt: real -> real, d: real)
    requires IsSqrt(sqrt)
    requires 0.0 <= d
    ensures sqrt(d) == 0.0 <==> d == 0.0
    ensures 0.0 < d ==> 0.0 < sqrt(d)
  {
    var s := sqrt(d);
    assert 0.0 <= s && s * s == d;
    if 0.0 < s {
      calc {
        d;
      ==
        s * s;
      >
        0.0;
      }
    }
  }
}
