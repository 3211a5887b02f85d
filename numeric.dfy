/** The numeric backend of the geometry: the four library functions the
    recurrence calls (cos, sin and atan for the rotation, sqrt for the inside
    leg). The source switches between floating-point and exact symbolic
    arithmetic; here both are one backend over the reals whose functions are
    parameters, and each property of them that a proof relies on is a
    predicate the lemma requires. */
module Numeric {

  datatype Backend = Backend(
    cos: real -> real,
    sin: real -> real,
    sqrt: real -> real,
    atan: real -> real)

  /** cos(0) = 1 and sin(0) = 0. */
  ghost predicate CosSinAtZero(b: Backend) {
    b.cos(0.0) == 1.0 && b.sin(0.0) == 0.0
  }

  /** cos^2 + sin^2 = 1 at every angle. */
  ghost predicate Pythagorean(b: Backend) {
    forall a :: b.cos(a) * b.cos(a) + b.sin(a) * b.sin(a) == 1.0
  }

  /** cos is even and sin is odd. */
  ghost predicate Symmetric(b: Backend) {
    forall a :: b.cos(-a) == b.cos(a) && b.sin(-a) == -b.sin(a)
  }

  /** sqrt of a positive number is positive: all the recurrence needs for its
      division by the inside leg to be defined. */
  ghost predicate SqrtPositive(b: Backend) {
    forall x :: x > 0.0 ==> b.sqrt(x) > 0.0
  }

  /** sqrt is the non-negative square root on the non-negative reals. */
  ghost predicate SqrtSound(b: Backend) {
    forall x :: x >= 0.0 ==> b.sqrt(x) >= 0.0 && b.sqrt(x) * b.sqrt(x) == x
  }

  /** atan of a positive number is positive. */
  ghost predicate AtanPositive(b: Backend) {
    forall x :: x > 0.0 ==> b.atan(x) > 0.0
  }

  lemma SqrtSoundIsPositive(b: Backend)
    requires SqrtSound(b)
    ensures SqrtPositive(b)
  {
    forall x | x > 0.0 ensures b.sqrt(x) > 0.0 {
      assert b.sqrt(x) * b.sqrt(x) == x;
    }
  }

  lemma MulMonotone(a: real, x: real, y: real)
    requires a >= 0.0 && x <= y
    ensures a * x <= a * y
  {
  }

  lemma MulPositive(x: real, y: real)
    requires x > 0.0 && y > 0.0
    ensures x * y > 0.0
  {
  }

  /** h^2 - l^2 is positive when h > l >= 0. */
  lemma SquareGap(h: real, l: real)
    requires h > l >= 0.0
    ensures h * h - l * l > 0.0
  {
    MulPositive(h - l, h + l);
    assert (h - l) * (h + l) == h * h - l * l;
  }

  lemma SqrtOfOne(b: Backend)
    requires SqrtSound(b)
    ensures b.sqrt(1.0) == 1.0
  {
    var s := b.sqrt(1.0);
    assert s >= 0.0 && s * s == 1.0;
    if s < 1.0 {
      MulMonotone(s, s, 1.0);
    } else if s > 1.0 {
      MulMonotone(s, 1.0, s);
    }
  }
}
