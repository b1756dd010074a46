/**
 * The one-dimensional Bezier evaluators of the curves module. Both work on a
 * single coordinate; a point is evaluated by applying them to x and y with the
 * same parameter t. Floating point is modelled by `real`.
 */
module Bezier {

  /**
   * `linear_bezier_curve`: the point at parameter t on the segment p0..p1,
   * that is, p0 moved by the fraction t of the way to p1.
   */
  function Linear(p0: real, p1: real, t: real): (r: real)
    ensures r == p0 + t * (p1 - p0)
    ensures t == 0.0 ==> r == p0
    ensures t == 1.0 ==> r == p1
  {
    (1.0 - t) * p0 + t * p1
  }

  /**
   * `cubic_bezier_curve`: the Bernstein form of the cubic with control values
   * start, c1, c2, end. It passes through start and end, and four equal
   * control values give that value throughout.
   */
  function Cubic(start: real, c1: real, c2: real, end: real, t: real): (r: real)
    ensures t == 0.0 ==> r == start
    ensures t == 1.0 ==> r == end
    ensures start == c1 == c2 == end ==> r == start
  {
    var s := 1.0 - t;
    s * s * s * start + 3.0 * s * s * t * c1 + 3.0 * s * t * t * c2 + t * t * t * end
  }

  /** De Casteljau's construction: three rounds of linear interpolation. */
  function DeCasteljau(start: real, c1: real, c2: real, end: real, t: real): real {
    var a := Linear(start, c1, t);
    var b := Linear(c1, c2, t);
    var c := Linear(c2, end, t);
    Linear(Linear(a, b, t), Linear(b, c, t), t)
  }

  /** The linear evaluator starts at p0 and ends at p1. */
  lemma LinearEndpoints(p0: real, p1: real)
    ensures Linear(p0, p1, 0.0) == p0
    ensures Linear(p0, p1, 1.0) == p1
  {
  }

  /** A degenerate segment is a single value for every t. */
  lemma LinearConstant(p: real, t: real)
    ensures Linear(p, p, t) == p
  {
  }

  /** For t in [0, 1] the linear evaluator stays between its two end values. */
  lemma LinearBetween(p0: real, p1: real, t: real)
    requires 0.0 <= t <= 1.0
    ensures p0 <= p1 ==> p0 <= Linear(p0, p1, t) <= p1
    ensures p1 <= p0 ==> p1 <= Linear(p0, p1, t) <= p0
  {
    var x := p1 - p0;
    assert Linear(p0, p1, t) == p0 + t * x;
    assert x - t * x == (1.0 - t) * x;
    if x >= 0.0 {
      assert 0.0 <= t * x && 0.0 <= (1.0 - t) * x;
    } else {
      assert t * x <= 0.0 && (1.0 - t) * x <= 0.0;
    }
  }

  /** The cubic evaluator starts at its first value and ends at its last. */
  lemma CubicEndpoints(start: real, c1: real, c2: real, end: real)
    ensures Cubic(start, c1, c2, end, 0.0) == start
    ensures Cubic(start, c1, c2, end, 1.0) == end
  {
  }

  /** The four Bernstein weights sum to one, so equal control values give a constant. */
  lemma CubicConstant(p: real, t: real)
    ensures Cubic(p, p, p, p, t) == p
  {
    var s := 1.0 - t;
    assert s * s * s + 3.0 * s * s * t + 3.0 * s * t * t + t * t * t == (s + t) * (s + t) * (s + t);
  }

  /** The Bernstein form agrees with de Casteljau's construction everywhere. */
  lemma CubicIsDeCasteljau(start: real, c1: real, c2: real, end: real, t: real)
    ensures Cubic(start, c1, c2, end, t) == DeCasteljau(start, c1, c2, end, t)
  {
    var s := 1.0 - t;
    var a := s * start + t * c1;
    var b := s * c1 + t * c2;
    var c := s * c2 + t * end;
    var ab := s * a + t * b;
    var bc := s * b + t * c;
    assert ab == s * s * start + 2.0 * s * t * c1 + t * t * c2;
    assert bc == s * s * c1 + 2.0 * s * t * c2 + t * t * end;
    assert s * ab == s * s * s * start + 2.0 * s * s * t * c1 + s * t * t * c2;
    assert t * bc == s * s * t * c1 + 2.0 * s * t * t * c2 + t * t * t * end;
  }

  /** A cubic whose inner control values split p0..p1 in thirds traces the straight segment. */
  lemma CubicDegreeElevation(p0: real, p1: real, t: real)
    ensures Cubic(p0, (2.0 * p0 + p1) / 3.0, (p0 + 2.0 * p1) / 3.0, p1, t) == Linear(p0, p1, t)
  {
    var s := 1.0 - t;
    assert s + t == 1.0;
    assert Cubic(p0, (2.0 * p0 + p1) / 3.0, (p0 + 2.0 * p1) / 3.0, p1, t)
        == (s * s * s + 2.0 * s * s * t + s * t * t) * p0 + (s * s * t + 2.0 * s * t * t + t * t * t) * p1;
    assert s * s * s + 2.0 * s * s * t + s * t * t == s * (s + t) * (s + t);
    assert s * s * t + 2.0 * s * t * t + t * t * t == t * (s + t) * (s + t);
  }

  /** The literal values the tests expect of the linear evaluator. */
  lemma LinearExamples()
    ensures Linear(0.0, 10.0, 0.5) == 5.0
    ensures Linear(5.0, 15.0, 0.2) == 7.0
  {
  }

  /** The literal values expected of the cubic evaluator, arguments in signature order. */
  lemma CubicExamples()
    ensures Cubic(0.0, 2.0, 8.0, 10.0, 0.5) == 5.0
    ensures Cubic(1.0, -1.0, 4.0, 3.0, 0.5) == 1.625
  {
  }

  /**
   * The cubic test passes (start, end, c1, c2) positionally into a signature
   * ordered (start, c1, c2, end); with that order the expected values do not hold.
   */
  lemma CubicTestArgumentOrder()
    ensures Cubic(0.0, 10.0, 2.0, 8.0, 0.5) == 5.5 != 5.0
    ensures Cubic(1.0, 3.0, -1.0, 4.0, 0.5) == 1.375 != 1.625
  {
  }
}
