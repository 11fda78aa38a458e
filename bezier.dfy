/** Evaluating a cubic Bézier curve the way `BezierCurve.Point` and
    `BezierCurve.Tangent` do: three levels of clamped linear interpolation
    (De Casteljau's construction), checked against the Bernstein form. */
module Bezier {
  import opened Geometry

  /** The four control points A, B, C, D. */
  datatype Controls = Controls(a: Vec2, b: Vec2, c: Vec2, d: Vec2)

  /** The three first-level points: the base segments A-B, B-C and C-D
      evaluated at `t`. They become the ends of the scratch segments D and E. */
  function FirstLevel(k: Controls, t: real): (Vec2, Vec2, Vec2)
  {
    (VecLerp(k.a, k.b, t), VecLerp(k.b, k.c, t), VecLerp(k.c, k.d, t))
  }

  /** The two second-level points: the scratch segments D and E evaluated
      at `t`. They become the ends of the scratch segment F. */
  function SecondLevel(k: Controls, t: real): (Vec2, Vec2)
  {
    var (ab, bc, cd) := FirstLevel(k, t);
    (VecLerp(ab, bc, t), VecLerp(bc, cd, t))
  }

  /** The curve point at `t`: the scratch segment F evaluated at `t`. */
  function CurvePoint(k: Controls, t: real): Vec2
  {
    var (p1, p2) := SecondLevel(k, t);
    VecLerp(p1, p2, t)
  }

  /** The control polygon A, B, C, D. */
  function Polygon(k: Controls): seq<Vec2>
  {
    [k.a, k.b, k.c, k.d]
  }

  /** One round of De Casteljau's construction: every edge of a polygon
      evaluated at `t`, one point fewer than the polygon has. */
  function Reduce(ps: seq<Vec2>, t: real): (qs: seq<Vec2>)
    requires |ps| >= 1
    ensures |qs| == |ps| - 1
    ensures forall i :: 0 <= i < |qs| ==> qs[i] == VecLerp(ps[i], ps[i + 1], t)
  {
    seq(|ps| - 1, i requires 0 <= i < |ps| - 1 => VecLerp(ps[i], ps[i + 1], t))
  }

  /** De Casteljau's construction for a polygon of any size: reduce until one
      point is left. */
  function DeCasteljau(ps: seq<Vec2>, t: real): Vec2
    requires |ps| >= 1
    decreases |ps|
  {
    if |ps| == 1 then ps[0] else DeCasteljau(Reduce(ps, t), t)
  }

  /** The tangent before normalisation: second second-level point minus the first. */
  function TangentDifference(k: Controls, t: real): Vec2
  {
    var (p1, p2) := SecondLevel(k, t);
    Sub(p2, p1)
  }

  /** Unclamped linear interpolation. */
  function Mix(u: real, v: real, s: real): real { u + (v - u) * s }

  /** The quadratic Bernstein polynomial with coefficients `a`, `b`, `c`. */
  function Quadratic(a: real, b: real, c: real, s: real): real
  {
    var r := 1.0 - s;
    r * r * a + 2.0 * r * s * b + s * s * c
  }

  /** The cubic Bernstein polynomial with coefficients `a`, `b`, `c`, `d`. */
  function Cubic(a: real, b: real, c: real, d: real, s: real): real
  {
    var r := 1.0 - s;
    r * r * r * a + 3.0 * r * r * s * b + 3.0 * r * s * s * c + s * s * s * d
  }

  /** The cubic Bézier polynomial of the control points at `s`. */
  function BernsteinPoint(k: Controls, s: real): Vec2
  {
    Vec2(Cubic(k.a.x, k.b.x, k.c.x, k.d.x, s), Cubic(k.a.y, k.b.y, k.c.y, k.d.y, s))
  }

  /** One third of the derivative of the cubic Bézier polynomial at `s`. */
  function BernsteinVelocity(k: Controls, s: real): Vec2
  {
    Vec2(Quadratic(k.b.x - k.a.x, k.c.x - k.b.x, k.d.x - k.c.x, s),
         Quadratic(k.b.y - k.a.y, k.c.y - k.b.y, k.d.y - k.c.y, s))
  }

  lemma LerpIsMix(u: real, v: real, t: real)
    ensures Lerp(u, v, t) == Mix(u, v, Clamp01(t))
  {
  }

  lemma QuadraticByMixing(a: real, b: real, c: real, s: real)
    ensures Mix(Mix(a, b, s), Mix(b, c, s), s) == Quadratic(a, b, c, s)
  {
  }

  lemma CubicByMixing(a: real, b: real, c: real, d: real, s: real)
    ensures Mix(Quadratic(a, b, c, s), Quadratic(b, c, d, s), s) == Cubic(a, b, c, d, s)
  {
    var r, q1, q2 := 1.0 - s, Quadratic(a, b, c, s), Quadratic(b, c, d, s);
    MixAsWeights(q1, q2, s);
    ScaledQuadratic(r, r, s, a, b, c);
    ScaledQuadratic(s, r, s, b, c, d);
  }

  lemma MixAsWeights(u: real, v: real, s: real)
    ensures Mix(u, v, s) == (1.0 - s) * u + s * v
  {
  }

  lemma ScaledQuadratic(m: real, r: real, s: real, a: real, b: real, c: real)
    ensures m * (r * r * a + 2.0 * r * s * b + s * s * c) ==
            m * r * r * a + 2.0 * m * r * s * b + m * s * s * c
  {
  }

  lemma QuadraticDifference(a: real, b: real, c: real, d: real, s: real)
    ensures Quadratic(b, c, d, s) - Quadratic(a, b, c, s) == Quadratic(b - a, c - b, d - c, s)
  {
  }

  /** The three fixed levels `Point` computes are De Casteljau's construction
      run on the control polygon. */
  lemma {:induction false} CurvePointByReduction(k: Controls, t: real)
    ensures CurvePoint(k, t) == DeCasteljau(Polygon(k), t)
  {
    var first := Reduce(Polygon(k), t);
    assert first == [VecLerp(k.a, k.b, t), VecLerp(k.b, k.c, t), VecLerp(k.c, k.d, t)];
    var second := Reduce(first, t);
    assert second == [VecLerp(first[0], first[1], t), VecLerp(first[1], first[2], t)];
    var third := Reduce(second, t);
    assert third == [VecLerp(second[0], second[1], t)];
    assert DeCasteljau(Polygon(k), t) == DeCasteljau(first, t);
    assert DeCasteljau(first, t) == DeCasteljau(second, t);
    assert DeCasteljau(second, t) == DeCasteljau(third, t);
  }

  /** One coordinate of the three-level interpolation is the cubic Bernstein
      polynomial at the clamped parameter, and the difference of the two
      second-level values is the quadratic of the control differences. */
  lemma CoordinateByLevels(a: real, b: real, c: real, d: real, t: real)
    ensures var s := Clamp01(t);
            var p1 := Lerp(Lerp(a, b, t), Lerp(b, c, t), t);
            var p2 := Lerp(Lerp(b, c, t), Lerp(c, d, t), t);
            p1 == Quadratic(a, b, c, s) && p2 == Quadratic(b, c, d, s) &&
            Lerp(p1, p2, t) == Cubic(a, b, c, d, s) &&
            p2 - p1 == Quadratic(b - a, c - b, d - c, s)
  {
    var s := Clamp01(t);
    LerpIsMix(a, b, t);
    LerpIsMix(b, c, t);
    LerpIsMix(c, d, t);
    var ab, bc, cd := Mix(a, b, s), Mix(b, c, s), Mix(c, d, s);
    LerpIsMix(ab, bc, t);
    LerpIsMix(bc, cd, t);
    QuadraticByMixing(a, b, c, s);
    QuadraticByMixing(b, c, d, s);
    var p1, p2 := Quadratic(a, b, c, s), Quadratic(b, c, d, s);
    LerpIsMix(p1, p2, t);
    CubicByMixing(a, b, c, d, s);
    QuadraticDifference(a, b, c, d, s);
  }

  /** `Point(t)` is the cubic Bézier polynomial of the control points at
      `t` clamped to [0,1]: inside [0,1] it is the curve itself, outside it
      stays at the nearer end (`Vector2.Lerp` clamps, so nothing is
      extrapolated). */
  lemma {:induction false} CurvePointIsBernstein(k: Controls, t: real)
    ensures CurvePoint(k, t) == BernsteinPoint(k, Clamp01(t))
  {
    CoordinateByLevels(k.a.x, k.b.x, k.c.x, k.d.x, t);
    CoordinateByLevels(k.a.y, k.b.y, k.c.y, k.d.y, t);
  }

  /** The tangent difference is one third of the polynomial's derivative at
      the clamped parameter. */
  lemma {:induction false} TangentIsBernsteinVelocity(k: Controls, t: real)
    ensures TangentDifference(k, t) == BernsteinVelocity(k, Clamp01(t))
  {
    CoordinateByLevels(k.a.x, k.b.x, k.c.x, k.d.x, t);
    CoordinateByLevels(k.a.y, k.b.y, k.c.y, k.d.y, t);
  }

  /** The curve starts at A and ends at D, and stays there for parameters
      beyond either end. */
  lemma CurveEndpoints(k: Controls, t: real)
    ensures CurvePoint(k, 0.0) == k.a && CurvePoint(k, 1.0) == k.d
    ensures t <= 0.0 ==> CurvePoint(k, t) == k.a
    ensures t >= 1.0 ==> CurvePoint(k, t) == k.d
  {
  }

  /** At the start the tangent difference is B - A, at the end D - C. */
  lemma TangentEndpoints(k: Controls, t: real)
    ensures TangentDifference(k, 0.0) == Sub(k.b, k.a)
    ensures TangentDifference(k, 1.0) == Sub(k.d, k.c)
    ensures t <= 0.0 ==> TangentDifference(k, t) == Sub(k.b, k.a)
    ensures t >= 1.0 ==> TangentDifference(k, t) == Sub(k.d, k.c)
  {
  }

  /** With all four control points equal the curve is that one point and the
      tangent difference vanishes. */
  lemma DegenerateCurve(k: Controls, t: real)
    requires k.a == k.b == k.c == k.d
    ensures CurvePoint(k, t) == k.a
    ensures TangentDifference(k, t) == Zero
  {
  }
}
