/** Points, vectors and the interpolation helpers of Unity's `Vector2` and
    `Mathf` that the curve relies on, over exact reals instead of `float`. */
module Geometry {

  /** A `Vector2`: a 2D point or direction. */
  datatype Vec2 = Vec2(x: real, y: real)

  const Zero: Vec2 := Vec2(0.0, 0.0)

  function Add(u: Vec2, v: Vec2): Vec2 { Vec2(u.x + v.x, u.y + v.y) }

  function Sub(u: Vec2, v: Vec2): Vec2 { Vec2(u.x - v.x, u.y - v.y) }

  function Dot(u: Vec2, v: Vec2): real { u.x * v.x + u.y * v.y }

  /** The z component of the 3D cross product; negative when `v` is clockwise of `u`. */
  function Cross(u: Vec2, v: Vec2): real { u.x * v.y - u.y * v.x }

  /** `v` lies on the closed interval spanned by `a` and `b`, in either order. */
  predicate Between(a: real, b: real, v: real) { a <= v <= b || b <= v <= a }

  /** Each coordinate of `p` lies between the matching coordinates of `u` and `v`. */
  predicate InBox(u: Vec2, v: Vec2, p: Vec2) { Between(u.x, v.x, p.x) && Between(u.y, v.y, p.y) }

  /** `Mathf.Clamp01`. */
  function Clamp01(t: real): (r: real)
    ensures 0.0 <= r <= 1.0
    ensures 0.0 <= t <= 1.0 ==> r == t
  {
    if t < 0.0 then 0.0 else if t > 1.0 then 1.0 else t
  }

  lemma ScaledWithin(w: real, s: real)
    requires 0.0 <= s <= 1.0
    ensures Between(0.0, w, w * s)
  {
    if w >= 0.0 {
      assert w * s <= w * 1.0;
    } else {
      assert w * s >= w * 1.0;
    }
  }

  /** `Mathf.Lerp`: `t` is clamped to [0,1] first, so the result never leaves
      the interval between `a` and `b`. */
  function Lerp(a: real, b: real, t: real): (r: real)
    ensures Between(a, b, r)
    ensures t <= 0.0 ==> r == a
    ensures t >= 1.0 ==> r == b
  {
    ScaledWithin(b - a, Clamp01(t));
    a + (b - a) * Clamp01(t)
  }

  lemma MulMonotone(w: real, s1: real, s2: real)
    requires w >= 0.0 && s1 <= s2
    ensures w * s1 <= w * s2
  {
  }

  /** For `a <= b`, a larger parameter gives a larger interpolated value. */
  lemma LerpMonotone(a: real, b: real, t1: real, t2: real)
    requires a <= b && t1 <= t2
    ensures Lerp(a, b, t1) <= Lerp(a, b, t2)
  {
    var w, s1, s2 := b - a, Clamp01(t1), Clamp01(t2);
    MulMonotone(w, s1, s2);
    var p, q := w * s1, w * s2;
    assert p <= q;
    assert Lerp(a, b, t1) == a + p;
    assert Lerp(a, b, t2) == a + q;
  }

  /** `Mathf.InverseLerp`: where `v` sits between `a` and `b` as a fraction,
      clamped to [0,1], and 0 when the interval is a single point. */
  function InverseLerp(a: real, b: real, v: real): (r: real)
    ensures 0.0 <= r <= 1.0
    ensures a == b ==> r == 0.0
    ensures a != b && Between(a, b, v) ==> Lerp(a, b, r) == v
  {
    if a != b then
      FractionUndone(a, b, v);
      Clamp01((v - a) / (b - a))
    else 0.0
  }

  /** For `a <= b`, a larger value sits at a larger fraction of the interval. */
  lemma InverseLerpMonotone(a: real, b: real, v1: real, v2: real)
    requires a <= b && v1 <= v2
    ensures InverseLerp(a, b, v1) <= InverseLerp(a, b, v2)
  {
    if a != b {
      var w := b - a;
      assert (v1 - a) / w <= (v2 - a) / w by {
        if v1 < v2 {
          DividedInOrder(v1 - a, v2 - a, w);
        }
      }
    }
  }

  lemma DividedInOrder(a: real, b: real, w: real)
    requires a < b && w > 0.0
    ensures a / w < b / w
  {
  }

  lemma PositiveProduct(x: real, y: real)
    requires x > 0.0 && y > 0.0
    ensures x * y > 0.0
  {
  }

  lemma FractionOfWhole(x: real, w: real)
    requires 0.0 <= x <= w && w > 0.0
    ensures 0.0 <= x / w <= 1.0
  {
  }

  lemma FractionUndone(a: real, b: real, v: real)
    requires a != b
    ensures Between(a, b, v) ==> 0.0 <= (v - a) / (b - a) <= 1.0
    ensures (b - a) * ((v - a) / (b - a)) == v - a
  {
    if Between(a, b, v) {
      if a < b {
        FractionOfWhole(v - a, b - a);
      } else {
        assert (v - a) / (b - a) == (a - v) / (a - b);
        FractionOfWhole(a - v, a - b);
      }
    }
  }

  /** `Vector2.Lerp`: componentwise `Mathf.Lerp`, with the same clamping of `t`. */
  function VecLerp(a: Vec2, b: Vec2, t: real): (r: Vec2)
    ensures InBox(a, b, r)
    ensures t <= 0.0 ==> r == a
    ensures t >= 1.0 ==> r == b
  {
    Vec2(Lerp(a.x, b.x, t), Lerp(a.y, b.y, t))
  }

  /** Interpolating from `b` back to `a` is interpolating from `a` to `b` with
      the complementary parameter; the clamping makes this hold for every `t`. */
  lemma VecLerpReversed(a: Vec2, b: Vec2, t: real)
    ensures VecLerp(b, a, t) == VecLerp(a, b, 1.0 - t)
  {
    assert Clamp01(1.0 - t) == 1.0 - Clamp01(t);
  }

  /** `RotatedDeg(-90)`: a quarter turn clockwise, `(x, y)` to `(y, -x)`. */
  function QuarterTurnClockwise(v: Vec2): (r: Vec2)
    ensures Dot(r, v) == 0.0
    ensures Dot(r, r) == Dot(v, v)
    ensures Cross(v, r) == -Dot(v, v)
  {
    Vec2(v.y, -v.x)
  }
}
