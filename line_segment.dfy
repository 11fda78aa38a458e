/** The two-point segment the curve is built from. */
module LineSegments {
  import opened Geometry

  /** A segment whose ends can be reassigned after construction; `Point` and
      `NegPoint` read the current ends, nothing is cached. */
  class LineSegment {
    var begin: Vec2
    var end: Vec2

    constructor (begin: Vec2, end: Vec2)
      ensures this.begin == begin && this.end == end
    {
      this.begin := begin;
      this.end := end;
    }

    /** The `Begin` setter: `End` is left as it was. */
    method SetBegin(v: Vec2)
      modifies this
      ensures begin == v && end == old(end)
    {
      begin := v;
    }

    /** The `End` setter: `Begin` is left as it was. */
    method SetEnd(v: Vec2)
      modifies this
      ensures end == v && begin == old(begin)
    {
      end := v;
    }

    /** Position at `t` going from `begin` to `end`. `Vector2.Lerp` clamps
        `t`, so the result always lies on the segment. */
    function Point(t: real): (p: Vec2)
      reads this
      ensures InBox(begin, end, p)
      ensures t <= 0.0 ==> p == begin
      ensures t >= 1.0 ==> p == end
      ensures 0.0 <= t <= 1.0 ==> p == Add(begin, Vec2((end.x - begin.x) * t, (end.y - begin.y) * t))
    {
      VecLerp(begin, end, t)
    }

    /** Position at `t` going backwards, from `end` to `begin`. */
    function NegPoint(t: real): (p: Vec2)
      reads this
      ensures t <= 0.0 ==> p == end
      ensures t >= 1.0 ==> p == begin
      ensures p == Point(1.0 - t)
    {
      VecLerpReversed(begin, end, t);
      VecLerp(end, begin, t)
    }
  }
}
