/** The curve object: four control points, the three base segments that
    mirror them, three scratch segments that every evaluation overwrites,
    and a lazily rebuilt arc-length table guarded by a dirty flag. */
module Curves {
  import opened Geometry
  import opened LineSegments
  import opened Bezier
  import opened Lookup
  import opened ArcLength

  /** `LUT_DETAIL`: the table size every curve is built with. */
  const LutDetail: nat := 32

  class BezierCurve {
    // The segment objects and the table arrays are allocated once, by the
    // constructor (as `Init` does), and never replaced.
    const lineA: LineSegment
    const lineB: LineSegment
    const lineC: LineSegment

    const lineD: LineSegment
    const lineE: LineSegment
    const lineF: LineSegment

    var pointA: Vec2
    var pointB: Vec2
    var pointC: Vec2
    var pointD: Vec2

    var lutBuilt: bool
    const tLut: array<real>
    const dLut: array<real>
    var totalLength: real

    /** `Vector2.magnitude` and `Vector2.normalized`, supplied from outside. */
    const magnitude: Vec2 -> real
    const normalize: Vec2 -> Vec2

    function ControlPoints(): Controls
      reads this`pointA, this`pointB, this`pointC, this`pointD
    {
      Controls(pointA, pointB, pointC, pointD)
    }

    /** The six segments are six different objects. */
    predicate Distinct()
    {
      lineA != lineB && lineA != lineC && lineB != lineC &&
      lineD != lineE && lineD != lineF && lineE != lineF &&
      lineD != lineA && lineD != lineB && lineD != lineC &&
      lineE != lineA && lineE != lineB && lineE != lineC &&
      lineF != lineA && lineF != lineB && lineF != lineC
    }

    /** The base segments are A-B, B-C and C-D of the current control points. */
    ghost predicate Consistent()
      reads this`pointA, this`pointB, this`pointC, this`pointD, lineA, lineB, lineC
    {
      lineA.begin == pointA && lineA.end == pointB &&
      lineB.begin == pointB && lineB.end == pointC &&
      lineC.begin == pointC && lineC.end == pointD
    }

    /** The table holds what a build from the current control points writes. */
    ghost predicate TableCurrent()
      reads this, tLut, dLut
      requires tLut.Length == dLut.Length >= 1
    {
      tLut[..] == TTable(tLut.Length) &&
      dLut[..] == DTable(ControlPoints(), dLut.Length, magnitude) &&
      totalLength == TotalLength(ControlPoints(), dLut.Length, magnitude)
    }

    /** What holds of every curve object, built table or not: distinct
        segments consistent with the points, two separate columns of the same
        non-zero size, and a magnitude that behaves like one. */
    ghost predicate Shape()
      reads this`pointA, this`pointB, this`pointC, this`pointD, lineA, lineB, lineC
    {
      Distinct() && Consistent() &&
      tLut != dLut && tLut.Length == dLut.Length >= 1 &&
      NonNegative(magnitude) && magnitude(Zero) == 0.0
    }

    /** The object invariant: the shape above, and a table marked built is
        never stale. */
    ghost predicate Valid()
      reads this, lineA, lineB, lineC, tLut, dLut
    {
      Shape() && (lutBuilt ==> TableCurrent())
    }

    /** The constructor taking four positions, with `Init` inlined; `n` is the
        table size, `LutDetail` in the C# code. */
    constructor (a: Vec2, b: Vec2, c: Vec2, d: Vec2, n: nat,
                 magnitude: Vec2 -> real, normalize: Vec2 -> Vec2)
      requires n >= 1
      requires NonNegative(magnitude) && magnitude(Zero) == 0.0
      ensures Valid() && !lutBuilt
      ensures ControlPoints() == Controls(a, b, c, d)
      ensures lineD.begin == a && lineD.end == b
      ensures lineE.begin == b && lineE.end == c
      ensures lineF.begin == a && lineF.end == b
      ensures tLut.Length == n && tLut[..] == dLut[..] == seq(n, _ => 0.0)
      ensures totalLength == 0.0
      ensures this.magnitude == magnitude && this.normalize == normalize
      ensures fresh(lineA) && fresh(lineB) && fresh(lineC)
      ensures fresh(lineD) && fresh(lineE) && fresh(lineF)
      ensures fresh(tLut) && fresh(dLut)
    {
      pointA, pointB, pointC, pointD := a, b, c, d;
      lineA := new LineSegment(a, b);
      lineB := new LineSegment(b, c);
      lineC := new LineSegment(c, d);
      lineD := new LineSegment(a, b);
      lineE := new LineSegment(b, c);
      lineF := new LineSegment(a, b);
      tLut := new real[n](_ => 0.0);
      dLut := new real[n](_ => 0.0);
      lutBuilt := false;
      totalLength := 0.0;
      this.magnitude := magnitude;
      this.normalize := normalize;
    }

    /** `OnBezierPointAChanged`: A moves to `p`, and so does the start of
        segment A-B; the table goes stale. */
    method OnPointAChanged(p: Vec2)
      requires Valid()
      modifies this, lineA
      ensures Valid() && !lutBuilt
      ensures ControlPoints() == old(ControlPoints()).(a := p)
      ensures lineA.begin == p && lineA.end == old(lineA.end)
      ensures totalLength == old(totalLength)
    {
      pointA := p;
      lineA.SetBegin(pointA);
      lutBuilt := false;
    }

    /** `OnBezierPointBChanged`: B moves to `p`, with the end of A-B and the
        start of B-C. */
    method OnPointBChanged(p: Vec2)
      requires Valid()
      modifies this, lineA, lineB
      ensures Valid() && !lutBuilt
      ensures ControlPoints() == old(ControlPoints()).(b := p)
      ensures lineA.end == p && lineA.begin == old(lineA.begin)
      ensures lineB.begin == p && lineB.end == old(lineB.end)
      ensures totalLength == old(totalLength)
    {
      pointB := p;
      lineA.SetEnd(pointB);
      lineB.SetBegin(pointB);
      lutBuilt := false;
    }

    /** `OnBezierPointCChanged`: C moves to `p`, with the end of B-C and the
        start of C-D. */
    method OnPointCChanged(p: Vec2)
      requires Valid()
      modifies this, lineB, lineC
      ensures Valid() && !lutBuilt
      ensures ControlPoints() == old(ControlPoints()).(c := p)
      ensures lineB.end == p && lineB.begin == old(lineB.begin)
      ensures lineC.begin == p && lineC.end == old(lineC.end)
      ensures totalLength == old(totalLength)
    {
      pointC := p;
      lineB.SetEnd(pointC);
      lineC.SetBegin(pointC);
      lutBuilt := false;
    }

    /** `OnBezierPointDChanged`: D moves to `p`, with the end of C-D. */
    method OnPointDChanged(p: Vec2)
      requires Valid()
      modifies this, lineC
      ensures Valid() && !lutBuilt
      ensures ControlPoints() == old(ControlPoints()).(d := p)
      ensures lineC.end == p && lineC.begin == old(lineC.begin)
      ensures totalLength == old(totalLength)
    {
      pointD := p;
      lineC.SetEnd(pointD);
      lutBuilt := false;
    }

    /** `Point`: overwrites the scratch segments D, E and F level by level and
        returns F evaluated at `t`, the curve point. */
    method Point(t: real) returns (p: Vec2)
      requires Shape()
      modifies lineD, lineE, lineF
      ensures Shape()
      ensures p == CurvePoint(ControlPoints(), t)
      ensures (lineD.begin, lineE.begin, lineE.end) == FirstLevel(ControlPoints(), t)
      ensures lineD.end == lineE.begin
      ensures (lineF.begin, lineF.end) == SecondLevel(ControlPoints(), t)
    {
      lineD.SetBegin(lineA.Point(t));
      lineD.SetEnd(lineB.Point(t));

      lineE.SetBegin(lineB.Point(t));
      lineE.SetEnd(lineC.Point(t));

      lineF.SetBegin(lineD.Point(t));
      lineF.SetEnd(lineE.Point(t));

      p := lineF.Point(t);
    }

    /** `Tangent`: overwrites the scratch segments D and E and returns the
        normalised difference of their points at `t`; F is not touched. */
    method Tangent(t: real) returns (r: Vec2)
      requires Shape()
      modifies lineD, lineE
      ensures Shape()
      ensures r == normalize(TangentDifference(ControlPoints(), t))
      ensures (lineD.begin, lineE.begin, lineE.end) == FirstLevel(ControlPoints(), t)
      ensures lineD.end == lineE.begin
    {
      lineD.SetBegin(lineA.Point(t));
      lineD.SetEnd(lineB.Point(t));

      lineE.SetBegin(lineB.Point(t));
      lineE.SetEnd(lineC.Point(t));

      var p1 := lineD.Point(t);
      var p2 := lineE.Point(t);

      r := normalize(Sub(p2, p1));
    }

    /** `Normal`: the tangent turned a quarter clockwise. */
    method Normal(t: real) returns (r: Vec2)
      requires Shape()
      modifies lineD, lineE
      ensures Shape()
      ensures r == QuarterTurnClockwise(normalize(TangentDifference(ControlPoints(), t)))
    {
      var tangent := Tangent(t);
      r := QuarterTurnClockwise(tangent);
    }

    /** `BuildLUT`: a no-op on a built table; otherwise fills both columns
        and marks the table built. Control points and base segments are left
        alone. */
    method BuildLut()
      requires Valid()
      modifies this, lineD, lineE, lineF, tLut, dLut
      ensures Valid() && lutBuilt && TableCurrent()
      ensures ControlPoints() == old(ControlPoints())
      ensures old(lutBuilt) ==> unchanged(this, lineD, lineE, lineF, tLut, dLut)
    {
      if lutBuilt {
        return;
      }
      FillTable();
      lutBuilt := true;
    }

    /** The body of `BuildLUT` past its guard: samples the curve at i/(n-1)
        for every entry, accumulating chord lengths into both columns. */
    method FillTable()
      requires Shape()
      modifies this`totalLength, lineD, lineE, lineF, tLut, dLut
      ensures Shape()
      ensures tLut[..] == TTable(tLut.Length)
      ensures dLut[..] == DTable(ControlPoints(), dLut.Length, magnitude)
      ensures totalLength == TotalLength(ControlPoints(), dLut.Length, magnitude)
    {
      tLut[0] := 0.0;
      dLut[0] := 0.0;
      totalLength := 0.0;
      var prev := pointA;

      ghost var k := ControlPoints();
      var n := tLut.Length;
      for i := 1 to n
        invariant prev == SamplePoint(k, n, i - 1)
        invariant totalLength == ArcTo(k, n, i - 1, magnitude)
        invariant tLut[..i] == TPrefix(n, i)
        invariant dLut[..i] == DPrefix(k, n, i, magnitude)
      {
        var t := i as real / (n - 1) as real;
        assert t == SampleParam(i, n);
        var pt := Point(t);
        CurvePointByReduction(k, t);
        var diff := magnitude(Sub(prev, pt));
        totalLength := totalLength + diff;
        tLut[i] := t;
        dLut[i] := totalLength;
        prev := pt;
      }

      PrefixesAreColumns(k, n, n, magnitude);
      assert tLut[..] == tLut[..n];
      assert dLut[..] == dLut[..n];
    }

    /** `Length`: rebuilds a stale table, then returns the total chord length
        of the current control points. */
    method Length() returns (r: real)
      requires Valid()
      modifies this, lineD, lineE, lineF, tLut, dLut
      ensures Valid() && lutBuilt
      ensures ControlPoints() == old(ControlPoints())
      ensures r == TotalLength(ControlPoints(), tLut.Length, magnitude)
    {
      BuildLut();
      r := totalLength;
    }

    /** `SampleT`: scans the distance column for the first pair of entries
        enclosing `dist` and interpolates the parameter column there. */
    method SampleT(dist: real) returns (r: real)
      requires tLut.Length == dLut.Length
      ensures r == SampledT(tLut[..], dLut[..], dist)
    {
      var count := tLut.Length;

      if count == 0 {
        return 0.0;
      }

      if count == 1 {
        return tLut[0];
      }

      var idLower: nat := 0;
      var idUpper := 1;
      var iFloat := 0.0;
      for i := 0 to count - 1
        invariant idLower == i && idUpper == i + 1
        invariant FirstBracket(dLut[..], dist, 0) == FirstBracket(dLut[..], dist, i)
      {
        var lower := dLut[idLower];
        var upper := dLut[idUpper];

        if lower <= dist && dist <= upper {
          iFloat := InverseLerp(lower, upper, dist);
          break;
        }

        idLower := idLower + 1;
        idUpper := idUpper + 1;
      }

      if idUpper >= count {
        return tLut[count - 1];
      }

      // The C# code's `idLower < 0` fallback is dead: idLower counts up from 0.
      r := Lerp(tLut[idLower], tLut[idUpper], iFloat);
    }

    /** `Distance`: rebuilds a stale table, then reads it at `t`. */
    method Distance(t: real) returns (r: real)
      requires Valid()
      modifies this, lineD, lineE, lineF, tLut, dLut
      ensures Valid() && lutBuilt
      ensures ControlPoints() == old(ControlPoints())
      ensures r == SampleDistance(DTable(ControlPoints(), dLut.Length, magnitude), t)
    {
      BuildLut();
      r := SampleDistance(dLut[..], t);
    }

    /** `T`: rebuilds a stale table, then looks up the parameter at `dist`. */
    method T(dist: real) returns (r: real)
      requires Valid()
      modifies this, lineD, lineE, lineF, tLut, dLut
      ensures Valid() && lutBuilt
      ensures ControlPoints() == old(ControlPoints())
      ensures r == SampledT(TTable(tLut.Length), DTable(ControlPoints(), dLut.Length, magnitude), dist)
    {
      BuildLut();
      r := SampleT(dist);
    }

    /** `PointDist`: the curve point at the parameter `T` gives for `dist`. */
    method PointDist(dist: real) returns (p: Vec2)
      requires Valid()
      modifies this, lineD, lineE, lineF, tLut, dLut
      ensures Valid() && lutBuilt
      ensures ControlPoints() == old(ControlPoints())
      ensures p == CurvePoint(ControlPoints(),
                              SampledT(TTable(tLut.Length), DTable(ControlPoints(), dLut.Length, magnitude), dist))
    {
      var t := T(dist);
      p := Point(t);
    }

    /** `TangentDist`: the tangent at the parameter `T` gives for `dist`. */
    method TangentDist(dist: real) returns (r: Vec2)
      requires Valid()
      modifies this, lineD, lineE, lineF, tLut, dLut
      ensures Valid() && lutBuilt
      ensures ControlPoints() == old(ControlPoints())
      ensures r == normalize(TangentDifference(ControlPoints(),
                              SampledT(TTable(tLut.Length), DTable(ControlPoints(), dLut.Length, magnitude), dist)))
    {
      var t := T(dist);
      r := Tangent(t);
    }

    /** `NormalDist`: the normal at the parameter `T` gives for `dist`. */
    method NormalDist(dist: real) returns (r: Vec2)
      requires Valid()
      modifies this, lineD, lineE, lineF, tLut, dLut
      ensures Valid() && lutBuilt
      ensures ControlPoints() == old(ControlPoints())
      ensures r == QuarterTurnClockwise(normalize(TangentDifference(ControlPoints(),
                              SampledT(TTable(tLut.Length), DTable(ControlPoints(), dLut.Length, magnitude), dist))))
    {
      var t := T(dist);
      r := Normal(t);
    }
  }

  /** The table every curve in the C# code is built with: 32 parameters
      stepping by 1/31 from 0 to 1, and `T` maps distance 0 to 0 and every
      negative distance to 1. */
  lemma DefaultTable(k: Controls, mag: Vec2 -> real)
    requires NonNegative(mag)
    ensures |TTable(LutDetail)| == 32
    ensures TTable(LutDetail)[0] == 0.0 && TTable(LutDetail)[1] == 1.0 / 31.0
    ensures TTable(LutDetail)[31] == 1.0
    ensures StrictlyIncreasing(TTable(LutDetail))
    ensures SampledT(TTable(LutDetail), DTable(k, LutDetail, mag), 0.0) == 0.0
    ensures forall dist :: dist < 0.0 ==> SampledT(TTable(LutDetail), DTable(k, LutDetail, mag), dist) == 1.0
  {
    TTableShape(LutDetail);
    ParamAtStart(k, LutDetail, mag);
    forall dist | dist < 0.0
      ensures SampledT(TTable(LutDetail), DTable(k, LutDetail, mag), dist) == 1.0
    {
      ParamBeforeStart(k, LutDetail, mag, dist);
    }
  }
}
