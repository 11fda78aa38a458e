/** The arc-length table `BuildLUT` fills, as a function of the control
    points: chord lengths between evenly spaced curve samples, accumulated.
    `Vector2.magnitude` is a parameter `mag`, known only to be non-negative
    (and 0 on the zero vector where that is needed). */
module ArcLength {
  import opened Geometry
  import opened Bezier
  import opened Lookup

  ghost predicate NonNegative(mag: Vec2 -> real)
  {
    forall v :: mag(v) >= 0.0
  }

  /** The point chord `i` of the table ends at: `m_pointA` for entry 0, the
      curve point at i/(n-1) after. It is written with `DeCasteljau` rather
      than `CurvePoint` only so that the build loop's proof does not unfold
      the curve point at every step; `CurvePointByReduction` shows the two
      are the point `Point(i/(n-1))` returns. */
  function SamplePoint(k: Controls, n: nat, i: nat): Vec2
  {
    if i == 0 then k.a else DeCasteljau(Polygon(k), SampleParam(i, n))
  }

  /** Entry `i` of the distance column: the lengths of the first `i` chords,
      each measured as `(prev - pt).magnitude`, added up. */
  function ArcTo(k: Controls, n: nat, i: nat, mag: Vec2 -> real): real
  {
    if i == 0 then 0.0
    else ArcTo(k, n, i - 1, mag) + mag(Sub(SamplePoint(k, n, i - 1), SamplePoint(k, n, i)))
  }

  /** The distance column `m_dLut` as a freshly built table holds it. */
  function DTable(k: Controls, n: nat, mag: Vec2 -> real): (ds: seq<real>)
    ensures |ds| == n
  {
    seq(n, i requires 0 <= i => ArcTo(k, n, i, mag))
  }

  /** The first `i` entries of the parameter column, in the order the build
      loop writes them. Proof scaffolding: this restates `TTable` one entry
      at a time so that it can serve as `FillTable`'s loop invariant;
      `PrefixesAreColumns` links the two. */
  ghost function TPrefix(n: nat, i: nat): (ts: seq<real>)
    ensures |ts| == i
  {
    if i == 0 then [] else TPrefix(n, i - 1) + [SampleParam(i - 1, n)]
  }

  /** The first `i` entries of the distance column, in the order the build
      loop writes them. Proof scaffolding for `FillTable`'s loop invariant,
      as `TPrefix` is for the parameter column. */
  ghost function DPrefix(k: Controls, n: nat, i: nat, mag: Vec2 -> real): (ds: seq<real>)
    ensures |ds| == i
  {
    if i == 0 then [] else DPrefix(k, n, i - 1, mag) + [ArcTo(k, n, i - 1, mag)]
  }

  /** Written out to the end, the loop's prefixes are the two columns. */
  lemma {:induction false} PrefixesAreColumns(k: Controls, n: nat, i: nat, mag: Vec2 -> real)
    requires i <= n
    ensures TPrefix(n, i) == TTable(n)[..i]
    ensures DPrefix(k, n, i, mag) == DTable(k, n, mag)[..i]
  {
    if i > 0 {
      PrefixesAreColumns(k, n, i - 1, mag);
      assert TTable(n)[..i] == TTable(n)[..i - 1] + [TTable(n)[i - 1]];
      assert DTable(k, n, mag)[..i] == DTable(k, n, mag)[..i - 1] + [DTable(k, n, mag)[i - 1]];
    }
  }

  /** `m_totalLength` after a build: the last entry of the distance column. */
  function TotalLength(k: Controls, n: nat, mag: Vec2 -> real): real
    requires n >= 1
  {
    ArcTo(k, n, n - 1, mag)
  }

  /** Adding chords never shortens the accumulated length. */
  lemma {:induction false} ArcToMonotone(k: Controls, n: nat, i: nat, j: nat, mag: Vec2 -> real)
    requires NonNegative(mag)
    requires i <= j
    ensures 0.0 <= ArcTo(k, n, i, mag) <= ArcTo(k, n, j, mag)
    decreases j
  {
    if i < j {
      ArcToMonotone(k, n, i, j - 1, mag);
      assert mag(Sub(SamplePoint(k, n, j - 1), SamplePoint(k, n, j))) >= 0.0;
    } else if i > 0 {
      ArcToMonotone(k, n, 0, i - 1, mag);
      assert mag(Sub(SamplePoint(k, n, i - 1), SamplePoint(k, n, i))) >= 0.0;
    }
  }

  /** A built distance column starts at 0, never decreases, and ends at the
      total length. */
  lemma DTableShape(k: Controls, n: nat, mag: Vec2 -> real)
    requires n >= 1 && NonNegative(mag)
    ensures DTable(k, n, mag)[0] == 0.0
    ensures NonDecreasing(DTable(k, n, mag))
    ensures DTable(k, n, mag)[n - 1] == TotalLength(k, n, mag)
  {
    var ds := DTable(k, n, mag);
    forall i, j | 0 <= i <= j < n
      ensures ds[i] <= ds[j]
    {
      ArcToMonotone(k, n, i, j, mag);
    }
  }

  /** A curve whose four control points coincide has length 0. */
  lemma {:induction false} DegenerateArc(k: Controls, n: nat, i: nat, mag: Vec2 -> real)
    requires k.a == k.b == k.c == k.d
    requires mag(Zero) == 0.0
    ensures ArcTo(k, n, i, mag) == 0.0
  {
    if i > 0 {
      DegenerateArc(k, n, i - 1, mag);
      DegenerateCurve(k, SampleParam(i, n));
      DegenerateCurve(k, SampleParam(i - 1, n));
      CurvePointByReduction(k, SampleParam(i, n));
      CurvePointByReduction(k, SampleParam(i - 1, n));
      assert Sub(SamplePoint(k, n, i - 1), SamplePoint(k, n, i)) == Zero;
    }
  }

  /** `Distance` at the parameter of table entry `i` returns that entry. */
  lemma DistanceAtSample(k: Controls, n: nat, i: nat, mag: Vec2 -> real)
    requires i < n
    ensures SampleDistance(DTable(k, n, mag), TTable(n)[i]) == ArcTo(k, n, i, mag)
  {
    SampleDistanceAtEntry(DTable(k, n, mag), i);
  }

  /** `Distance` never decreases along the curve and stays within
      [0, total length]. */
  lemma DistanceMonotone(k: Controls, n: nat, mag: Vec2 -> real, t1: real, t2: real)
    requires n >= 1 && NonNegative(mag)
    requires t1 <= t2
    ensures 0.0 <= SampleDistance(DTable(k, n, mag), t1)
    ensures SampleDistance(DTable(k, n, mag), t1) <= SampleDistance(DTable(k, n, mag), t2)
    ensures SampleDistance(DTable(k, n, mag), t2) <= TotalLength(k, n, mag)
  {
    var ds := DTable(k, n, mag);
    DTableShape(k, n, mag);
    SampleDistanceMonotone(ds, t1, t2);
    SampleDistanceWithinColumn(ds, t1);
    SampleDistanceWithinColumn(ds, t2);
  }

  /** `T` undoes `Distance` at every table entry, as long as the curve
      moves between consecutive samples (the distance column strictly
      increases). */
  lemma ParamOfDistanceAtSample(k: Controls, n: nat, mag: Vec2 -> real, i: nat)
    requires 2 <= n && i < n
    requires StrictlyIncreasing(DTable(k, n, mag))
    ensures SampledT(TTable(n), DTable(k, n, mag), SampleDistance(DTable(k, n, mag), TTable(n)[i])) == TTable(n)[i]
  {
    DistanceAtSample(k, n, i, mag);
    SampledTAtEntry(TTable(n), DTable(k, n, mag), i);
  }

  /** `T` always returns a parameter in [0,1]. */
  lemma ParamInUnitRange(k: Controls, n: nat, mag: Vec2 -> real, dist: real)
    ensures 0.0 <= SampledT(TTable(n), DTable(k, n, mag), dist) <= 1.0
  {
    var ts, ds := TTable(n), DTable(k, n, mag);
    if n >= 2 {
      TTableShape(n);
      var j := FirstBracket(ds, dist, 0);
      if j + 1 < n {
        assert 0.0 <= ts[j] <= 1.0 && 0.0 <= ts[j + 1] <= 1.0;
      }
    }
  }

  /** `T(0)` is 0: the first pair of entries encloses distance 0 and it sits
      at the pair's start. */
  lemma ParamAtStart(k: Controls, n: nat, mag: Vec2 -> real)
    requires n >= 2 && NonNegative(mag)
    ensures SampledT(TTable(n), DTable(k, n, mag), 0.0) == 0.0
  {
    var ts, ds := TTable(n), DTable(k, n, mag);
    DTableShape(k, n, mag);
    TTableShape(n);
    assert Brackets(ds, 0, 0.0);
    SampledTFirstMatch(ts, ds, 0.0, 0);
  }

  /** A distance before the start of the curve finds no enclosing pair, so
      `T` falls through to the LAST parameter, 1, and not to 0. */
  lemma ParamBeforeStart(k: Controls, n: nat, mag: Vec2 -> real, dist: real)
    requires n >= 2 && NonNegative(mag)
    requires dist < 0.0
    ensures SampledT(TTable(n), DTable(k, n, mag), dist) == 1.0
  {
    var ts, ds := TTable(n), DTable(k, n, mag);
    DTableShape(k, n, mag);
    TTableShape(n);
    forall i | 0 <= i < n - 1
      ensures !Brackets(ds, i, dist)
    {
      assert ds[0] <= ds[i];
    }
    SampledTNoMatch(ts, ds, dist);
  }

  /** A distance past the total length finds no enclosing pair either, and
      `T` returns 1. */
  lemma ParamPastEnd(k: Controls, n: nat, mag: Vec2 -> real, dist: real)
    requires n >= 2 && NonNegative(mag)
    requires dist > TotalLength(k, n, mag)
    ensures SampledT(TTable(n), DTable(k, n, mag), dist) == 1.0
  {
    var ts, ds := TTable(n), DTable(k, n, mag);
    DTableShape(k, n, mag);
    TTableShape(n);
    forall i | 0 <= i < n - 1
      ensures !Brackets(ds, i, dist)
    {
      assert ds[i + 1] <= ds[n - 1];
    }
    SampledTNoMatch(ts, ds, dist);
  }

  /** On [0, total length], a larger distance never gives `T` a smaller
      parameter. */
  lemma ParamMonotone(k: Controls, n: nat, mag: Vec2 -> real, d1: real, d2: real)
    requires n >= 1 && NonNegative(mag)
    requires 0.0 <= d1 <= d2 <= TotalLength(k, n, mag)
    ensures SampledT(TTable(n), DTable(k, n, mag), d1) <= SampledT(TTable(n), DTable(k, n, mag), d2)
  {
    if n >= 2 {
      var ts, ds := TTable(n), DTable(k, n, mag);
      DTableShape(k, n, mag);
      TTableShape(n);
      assert NonDecreasing(ts) by {
        forall i, j | 0 <= i <= j < n
          ensures ts[i] <= ts[j]
        {
          if i < j {
            assert ts[i] < ts[j];
          }
        }
      }
      SampledTMonotone(ts, ds, d1, d2);
    }
  }

  /** Monotonicity stops at 0: a negative distance gives `T` the last
      parameter, 1, while distance 0 gives it 0. */
  lemma ParamNotMonotoneAcrossZero(k: Controls, n: nat, mag: Vec2 -> real)
    requires n >= 2 && NonNegative(mag)
    ensures SampledT(TTable(n), DTable(k, n, mag), -1.0) > SampledT(TTable(n), DTable(k, n, mag), 0.0)
  {
    ParamBeforeStart(k, n, mag, -1.0);
    ParamAtStart(k, n, mag);
  }
}
