/** The arc-length lookup table as values: the evenly spaced parameter column,
    and the two reads `BezierCurve` makes of a table, by parameter
    (`SampleDistance`) and by distance (`SampleT`). */
module Lookup {
  import opened Geometry

  /** The parameter stored at entry `i` of an `n`-entry table: i/(n-1).
      A one-entry table holds only the 0 written before the loop. */
  function SampleParam(i: nat, n: nat): real
  {
    if n <= 1 then 0.0 else i as real / (n - 1) as real
  }

  /** The parameter column `m_tLut` as a freshly built table holds it. */
  function TTable(n: nat): (ts: seq<real>)
    ensures |ts| == n
  {
    seq(n, i requires 0 <= i => SampleParam(i, n))
  }

  predicate NonDecreasing(s: seq<real>)
  {
    forall i, j :: 0 <= i <= j < |s| ==> s[i] <= s[j]
  }

  predicate StrictlyIncreasing(s: seq<real>)
  {
    forall i, j :: 0 <= i < j < |s| ==> s[i] < s[j]
  }

  /** Later entries get larger parameters. */
  lemma SampleParamInOrder(i: nat, j: nat, n: nat)
    requires i < j < n
    ensures SampleParam(i, n) < SampleParam(j, n)
  {
    DividedInOrder(i as real, j as real, (n - 1) as real);
  }

  /** Every entry's parameter lies in [0,1], the last one is 1. */
  lemma SampleParamInUnit(i: nat, n: nat)
    requires i < n
    ensures 0.0 <= SampleParam(i, n) <= 1.0
    ensures n >= 2 && i == n - 1 ==> SampleParam(i, n) == 1.0
  {
    if n >= 2 {
      var w := (n - 1) as real;
      FractionOfWhole(i as real, w);
      if i == n - 1 {
        assert i as real == w;
      }
    }
  }

  /** The parameter column starts at 0, ends at 1 and strictly increases,
      so every entry lies in [0,1]. */
  lemma TTableShape(n: nat)
    requires n >= 2
    ensures TTable(n)[0] == 0.0 && TTable(n)[n - 1] == 1.0
    ensures StrictlyIncreasing(TTable(n))
    ensures forall i :: 0 <= i < n ==> 0.0 <= TTable(n)[i] <= 1.0
  {
    var ts := TTable(n);
    SampleParamInUnit(n - 1, n);
    forall i, j | 0 <= i < j < n
      ensures ts[i] < ts[j]
    {
      SampleParamInOrder(i, j, n);
    }
    forall i | 0 <= i < n
      ensures 0.0 <= ts[i] <= 1.0
    {
      SampleParamInUnit(i, n);
    }
  }

  lemma UnitRatio(w: real)
    requires w > 0.0
    ensures w / w == 1.0
  {
  }

  /** The table index a parameter falls in: floor(t * (count - 1)). */
  function IndexOf(t: real, count: nat): int
  {
    (t * (count - 1) as real).Floor
  }

  /** How far past entry `IndexOf(t, count)` the parameter `t` falls, as a
      fraction of one step. */
  function StepFraction(t: real, count: nat): real
  {
    t * (count - 1) as real - IndexOf(t, count) as real
  }

  /** How the two indices `SampleDistance` takes relate to each other and to
      the range of `t`. */
  lemma IndexFacts(t: real, count: nat)
    requires count >= 2
    ensures (t * (count - 1) as real + 1.0).Floor == IndexOf(t, count) + 1
    ensures IndexOf(t, count) + 1 >= count <==> t >= 1.0
    ensures IndexOf(t, count) < 0 <==> t < 0.0
  {
    var w := (count - 1) as real;
    if t >= 1.0 {
      assert t * w - w == (t - 1.0) * w;
    } else {
      assert w - t * w == (1.0 - t) * w;
      PositiveProduct(1.0 - t, w);
    }
    if t < 0.0 {
      PositiveProduct(-t, w);
    }
  }

  /** `SampleDistance`: the distance column read at parameter `t`, by direct
      indexing and linear interpolation between the two neighbouring entries.
      An empty table reads as 0 (the C# code logs an error there). */
  function SampleDistance(d: seq<real>, t: real): (r: real)
    ensures |d| == 0 ==> r == 0.0
    ensures |d| == 1 ==> r == d[0]
    ensures |d| >= 2 && t < 0.0 ==> r == d[0]
    ensures |d| >= 1 && t >= 1.0 ==> r == d[|d| - 1]
    ensures |d| >= 2 && 0.0 <= t < 1.0 ==>
              var k := IndexOf(t, |d|);
              0 <= k < |d| - 1 && Between(d[k], d[k + 1], r) &&
              r == Lerp(d[k], d[k + 1], StepFraction(t, |d|))
  {
    var count := |d|;
    if count == 0 then 0.0
    else if count == 1 then d[0]
    else
      var iFloat := t * (count - 1) as real;
      var idLower := iFloat.Floor;
      var idUpper := (iFloat + 1.0).Floor;
      IndexFacts(t, count);
      if idUpper >= count then d[count - 1]
      else if idLower < 0 then d[0]
      else Lerp(d[idLower], d[idUpper], iFloat - idLower as real)
  }

  /** Read at the parameter of entry `k`, the table gives back entry `k`. */
  lemma SampleDistanceAtEntry(d: seq<real>, k: nat)
    requires k < |d|
    ensures SampleDistance(d, SampleParam(k, |d|)) == d[k]
  {
    if |d| >= 2 {
      var t, w := SampleParam(k, |d|), (|d| - 1) as real;
      assert t == k as real / w;
      assert t * w == k as real;
      if k < |d| - 1 {
        FractionOfWhole(k as real, w);
        DividedInOrder(k as real, w, w);
        assert IndexOf(t, |d|) == k;
        assert StepFraction(t, |d|) == 0.0;
      } else {
        assert t == w / w;
      }
    }
  }

  /** On a non-decreasing column, every read lies between the first and the
      last entry. */
  lemma SampleDistanceWithinColumn(d: seq<real>, t: real)
    requires |d| >= 1 && NonDecreasing(d)
    ensures d[0] <= SampleDistance(d, t) <= d[|d| - 1]
  {
    if |d| >= 2 && 0.0 <= t < 1.0 {
      var r, k := SampleDistance(d, t), IndexOf(t, |d|);
      assert 0 <= k < |d| - 1;
      assert d[0] <= d[k] <= d[k + 1] <= d[|d| - 1];
    }
  }

  lemma IndexOrder(t1: real, t2: real, count: nat)
    requires count >= 2 && t1 <= t2
    ensures IndexOf(t1, count) <= IndexOf(t2, count)
    ensures IndexOf(t1, count) == IndexOf(t2, count) ==> StepFraction(t1, count) <= StepFraction(t2, count)
  {
    var w := (count - 1) as real;
    MulMonotone(w, t1, t2);
    var x1, x2 := t1 * w, t2 * w;
    assert x1 <= x2;
    assert IndexOf(t1, count) == x1.Floor && IndexOf(t2, count) == x2.Floor;
  }

  lemma SampleDistanceMonotoneInside(d: seq<real>, t1: real, t2: real)
    requires |d| >= 2 && NonDecreasing(d)
    requires 0.0 <= t1 <= t2 < 1.0
    ensures SampleDistance(d, t1) <= SampleDistance(d, t2)
  {
    var n := |d|;
    var r1, r2 := SampleDistance(d, t1), SampleDistance(d, t2);
    var k1, k2 := IndexOf(t1, n), IndexOf(t2, n);
    assert 0 <= k1 < n - 1 && 0 <= k2 < n - 1;
    IndexOrder(t1, t2, n);
    if k1 == k2 {
      LerpMonotone(d[k1], d[k1 + 1], StepFraction(t1, n), StepFraction(t2, n));
    } else {
      assert d[k1 + 1] <= d[k2];
    }
  }

  /** On a non-decreasing column, reading at a larger parameter never gives a
      smaller distance. */
  lemma SampleDistanceMonotone(d: seq<real>, t1: real, t2: real)
    requires NonDecreasing(d)
    requires t1 <= t2
    ensures SampleDistance(d, t1) <= SampleDistance(d, t2)
  {
    if |d| >= 2 {
      SampleDistanceWithinColumn(d, t1);
      SampleDistanceWithinColumn(d, t2);
      if 0.0 <= t1 && t2 < 1.0 {
        SampleDistanceMonotoneInside(d, t1, t2);
      }
    }
  }

  /** Entries `j` and `j + 1` of the distance column enclose `dist`. */
  predicate Brackets(d: seq<real>, j: nat, dist: real)
  {
    j + 1 < |d| && d[j] <= dist <= d[j + 1]
  }

  /** Where `SampleT`'s scan of the distance column stops when it starts at
      `from`: the first bracketing index, or the last index of the column
      when no pair brackets `dist`. */
  function FirstBracket(d: seq<real>, dist: real, from: nat): (j: nat)
    requires from < |d|
    ensures from <= j < |d|
    ensures j < |d| - 1 ==> Brackets(d, j, dist)
    ensures forall i :: from <= i < j ==> !Brackets(d, i, dist)
    decreases |d| - from
  {
    if from == |d| - 1 || Brackets(d, from, dist) then from
    else FirstBracket(d, dist, from + 1)
  }

  /** `SampleT`: the parameter of the first pair of distance entries that
      encloses `dist`, interpolated by where `dist` falls between them; the
      last parameter when no pair encloses it; 0 for an empty table (the
      C# code logs an error there). */
  function SampledT(ts: seq<real>, d: seq<real>, dist: real): real
    requires |ts| == |d|
  {
    if |ts| == 0 then 0.0
    else if |ts| == 1 then ts[0]
    else
      var j := FirstBracket(d, dist, 0);
      if j + 1 >= |ts| then ts[|ts| - 1]
      else Lerp(ts[j], ts[j + 1], InverseLerp(d[j], d[j + 1], dist))
  }

  /** First match wins: when pair `j` is the first to enclose `dist`, the
      result is interpolated inside that pair and lies between its two
      parameters. */
  lemma SampledTFirstMatch(ts: seq<real>, d: seq<real>, dist: real, j: nat)
    requires |ts| == |d|
    requires Brackets(d, j, dist)
    requires forall i :: 0 <= i < j ==> !Brackets(d, i, dist)
    ensures SampledT(ts, d, dist) == Lerp(ts[j], ts[j + 1], InverseLerp(d[j], d[j + 1], dist))
    ensures Between(ts[j], ts[j + 1], SampledT(ts, d, dist))
  {
    var k := FirstBracket(d, dist, 0);
  }

  /** When no pair encloses `dist`, the result is the last parameter. */
  lemma SampledTNoMatch(ts: seq<real>, d: seq<real>, dist: real)
    requires |ts| == |d| >= 1
    requires forall i :: 0 <= i < |d| - 1 ==> !Brackets(d, i, dist)
    ensures SampledT(ts, d, dist) == ts[|ts| - 1]
  {
    if |ts| >= 2 {
      var k := FirstBracket(d, dist, 0);
    }
  }

  /** On a strictly increasing distance column, looking up an entry's own
      distance gives back that entry's parameter: the pair ending at the
      entry is the first to enclose it (the pair starting at it, for the
      first entry). */
  lemma SampledTAtEntry(ts: seq<real>, d: seq<real>, i: nat)
    requires |ts| == |d| >= 2 && i < |d|
    requires StrictlyIncreasing(d)
    ensures SampledT(ts, d, d[i]) == ts[i]
  {
    if i == 0 {
      assert Brackets(d, 0, d[0]);
      SampledTFirstMatch(ts, d, d[0], 0);
      assert InverseLerp(d[0], d[1], d[0]) == 0.0;
    } else {
      forall j | 0 <= j < i - 1
        ensures !Brackets(d, j, d[i])
      {
        assert d[j + 1] < d[i];
      }
      assert Brackets(d, i - 1, d[i]);
      SampledTFirstMatch(ts, d, d[i], i - 1);
      assert d[i - 1] < d[i];
      UnitRatio(d[i] - d[i - 1]);
      assert InverseLerp(d[i - 1], d[i], d[i]) == 1.0;
    }
  }

  /** Walking a non-decreasing column from a first entry at or below `dist`,
      every pair passed without enclosing `dist` leaves the next entry below
      it. */
  lemma {:induction false} PassedBelow(d: seq<real>, dist: real, i: nat)
    requires i < |d| && d[0] <= dist
    requires forall m :: 0 <= m < i ==> !Brackets(d, m, dist)
    ensures d[i] <= dist
  {
    if i > 0 {
      PassedBelow(d, dist, i - 1);
      assert !Brackets(d, i - 1, dist);
    }
  }

  /** A distance within the column's first and last entries is enclosed by
      some pair, so the scan stops before the last index. */
  lemma BracketFound(d: seq<real>, dist: real)
    requires |d| >= 2 && d[0] <= dist <= d[|d| - 1]
    ensures FirstBracket(d, dist, 0) < |d| - 1
  {
    var j := FirstBracket(d, dist, 0);
    if j == |d| - 1 {
      PassedBelow(d, dist, |d| - 2);
      assert Brackets(d, |d| - 2, dist);
      assert false;
    }
  }

  /** On a non-decreasing column the scan for a larger distance never stops
      at an earlier pair. */
  lemma BracketsInOrder(d: seq<real>, d1: real, d2: real)
    requires |d| >= 2 && NonDecreasing(d)
    requires d[0] <= d1 <= d2 <= d[|d| - 1]
    ensures FirstBracket(d, d1, 0) <= FirstBracket(d, d2, 0)
  {
    var j1, j2 := FirstBracket(d, d1, 0), FirstBracket(d, d2, 0);
    BracketFound(d, d1);
    BracketFound(d, d2);
    if j2 < j1 {
      assert false;
    }
  }

  /** `SampleT` is monotone on the range of a non-decreasing distance column:
      a larger distance never gives a smaller parameter. Either both
      distances fall in the same pair, where interpolation is monotone, or the
      first pair ends no later than the second one starts. */
  lemma SampledTMonotone(ts: seq<real>, d: seq<real>, d1: real, d2: real)
    requires |ts| == |d| >= 2
    requires NonDecreasing(d) && NonDecreasing(ts)
    requires d[0] <= d1 <= d2 <= d[|d| - 1]
    ensures SampledT(ts, d, d1) <= SampledT(ts, d, d2)
  {
    var j1, j2 := FirstBracket(d, d1, 0), FirstBracket(d, d2, 0);
    BracketFound(d, d1);
    BracketFound(d, d2);
    BracketsInOrder(d, d1, d2);
    SampledTFirstMatch(ts, d, d1, j1);
    SampledTFirstMatch(ts, d, d2, j2);
    if j1 == j2 {
      InverseLerpMonotone(d[j1], d[j1 + 1], d1, d2);
      LerpMonotone(ts[j1], ts[j1 + 1], InverseLerp(d[j1], d[j1 + 1], d1), InverseLerp(d[j1], d[j1 + 1], d2));
    } else {
      assert ts[j1] <= ts[j1 + 1] <= ts[j2] <= ts[j2 + 1];
    }
  }
}
