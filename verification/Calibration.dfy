/** Drift interpolation between probe passes (`validation/harness/calibration.py`). */
module Calibration {
  import opened Sorting

  /** When a probe pass ran, and its comparable factor. */
  datatype Point = Point(at: real, factor: real)

  predicate PointLeq(a: Point, b: Point) {
    a.at < b.at || (a.at == b.at && a.factor <= b.factor)
  }

  function Share(rise: real, part: real, whole: real): real
    requires whole != 0.0
  {
    rise * part / whole
  }

  function Interpolate(p: Point, q: Point, at: real): real {
    if q.at == p.at then q.factor else p.factor + Share(q.factor - p.factor, at - p.at, q.at - p.at)
  }

  /** The first adjacent pair around `at` decides; past the last pass its factor stands. */
  function FactorFrom(points: seq<Point>, at: real): real
    requires points != []
  {
    if |points| == 1 then points[0].factor
    else if points[0].at <= at <= points[1].at then Interpolate(points[0], points[1], at)
    else FactorFrom(points[1..], at)
  }

  function FactorAt(passes: seq<Point>, at: real): real {
    var points := Sort(PointLeq, passes);
    if points == [] then 1.0
    else if at <= points[0].at then points[0].factor
    else FactorFrom(points, at)
  }

  /** Without a pass there is no drift. */
  lemma NoPassesNoDrift(at: real)
    ensures FactorAt([], at) == 1.0
  {}

  lemma PointOrder()
    ensures TotalOrder(PointLeq)
  {}

  /** The order in which passes were recorded does not matter. */
  lemma OrderOfPassesIsIrrelevant(a: seq<Point>, b: seq<Point>, at: real)
    requires multiset(a) == multiset(b)
    ensures FactorAt(a, at) == FactorAt(b, at)
  {
    PointOrder();
    SortIgnoresOrder(PointLeq, a, b);
  }

  // ---- One segment ----

  lemma ShareMonotone(rise: real, a: real, b: real, whole: real)
    requires a <= b && whole > 0.0 && rise >= 0.0
    ensures Share(rise, a, whole) <= Share(rise, b, whole)
  {
    assert rise * a <= rise * b;
  }

  lemma ShareEnds(rise: real, whole: real)
    requires whole != 0.0
    ensures Share(rise, 0.0, whole) == 0.0 && Share(rise, whole, whole) == rise
  {}

  lemma ShareOfFall(rise: real, part: real, whole: real)
    requires whole != 0.0
    ensures Share(-rise, part, whole) == -Share(rise, part, whole)
  {}

  /** Between its ends a segment stays between their factors, and moves from one to the other. */
  lemma SegmentShape(p: Point, q: Point, s: real, t: real)
    requires p.at < q.at && p.at <= s <= t <= q.at
    ensures p.factor <= q.factor ==> p.factor <= Interpolate(p, q, s) <= Interpolate(p, q, t) <= q.factor
    ensures p.factor >= q.factor ==> p.factor >= Interpolate(p, q, s) >= Interpolate(p, q, t) >= q.factor
    ensures Interpolate(p, q, p.at) == p.factor && Interpolate(p, q, q.at) == q.factor
  {
    var whole, rise := q.at - p.at, q.factor - p.factor;
    var climb := if rise >= 0.0 then rise else -rise;
    hide Share;
    ShareEnds(rise, whole);
    ShareEnds(climb, whole);
    ShareMonotone(climb, 0.0, s - p.at, whole);
    ShareMonotone(climb, s - p.at, t - p.at, whole);
    ShareMonotone(climb, t - p.at, whole, whole);
    ShareOfFall(rise, s - p.at, whole);
    ShareOfFall(rise, t - p.at, whole);
  }

  // ---- The whole curve ----

  /** The sorted passes around a time: strictly after `points[i]`, not after `points[i + 1]`. */
  predicate Around(points: seq<Point>, i: nat, at: real) {
    i + 1 < |points| && points[i].at < at <= points[i + 1].at
  }

  /** Inside the range the pair around `at` decides, and its two times differ: equal times are never interpolated. */
  lemma {:induction false} PairAroundDecides(points: seq<Point>, at: real, i: nat)
    requires Sorted(PointLeq, points) && Around(points, i, at)
    ensures FactorFrom(points, at) == Interpolate(points[i], points[i + 1], at)
  {
    if i > 0 {
      assert PointLeq(points[1], points[i]) || i == 1;
      assert Sorted(PointLeq, points[1..]);
      PairAroundDecides(points[1..], at, i - 1);
    }
  }

  lemma {:induction false} FindPair(points: seq<Point>, at: real) returns (i: nat)
    requires points != [] && points[0].at < at <= points[|points| - 1].at
    ensures Around(points, i, at)
  {
    if at <= points[1].at {
      i := 0;
    } else {
      i := FindPair(points[1..], at);
      i := i + 1;
    }
  }

  lemma {:induction false} PastTheEnd(points: seq<Point>, at: real)
    requires points != [] && Sorted(PointLeq, points) && points[|points| - 1].at < at
    ensures FactorFrom(points, at) == points[|points| - 1].factor
  {
    if |points| > 1 {
      assert PointLeq(points[1], points[|points| - 1]) || |points| == 2;
      PastTheEnd(points[1..], at);
    }
  }

  ghost predicate OneWay(f: real, a: real, b: real, g: real) {
    (f <= a <= b <= g) || (f >= a >= b >= g)
  }

  /** Between two neighbouring passes the curve stays between their factors and moves one way. */
  lemma MovesOneWayBetweenNeighbours(passes: seq<Point>, i: nat, s: real, t: real)
    requires s <= t
    requires var points := Sort(PointLeq, passes); Around(points, i, s) && Around(points, i, t)
    ensures var points := Sort(PointLeq, passes);
            OneWay(points[i].factor, FactorAt(passes, s), FactorAt(passes, t), points[i + 1].factor)
  {
    PointOrder();
    SortCorrect(PointLeq, passes);
    var points := Sort(PointLeq, passes);
    PairAroundDecides(points, s, i);
    PairAroundDecides(points, t, i);
    SegmentShape(points[i], points[i + 1], s, t);
    assert PointLeq(points[0], points[i]) || i == 0;
  }

  /** Every time is before the first pass, around two neighbours, or after the last pass; the ends are flat. */
  lemma EveryTimeIsCovered(passes: seq<Point>, at: real) returns (i: nat)
    requires passes != []
    ensures var points := Sort(PointLeq, passes);
            && points != []
            && (if at <= points[0].at then FactorAt(passes, at) == points[0].factor
                else if at > points[|points| - 1].at then FactorAt(passes, at) == points[|points| - 1].factor
                else Around(points, i, at))
  {
    PointOrder();
    SortCorrect(PointLeq, passes);
    var points := Sort(PointLeq, passes);
    assert |multiset(points)| == |multiset(passes)|;
    hide Sort, TotalPreorder, FactorFrom, Sorted;
    i := 0;
    if at > points[|points| - 1].at {
      PastTheEnd(points, at);
    } else if at > points[0].at {
      i := FindPair(points, at);
    }
  }

  lemma TimesAreSorted(points: seq<Point>, i: nat, j: nat)
    requires Sorted(PointLeq, points) && i <= j < |points|
    ensures points[i].at <= points[j].at
    ensures points[i].at == points[j].at ==> points[i].factor <= points[j].factor
  {
    assert i == j || PointLeq(points[i], points[j]);
  }

  lemma OwnTimeWhenSorted(points: seq<Point>, k: nat)
    requires Sorted(PointLeq, points) && k < |points| && points[0].at < points[k].at
    requires forall j :: 0 <= j < |points| && points[j].at == points[k].at ==> points[k].factor <= points[j].factor
    ensures FactorFrom(points, points[k].at) == points[k].factor
  {
    var p := points[k];
    TimesAreSorted(points, k, |points| - 1);
    var i := FindPair(points, p.at);
    PairAroundDecides(points, p.at, i);
    SegmentShape(points[i], points[i + 1], p.at, points[i + 1].at);
    if k <= i {
      TimesAreSorted(points, k, i);
    } else {
      TimesAreSorted(points, i + 1, k);
    }
  }

  /** At a pass's own time the curve gives the smallest factor recorded at that time; with distinct times, its own. */
  lemma OwnTimeGivesSmallestFactor(passes: seq<Point>, p: Point)
    requires p in passes && forall q <- passes :: q.at == p.at ==> p.factor <= q.factor
    ensures FactorAt(passes, p.at) == p.factor
  {
    PointOrder();
    SortCorrect(PointLeq, passes);
    var points := Sort(PointLeq, passes);
    hide Sort, Sorted, FactorFrom, TotalPreorder;
    assert p in multiset(points);
    var k :| 0 <= k < |points| && points[k] == p;
    forall j | 0 <= j < |points| ensures points[j] in passes {
      assert points[j] in multiset(points);
    }
    TimesAreSorted(points, 0, k);
    if points[0].at < p.at {
      OwnTimeWhenSorted(points, k);
    }
  }

  /** The curve never leaves the range of the recorded factors. */
  lemma StaysInRange(passes: seq<Point>, at: real, low: real, high: real)
    requires passes != [] && forall p <- passes :: low <= p.factor <= high
    ensures low <= FactorAt(passes, at) <= high
  {
    var i := EveryTimeIsCovered(passes, at);
    PointOrder();
    SortCorrect(PointLeq, passes);
    var points := Sort(PointLeq, passes);
    forall j | 0 <= j < |points| ensures low <= points[j].factor <= high {
      assert points[j] in multiset(points);
    }
    if Around(points, i, at) {
      MovesOneWayBetweenNeighbours(passes, i, at, at);
    }
  }

  lemma FactorBetween(passes: seq<Point>, i: nat, at: real)
    requires var points := Sort(PointLeq, passes); Around(points, i, at)
    ensures var points := Sort(PointLeq, passes);
            FactorAt(passes, at) == Interpolate(points[i], points[i + 1], at) && points[i].at < points[i + 1].at
  {
    PointOrder();
    SortCorrect(PointLeq, passes);
    var points := Sort(PointLeq, passes);
    hide Sort, TotalPreorder;
    PairAroundDecides(points, at, i);
    hide Interpolate, FactorFrom;
    assert PointLeq(points[0], points[i]) || i == 0;
  }

  /** Between two neighbouring passes the factor moves linearly with time. */
  lemma MovesLinearly(passes: seq<Point>, i: nat, s: real, t: real)
    requires var points := Sort(PointLeq, passes); Around(points, i, s) && Around(points, i, t)
    ensures var points := Sort(PointLeq, passes); var p, q := points[i], points[i + 1];
            (FactorAt(passes, t) - FactorAt(passes, s)) * (q.at - p.at) == (q.factor - p.factor) * (t - s)
  {
    var points := Sort(PointLeq, passes);
    hide Sort, FactorAt, Share;
    FactorBetween(passes, i, s);
    FactorBetween(passes, i, t);
    var p, q := points[i], points[i + 1];
    var rise, whole := q.factor - p.factor, q.at - p.at;
    ShareIsLinear(rise, s - p.at, t - p.at, whole);
    assert FactorAt(passes, t) - FactorAt(passes, s) == Share(rise, t - p.at, whole) - Share(rise, s - p.at, whole);
    assert (t - p.at) - (s - p.at) == t - s;
  }

  lemma ShareIsLinear(rise: real, a: real, b: real, whole: real)
    requires whole != 0.0
    ensures (Share(rise, b, whole) - Share(rise, a, whole)) * whole == rise * (b - a)
  {
    assert Share(rise, b, whole) * whole == rise * b && Share(rise, a, whole) * whole == rise * a;
  }
}
