/** Stations along a path (`path.py`): wrapping, the signed gap between two of
    them, and how the resampled points are spaced. */
module Stations {

  // ----- real remainders -----

  /** Python's `%` on floats, for a positive divisor. */
  function Mod(d: real, l: real): (r: real)
    requires l > 0.0
    ensures 0.0 <= r < l
    ensures d == r + Turns(d, l) as real * l
  {
    ModFacts(d, l);
    d - Turns(d, l) as real * l
  }

  function Turns(d: real, l: real): int
    requires l > 0.0
  {
    (d / l).Floor
  }

  lemma ModFacts(d: real, l: real)
    requires l > 0.0
    ensures 0.0 <= d - Turns(d, l) as real * l < l
  {
    var t := Turns(d, l) as real;
    QuotientTimes(d, l);
    ProductGap(t, d / l, l);
    Shield(d / l, l);
    Shield(t, l);
  }

  lemma QuotientTimes(total: real, step: real)
    requires step > 0.0
    ensures (total / step) * step == total
  {
  }

  /** A product behind a name, so that facts about several combine linearly. */
  function Times(a: real, l: real): real {
    a * l
  }

  lemma Shield(a: real, l: real)
    ensures Times(a, l) == a * l
  {
  }

  lemma TimesGrows(a: real, b: real, l: real)
    requires l > 0.0
    ensures a <= b ==> Times(a, l) <= Times(b, l)
    ensures a < b ==> Times(a, l) < Times(b, l)
  {
    Scaled(a, b, l);
    ScaledStrictly(a, b, l);
  }

  lemma TimesShifts(a: real, b: real, l: real)
    ensures Times(a + b, l) == Times(a, l) + Times(b, l)
  {
  }

  lemma ProductGap(t: real, q: real, l: real)
    requires t <= q < t + 1.0 && l > 0.0
    ensures 0.0 <= Times(q, l) - Times(t, l) < l
  {
    hide Times;
    TimesGrows(t, q, l);
    TimesGrows(q, t + 1.0, l);
    TimesShifts(t, 1.0, l);
    Shield(1.0, l);
  }

  lemma Scaled(a: real, b: real, l: real)
    requires l > 0.0
    ensures a <= b ==> a * l <= b * l
  {
  }

  lemma ScaledStrictly(a: real, b: real, l: real)
    requires l > 0.0
    ensures a < b ==> a * l < b * l
  {
  }

  /** A remainder is determined by its range and congruence. */
  lemma ModIsUnique(d: real, l: real, r: real, k: int)
    requires l > 0.0 && 0.0 <= r < l && d == r + k as real * l
    ensures Mod(d, l) == r && Turns(d, l) == k
  {
    SmallMultiple(Turns(d, l) - k, l, r - Mod(d, l));
  }

  lemma SmallMultiple(k: int, l: real, x: real)
    requires l > 0.0 && x == k as real * l && -l < x < l
    ensures k == 0
  {
    if k > 0 {
      Scaled(1.0, k as real, l);
    } else if k < 0 {
      Scaled(k as real, -1.0, l);
    }
  }

  // ----- stations -----

  /** Wraps on a loop, clamps on an open path. */
  function Wrap(s: real, length: real, loop: bool): real
    requires length > 0.0
  {
    if loop then Mod(s, length)
    else if s < 0.0 then 0.0 else if s > length then length else s
  }

  /** The signed distance forward from one station to another. */
  function ForwardGap(here: real, there: real, length: real, loop: bool): real
    requires length > 0.0
  {
    var d := there - here;
    if loop then
      var m := Mod(d, length);
      if m > length / 2.0 then m - length else m
    else d
  }

  /** The gap is the difference up to whole turns, and at most half a turn. */
  lemma GapIsShortest(here: real, there: real, length: real) returns (k: int)
    requires length > 0.0
    ensures ForwardGap(here, there, length, true) == there - here + k as real * length
    ensures -length / 2.0 < ForwardGap(here, there, length, true) <= length / 2.0
  {
    var t := Turns(there - here, length);
    if Mod(there - here, length) > length / 2.0 {
      k := -t - 1;
      assert k as real * length == -(t as real * length) - length;
    } else {
      k := -t;
      assert k as real * length == -(t as real * length);
    }
  }

  /** Two numbers congruent modulo the length and both within half a turn agree. */
  lemma ShortIsUnique(a: real, b: real, length: real, k: int)
    requires length > 0.0 && a == b + k as real * length
    requires -length / 2.0 < a <= length / 2.0 && -length / 2.0 < b <= length / 2.0
    ensures a == b
  {
    SmallMultiple(k, length, a - b);
  }

  /** Between the stations of two true positions the gap is the true progress
      exactly when that is more than half a turn backward and at most half a turn
      forward. */
  lemma GapIsProgress(u: real, v: real, length: real)
    requires length > 0.0
    ensures ForwardGap(Wrap(u, length, true), Wrap(v, length, true), length, true) == v - u
            <==> -length / 2.0 < v - u <= length / 2.0
  {
    var a, b := Wrap(u, length, true), Wrap(v, length, true);
    var k := GapIsShortest(a, b, length);
    var gap := ForwardGap(a, b, length, true);
    var tu, tv := Turns(u, length), Turns(v, length);
    var j := k - tv + tu;
    assert j as real * length == k as real * length - tv as real * length + tu as real * length;
    assert gap == (v - u) + j as real * length;
    if -length / 2.0 < v - u <= length / 2.0 {
      ShortIsUnique(gap, v - u, length, j);
    }
  }

  // ----- progress over many projections -----

  /** What summing the gaps between successive stations yields. */
  ghost function Travelled(s: seq<real>, length: real, loop: bool): real
    requires length > 0.0
  {
    if |s| < 2 then 0.0
    else Travelled(s[..|s| - 1], length, loop) + ForwardGap(s[|s| - 2], s[|s| - 1], length, loop)
  }

  /** Successive true positions move by less than half a turn (or exactly half a
      turn forward). */
  ghost predicate ShortSteps(u: seq<real>, length: real) {
    forall i :: 0 <= i < |u| - 1 ==> -length / 2.0 < u[i + 1] - u[i] <= length / 2.0
  }

  ghost function Wrapped(u: seq<real>, length: real): seq<real>
    requires length > 0.0
  {
    seq(|u|, i requires 0 <= i < |u| => Wrap(u[i], length, true))
  }

  /** The unwrapping theorem: with short steps the sum of the gaps between the
      stations is the true progress since the first projection, over any number
      of turns in either direction. */
  lemma {:induction false} Unwraps(u: seq<real>, length: real)
    requires length > 0.0 && |u| > 0 && ShortSteps(u, length)
    ensures Travelled(Wrapped(u, length), length, true) == u[|u| - 1] - u[0]
    decreases |u|
  {
    hide ForwardGap, Wrap;
    if |u| > 1 {
      var n := |u| - 1;
      Unwraps(u[..n], length);
      assert Wrapped(u, length)[..n] == Wrapped(u[..n], length);
      assert -length / 2.0 < u[n - 1 + 1] - u[n - 1] <= length / 2.0;
      GapIsProgress(u[n - 1], u[n], length);
    }
  }

  /** With no assumption on the steps, the sum is off by whole turns only. */
  lemma {:induction false} TravelledIsCongruent(s: seq<real>, length: real) returns (k: int)
    requires length > 0.0 && |s| > 0
    ensures Travelled(s, length, true) == s[|s| - 1] - s[0] + k as real * length
    decreases |s|
  {
    hide ForwardGap;
    k := 0;
    if |s| > 1 {
      var n := |s| - 1;
      var j := TravelledIsCongruent(s[..n], length);
      var i := GapIsShortest(s[n - 1], s[n], length);
      k := j + i;
      assert k as real * length == j as real * length + i as real * length;
    }
  }

  /** On an open path the sum telescopes, whatever the steps. */
  lemma {:induction false} OpenTelescopes(s: seq<real>, length: real)
    requires length > 0.0 && |s| > 0
    ensures Travelled(s, length, false) == s[|s| - 1] - s[0]
    decreases |s|
  {
    if |s| > 1 {
      OpenTelescopes(s[..|s| - 1], length);
    }
  }

  // ----- the resampled points -----

  /** Python's `round`: to nearest, ties to even. */
  function Round(x: real): int {
    var f := x.Floor;
    var r := x - f as real;
    if r < 0.5 then f else if r > 0.5 then f + 1 else if f % 2 == 0 then f else f + 1
  }

  lemma RoundIsNear(x: real)
    ensures -0.5 <= x - Round(x) as real <= 0.5
  {
  }

  lemma RoundOfNear(x: real, i: int)
    requires -0.5 < x - i as real < 0.5
    ensures Round(x) == i
  {
  }

  /** How many intervals a path of length `total` is resampled into. */
  function Count(total: real, step: real): (n: int)
    requires step > 0.0
    ensures n >= 2
  {
    var c := Round(total / step);
    if c > 2 then c else 2
  }

  /** Where resampled point `i` really is, and where the queries take it to be. */
  function TrueStation(i: int, total: real, step: real): real
    requires step > 0.0
  {
    i as real * (total / Count(total, step) as real)
  }

  function NominalStation(i: int, step: real): real {
    i as real * step
  }

  function Abs(x: real): real {
    if x < 0.0 then -x else x
  }

  /** A quotient compares with a bound as the dividend with its multiple. */
  lemma QuotientBound(q: real, step: real, total: real, bound: real)
    requires step > 0.0 && q * step == total
    ensures q < bound <==> total < bound * step
  {
    if q < bound {
      ScaledStrictly(q, bound, step);
    } else {
      Scaled(bound, q, step);
    }
  }

  lemma CountIsNear(total: real, step: real)
    requires step > 0.0
    ensures Abs(Count(total, step) as real * step - total) <= step / 2.0 <==> 1.5 * step <= total
  {
    var x := total / step;
    var c := Round(x);
    QuotientTimes(total, step);
    QuotientBound(x, step, total, 1.5);
    if 1.5 * step <= total {
      RoundIsNear(x);
      assert c >= 2;
      RoundedQuotient(x, c, step, total);
    } else {
      assert c <= 2;
    }
  }

  lemma Near(c: real, x: real, step: real, total: real)
    requires step > 0.0 && x * step == total && -0.5 <= x - c <= 0.5
    ensures -step / 2.0 <= c * step - total <= step / 2.0
  {
    hide Times;
    TimesGrows(c, x + 0.5, step);
    TimesGrows(x - 0.5, c, step);
    TimesShifts(x, 0.5, step);
    TimesShifts(x, -0.5, step);
    Shield(c, step);
    Shield(x, step);
    Shield(0.5, step);
    Shield(-0.5, step);
  }

  lemma RoundedQuotient(x: real, c: int, step: real, total: real)
    requires step > 0.0 && x * step == total && -0.5 <= x - c as real <= 0.5
    ensures Abs(c as real * step - total) <= step / 2.0
  {
    Near(c as real, x, step, total);
  }

  /** How many points that makes: a loop does not repeat its first one. */
  function Points(total: real, step: real, loop: bool): (n: int)
    requires step > 0.0
    ensures n >= 2
  {
    if loop then Count(total, step) else Count(total, step) + 1
  }

  /** A path is indexed by the nominal spacing although its points are spaced
      `total / count` apart.  The two stay within half a step of each other at
      every point exactly when a loop is at least one step long, or an open path,
      which has one point more, at least one and a half. */
  lemma NominalStationDrifts(total: real, step: real, loop: bool)
    requires step > 0.0
    ensures (forall i :: 0 <= i < Points(total, step, loop) ==> Drift(i, total, step) <= step / 2.0)
            <==> (if loop then step else 1.5 * step) <= total
  {
    var n := Count(total, step);
    CountIsNear(total, step);
    LastDrift(n, total, step);
    hide Count, Drift;
    if 1.5 * step <= total {
      forall i | 0 <= i <= n ensures Drift(i, total, step) <= step / 2.0 {
        DriftAt(i, n, total, step);
      }
    } else if loop {
      FewPoints(total, step);
      FirstDrift(total, step);
      if step <= total {
        forall i | 0 <= i < 2 ensures Drift(i, total, step) <= step / 2.0 {
          assert i == 0 || i == 1;
        }
      }
    }
  }

  /** How far the two are apart at a point. */
  function Drift(i: int, total: real, step: real): real
    requires step > 0.0
  {
    Abs(NominalStation(i, step) - TrueStation(i, total, step))
  }

  /** On a short loop only the second of its two points can drift. */
  lemma FirstDrift(total: real, step: real)
    requires step > 0.0 && total < 1.5 * step
    ensures Drift(0, total, step) == 0.0
    ensures Drift(1, total, step) <= step / 2.0 <==> step <= total
  {
    FewPoints(total, step);
  }

  lemma LastDrift(n: int, total: real, step: real)
    requires n >= 2 && step > 0.0 && n == Count(total, step)
    ensures TrueStation(n, total, step) == total
    ensures Drift(n, total, step) == Abs(n as real * step - total)
  {
  }

  /** The drift grows evenly from nothing at the first point. */
  lemma DriftAt(i: int, n: int, total: real, step: real)
    requires 0 <= i <= n && n >= 2 && step > 0.0 && n == Count(total, step)
    ensures Drift(i, total, step) <= Abs(n as real * step - total)
  {
    hide Times, Count, TrueStation, NominalStation;
    var each := step - total / n as real;
    DriftOf(i, n, total, step);
    DriftOf(n, n, total, step);
    LastDrift(n, total, step);
    ScaledBy(i, n, each);
    assert NominalStation(n, step) == n as real * step by { LastNominal(n, step); }
  }

  lemma LastNominal(n: int, step: real)
    ensures NominalStation(n, step) == n as real * step
  {
  }

  lemma DriftOf(i: int, n: int, total: real, step: real)
    requires step > 0.0 && n >= 2 && n == Count(total, step)
    ensures NominalStation(i, step) - TrueStation(i, total, step) == Times(i as real, step - total / n as real)
  {
    hide Count;
    TimesSplits(i as real, step, total / n as real);
  }

  lemma TimesSplits(a: real, x: real, y: real)
    ensures Times(a, x - y) == a * x - a * y
  {
  }

  lemma ScaledBy(i: int, n: int, e: real)
    requires 0 <= i <= n
    ensures Abs(Times(i as real, e)) <= Abs(Times(n as real, e))
    ensures e >= 0.0 ==> Times(n as real, e) >= 0.0
  {
    Shield(0.0, e);
    Opposite(i as real, e);
    Opposite(n as real, e);
    hide Times;
    if e > 0.0 {
      TimesGrows(0.0, i as real, e);
      TimesGrows(i as real, n as real, e);
    } else if e < 0.0 {
      Shield(0.0, -e);
      TimesGrows(0.0, i as real, -e);
      TimesGrows(i as real, n as real, -e);
    } else {
      Shield(i as real, e);
      Shield(n as real, e);
    }
  }

  lemma Opposite(a: real, e: real)
    ensures Times(a, -e) == -Times(a, e)
  {
  }

  /** The index of a station: round, then wrap or clamp to the points there are. */
  function Index(s: real, step: real, points: int, loop: bool): int
    requires step > 0.0 && points > 0
  {
    var i := Round(s / step);
    if loop then i % points
    else
      var j := if i < 0 then 0 else i;
      if j > points - 1 then points - 1 else j
  }

  /** The index is that of a point; on a loop its nominal station is, up to whole
      turns, within half a step of the station, and so it is on an open path unless
      the station lies beyond an end, which is then taken. */
  lemma IndexIsNearest(s: real, step: real, points: int, loop: bool) returns (k: int)
    requires step > 0.0 && points > 0
    ensures var i := Index(s, step, points, loop);
      && 0 <= i < points
      && (loop ==> Abs((i + k * points) as real * step - s) <= step / 2.0)
      && (!loop ==>
            || Abs(i as real * step - s) <= step / 2.0
            || (i == 0 && s < 0.0)
            || (i == points - 1 && s > i as real * step))
  {
    hide Index;
    k := 0;
    if loop {
      k := LoopIndex(s, step, points);
    } else {
      OpenIndex(s, step, points);
    }
  }

  lemma LoopIndex(s: real, step: real, points: int) returns (k: int)
    requires step > 0.0 && points > 0
    ensures var i := Index(s, step, points, true);
      0 <= i < points && Abs((i + k * points) as real * step - s) <= step / 2.0
  {
    hide Round;
    var i := Round(s / step);
    RoundedStation(s, step);
    WholeTurns(i, points);
    k := i / points;
  }

  lemma OpenIndex(s: real, step: real, points: int)
    requires step > 0.0 && points > 0
    ensures var i := Index(s, step, points, false);
      && 0 <= i < points
      && (Abs(i as real * step - s) <= step / 2.0 || (i == 0 && s < 0.0) || (i == points - 1 && s > i as real * step))
  {
    hide Round;
    var i := Round(s / step);
    RoundedStation(s, step);
    if i < 0 {
      BeforeStart(i, s, step);
    } else if i > points - 1 {
      BeyondEnd(i, points - 1, s, step);
    }
  }

  lemma RoundedStation(s: real, step: real)
    requires step > 0.0
    ensures Abs(Round(s / step) as real * step - s) <= step / 2.0
  {
    QuotientTimes(s, step);
    RoundIsNear(s / step);
    hide Round;
    RoundedQuotient(s / step, Round(s / step), step, s);
  }

  lemma WholeTurns(i: int, points: int)
    requires points > 0
    ensures i % points + (i / points) * points == i && 0 <= i % points < points
  {
  }

  lemma BeforeStart(i: int, s: real, step: real)
    requires step > 0.0 && i < 0 && Abs(i as real * step - s) <= step / 2.0
    ensures s < 0.0
  {
    Scaled(i as real, -1.0, step);
  }

  lemma BeyondEnd(i: int, last: int, s: real, step: real)
    requires step > 0.0 && i > last && Abs(i as real * step - s) <= step / 2.0
    ensures s > last as real * step
  {
    hide Times;
    TimesGrows(last as real + 1.0, i as real, step);
    TimesShifts(last as real, 1.0, step);
    Shield(last as real, step);
    Shield(1.0, step);
    Shield(i as real, step);
  }

  /** The nominal station of every point indexes that point again exactly when a
      loop is longer than one step, or an open path at least one and a half steps
      long. */
  lemma IndexReadsBack(total: real, step: real, loop: bool)
    requires step > 0.0 && total > 0.0
    ensures (forall i :: 0 <= i < Points(total, step, loop) ==> ReadsBack(i, total, step, loop))
            <==> if loop then step < total else 1.5 * step <= total
  {
    hide ReadsBack, Count, Points;
    if (if loop then step < total else 1.5 * step <= total) {
      forall i | 0 <= i < Points(total, step, loop) ensures ReadsBack(i, total, step, loop) {
        if loop {
          LoopReadsBack(i, total, step);
        } else {
          OpenReadsBack(i, total, step);
        }
      }
    } else if loop {
      assert 0 <= 1 < Points(total, step, loop);
      ShortLoopMisreads(total, step);
    } else {
      FewPoints(total, step);
      ThreePoints(total, step);
      assert 0 <= 2 < Points(total, step, loop);
      ShortPathMisreads(total, step);
    }
  }

  predicate ReadsBack(i: int, total: real, step: real, loop: bool)
    requires step > 0.0 && total > 0.0
  {
    Index(Wrap(NominalStation(i, step), total, loop), step, Points(total, step, loop), loop) == i
  }

  lemma ThreePoints(total: real, step: real)
    requires step > 0.0 && Count(total, step) == 2
    ensures Points(total, step, false) == 3
  {
  }

  lemma LoopReadsBack(i: int, total: real, step: real)
    requires 0.0 < step < total && 0 <= i < Points(total, step, true)
    ensures ReadsBack(i, total, step, true)
  {
    hide Points, Wrap, NominalStation, Index;
    StaysOnFirstTurn(i, total, step);
    WrapOnFirstTurn(NominalStation(i, step), total);
    IndexOfMultiple(i, step, Points(total, step, true));
  }

  lemma IndexOfMultiple(i: int, step: real, points: int)
    requires step > 0.0 && 0 <= i < points
    ensures Index(NominalStation(i, step), step, points, true) == i
  {
    hide NominalStation, Round;
    QuotientOfMultiple(i, step);
    RoundOfNear(i as real, i);
    SmallRemainder(i, points);
  }

  lemma SmallRemainder(i: int, n: int)
    requires 0 <= i < n
    ensures i % n == i
  {
  }

  lemma StaysOnFirstTurn(i: int, total: real, step: real)
    requires 0.0 < step < total && 0 <= i < Points(total, step, true)
    ensures 0.0 <= NominalStation(i, step) < total
  {
    hide Count;
    CountIsNear(total, step);
    if 1.5 * step <= total {
      FirstTurn(i, Count(total, step), step, total);
    } else {
      FewPoints(total, step);
      assert i == 0 || i == 1;
    }
  }

  /** On an open path the last station is clamped to the end, whose index is the
      rounded number of steps. */
  lemma OpenReadsBack(i: int, total: real, step: real)
    requires step > 0.0 && total > 0.0 && 1.5 * step <= total && 0 <= i < Points(total, step, false)
    ensures ReadsBack(i, total, step, false)
  {
    var n := Count(total, step);
    CountIsNear(total, step);
    QuotientTimes(total, step);
    QuotientBound(total / step, step, total, 1.5);
    assert n == Round(total / step);
    hide Count;
    if i < n {
      FirstTurn(i, n, step, total);
      QuotientOfMultiple(i, step);
      RoundOfNear(NominalStation(i, step) / step, i);
    } else {
      ClampedEnd(n, total, step);
    }
  }

  lemma ClampedEnd(n: int, total: real, step: real)
    requires step > 0.0 && total > 0.0 && n >= 2 && n == Round(total / step)
    ensures Round(Wrap(NominalStation(n, step), total, false) / step) == n
  {
    QuotientOfMultiple(n, step);
    RoundOfNear(n as real, n);
    Shield(0.0, step);
    Shield(n as real, step);
    TimesGrows(0.0, n as real, step);
  }

  lemma ShortPathMisreads(total: real, step: real)
    requires 0.0 < total < 1.5 * step
    ensures !ReadsBack(2, total, step, false)
  {
    FewPoints(total, step);
    hide Count;
    QuotientTimes(total, step);
    QuotientBound(total / step, step, total, 1.5);
  }

  lemma FewPoints(total: real, step: real)
    requires step > 0.0 && total < 1.5 * step
    ensures Count(total, step) == 2
  {
    QuotientTimes(total, step);
    QuotientBound(total / step, step, total, 1.5);
  }

  /** On a loop of at most one step the second point's station wraps to one nearer
      the first. */
  lemma ShortLoopMisreads(total: real, step: real)
    requires 0.0 < total <= step
    ensures !ReadsBack(1, total, step, true)
  {
    hide Count, Wrap, Turns;
    FewPoints(total, step);
    var r, t := Wrap(NominalStation(1, step), total, true), Turns(step, total);
    WrapIsRemainder(step, total);
    if t <= 0 {
      TimesGrows(t as real, 0.0, total);
      Shield(t as real, total);
      Shield(0.0, total);
      assert false;
    }
    TimesGrows(1.0, t as real, total);
    Shield(t as real, total);
    Shield(1.0, total);
    assert 0.0 <= r < 0.5 * step;
    QuotientTimes(r, step);
    QuotientBound(r / step, step, r, 0.5);
    QuotientBound(r / step, step, r, 0.0);
    RoundOfNear(r / step, 0);
  }

  lemma WrapIsRemainder(s: real, length: real)
    requires length > 0.0
    ensures var r := Wrap(s, length, true);
      0.0 <= r < length && s == r + Turns(s, length) as real * length
  {
  }

  lemma FirstTurn(i: int, n: int, step: real, total: real)
    requires step > 0.0 && 0 <= i < n && Abs(n as real * step - total) <= step / 2.0
    ensures 0.0 <= NominalStation(i, step) < total
  {
    hide Times;
    var before := n as real - 1.0;
    TimesGrows(i as real, before, step);
    TimesGrows(0.0, i as real, step);
    TimesShifts(before, 1.0, step);
    Shield(0.0, step);
    Shield(1.0, step);
    Shield(i as real, step);
    Shield(n as real, step);
  }

  lemma WrapOnFirstTurn(s: real, length: real)
    requires 0.0 <= s < length
    ensures Wrap(s, length, true) == s
  {
    ModIsUnique(s, length, s, 0);
  }

  lemma QuotientOfMultiple(i: int, step: real)
    requires step > 0.0
    ensures NominalStation(i, step) / step == i as real
  {
  }
}
