/** The control cycle of `route_follower.py`: progress and the end of the route,
    the choice of a lateral offset, and the ramp toward it. */
module RouteFollower {
  import opened Stations

  datatype Option<+T> = None | Some(value: T)

  // ----- candidate offsets -----

  function Multiple(step: real, i: int): real {
    step * i as real
  }

  /** Offsets to try, smallest magnitude first, inside the corridor. */
  function CandidateOffsets(step: real, corridorHalfWidth: real, clearance: real, side: real): (r: seq<real>)
    ensures r != []
  {
    var limit := corridorHalfWidth - clearance;
    if step <= 0.0 || limit <= 0.0 then [0.0]
    else
      FloorOfPositive(limit / step);
      seq((limit / step).Floor + 1, i requires 0 <= i => side * Multiple(step, i))
  }

  lemma FloorOfPositive(x: real)
    ensures x >= 0.0 ==> x.Floor >= 0
    ensures x.Floor as real <= x < x.Floor as real + 1.0
  {
  }

  /** All candidates are on the retreat side, one step apart and starting on the
      path; all fit into the corridor, and one more step would not. */
  lemma CandidatesFillCorridor(step: real, corridorHalfWidth: real, clearance: real, side: real)
    requires side == 1.0 || side == -1.0
    ensures var r := CandidateOffsets(step, corridorHalfWidth, clearance, side);
      var limit := corridorHalfWidth - clearance;
      && r[0] == 0.0
      && (forall i, j :: 0 <= i < j < |r| ==> side * r[i] < side * r[j])
      && (step > 0.0 && limit > 0.0 ==>
            && (forall i :: 0 <= i < |r| - 1 ==> side * r[i + 1] == side * r[i] + step)
            && (forall i :: 0 <= i < |r| ==> side * r[i] <= limit) && limit < side * r[|r| - 1] + step)
      && (step <= 0.0 || limit <= 0.0 ==> r == [0.0])
  {
    var limit := corridorHalfWidth - clearance;
    var r := CandidateOffsets(step, corridorHalfWidth, clearance, side);
    if step > 0.0 && limit > 0.0 {
      forall i | 0 <= i < |r| ensures side * r[i] == Multiple(step, i) {
        OnSide(side, Multiple(step, i));
      }
      hide Multiple, CandidateOffsets;
      MultiplesUpTo(limit, step, |r|);
    }
  }

  lemma OnSide(side: real, x: real)
    requires side == 1.0 || side == -1.0
    ensures side * (side * x) == x
  {
  }

  /** The multiples of the step up to the limit. */
  lemma MultiplesUpTo(limit: real, step: real, count: int)
    requires step > 0.0 && count == (limit / step).Floor + 1
    ensures Multiple(step, 0) == 0.0
    ensures forall i, j :: 0 <= i < j < count ==> Multiple(step, i) < Multiple(step, j)
    ensures forall i :: 0 <= i < count ==> Multiple(step, i) <= limit
    ensures forall i :: 0 <= i < count - 1 ==> Multiple(step, i + 1) == Multiple(step, i) + step
    ensures limit < Multiple(step, count - 1) + step
  {
    hide Multiple;
    var q := limit / step;
    FloorOfPositive(q);
    NextMultiple(step, 0);
    forall i, j | 0 <= i < j < count ensures Multiple(step, i) < Multiple(step, j) {
      MultipleGrows(step, i, j);
    }
    forall i | 0 <= i < count ensures Multiple(step, i) <= limit {
      MultipleWithin(step, i, limit);
    }
    forall i | 0 <= i < count - 1 ensures Multiple(step, i + 1) == Multiple(step, i) + step {
      NextMultiple(step, i);
    }
    ReachesLimit(step, count - 1, limit);
  }

  lemma NextMultiple(step: real, i: int)
    ensures Multiple(step, 0) == 0.0 && Multiple(step, i + 1) == Multiple(step, i) + step
  {
    assert step * (i as real + 1.0) == step * i as real + step;
  }

  lemma MultipleGrows(step: real, i: int, j: int)
    requires step > 0.0 && i < j
    ensures Multiple(step, i) < Multiple(step, j)
  {
    ScaledStrictly(i as real, j as real, step);
  }

  lemma MultipleWithin(step: real, i: int, limit: real)
    requires step > 0.0 && i as real <= limit / step
    ensures Multiple(step, i) <= limit
  {
    QuotientTimes(limit, step);
    Scaled(i as real, limit / step, step);
  }

  lemma ReachesLimit(step: real, n: int, limit: real)
    requires step > 0.0 && limit / step < n as real + 1.0
    ensures limit < Multiple(step, n) + step
  {
    QuotientTimes(limit, step);
    LastMultiple(limit / step, n as real, step, limit);
  }

  lemma LastMultiple(q: real, n: real, step: real, limit: real)
    requires step > 0.0 && q * step == limit && q < n + 1.0
    ensures limit < step * n + step
  {
    hide Times;
    TimesGrows(q, n + 1.0, step);
    TimesShifts(n, 1.0, step);
    Shield(1.0, step);
    Shield(n, step);
    Shield(q, step);
  }

  // ----- hysteresis -----

  /** The committed candidate, and for how many cycles in a row a nearer one has
      been clear. */
  datatype Choice = Choice(committed: nat, streak: int)

  /** The nearest clear candidate, or the number of candidates if all are blocked. */
  function Best(blocked: seq<bool>): (i: nat)
    ensures i <= |blocked|
    ensures i < |blocked| ==> !blocked[i]
    ensures forall j :: 0 <= j < i ==> blocked[j]
  {
    if blocked == [] || !blocked[0] then 0 else 1 + Best(blocked[1..])
  }

  predicate AllBlocked(blocked: seq<bool>) {
    Best(blocked) == |blocked|
  }

  /** One cycle.  With everything blocked nothing changes, the streak included. */
  function Choose(c: Choice, blocked: seq<bool>, resumeCycles: int): Choice {
    var best := Best(blocked);
    if AllBlocked(blocked) then c
    else if best > c.committed then Choice(best, 0)
    else if best < c.committed then
      if c.streak + 1 >= resumeCycles then Choice(best, 0) else Choice(c.committed, c.streak + 1)
    else Choice(c.committed, 0)
  }

  /** The choice after some cycles, from any choice on. */
  ghost function ChooseFrom(c: Choice, cycles: seq<seq<bool>>, resumeCycles: int): Choice {
    if cycles == [] then c
    else Choose(ChooseFrom(c, cycles[..|cycles| - 1], resumeCycles), cycles[|cycles| - 1], resumeCycles)
  }

  ghost function ChooseAll(cycles: seq<seq<bool>>, resumeCycles: int): Choice {
    ChooseFrom(Choice(0, 0), cycles, resumeCycles)
  }

  /** After a cycle with a clear candidate, the committed one is never nearer than
      the nearest clear one; when it moves, it is that one; and outward it moves at
      once. */
  lemma {:induction false} NeverTooNear(c: Choice, blocked: seq<bool>, resumeCycles: int)
    requires !AllBlocked(blocked)
    ensures var d := Choose(c, blocked, resumeCycles);
      && d.committed >= Best(blocked)
      && (d.committed != c.committed ==> d.committed == Best(blocked))
      && (Best(blocked) > c.committed ==> d.committed == Best(blocked) && !blocked[d.committed])
  {
  }

  /** When the candidate made for is clear: exactly if the nearest clear one is no
      nearer than the one committed, or the wait to resume is over, or the one held
      through that wait happens to be clear. */
  lemma {:induction false} ChosenIsClearWhen(c: Choice, blocked: seq<bool>, resumeCycles: int)
    requires !AllBlocked(blocked) && c.committed < |blocked|
    ensures var d := Choose(c, blocked, resumeCycles);
      && d.committed < |blocked|
      && (!blocked[d.committed] <==>
            Best(blocked) >= c.committed || c.streak + 1 >= resumeCycles || !blocked[c.committed])
  {
  }

  /** The cycles in which some candidate was clear. */
  ghost function Relevant(cycles: seq<seq<bool>>): seq<seq<bool>> {
    if cycles == [] then []
    else
      var rest := Relevant(cycles[..|cycles| - 1]);
      if AllBlocked(cycles[|cycles| - 1]) then rest else rest + [cycles[|cycles| - 1]]
  }

  /** Cycles with everything blocked might as well not have happened. */
  lemma {:induction false} BlockedCyclesAreInvisible(cycles: seq<seq<bool>>, resumeCycles: int)
    ensures ChooseAll(cycles, resumeCycles) == ChooseAll(Relevant(cycles), resumeCycles)
    ensures forall b :: b in Relevant(cycles) ==> !AllBlocked(b)
    decreases |cycles|
  {
    hide AllBlocked;
    if cycles != [] {
      var last := |cycles| - 1;
      BlockedCyclesAreInvisible(cycles[..last], resumeCycles);
      var rest := Relevant(cycles[..last]);
      BlockedChangesNothing(ChooseAll(cycles[..last], resumeCycles), cycles[last], resumeCycles);
      assert (rest + [cycles[last]])[..|rest|] == rest;
    }
  }

  lemma BlockedChangesNothing(c: Choice, blocked: seq<bool>, resumeCycles: int)
    ensures AllBlocked(blocked) ==> Choose(c, blocked, resumeCycles) == c
  {
  }

  /** The streak counts: during the last `streak` of the relevant cycles the
      committed candidate was the present one and a nearer one was clear. */
  lemma {:induction false} StreakCounts(cycles: seq<seq<bool>>, resumeCycles: int)
    requires forall b :: b in cycles ==> !AllBlocked(b)
    ensures var c := ChooseAll(cycles, resumeCycles);
      && 0 <= c.streak <= |cycles|
      && (forall j :: |cycles| - c.streak <= j < |cycles| ==> Best(cycles[j]) < c.committed)
      && (forall j :: |cycles| - c.streak <= j <= |cycles| ==>
          ChooseAll(cycles[..j], resumeCycles).committed == c.committed)
    decreases |cycles|
  {
    hide Choose, Best, AllBlocked;
    assert cycles[..|cycles|] == cycles;
    if cycles != [] {
      var last := |cycles| - 1;
      var before := cycles[..last];
      assert cycles[last] in cycles;
      StreakCounts(before, resumeCycles);
      StreakGrows(ChooseAll(before, resumeCycles), cycles[last], resumeCycles);
      var c := ChooseAll(cycles, resumeCycles);
      hide ChooseAll;
      forall j | |cycles| - c.streak <= j < |cycles|
        ensures Best(cycles[j]) < c.committed && ChooseAll(cycles[..j], resumeCycles).committed == c.committed
      {
        assert cycles[..j] == before[..j];
        if j < last { assert cycles[j] == before[j]; }
      }
    }
  }

  lemma {:induction false} StreakGrows(c: Choice, b: seq<bool>, resumeCycles: int)
    requires !AllBlocked(b)
    ensures var d := Choose(c, b, resumeCycles);
      d.streak == 0 || (d.streak == c.streak + 1 && d.committed == c.committed && Best(b) < c.committed)
  {
  }

  /** A move inward comes only after `resumeCycles` successive relevant cycles, the
      moving one included, in each of which a candidate nearer than the committed
      one was clear. */
  lemma {:induction false} InwardNeedsStreak(cycles: seq<seq<bool>>, b: seq<bool>, resumeCycles: int)
    requires resumeCycles > 0 && !AllBlocked(b) && forall x :: x in cycles ==> !AllBlocked(x)
    requires var c := ChooseAll(cycles, resumeCycles); Choose(c, b, resumeCycles).committed < c.committed
    ensures var n, held := |cycles|, ChooseAll(cycles, resumeCycles).committed;
      && n >= resumeCycles - 1 && Best(b) < held
      && (forall j :: n - (resumeCycles - 1) <= j < n ==>
            Best(cycles[j]) < held && ChooseAll(cycles[..j], resumeCycles).committed == held)
  {
    StreakCounts(cycles, resumeCycles);
  }

  /** And then the move does come: once a nearer candidate has been clear for as
      many cycles as the streak lacks, the nearest clear one is committed, and the
      one before stays until then. */
  lemma {:induction false} ResumesOnTime(c: Choice, cycles: seq<seq<bool>>, resumeCycles: int)
    requires 0 <= c.streak < resumeCycles && 0 < |cycles| <= resumeCycles - c.streak
    requires forall b :: b in cycles ==> !AllBlocked(b) && Best(b) < c.committed
    ensures ChooseFrom(c, cycles, resumeCycles) ==
            if |cycles| == resumeCycles - c.streak then Choice(Best(cycles[|cycles| - 1]), 0)
            else Choice(c.committed, c.streak + |cycles|)
    decreases |cycles|
  {
    hide Best, AllBlocked;
    var last := |cycles| - 1;
    assert cycles[last] in cycles;
    if last > 0 {
      ResumesOnTime(c, cycles[..last], resumeCycles);
    } else {
      assert ChooseFrom(c, cycles[..last], resumeCycles) == c;
    }
  }

  /** How often the committed candidate moves inward in some cycles. */
  ghost function InwardMoves(c: Choice, cycles: seq<seq<bool>>, resumeCycles: int): nat {
    if cycles == [] then 0
    else
      var before := cycles[..|cycles| - 1];
      var d, e := ChooseFrom(c, before, resumeCycles), ChooseFrom(c, cycles, resumeCycles);
      InwardMoves(c, before, resumeCycles) + if e.committed < d.committed then 1 else 0
  }

  /** From any choice, the moves inward of some cycles, counted `resumeCycles` each,
      are paid for by these cycles and the streak brought along. */
  lemma {:induction false} InwardMovesArePaid(c: Choice, cycles: seq<seq<bool>>, resumeCycles: int)
    requires resumeCycles > 0 && 0 <= c.streak < resumeCycles
    ensures var d := ChooseFrom(c, cycles, resumeCycles);
      && 0 <= d.streak < resumeCycles
      && resumeCycles * InwardMoves(c, cycles, resumeCycles) + d.streak <= |cycles| + c.streak
    decreases |cycles|
  {
    hide Choose;
    if cycles != [] {
      var last := |cycles| - 1;
      var before := cycles[..last];
      InwardMovesArePaid(c, before, resumeCycles);
      OneMoreCycle(ChooseFrom(c, before, resumeCycles), cycles[last], resumeCycles);
      var m := InwardMoves(c, before, resumeCycles);
      assert resumeCycles * (m + 1) == resumeCycles * m + resumeCycles;
    }
  }

  /** A cycle that moves inward uses up the streak; any other adds at most one. */
  lemma OneMoreCycle(c: Choice, b: seq<bool>, resumeCycles: int)
    requires resumeCycles > 0 && 0 <= c.streak < resumeCycles
    ensures var d := Choose(c, b, resumeCycles);
      0 <= d.streak < resumeCycles && d.streak + (if d.committed < c.committed then resumeCycles else 0) <= c.streak + 1
  {
  }

  lemma {:induction false} ChooseConcat(c: Choice, a: seq<seq<bool>>, b: seq<seq<bool>>, resumeCycles: int)
    ensures ChooseFrom(c, a + b, resumeCycles) == ChooseFrom(ChooseFrom(c, a, resumeCycles), b, resumeCycles)
    decreases |b|
  {
    hide Choose;
    if b == [] {
      assert a + b == a;
    } else {
      assert (a + b)[..|a + b| - 1] == a + b[..|b| - 1];
      ChooseConcat(c, a, b[..|b| - 1], resumeCycles);
    }
  }

  /** Any T successive cycles of a run contain at most T / N moves inward, rounded
      up, and its first T cycles at most T / N, rounded down, N being the number of
      cycles to resume. */
  lemma {:induction false} InwardMovesAreRare(cycles: seq<seq<bool>>, from: nat, to: nat, resumeCycles: int)
    requires resumeCycles > 0 && from <= to <= |cycles|
    ensures var moves := InwardMoves(ChooseAll(cycles[..from], resumeCycles), cycles[from..to], resumeCycles);
      && moves <= (to - from + resumeCycles - 1) / resumeCycles
      && (from == 0 ==> moves <= to / resumeCycles)
    ensures ChooseFrom(ChooseAll(cycles[..from], resumeCycles), cycles[from..to], resumeCycles)
            == ChooseAll(cycles[..to], resumeCycles)
  {
    hide Choose, InwardMoves, ChooseFrom;
    InwardMovesArePaid(Choice(0, 0), cycles[..from], resumeCycles);
    var c := ChooseAll(cycles[..from], resumeCycles);
    InwardMovesArePaid(c, cycles[from..to], resumeCycles);
    AtMostQuotient(InwardMoves(c, cycles[from..to], resumeCycles), to - from + c.streak, to - from, resumeCycles);
    assert cycles[..from] + cycles[from..to] == cycles[..to];
    ChooseConcat(Choice(0, 0), cycles[..from], cycles[from..to], resumeCycles);
  }

  lemma AtMostQuotient(moves: nat, total: nat, window: nat, n: int)
    requires n > 0 && window <= total < window + n && n * moves <= total
    ensures moves <= (window + n - 1) / n
    ensures total == window ==> moves <= window / n
  {
    AtMostFloor(moves, window + n - 1, n);
    if total == window { AtMostFloor(moves, window, n); }
  }

  lemma AtMostFloor(moves: nat, total: nat, n: int)
    requires n > 0 && n * moves <= total
    ensures moves <= total / n
  {
    if moves > total / n { ScalesUp(n, total / n + 1, moves); }
  }

  lemma ScalesUp(n: int, a: int, b: int)
    requires n > 0 && a <= b
    ensures n * a <= n * b
  {
  }

  /** Rounding up is needed: with the streak one short, a single cycle with a nearer
      candidate clear moves inward. */
  lemma {:induction false} OneCycleCanMove(c: Choice, b: seq<bool>, resumeCycles: int)
    requires resumeCycles > 0 && c.streak == resumeCycles - 1 && Best(b) < c.committed && !AllBlocked(b)
    ensures InwardMoves(c, [b], resumeCycles) == 1 == (1 + resumeCycles - 1) / resumeCycles
  {
    assert [b][..0] == [];
    assert ChooseFrom(c, [], resumeCycles) == c && ChooseFrom(c, [b], resumeCycles) == Choose(c, b, resumeCycles);
    assert InwardMoves(c, [], resumeCycles) == 0;
  }

  // ----- the ramp -----

  /** The lateral distance a ramp rate grants for the distance driven in a cycle. */
  function ByTravel(rampRate: real, speed: real, period: real): real {
    rampRate * speed * period
  }

  /** How far one cycle may move the offset. */
  function Allowance(rampRate: real, speed: real, period: real): (a: real)
    ensures a >= 0.0001
  {
    var byTravel := ByTravel(rampRate, if speed > 0.1 then speed else 0.1, period);
    if byTravel > 0.0001 then byTravel else 0.0001
  }

  /** It is the least that covers the floor of one cycle, the share of the distance
      driven, and that of a crawl of 0.1 m/s. */
  lemma AllowanceIsLeast(rampRate: real, speed: real, period: real)
    requires rampRate >= 0.0 && period >= 0.0
    ensures var a := Allowance(rampRate, speed, period);
      var driven, crawled := ByTravel(rampRate, speed, period), ByTravel(rampRate, 0.1, period);
      a >= 0.0001 && a >= driven && a >= crawled && (a == 0.0001 || a == driven || a == crawled)
  {
    if speed > 0.1 {
      Monotone(rampRate, 0.1, speed, period);
    } else {
      Monotone(rampRate, speed, 0.1, period);
    }
    hide ByTravel;
  }

  function Toward(d: real, target: real, allowance: real): real {
    var delta := target - d;
    if delta >= 0.0 then d + (if delta < allowance then delta else allowance)
    else d - (if -delta < allowance then -delta else allowance)
  }

  /** The distance left to the target shrinks by the allowance, down to zero, and
      the offset never passes the target. */
  lemma TowardShrinks(d: real, target: real, allowance: real)
    requires allowance >= 0.0
    ensures var e := Toward(d, target, allowance);
      && Abs(target - e) == (if Abs(target - d) <= allowance then 0.0 else Abs(target - d) - allowance)
      && (d <= target ==> d <= e <= target) && (d >= target ==> d >= e >= target)
  {
  }

  /** The offset after a number of cycles with one target, at these speeds. */
  ghost function Ramped(d: real, target: real, rampRate: real, period: real, speeds: seq<real>): real {
    if speeds == [] then d
    else Toward(Ramped(d, target, rampRate, period, speeds[..|speeds| - 1]), target,
                Allowance(rampRate, speeds[|speeds| - 1], period))
  }

  ghost function TotalAllowance(rampRate: real, period: real, speeds: seq<real>): real {
    if speeds == [] then 0.0
    else TotalAllowance(rampRate, period, speeds[..|speeds| - 1]) + Allowance(rampRate, speeds[|speeds| - 1], period)
  }

  /** The distance travelled as commanded. */
  ghost function Travel(period: real, speeds: seq<real>): real {
    if speeds == [] then 0.0 else Travel(period, speeds[..|speeds| - 1]) + speeds[|speeds| - 1] * period
  }

  lemma {:induction false} RampCloses(d: real, target: real, rampRate: real, period: real, speeds: seq<real>)
    ensures var total := TotalAllowance(rampRate, period, speeds);
      && total >= 0.0
      && Abs(target - Ramped(d, target, rampRate, period, speeds)) ==
           (if Abs(target - d) <= total then 0.0 else Abs(target - d) - total)
    decreases |speeds|
  {
    hide Allowance, Toward;
    if speeds != [] {
      var last := |speeds| - 1;
      RampCloses(d, target, rampRate, period, speeds[..last]);
      TowardShrinks(Ramped(d, target, rampRate, period, speeds[..last]), target,
          Allowance(rampRate, speeds[last], period));
    }
  }

  /** Neither the speed floor nor the allowance floor is at work in a cycle. */
  ghost predicate Unfloored(rampRate: real, period: real, speeds: seq<real>) {
    forall i :: 0 <= i < |speeds| ==> speeds[i] >= 0.1 && ByTravel(rampRate, speeds[i], period) >= 0.0001
  }

  lemma {:induction false} AllowanceIsTravel(rampRate: real, period: real, speeds: seq<real>)
    requires rampRate >= 0.0 && period >= 0.0
    ensures TotalAllowance(rampRate, period, speeds) >= rampRate * Travel(period, speeds)
    ensures Unfloored(rampRate, period, speeds) ==>
        TotalAllowance(rampRate, period, speeds) == rampRate * Travel(period, speeds)
    decreases |speeds|
  {
    hide ByTravel, Allowance;
    if speeds != [] {
      var last := |speeds| - 1;
      AllowanceIsTravel(rampRate, period, speeds[..last]);
      OneAllowance(rampRate, speeds[last], period);
      TravelAdds(rampRate, Travel(period, speeds[..last]), speeds[last], period);
    }
  }

  lemma TravelAdds(rampRate: real, travel: real, speed: real, period: real)
    ensures rampRate * (travel + speed * period) == rampRate * travel + ByTravel(rampRate, speed, period)
  {
  }

  lemma OneAllowance(rampRate: real, speed: real, period: real)
    requires rampRate >= 0.0 && period >= 0.0
    ensures Allowance(rampRate, speed, period) >= ByTravel(rampRate, speed, period)
    ensures speed >= 0.1 && ByTravel(rampRate, speed, period) >= 0.0001 ==>
        Allowance(rampRate, speed, period) == ByTravel(rampRate, speed, period)
  {
    if speed <= 0.1 {
      Monotone(rampRate, speed, 0.1, period);
    }
    hide ByTravel;
  }

  lemma Monotone(k: real, a: real, b: real, p: real)
    requires k >= 0.0 && p >= 0.0 && a <= b
    ensures ByTravel(k, a, p) <= ByTravel(k, b, p)
  {
    var kp := k * p;
    assert kp >= 0.0;
    assert kp * (b - a) >= 0.0;
    assert k * a * p == kp * a && k * b * p == kp * b;
  }

  /** The ramp reaches its target once the commanded travel is the lateral distance
      over the ramp rate; and while neither floor is at work, not before. */
  lemma {:induction false} ReachesByTravel(d: real, target: real, rampRate: real, period: real, speeds: seq<real>)
    requires rampRate > 0.0 && period >= 0.0
    ensures Travel(period, speeds) >= Abs(target - d) / rampRate ==>
        Ramped(d, target, rampRate, period, speeds) == target
    ensures Unfloored(rampRate, period, speeds) ==>
      (Ramped(d, target, rampRate, period, speeds) == target <==> Travel(period, speeds) >= Abs(target - d) / rampRate)
  {
    hide TotalAllowance, Travel, Ramped, Unfloored;
    RampCloses(d, target, rampRate, period, speeds);
    AllowanceIsTravel(rampRate, period, speeds);
    ReachedWhen(Abs(target - d), rampRate, Travel(period, speeds));
  }

  /** The speeds with those below a crawl raised to it. */
  ghost function Raised(speeds: seq<real>): seq<real> {
    seq(|speeds|, i requires 0 <= i < |speeds| => if speeds[i] > 0.1 then speeds[i] else 0.1)
  }

  /** A robot slower than a crawl, or standing, ramps as if it crawled; only then,
      and in cycles too short for the floor, is the target reached early. */
  lemma {:induction false} ReachesByRaisedTravel(d: real, target: real, rampRate: real, period: real,
      speeds: seq<real>)
    requires rampRate > 0.0 && period >= 0.0 && ByTravel(rampRate, 0.1, period) >= 0.0001
    ensures Ramped(d, target, rampRate, period, speeds) == target <==>
            Travel(period, Raised(speeds)) >= Abs(target - d) / rampRate
  {
    var raised := Raised(speeds);
    RaisedRamps(d, target, rampRate, period, speeds);
    forall i | 0 <= i < |raised| ensures raised[i] >= 0.1 && ByTravel(rampRate, raised[i], period) >= 0.0001 {
      Monotone(rampRate, 0.1, raised[i], period);
    }
    hide ByTravel, Travel, Ramped;
    ReachesByTravel(d, target, rampRate, period, raised);
  }

  lemma {:induction false} RaisedRamps(d: real, target: real, rampRate: real, period: real, speeds: seq<real>)
    ensures Ramped(d, target, rampRate, period, Raised(speeds)) == Ramped(d, target, rampRate, period, speeds)
    decreases |speeds|
  {
    hide Toward;
    if speeds != [] {
      var last := |speeds| - 1;
      RaisedRamps(d, target, rampRate, period, speeds[..last]);
      assert Raised(speeds)[..last] == Raised(speeds[..last]);
      RaisedAllowance(rampRate, speeds[last], period);
    }
  }

  lemma RaisedAllowance(rampRate: real, speed: real, period: real)
    ensures Allowance(rampRate, if speed > 0.1 then speed else 0.1, period) == Allowance(rampRate, speed, period)
  {
    hide ByTravel;
  }

  lemma ReachedWhen(distance: real, rampRate: real, travel: real)
    requires rampRate > 0.0
    ensures travel >= distance / rampRate <==> rampRate * travel >= distance
  {
    QuotientTimes(distance, rampRate);
    if travel >= distance / rampRate {
      Scaled(distance / rampRate, travel, rampRate);
    } else {
      ScaledStrictly(travel, distance / rampRate, rampRate);
    }
  }

  // ----- the start-up check -----

  function Widest(offsets: seq<real>): (w: real)
    ensures w >= 0.0
    ensures forall d :: d in offsets ==> Abs(d) <= w
  {
    if offsets == [] then 0.0
    else
      var rest := Widest(offsets[1..]);
      if Abs(offsets[0]) > rest then Abs(offsets[0]) else rest
  }

  /** Whether the trigger range leaves half a metre after the widest retreat. */
  predicate GeometryUsable(offsets: seq<real>, rampRate: real, triggerRange: real) {
    var needed := Widest(offsets) / (if rampRate > 0.000001 then rampRate else 0.000001);
    triggerRange - needed >= 0.5
  }

  /** Every retreat from the path to a candidate is complete half a metre before
      the trigger range has been travelled, in cycles of any length and speed. */
  ghost predicate RetreatsComplete(offsets: seq<real>, rampRate: real, triggerRange: real) {
    forall target, period, speeds ::
      target in offsets && period >= 0.0 && Travel(period, speeds) >= triggerRange - 0.5 ==>
        Ramped(0.0, target, rampRate, period, speeds) == target
  }

  /** What the check is for, and where it falls short.  When it passes, retreats
      complete in time exactly if the ramp rate times that distance covers the
      widest offset, or the floor of one cycle does.  From the rate of 0.000001 on,
      below which the check divides by that figure in place of the rate, the first
      always holds. */
  lemma {:induction false} CheckGuaranteesRetreat(offsets: seq<real>, rampRate: real, triggerRange: real)
    requires GeometryUsable(offsets, rampRate, triggerRange)
    ensures RetreatsComplete(offsets, rampRate, triggerRange) <==>
            Widest(offsets) <= rampRate * (triggerRange - 0.5) || Widest(offsets) <= 0.0001
    ensures rampRate >= 0.000001 ==> Widest(offsets) <= rampRate * (triggerRange - 0.5)
  {
    hide GeometryUsable, Travel, Ramped, Widest, Times;
    var travel, w := triggerRange - 0.5, Widest(offsets);
    CheckedTravel(offsets, rampRate, triggerRange);
    Shield(rampRate, travel);
    var share := Times(rampRate, travel);
    if w <= share || w <= 0.0001 {
      forall target, period, speeds |
        target in offsets && period >= 0.0 && Travel(period, speeds) >= travel
        ensures Ramped(0.0, target, rampRate, period, speeds) == target
      {
        RetreatCompletes(offsets, target, rampRate, travel, period, speeds);
      }
    } else {
      var target := WidestIsOne(offsets);
      OneCycle(target, rampRate, travel);
      assert !(Ramped(0.0, target, rampRate, travel, [1.0]) == target);
    }
  }

  lemma {:induction false} CheckedTravel(offsets: seq<real>, rampRate: real, triggerRange: real)
    requires GeometryUsable(offsets, rampRate, triggerRange)
    ensures triggerRange - 0.5 >= 0.0
    ensures triggerRange - 0.5 == 0.0 ==> Widest(offsets) == 0.0
    ensures rampRate >= 0.000001 ==> Widest(offsets) <= rampRate * (triggerRange - 0.5)
  {
    var k, w := if rampRate > 0.000001 then rampRate else 0.000001, Widest(offsets);
    ReachedWhen(w, k, triggerRange - 0.5);
    ReachedWhen(w, k, w / k);
    QuotientMonotone(0.0, w, k);
  }

  /** From the rate of 0.000001 on and with an offset wider than the floor of one
      cycle, the check is exact: it passes if and only if every retreat completes. */
  lemma {:induction false} CheckIsExact(offsets: seq<real>, rampRate: real, triggerRange: real)
    requires rampRate >= 0.000001 && Widest(offsets) > 0.0001
    ensures GeometryUsable(offsets, rampRate, triggerRange) <==> Widest(offsets) <= rampRate * (triggerRange - 0.5)
    ensures GeometryUsable(offsets, rampRate, triggerRange) <==> RetreatsComplete(offsets, rampRate, triggerRange)
  {
    CheckCompares(offsets, rampRate, triggerRange);
    hide GeometryUsable, RetreatsComplete;
    if GeometryUsable(offsets, rampRate, triggerRange) {
      CheckGuaranteesRetreat(offsets, rampRate, triggerRange);
    } else {
      TooFarToRetreat(offsets, rampRate, triggerRange);
    }
  }

  lemma {:induction false} CheckCompares(offsets: seq<real>, rampRate: real, triggerRange: real)
    requires rampRate >= 0.000001
    ensures GeometryUsable(offsets, rampRate, triggerRange) <==> Widest(offsets) <= rampRate * (triggerRange - 0.5)
  {
    ReachedWhen(Widest(offsets), rampRate, triggerRange - 0.5);
  }

  lemma {:induction false} TooFarToRetreat(offsets: seq<real>, rampRate: real, triggerRange: real)
    requires Widest(offsets) > 0.0001 && Widest(offsets) > rampRate * (triggerRange - 0.5)
    ensures !RetreatsComplete(offsets, rampRate, triggerRange)
  {
    hide Travel, Ramped, Widest, Times;
    var travel := triggerRange - 0.5;
    var target := WidestIsOne(offsets);
    Shield(rampRate, travel);
    if travel >= 0.0 {
      OneCycle(target, rampRate, travel);
      assert !(Ramped(0.0, target, rampRate, travel, [1.0]) == target);
    } else {
      NoCycle(target, rampRate);
      assert !(Ramped(0.0, target, rampRate, 0.0, []) == target);
    }
  }

  lemma {:induction false} NoCycle(target: real, rampRate: real)
    requires Abs(target) > 0.0
    ensures Ramped(0.0, target, rampRate, 0.0, []) != target && Travel(0.0, []) == 0.0
  {
  }

  lemma {:induction false} RetreatCompletes(offsets: seq<real>, target: real, rampRate: real, travel: real,
      period: real, speeds: seq<real>)
    requires target in offsets && period >= 0.0 && travel >= 0.0 && Travel(period, speeds) >= travel
    requires travel == 0.0 ==> Widest(offsets) == 0.0
    requires Widest(offsets) <= Times(rampRate, travel) || Widest(offsets) <= 0.0001
    ensures Ramped(0.0, target, rampRate, period, speeds) == target
  {
    hide Allowance, Ramped, Travel, TotalAllowance, Widest, Times;
    RampCloses(0.0, target, rampRate, period, speeds);
    assert Abs(target) <= Widest(offsets);
    if speeds == [] {
      NoTravel(period);
    } else if rampRate >= 0.0 {
      AllowanceCovers(rampRate, travel, period, speeds);
    } else {
      FloorOfCycle(rampRate, period, speeds);
      MoreTravel(-rampRate, 0.0, travel);
      NegatedRate(rampRate, travel);
    }
  }

  lemma {:induction false} AllowanceCovers(rampRate: real, travel: real, period: real, speeds: seq<real>)
    requires rampRate >= 0.0 && period >= 0.0 && Travel(period, speeds) >= travel
    ensures TotalAllowance(rampRate, period, speeds) >= Times(rampRate, travel)
    ensures speeds != [] ==> TotalAllowance(rampRate, period, speeds) >= 0.0001
  {
    hide Travel, TotalAllowance, Times;
    var driven := Travel(period, speeds);
    AllowanceIsTravel(rampRate, period, speeds);
    Shield(rampRate, driven);
    MoreTravel(rampRate, travel, driven);
    if speeds != [] { FloorOfCycle(rampRate, period, speeds); }
  }

  lemma {:induction false} FloorOfCycle(rampRate: real, period: real, speeds: seq<real>)
    requires speeds != []
    ensures TotalAllowance(rampRate, period, speeds) >= 0.0001
  {
    hide Allowance, Ramped;
    RampCloses(0.0, 0.0, rampRate, period, speeds[..|speeds| - 1]);
  }

  lemma NegatedRate(rampRate: real, travel: real)
    ensures Times(-rampRate, travel) == -Times(rampRate, travel) && Times(-rampRate, 0.0) == 0.0
  {
  }

  lemma {:induction false} NoTravel(period: real)
    ensures Travel(period, []) == 0.0
  {
  }

  lemma MoreTravel(k: real, a: real, b: real)
    requires k >= 0.0 && a <= b
    ensures Times(k, a) <= Times(k, b)
  {
  }

  lemma WidestIsOne(offsets: seq<real>) returns (d: real)
    requires Widest(offsets) > 0.0
    ensures d in offsets && Abs(d) == Widest(offsets)
  {
    if Abs(offsets[0]) == Widest(offsets) {
      d := offsets[0];
    } else {
      d := WidestIsOne(offsets[1..]);
    }
  }

  /** A single cycle over the whole distance moves by the larger of its share and
      the floor. */
  lemma {:induction false} OneCycle(target: real, rampRate: real, travel: real)
    requires Times(rampRate, travel) < Abs(target) && 0.0001 < Abs(target)
    ensures Ramped(0.0, target, rampRate, travel, [1.0]) != target
    ensures Travel(travel, [1.0]) == travel
  {
    assert Ramped(0.0, target, rampRate, travel, [1.0][..0]) == 0.0;
    assert ByTravel(rampRate, 1.0, travel) == Times(rampRate, travel);
    hide ByTravel, Times;
  }

  lemma QuotientMonotone(a: real, b: real, k: real)
    requires a <= b && k > 0.0
    ensures a / k <= b / k
  {
  }

  // ----- speed and turn rate -----

  /** The speed with its floor. */
  function Floored(speed: real, minSpeed: real): real {
    if speed > minSpeed then speed else minSpeed
  }

  /** Speed and turn rate for a curvature. */
  function Pursue(curvature: real, nominal: real, gain: real, maxOmega: real, minSpeed: real): (real, real)
    requires maxOmega >= 0.0
  {
    var cornering := CorneringSpeed(curvature, nominal, gain, maxOmega);
    var omega := curvature * cornering;
    var speed := if Abs(omega) > maxOmega then cornering * (maxOmega / Abs(omega)) else cornering;
    var turn := if Abs(omega) > maxOmega then (if omega >= 0.0 then maxOmega else -maxOmega) else omega;
    (Floored(speed, minSpeed), turn)
  }

  function CorneringSpeed(curvature: real, nominal: real, gain: real, maxOmega: real): real {
    if gain > 0.0 && Abs(curvature) > 0.000001 && maxOmega / (Abs(curvature) * gain) < nominal
    then maxOmega / (Abs(curvature) * gain)
    else nominal
  }

  /** The speed before the floor: the cornering speed, and slower if even that
      turns too fast. */
  function UnflooredSpeed(curvature: real, nominal: real, gain: real, maxOmega: real): real
    requires maxOmega >= 0.0
  {
    Slowed(curvature, CorneringSpeed(curvature, nominal, gain, maxOmega), maxOmega)
  }

  function Slowed(curvature: real, speed: real, maxOmega: real): real
    requires maxOmega >= 0.0
  {
    if Abs(curvature * speed) > maxOmega then speed * (maxOmega / Abs(curvature * speed)) else speed
  }

  /** The cornering speed is the nominal one, unless the lateral limit is lower. */
  lemma CorneringIsLimited(curvature: real, nominal: real, gain: real, maxOmega: real)
    ensures var v := CorneringSpeed(curvature, nominal, gain, maxOmega);
      var limited := gain > 0.0 && Abs(curvature) > 0.000001;
      && v <= nominal
      && (limited ==> Abs(curvature) * gain * v <= maxOmega)
      && (v == nominal || (limited && Abs(curvature) * gain * v == maxOmega))
  {
    if gain > 0.0 && Abs(curvature) > 0.000001 {
      var k := Abs(curvature) * gain;
      Product(Abs(curvature), gain);
      QuotientTimes(maxOmega, k);
      if nominal <= maxOmega / k {
        Scaled(nominal, maxOmega / k, k);
      }
    }
  }

  lemma Product(a: real, b: real)
    requires a > 0.0 && b > 0.0
    ensures a * b > 0.0
  {
  }

  /** The speed before the floor is the cornering speed where that turns slowly
      enough, and where it does not, the one that turns at the limit. */
  lemma UnflooredIsLimited(curvature: real, nominal: real, gain: real, maxOmega: real)
    requires maxOmega >= 0.0 && nominal >= 0.0
    ensures var v := CorneringSpeed(curvature, nominal, gain, maxOmega);
      var u := UnflooredSpeed(curvature, nominal, gain, maxOmega);
      && 0.0 <= u <= v && Abs(curvature * u) <= maxOmega && (u == v || Abs(curvature * u) == maxOmega)
  {
    CorneringIsPositive(curvature, nominal, gain, maxOmega);
    hide CorneringSpeed, Slowed;
    SlowedIsLimited(curvature, CorneringSpeed(curvature, nominal, gain, maxOmega), maxOmega);
  }

  lemma SlowedIsLimited(k: real, v: real, maxOmega: real)
    requires maxOmega >= 0.0 && v >= 0.0
    ensures var u := Slowed(k, v, maxOmega);
      0.0 <= u <= v && Abs(k * u) <= maxOmega && (u == v || Abs(k * u) == maxOmega)
  {
    if Abs(k * v) > maxOmega {
      ScaledTurn(k, v, maxOmega);
      ShareOf(v, maxOmega, Abs(k * v));
    }
  }

  lemma CorneringIsPositive(curvature: real, nominal: real, gain: real, maxOmega: real)
    requires maxOmega >= 0.0 && nominal >= 0.0
    ensures CorneringSpeed(curvature, nominal, gain, maxOmega) >= 0.0
  {
    if gain > 0.0 && Abs(curvature) > 0.000001 {
      Product(Abs(curvature), gain);
      QuotientMonotone(0.0, maxOmega, Abs(curvature) * gain);
    }
  }

  lemma ShareOf(v: real, part: real, whole: real)
    requires v >= 0.0 && 0.0 <= part < whole
    ensures 0.0 <= v * (part / whole) <= v
  {
    QuotientMonotone(0.0, part, whole);
    QuotientMonotone(part, whole, whole);
    MoreTravel(v, 0.0, part / whole);
    MoreTravel(v, part / whole, 1.0);
    Shield(v, 0.0);
    Shield(v, part / whole);
    Shield(v, 1.0);
  }

  /** The turn rate stays within its limit and follows the curvature at the speed
      before the floor; the speed is that one, raised to the floor. */
  lemma TurnFollowsUnfloored(curvature: real, nominal: real, gain: real, maxOmega: real, minSpeed: real)
    requires maxOmega >= 0.0
    ensures var (speed, turn) := Pursue(curvature, nominal, gain, maxOmega, minSpeed);
      var unfloored := UnflooredSpeed(curvature, nominal, gain, maxOmega);
      && Abs(turn) <= maxOmega && turn == curvature * unfloored
      && speed == Floored(unfloored, minSpeed)
  {
    hide CorneringSpeed;
    var cornering := CorneringSpeed(curvature, nominal, gain, maxOmega);
    if Abs(curvature * cornering) > maxOmega {
      ScaledTurn(curvature, cornering, maxOmega);
    }
  }

  /** So the turn rate is the one that follows the curvature exactly when the path is
      straight or the speed is not raised to its floor. */
  lemma FloorBreaksCurvature(curvature: real, nominal: real, gain: real, maxOmega: real, minSpeed: real)
    requires maxOmega >= 0.0
    ensures var (speed, turn) := Pursue(curvature, nominal, gain, maxOmega, minSpeed);
      turn == curvature * speed <==> curvature == 0.0 || UnflooredSpeed(curvature, nominal, gain, maxOmega) >= minSpeed
  {
    var unfloored := UnflooredSpeed(curvature, nominal, gain, maxOmega);
    TurnFollowsUnfloored(curvature, nominal, gain, maxOmega, minSpeed);
    hide Pursue, UnflooredSpeed;
    if curvature != 0.0 && unfloored < minSpeed {
      DistinctMultiples(curvature, unfloored, minSpeed);
    }
  }

  lemma ScaledTurn(curvature: real, cornering: real, maxOmega: real)
    requires maxOmega >= 0.0 && Abs(curvature * cornering) > maxOmega
    ensures curvature * (cornering * (maxOmega / Abs(curvature * cornering)))
            == (if curvature * cornering >= 0.0 then maxOmega else -maxOmega)
  {
    var omega := curvature * cornering;
    var ratio := maxOmega / Abs(omega);
    assert ratio * Abs(omega) == maxOmega;
    assert curvature * (cornering * ratio) == omega * ratio;
  }

  lemma DistinctMultiples(k: real, a: real, b: real)
    requires k != 0.0 && a != b
    ensures k * a != k * b
  {
    if k * (a - b) == 0.0 { ZeroFactor(k, a - b); }
  }

  lemma ZeroFactor(k: real, x: real)
    requires k != 0.0 && k * x == 0.0
    ensures x == 0.0
  {
    assert x == (k * x) / k;
  }

  // ----- the control cycle -----

  datatype Config = Config(
    offsets: seq<real>,
    clearance: real,
    triggerRange: real,
    length: real,
    loop: bool,
    laps: real,
    goalTolerance: real,
    resumeCycles: int,
    rampRate: real,
    period: real,
    nominal: real,
    gain: real,
    maxOmega: real,
    minSpeed: real)

  /** What one cycle works with: the projected station, the last scan, the
      curvature to the look-ahead point, and the factor for a degraded fix. */
  datatype Input = Input(s: real, sight: Sight, curvature: real, degraded: real)

  /** A scan point placed along the path: its station, its lateral position, and
      whether its nearest path point is inside the window searched. */
  datatype Return = Return(station: real, lateral: real, interior: bool)

  /** The points of the last scan, and how long ago it came (if one ever did). */
  datatype Sight = Sight(points: seq<Return>, age: Option<real>)

  datatype Command = Command(speed: real, omega: real)

  const HALT := Command(0.0, 0.0)

  datatype Follower = Follower(
    s: Option<real>,
    travelled: real,
    choice: Choice,
    dCmd: real,
    speed: real,
    finished: bool,
    sent: seq<Command>)

  const START := Follower(None, 0.0, Choice(0, 0), 0.0, 0.0, false, [])

  ghost predicate Usable(cfg: Config) {
    cfg.offsets != [] && cfg.length > 0.0 && cfg.maxOmega >= 0.0
  }

  /** Ahead of the station, within the trigger range. */
  predicate Ahead(cfg: Config, s: real, p: Return)
    requires cfg.length > 0.0
  {
    && p.interior
    && if cfg.loop then 0.0 < Mod(p.station - s, cfg.length) < cfg.triggerRange
       else s < p.station < s + cfg.triggerRange
  }

  predicate Obstructed(cfg: Config, s: real, points: seq<Return>, d: real)
    requires cfg.length > 0.0
  {
    exists p :: p in points && Ahead(cfg, s, p) && Abs(p.lateral - d) < cfg.clearance
  }

  /** Which candidates have something in them; with a stale scan, all. */
  function BlockedOffsets(cfg: Config, input: Input): (blocked: seq<bool>)
    requires cfg.length > 0.0
    ensures |blocked| == |cfg.offsets|
  {
    var sight := input.sight;
    if sight.points == [] || sight.age.None? then seq(|cfg.offsets|, i => false)
    else if sight.age.value > 1.0 then seq(|cfg.offsets|, i => true)
    else
      seq(|cfg.offsets|, i requires 0 <= i < |cfg.offsets| => Obstructed(cfg, input.s, sight.points, cfg.offsets[i]))
  }

  predicate AtEnd(cfg: Config, s: real, travelled: real) {
    if cfg.loop then travelled >= cfg.laps * cfg.length else cfg.length - s <= cfg.goalTolerance
  }

  /** The command for the curvature, slowed for a degraded fix or stopped. */
  function Drive(cfg: Config, input: Input): Command
    requires cfg.maxOmega >= 0.0
  {
    var (speed, omega) := Pursue(input.curvature, cfg.nominal, cfg.gain, cfg.maxOmega, cfg.minSpeed);
    if input.degraded == 0.0 then HALT else Command(speed * input.degraded, omega)
  }

  function Progressed(cfg: Config, f: Follower, s: real): real
    requires cfg.length > 0.0
  {
    if f.s.Some? then f.travelled + ForwardGap(f.s.value, s, cfg.length, cfg.loop) else f.travelled
  }

  function Step(cfg: Config, f: Follower, input: Input): Follower
    requires cfg.length > 0.0 && cfg.maxOmega >= 0.0 && f.choice.committed < |cfg.offsets|
  {
    if f.finished then f
    else
      var g := f.(s := Some(input.s), travelled := Progressed(cfg, f, input.s));
      if AtEnd(cfg, input.s, g.travelled) then g.(finished := true, sent := f.sent + [HALT])
      else if AllBlocked(BlockedOffsets(cfg, input)) then g.(sent := f.sent + [HALT])
      else
        var choice := Choose(f.choice, BlockedOffsets(cfg, input), cfg.resumeCycles);
        var command := Drive(cfg, input);
        g.(choice := choice,
           dCmd := Toward(f.dCmd, cfg.offsets[choice.committed], Allowance(cfg.rampRate, f.speed, cfg.period)),
           speed := command.speed,
           sent := f.sent + [command])
  }

  ghost function Run(cfg: Config, inputs: seq<Input>): (f: Follower)
    requires Usable(cfg)
    ensures f.choice.committed < |cfg.offsets|
    decreases |inputs|
  {
    if inputs == [] then START
    else
      var last := |inputs| - 1;
      Step(cfg, Run(cfg, inputs[..last]), inputs[last])
  }

  // ----- the command sent -----

  /** The command sent follows the curvature exactly when it is a stop, or straight,
      or the floor and the fix penalty, which scales the speed but not the turn,
      cancel out. */
  lemma PenaltyBreaksCurvature(cfg: Config, input: Input)
    requires cfg.maxOmega >= 0.0
    ensures var sent := Drive(cfg, input);
      var unfloored := UnflooredSpeed(input.curvature, cfg.nominal, cfg.gain, cfg.maxOmega);
      && Abs(sent.omega) <= cfg.maxOmega
      && (sent.omega == input.curvature * sent.speed <==>
            || input.degraded == 0.0
            || input.curvature == 0.0
            || Floored(unfloored, cfg.minSpeed) * input.degraded == unfloored)
  {
    hide Drive, UnflooredSpeed, Floored, Times;
    DriveParts(cfg, input);
    var k, unfloored := input.curvature, UnflooredSpeed(input.curvature, cfg.nominal, cfg.gain, cfg.maxOmega);
    PenaltyCancels(k, unfloored, Floored(unfloored, cfg.minSpeed), input.degraded);
  }

  lemma PenaltyCancels(k: real, unfloored: real, floored: real, penalty: real)
    ensures Times(k, unfloored) == k * Times(floored, penalty) <==> k == 0.0 || floored * penalty == unfloored
    ensures 0.0 == k * 0.0
  {
    Shield(floored, penalty);
    Shield(k, Times(floored, penalty));
    hide Times;
    SameMultiples(k, unfloored, Times(floored, penalty));
  }

  lemma DriveParts(cfg: Config, input: Input)
    requires cfg.maxOmega >= 0.0
    ensures var unfloored := UnflooredSpeed(input.curvature, cfg.nominal, cfg.gain, cfg.maxOmega);
      var sent := Drive(cfg, input);
      && Abs(sent.omega) <= cfg.maxOmega
      && (input.degraded == 0.0 ==> sent == HALT)
      && (input.degraded != 0.0 ==>
            sent == Command(Times(Floored(unfloored, cfg.minSpeed), input.degraded), Times(input.curvature, unfloored)))
  {
    var unfloored := UnflooredSpeed(input.curvature, cfg.nominal, cfg.gain, cfg.maxOmega);
    TurnFollowsUnfloored(input.curvature, cfg.nominal, cfg.gain, cfg.maxOmega, cfg.minSpeed);
    hide Pursue, UnflooredSpeed, Times;
    var floored := Floored(unfloored, cfg.minSpeed);
    Shield(floored, input.degraded);
    Shield(input.curvature, unfloored);
  }

  lemma SameMultiples(k: real, a: real, b: real)
    ensures Times(k, a) == Times(k, b) <==> k == 0.0 || a == b
  {
    if k != 0.0 && a != b {
      DistinctMultiples(k, a, b);
    }
  }

  // ----- what blocks a candidate -----

  /** On a loop, a point is ahead exactly when the true distance to it along the
      path, less than a turn, is positive and within the trigger range, wherever
      the seam of the stations lies. */
  lemma AheadIsTrueDistance(cfg: Config, u: real, v: real, p: Return, k: int)
    requires cfg.length > 0.0 && cfg.loop && 0.0 <= v - u < cfg.length
    requires p.station == v + k as real * cfg.length
    ensures Ahead(cfg, Wrap(u, cfg.length, true), p) <==> p.interior && 0.0 < v - u < cfg.triggerRange
  {
    var l, t := cfg.length, Turns(u, cfg.length);
    var s := Wrap(u, l, true);
    assert p.station - s == (v - u) + (k + t) as real * l by {
      TimesShifts(k as real, t as real, l);
      Shield(k as real, l);
      Shield(t as real, l);
      Shield((k + t) as real, l);
      hide Times;
    }
    ModIsUnique(p.station - s, l, v - u, k + t);
  }

  /** On an open path, that distance is the difference of the stations. */
  lemma AheadOnOpenPath(cfg: Config, s: real, p: Return)
    requires cfg.length > 0.0 && !cfg.loop
    ensures Ahead(cfg, s, p) <==> p.interior && 0.0 < p.station - s < cfg.triggerRange
  {
  }

  /** A stale scan stops the robot exactly when it holds points: an empty one
      counts as clear however old it is. */
  lemma StaleScanBlocks(cfg: Config, input: Input)
    requires cfg.length > 0.0 && cfg.offsets != []
    requires input.sight.age.Some? && input.sight.age.value > 1.0
    ensures AllBlocked(BlockedOffsets(cfg, input)) <==> input.sight.points != []
  {
    var blocked := BlockedOffsets(cfg, input);
    if Best(blocked) < |blocked| {
      assert !blocked[Best(blocked)];
    } else {
      assert blocked[0];
    }
  }

  /** Every point ahead keeps the clearance from an offset. */
  ghost predicate KeepsClear(cfg: Config, input: Input, d: real)
    requires cfg.length > 0.0
  {
    forall p :: p in input.sight.points && Ahead(cfg, input.s, p) ==> Abs(p.lateral - d) >= cfg.clearance
  }

  /** In a cycle with some candidate clear, a scan with points is fresh, and a
      candidate is clear exactly if every point ahead keeps the clearance from it. */
  lemma ClearIsKeptClear(cfg: Config, input: Input, i: nat)
    requires cfg.length > 0.0 && i < |cfg.offsets| && input.sight.age.Some?
    requires !AllBlocked(BlockedOffsets(cfg, input))
    ensures input.sight.points != [] ==> input.sight.age.value <= 1.0
    ensures !BlockedOffsets(cfg, input)[i] <==> KeepsClear(cfg, input, cfg.offsets[i])
  {
    hide Ahead;
    if input.sight.age.value > 1.0 {
      StaleScanBlocks(cfg, input);
    }
    assert input.sight.points != [] ==>
        (BlockedOffsets(cfg, input)[i] <==> Obstructed(cfg, input.s, input.sight.points, cfg.offsets[i]));
  }

  /** Over a driving cycle: the offset the robot makes for keeps the clearance from
      every point ahead exactly if the nearest clear candidate is no nearer than the
      one committed, or the wait to resume is over, or the one held keeps it. */
  lemma TargetKeepsClearWhen(cfg: Config, f: Follower, input: Input)
    requires Usable(cfg) && f.choice.committed < |cfg.offsets| && !f.finished
    requires !Step(cfg, f, input).finished && !AllBlocked(BlockedOffsets(cfg, input))
    requires input.sight.age.Some?
    ensures var committed := Step(cfg, f, input).choice.committed;
      && committed < |cfg.offsets|
      && (KeepsClear(cfg, input, cfg.offsets[committed]) <==>
            || Best(BlockedOffsets(cfg, input)) >= f.choice.committed
            || f.choice.streak + 1 >= cfg.resumeCycles
            || KeepsClear(cfg, input, cfg.offsets[f.choice.committed]))
  {
    hide BlockedOffsets, KeepsClear, Choose, AllBlocked, Step;
    StepRecords(cfg, f, input);
    ChosenIsClearWhen(f.choice, BlockedOffsets(cfg, input), cfg.resumeCycles);
    ClearIsKeptClear(cfg, input, Step(cfg, f, input).choice.committed);
    ClearIsKeptClear(cfg, input, f.choice.committed);
  }

  // ----- over whole runs -----

  lemma {:induction false} RunUnfolds(cfg: Config, inputs: seq<Input>)
    requires Usable(cfg) && inputs != []
    ensures var last := |inputs| - 1;
      Run(cfg, inputs) == Step(cfg, Run(cfg, inputs[..last]), inputs[last])
  {
    hide Step;
  }


  /** The commanded offset stays between the path and the outermost candidate: on
      the retreat side, and inside the corridor if the candidates are. */
  lemma {:induction false} OffsetStaysOnSide(cfg: Config, inputs: seq<Input>, side: real, bound: real)
    requires Usable(cfg) && (side == 1.0 || side == -1.0) && bound >= 0.0
    requires forall i :: 0 <= i < |cfg.offsets| ==> 0.0 <= side * cfg.offsets[i] <= bound
    ensures 0.0 <= side * Run(cfg, inputs).dCmd <= bound
    decreases |inputs|
  {
    hide Step;
    if inputs != [] {
      var last := |inputs| - 1;
      OffsetStaysOnSide(cfg, inputs[..last], side, bound);
      StepKeepsSide(cfg, Run(cfg, inputs[..last]), inputs[last], side, bound);
    }
  }

  lemma StepKeepsSide(cfg: Config, f: Follower, input: Input, side: real, bound: real)
    requires Usable(cfg) && f.choice.committed < |cfg.offsets| && (side == 1.0 || side == -1.0)
    requires forall i :: 0 <= i < |cfg.offsets| ==> 0.0 <= side * cfg.offsets[i] <= bound
    requires 0.0 <= side * f.dCmd <= bound
    ensures 0.0 <= side * Step(cfg, f, input).dCmd <= bound
  {
    hide Allowance, Toward, Drive, Progressed, AtEnd;
    if !AllBlocked(BlockedOffsets(cfg, input)) {
      var target := cfg.offsets[Choose(f.choice, BlockedOffsets(cfg, input), cfg.resumeCycles).committed];
      var allowance := Allowance(cfg.rampRate, f.speed, cfg.period);
      TowardShrinks(f.dCmd, target, allowance);
      Between(side, f.dCmd, Toward(f.dCmd, target, allowance), target, bound);
    }
  }

  lemma Between(side: real, d: real, e: real, target: real, bound: real)
    requires (side == 1.0 || side == -1.0) && (d <= e <= target || d >= e >= target)
    requires 0.0 <= side * d <= bound && 0.0 <= side * target <= bound
    ensures 0.0 <= side * e <= bound
  {
  }

  /** Offsets that move outward on one side from the path. */
  ghost predicate Outward(offsets: seq<real>, side: real) {
    && offsets != [] && offsets[0] == 0.0
    && forall i, j :: 0 <= i < j < |offsets| ==> side * offsets[i] < side * offsets[j]
  }

  lemma LastIsOutermost(offsets: seq<real>, side: real, i: nat)
    requires Outward(offsets, side) && i < |offsets|
    ensures 0.0 <= side * offsets[i] <= side * offsets[|offsets| - 1]
  {
    if i > 0 { assert side * offsets[0] < side * offsets[i]; }
  }

  /** For the candidates the node computes, with a positive step and corridor. */
  lemma {:induction false} OffsetStaysInCorridor(cfg: Config, inputs: seq<Input>, step: real,
      corridorHalfWidth: real, clearance: real, side: real)
    requires Usable(cfg) && (side == 1.0 || side == -1.0)
    requires cfg.offsets == CandidateOffsets(step, corridorHalfWidth, clearance, side)
    requires step > 0.0 && corridorHalfWidth - clearance > 0.0
    ensures var outermost := cfg.offsets[|cfg.offsets| - 1];
      0.0 <= side * Run(cfg, inputs).dCmd <= side * outermost <= corridorHalfWidth - clearance
  {
    hide CandidateOffsets, Run;
    CandidatesFillCorridor(step, corridorHalfWidth, clearance, side);
    var n := |cfg.offsets| - 1;
    assert Outward(cfg.offsets, side);
    hide Outward;
    forall i | 0 <= i < |cfg.offsets| ensures 0.0 <= side * cfg.offsets[i] <= side * cfg.offsets[n] {
      LastIsOutermost(cfg.offsets, side, i);
    }
    LastIsOutermost(cfg.offsets, side, n);
    OffsetStaysOnSide(cfg, inputs, side, side * cfg.offsets[n]);
  }

  /** All these cycles drive, with candidate `c` committed. */
  ghost predicate Drives(cfg: Config, before: seq<Input>, cycles: seq<Input>, c: nat)
    requires Usable(cfg)
  {
    forall i :: 0 <= i < |cycles| ==> DrivesAt(cfg, before, cycles, c, i)
  }

  ghost predicate DrivesAt(cfg: Config, before: seq<Input>, cycles: seq<Input>, c: nat, i: nat)
    requires Usable(cfg) && i < |cycles|
  {
    var f := Run(cfg, before + cycles[..i + 1]);
    !AllBlocked(BlockedOffsets(cfg, cycles[i])) && !f.finished && f.choice.committed == c
  }

  /** The speeds commanded when each of these cycles began. */
  ghost function SpeedsOver(cfg: Config, before: seq<Input>, cycles: seq<Input>): seq<real>
    requires Usable(cfg)
  {
    seq(|cycles|, i requires 0 <= i < |cycles| => Run(cfg, before + cycles[..i]).speed)
  }

  /** While one candidate stays committed, the run ramps toward it. */
  lemma {:induction false} HeldTargetRamps(cfg: Config, before: seq<Input>, cycles: seq<Input>, c: nat)
    requires Usable(cfg) && c < |cfg.offsets| && Drives(cfg, before, cycles, c)
    ensures Run(cfg, before + cycles).dCmd ==
            Ramped(Run(cfg, before).dCmd, cfg.offsets[c], cfg.rampRate, cfg.period, SpeedsOver(cfg, before, cycles))
    decreases |cycles|
  {
    hide Run, Ramped, Drives, SpeedsOver;
    if cycles == [] {
      assert before + cycles == before;
      NothingRamps(cfg, before, Run(cfg, before).dCmd, cfg.offsets[c]);
    } else {
      var less := cycles[..|cycles| - 1];
      DrivesPrefix(cfg, before, cycles, c);
      HeldTargetRamps(cfg, before, less, c);
      LastDrive(cfg, before, cycles, c);
      LastSpeed(cfg, before, cycles);
      RampedSnoc(Run(cfg, before).dCmd, cfg.offsets[c], cfg.rampRate, cfg.period,
                 SpeedsOver(cfg, before, less), Run(cfg, before + less).speed);
    }
  }

  lemma {:induction false} NothingRamps(cfg: Config, before: seq<Input>, d: real, target: real)
    requires Usable(cfg)
    ensures Ramped(d, target, cfg.rampRate, cfg.period, SpeedsOver(cfg, before, [])) == d
  {
    hide Run;
  }

  lemma {:induction false} RampedSnoc(d: real, target: real, rampRate: real, period: real, speeds: seq<real>, v: real)
    ensures Ramped(d, target, rampRate, period, speeds + [v]) ==
            Toward(Ramped(d, target, rampRate, period, speeds), target, Allowance(rampRate, v, period))
  {
    assert (speeds + [v])[..|speeds|] == speeds;
  }

  lemma {:induction false} LastSpeed(cfg: Config, before: seq<Input>, cycles: seq<Input>)
    requires Usable(cfg) && cycles != []
    ensures var less := cycles[..|cycles| - 1];
      SpeedsOver(cfg, before, cycles) == SpeedsOver(cfg, before, less) + [Run(cfg, before + less).speed]
  {
    hide Run;
    var less := cycles[..|cycles| - 1];
    forall i: nat | i <= |less| ensures less[..i] == cycles[..i] {}
  }

  lemma {:induction false} LastDrive(cfg: Config, before: seq<Input>, cycles: seq<Input>, c: nat)
    requires Usable(cfg) && c < |cfg.offsets| && cycles != [] && Drives(cfg, before, cycles, c)
    ensures var f := Run(cfg, before + cycles[..|cycles| - 1]);
      Run(cfg, before + cycles).dCmd == Toward(f.dCmd, cfg.offsets[c], Allowance(cfg.rampRate, f.speed, cfg.period))
  {
    hide Run, Step, Toward, Allowance, BlockedOffsets, AllBlocked;
    var last := |cycles| - 1;
    assert DrivesAt(cfg, before, cycles, c, last) && cycles[..last + 1] == cycles;
    assert (before + cycles)[..|before + cycles| - 1] == before + cycles[..last];
    RunUnfolds(cfg, before + cycles);
    DrivingStepRamps(cfg, Run(cfg, before + cycles[..last]), cycles[last]);
  }

  lemma {:induction false} DrivesPrefix(cfg: Config, before: seq<Input>, cycles: seq<Input>, c: nat)
    requires Usable(cfg) && cycles != [] && Drives(cfg, before, cycles, c)
    ensures Drives(cfg, before, cycles[..|cycles| - 1], c)
  {
    hide Run, AllBlocked, BlockedOffsets;
    var less := cycles[..|cycles| - 1];
    forall i | 0 <= i < |less| ensures DrivesAt(cfg, before, less, c, i) {
      assert DrivesAt(cfg, before, cycles, c, i);
      assert less[i] == cycles[i] && less[..i + 1] == cycles[..i + 1];
    }
  }

  /** So the run's offset is the committed one once the travel it commanded since
      then is the lateral distance over the ramp rate; and while neither floor is at
      work, not before. */
  lemma {:induction false} HeldTargetIsReached(cfg: Config, before: seq<Input>, cycles: seq<Input>, c: nat)
    requires Usable(cfg) && c < |cfg.offsets| && Drives(cfg, before, cycles, c)
    requires cfg.rampRate > 0.0 && cfg.period >= 0.0
    ensures var needed := Abs(cfg.offsets[c] - Run(cfg, before).dCmd) / cfg.rampRate;
      var speeds := SpeedsOver(cfg, before, cycles);
      && (Travel(cfg.period, speeds) >= needed ==> Run(cfg, before + cycles).dCmd == cfg.offsets[c])
      && (Unfloored(cfg.rampRate, cfg.period, speeds) ==>
            (Run(cfg, before + cycles).dCmd == cfg.offsets[c] <==> Travel(cfg.period, speeds) >= needed))
  {
    hide Run, Drives, SpeedsOver, Travel, Ramped, Unfloored;
    HeldTargetRamps(cfg, before, cycles, c);
    ReachesByTravel(Run(cfg, before).dCmd, cfg.offsets[c], cfg.rampRate, cfg.period, SpeedsOver(cfg, before, cycles));
  }

  lemma DrivingStepRamps(cfg: Config, f: Follower, input: Input)
    requires Usable(cfg) && f.choice.committed < |cfg.offsets|
    requires !Step(cfg, f, input).finished && !AllBlocked(BlockedOffsets(cfg, input))
    ensures var g := Step(cfg, f, input);
      g.choice.committed < |cfg.offsets|
      && g.dCmd == Toward(f.dCmd, cfg.offsets[g.choice.committed], Allowance(cfg.rampRate, f.speed, cfg.period))
  {
    hide BlockedOffsets, Drive, Toward, Allowance, Progressed, AtEnd;
  }

  ghost function Blockages(cfg: Config, inputs: seq<Input>): seq<seq<bool>>
    requires cfg.length > 0.0
  {
    seq(|inputs|, i requires 0 <= i < |inputs| => BlockedOffsets(cfg, inputs[i]))
  }

  ghost function StationsOf(inputs: seq<Input>): seq<real> {
    seq(|inputs|, i requires 0 <= i < |inputs| => inputs[i].s)
  }

  /** Until the route is finished, the choice is that of the blockages seen and the
      distance travelled is the sum of the gaps between the stations. */
  lemma {:induction false} RunIsItsHistory(cfg: Config, inputs: seq<Input>)
    requires Usable(cfg) && inputs != []
    requires forall k :: 0 <= k < |inputs| ==> !Run(cfg, inputs[..k]).finished
    ensures var f := Run(cfg, inputs);
      && f.s == Some(inputs[|inputs| - 1].s)
      && f.travelled == Travelled(StationsOf(inputs), cfg.length, cfg.loop)
      && (!f.finished ==> f.choice == ChooseAll(Blockages(cfg, inputs), cfg.resumeCycles))
      && (f.finished <==> AtEnd(cfg, inputs[|inputs| - 1].s, f.travelled))
    decreases |inputs|
  {
    hide Step, Run, BlockedOffsets, Choose, Progressed, AtEnd, ForwardGap;
    var last := |inputs| - 1;
    var before := inputs[..last];
    var f := Run(cfg, before);
    assert !f.finished;
    StepRecords(cfg, f, inputs[last]);
    RunUnfolds(cfg, inputs);
    assert StationsOf(inputs)[..last] == StationsOf(before) && Blockages(cfg, inputs)[..last] == Blockages(cfg, before);
    if last > 0 {
      forall k | 0 <= k < last ensures !Run(cfg, before[..k]).finished {
        assert before[..k] == inputs[..k];
      }
      RunIsItsHistory(cfg, before);
      assert StationsOf(inputs)[last - 1] == inputs[last - 1].s;
      ProgressAdds(cfg, f, inputs[last].s);
    } else {
      FirstCycle(cfg, inputs);
    }
  }

  lemma StepRecords(cfg: Config, f: Follower, input: Input)
    requires Usable(cfg) && f.choice.committed < |cfg.offsets| && !f.finished
    ensures var g := Step(cfg, f, input);
      && g.s == Some(input.s) && g.travelled == Progressed(cfg, f, input.s)
      && (!g.finished ==> g.choice == Choose(f.choice, BlockedOffsets(cfg, input), cfg.resumeCycles))
      && (g.finished <==> AtEnd(cfg, input.s, g.travelled))
  {
    hide BlockedOffsets, Choose, Drive, Toward, Allowance, Progressed, AtEnd, AllBlocked;
    BlockedChangesNothing(f.choice, BlockedOffsets(cfg, input), cfg.resumeCycles);
  }

  lemma ProgressAdds(cfg: Config, f: Follower, s: real)
    requires cfg.length > 0.0 && f.s.Some?
    ensures Progressed(cfg, f, s) == f.travelled + ForwardGap(f.s.value, s, cfg.length, cfg.loop)
  {
  }

  lemma {:induction false} FirstCycle(cfg: Config, inputs: seq<Input>)
    requires Usable(cfg) && |inputs| == 1
    ensures Run(cfg, inputs[..0]) == START && Progressed(cfg, START, inputs[0].s) == 0.0
    ensures ChooseAll([], cfg.resumeCycles) == START.choice
  {
  }

  /** The cycle in which a finished run finished. */
  lemma {:induction false} FirstFinish(cfg: Config, inputs: seq<Input>) returns (n: nat)
    requires Usable(cfg) && Run(cfg, inputs).finished
    ensures 0 < n <= |inputs| && Run(cfg, inputs[..n]).finished && Run(cfg, inputs) == Run(cfg, inputs[..n])
    ensures forall k :: 0 <= k < n ==> !Run(cfg, inputs[..k]).finished
    decreases |inputs|
  {
    hide Step;
    var last := |inputs| - 1;
    var before := inputs[..last];
    if Run(cfg, before).finished {
      n := FirstFinish(cfg, before);
      RunUnfolds(cfg, inputs);
      FinishedStays(cfg, Run(cfg, before), inputs[last]);
      assert before[..n] == inputs[..n];
      forall k | 0 <= k < n ensures !Run(cfg, inputs[..k]).finished { assert before[..k] == inputs[..k]; }
    } else {
      n := |inputs|;
      assert inputs[..n] == inputs;
      forall k | 0 <= k < n ensures !Run(cfg, inputs[..k]).finished { NotYet(cfg, inputs, k); }
    }
  }

  /** A finished run stays finished. */
  lemma {:induction false} NotYet(cfg: Config, inputs: seq<Input>, k: nat)
    requires Usable(cfg) && k < |inputs| && !Run(cfg, inputs[..|inputs| - 1]).finished
    ensures !Run(cfg, inputs[..k]).finished
    decreases |inputs|
  {
    hide Step, Run;
    var last := |inputs| - 1;
    if k < last {
      var before := inputs[..last];
      RunUnfolds(cfg, before);
      FinishedStays(cfg, Run(cfg, before[..last - 1]), before[last - 1]);
      NotYet(cfg, before, k);
      assert before[..k] == inputs[..k];
    }
  }

  lemma FinishedStays(cfg: Config, f: Follower, input: Input)
    requires Usable(cfg) && f.choice.committed < |cfg.offsets|
    ensures f.finished ==> Step(cfg, f, input) == f
  {
  }

  /** A loop is only finished after the laps have really been driven: if the true
      positions behind the stations move by less than half a turn per cycle, at
      some cycle the true progress since the first projection was at least the
      number of laps times the length, and the node reports exactly that. */
  lemma {:induction false} FinishedLapsWereDriven(cfg: Config, inputs: seq<Input>, u: seq<real>)
    requires Usable(cfg) && cfg.loop && Run(cfg, inputs).finished
    requires |u| == |inputs| && ShortSteps(u, cfg.length)
    requires forall i :: 0 <= i < |u| ==> inputs[i].s == Wrap(u[i], cfg.length, true)
    ensures exists n :: 0 <= n < |u| && Run(cfg, inputs).travelled == u[n] - u[0] >= cfg.laps * cfg.length
  {
    hide Step, Run, Wrap, Travelled, ShortSteps;
    var m := FirstFinish(cfg, inputs);
    var done := inputs[..m];
    forall k | 0 <= k < m ensures !Run(cfg, done[..k]).finished { assert done[..k] == inputs[..k]; }
    RunIsItsHistory(cfg, done);
    StationsAreWrapped(done, u[..m], cfg.length);
    ShortPrefix(u, m, cfg.length);
    Unwraps(u[..m], cfg.length);
    assert Run(cfg, inputs).travelled == u[m - 1] - u[0] >= cfg.laps * cfg.length;
  }

  lemma StationsAreWrapped(inputs: seq<Input>, u: seq<real>, length: real)
    requires length > 0.0 && |u| == |inputs| && forall i :: 0 <= i < |u| ==> inputs[i].s == Wrap(u[i], length, true)
    ensures StationsOf(inputs) == Wrapped(u, length)
  {
    hide Wrap;
  }

  lemma ShortPrefix(u: seq<real>, m: nat, length: real)
    requires m <= |u| && ShortSteps(u, length)
    ensures ShortSteps(u[..m], length)
  {
    forall i | 0 <= i < m - 1 ensures -length / 2.0 < u[..m][i + 1] - u[..m][i] <= length / 2.0 {
      assert u[..m][i + 1] == u[i + 1];
    }
  }

  /** An open path is only finished within the goal tolerance of its end. */
  lemma {:induction false} FinishedNearTheEnd(cfg: Config, inputs: seq<Input>)
    requires Usable(cfg) && !cfg.loop && Run(cfg, inputs).finished
    ensures exists n ::
      && 0 <= n < |inputs| && cfg.length - inputs[n].s <= cfg.goalTolerance
      && Run(cfg, inputs).travelled == inputs[n].s - inputs[0].s
  {
    hide Step, Run;
    var m := FirstFinish(cfg, inputs);
    var done := inputs[..m];
    forall k | 0 <= k < m ensures !Run(cfg, done[..k]).finished { assert done[..k] == inputs[..k]; }
    RunIsItsHistory(cfg, done);
    OpenTelescopes(StationsOf(done), cfg.length);
    assert cfg.length - inputs[m - 1].s <= cfg.goalTolerance;
  }

  /** Once finished, a run does not change any more. */
  lemma {:induction false} StaysFinished(cfg: Config, inputs: seq<Input>, k: nat)
    requires Usable(cfg) && k <= |inputs| && Run(cfg, inputs[..k]).finished
    ensures Run(cfg, inputs) == Run(cfg, inputs[..k])
    decreases |inputs|
  {
    hide Step, Run;
    if k == |inputs| {
      assert inputs[..k] == inputs;
    } else {
      var before := inputs[..|inputs| - 1];
      assert before[..k] == inputs[..k];
      StaysFinished(cfg, before, k);
      RunUnfolds(cfg, inputs);
      FinishedStays(cfg, Run(cfg, before), inputs[|inputs| - 1]);
    }
  }

  /** What a cycle that begins unfinished finds: the true progress on a loop, the
      station on an open path, and on that it finishes or does not. */
  lemma {:induction false} CycleFinds(cfg: Config, inputs: seq<Input>, n: nat)
    requires Usable(cfg) && n < |inputs| && !Run(cfg, inputs[..n]).finished
    ensures var g := Run(cfg, inputs[..n + 1]);
      && g.travelled == Travelled(StationsOf(inputs[..n + 1]), cfg.length, cfg.loop)
      && (cfg.loop ==> (g.finished <==> g.travelled >= cfg.laps * cfg.length))
      && (!cfg.loop ==> (g.finished <==> cfg.length - inputs[n].s <= cfg.goalTolerance))
  {
    hide Step, Run, Travelled, StationsOf;
    var done := inputs[..n + 1];
    forall k | 0 <= k < |done| ensures !Run(cfg, done[..k]).finished {
      assert done[..k] == inputs[..k] && inputs[..n][..k] == inputs[..k];
      if Run(cfg, inputs[..k]).finished { StaysFinished(cfg, inputs[..n], k); }
    }
    RunIsItsHistory(cfg, done);
  }

  lemma {:induction false} LoopCycleFinds(cfg: Config, inputs: seq<Input>, u: seq<real>, n: nat)
    requires Usable(cfg) && cfg.loop && n < |inputs| && !Run(cfg, inputs[..n]).finished
    requires |u| == |inputs| && ShortSteps(u, cfg.length)
    requires forall i :: 0 <= i < |u| ==> inputs[i].s == Wrap(u[i], cfg.length, true)
    ensures var g := Run(cfg, inputs[..n + 1]);
      g.travelled == u[n] - u[0] && (g.finished <==> u[n] - u[0] >= cfg.laps * cfg.length)
  {
    hide Step, Run, Wrap, Travelled, ShortSteps;
    CycleFinds(cfg, inputs, n);
    StationsAreWrapped(inputs[..n + 1], u[..n + 1], cfg.length);
    ShortPrefix(u, n + 1, cfg.length);
    Unwraps(u[..n + 1], cfg.length);
  }

  /** And it finishes with the laps, not later: in the first cycle in which the true
      progress reaches them, if there is one. */
  lemma {:induction false} LapsEndTheRoute(cfg: Config, inputs: seq<Input>, u: seq<real>)
    requires Usable(cfg) && cfg.loop
    requires |u| == |inputs| && ShortSteps(u, cfg.length)
    requires forall i :: 0 <= i < |u| ==> inputs[i].s == Wrap(u[i], cfg.length, true)
    ensures Run(cfg, inputs).finished <==> exists n :: 0 <= n < |u| && u[n] - u[0] >= cfg.laps * cfg.length
    ensures Run(cfg, inputs).finished ==>
      exists n ::
        && 0 <= n < |u| && Run(cfg, inputs).travelled == u[n] - u[0] >= cfg.laps * cfg.length
        && forall k :: 0 <= k < n ==> u[k] - u[0] < cfg.laps * cfg.length
  {
    hide Run, Wrap, ShortSteps;
    if Run(cfg, inputs).finished {
      var m := FirstFinish(cfg, inputs);
      LoopCycleFinds(cfg, inputs, u, m - 1);
      forall k | 0 <= k < m - 1 ensures u[k] - u[0] < cfg.laps * cfg.length {
        LoopCycleFinds(cfg, inputs, u, k);
      }
    } else {
      forall n | 0 <= n < |u| ensures u[n] - u[0] < cfg.laps * cfg.length {
        NeverFinished(cfg, inputs, n);
        LoopCycleFinds(cfg, inputs, u, n);
      }
    }
  }

  lemma {:induction false} NeverFinished(cfg: Config, inputs: seq<Input>, n: nat)
    requires Usable(cfg) && n < |inputs| && !Run(cfg, inputs).finished
    ensures !Run(cfg, inputs[..n]).finished && !Run(cfg, inputs[..n + 1]).finished
  {
    hide Run;
    if Run(cfg, inputs[..n]).finished {
      StaysFinished(cfg, inputs, n);
    } else if Run(cfg, inputs[..n + 1]).finished {
      StaysFinished(cfg, inputs, n + 1);
    }
  }

  /** An open path ends in the first cycle within the tolerance of its end. */
  lemma {:induction false} ToleranceEndsTheRoute(cfg: Config, inputs: seq<Input>)
    requires Usable(cfg) && !cfg.loop
    ensures Run(cfg, inputs).finished <==>
            exists n :: 0 <= n < |inputs| && cfg.length - inputs[n].s <= cfg.goalTolerance
    ensures Run(cfg, inputs).finished ==>
      exists n ::
        && 0 <= n < |inputs| && cfg.length - inputs[n].s <= cfg.goalTolerance
        && Run(cfg, inputs).s == Some(inputs[n].s)
        && forall k :: 0 <= k < n ==> cfg.length - inputs[k].s > cfg.goalTolerance
  {
    hide Run;
    if Run(cfg, inputs).finished {
      var m := FirstFinish(cfg, inputs);
      CycleFinds(cfg, inputs, m - 1);
      LastStation(cfg, inputs, m - 1);
      forall k | 0 <= k < m - 1 ensures cfg.length - inputs[k].s > cfg.goalTolerance {
        CycleFinds(cfg, inputs, k);
      }
    } else {
      forall n | 0 <= n < |inputs| ensures cfg.length - inputs[n].s > cfg.goalTolerance {
        NeverFinished(cfg, inputs, n);
        CycleFinds(cfg, inputs, n);
      }
    }
  }

  lemma {:induction false} LastStation(cfg: Config, inputs: seq<Input>, n: nat)
    requires Usable(cfg) && n < |inputs| && !Run(cfg, inputs[..n]).finished
    ensures Run(cfg, inputs[..n + 1]).s == Some(inputs[n].s)
  {
    hide Step, Run;
    assert inputs[..n + 1][..n] == inputs[..n];
    RunUnfolds(cfg, inputs[..n + 1]);
    StepRecords(cfg, Run(cfg, inputs[..n]), inputs[n]);
  }

  // ----- what is sent -----

  /** Nothing known bars the way: a scan with points is at most a second old, and
      some candidate keeps the clearance from every point ahead.  Before the first
      scan nothing is known. */
  ghost predicate SeesAWay(cfg: Config, input: Input)
    requires cfg.length > 0.0
  {
    input.sight.age.Some? ==>
      && (input.sight.points != [] ==> input.sight.age.value <= 1.0)
      && exists i :: 0 <= i < |cfg.offsets| && KeepsClear(cfg, input, cfg.offsets[i])
  }

  lemma BlockedUnlessSeen(cfg: Config, input: Input)
    requires Usable(cfg)
    ensures AllBlocked(BlockedOffsets(cfg, input)) <==> !SeesAWay(cfg, input)
  {
    hide Ahead, KeepsClear, BlockedOffsets;
    var blocked := BlockedOffsets(cfg, input);
    if input.sight.age.None? {
      NoScanBlocksNothing(cfg, input);
    } else if AllBlocked(blocked) {
      if input.sight.points == [] || input.sight.age.value <= 1.0 {
        forall i | 0 <= i < |cfg.offsets| ensures !KeepsClear(cfg, input, cfg.offsets[i]) {
          assert blocked[i];
          BlockedIs(cfg, input, i);
        }
      }
    } else {
      ClearIsKeptClear(cfg, input, Best(blocked));
    }
  }

  lemma NoScanBlocksNothing(cfg: Config, input: Input)
    requires Usable(cfg) && input.sight.age.None?
    ensures !AllBlocked(BlockedOffsets(cfg, input))
  {
    assert !BlockedOffsets(cfg, input)[0];
  }

  lemma BlockedIs(cfg: Config, input: Input, i: nat)
    requires cfg.length > 0.0 && i < |cfg.offsets| && input.sight.age.Some?
    requires input.sight.points == [] || input.sight.age.value <= 1.0
    ensures BlockedOffsets(cfg, input)[i] <==> !KeepsClear(cfg, input, cfg.offsets[i])
  {
    hide Ahead;
    if input.sight.points != [] {
      assert BlockedOffsets(cfg, input)[i] <==> Obstructed(cfg, input.s, input.sight.points, cfg.offsets[i]);
    }
  }

  /** Short of its end: the laps are not driven, or the end is out of tolerance. */
  ghost predicate UnderWay(cfg: Config, s: real, travelled: real) {
    if cfg.loop then travelled < cfg.laps * cfg.length else cfg.length - s > cfg.goalTolerance
  }

  /** Every cycle until the finish sends exactly one command, a stop unless the route
      is under way and a way is seen; one after it sends nothing.  The speed the
      node ramps and looks ahead by is that of the last command that drove. */
  lemma {:induction false} EveryCycleSends(cfg: Config, inputs: seq<Input>, input: Input)
    requires Usable(cfg)
    ensures var f, g := Run(cfg, inputs), Run(cfg, inputs + [input]);
      && (f.finished ==> g == f)
      && (!f.finished ==>
            var drives := UnderWay(cfg, input.s, g.travelled) && SeesAWay(cfg, input);
            && g.sent == f.sent + [if drives then Drive(cfg, input) else Command(0.0, 0.0)]
            && g.speed == (if drives then Drive(cfg, input).speed else f.speed)
            && (!drives ==> g.dCmd == f.dCmd && g.choice == f.choice))
  {
    hide Step, Drive, BlockedOffsets, SeesAWay;
    var all := inputs + [input];
    assert all[..|all| - 1] == inputs;
    RunUnfolds(cfg, all);
    hide Run;
    BlockedUnlessSeen(cfg, input);
    StepSends(cfg, Run(cfg, inputs), input);
  }

  lemma StepSends(cfg: Config, f: Follower, input: Input)
    requires Usable(cfg) && f.choice.committed < |cfg.offsets|
    ensures var g := Step(cfg, f, input);
      && (f.finished ==> g == f)
      && (!f.finished ==>
            var drives := UnderWay(cfg, input.s, g.travelled) && !AllBlocked(BlockedOffsets(cfg, input));
            && g.sent == f.sent + [if drives then Drive(cfg, input) else Command(0.0, 0.0)]
            && g.speed == (if drives then Drive(cfg, input).speed else f.speed)
            && (!drives ==> g.dCmd == f.dCmd && g.choice == f.choice))
  {
    hide Drive, BlockedOffsets, AllBlocked, Toward, Allowance, Progressed, Choose;
  }

  /** So over a whole run there is one command per cycle up to the finish, and one
      that moves the robot was sent in a cycle under way, with a way seen. */
  lemma {:induction false} MovesOnlyWithAWay(cfg: Config, inputs: seq<Input>, i: nat)
    requires Usable(cfg) && i < |Run(cfg, inputs).sent|
    ensures i < |inputs| && !Run(cfg, inputs[..i]).finished
    ensures Run(cfg, inputs).sent[i] != Command(0.0, 0.0) ==>
      && UnderWay(cfg, inputs[i].s, Run(cfg, inputs[..i + 1]).travelled) && SeesAWay(cfg, inputs[i])
      && Run(cfg, inputs).sent[i] == Drive(cfg, inputs[i])
    decreases |inputs|
  {
    hide Run, Step, Drive, SeesAWay, UnderWay;
    if inputs == [] {
      NothingSentYet(cfg);
    } else {
      var last := |inputs| - 1;
      var before := inputs[..last];
      assert before + [inputs[last]] == inputs && inputs[..last + 1] == inputs;
      EveryCycleSends(cfg, before, inputs[last]);
      OneCommandPerCycle(cfg, before);
      if i < |Run(cfg, before).sent| {
        MovesOnlyWithAWay(cfg, before, i);
        assert before[..i] == inputs[..i] && before[..i + 1] == inputs[..i + 1];
      }
    }
  }

  lemma {:induction false} NothingSentYet(cfg: Config)
    requires Usable(cfg)
    ensures Run(cfg, []) == START
  {
  }

  lemma {:induction false} OneCommandPerCycle(cfg: Config, inputs: seq<Input>)
    requires Usable(cfg)
    ensures var f := Run(cfg, inputs);
      && |f.sent| <= |inputs|
      && (!f.finished ==> |f.sent| == |inputs|)
      && (f.finished ==> f.sent != [] && f.sent[|f.sent| - 1] == Command(0.0, 0.0)
                         && Run(cfg, inputs[..|f.sent|]).finished)
    decreases |inputs|
  {
    hide Run, Step, Drive, SeesAWay;
    if inputs == [] {
      NothingSentYet(cfg);
    } else {
      var last := |inputs| - 1;
      var before := inputs[..last];
      assert before + [inputs[last]] == inputs && inputs[..last + 1] == inputs;
      EveryCycleSends(cfg, before, inputs[last]);
      OneCommandPerCycle(cfg, before);
      if Run(cfg, before).finished {
        assert before[..|Run(cfg, before).sent|] == inputs[..|Run(cfg, before).sent|];
      } else {
        CycleFinds(cfg, inputs, last);
      }
    }
  }

  // ----- the node -----

  class RouteFollowerNode {
    const cfg: Config
    var prevSeen: bool
    var s: Option<real>
    var travelled: real
    var speed: real
    var dCmd: real
    var committed: nat
    var clearStreak: int
    var finished: bool

    /** The commands published. */
    var sent: seq<Command>

    ghost function State(): Follower
      reads this
    {
      Follower(s, travelled, Choice(committed, clearStreak), dCmd, speed, finished, sent)
    }

    ghost predicate Valid()
      reads this
    {
      Usable(cfg) && committed < |cfg.offsets|
    }

    constructor (c: Config)
      requires Usable(c)
      ensures Valid() && cfg == c && State() == START
    {
      cfg := c;
      prevSeen, s, travelled, speed, dCmd := false, None, 0.0, 0.0, 0.0;
      committed, clearStreak, finished, sent := 0, 0, false, [];
    }

    method Control(input: Input)
      requires Valid()
      modifies this
      ensures Valid() && State() == Step(cfg, old(State()), input)
    {
      hide Drive, ForwardGap, AtEnd, Toward, Allowance, Choose, AllBlocked;
      if finished {
        return;
      }
      prevSeen := true;
      var previous := s;
      s := Some(input.s);
      if previous.Some? {
        travelled := travelled + ForwardGap(previous.value, input.s, cfg.length, cfg.loop);
      }
      if AtEnd(cfg, input.s, travelled) {
        finished := true;
        sent := sent + [HALT];
        return;
      }
      BlockedChangesNothing(Choice(committed, clearStreak), BlockedOffsets(cfg, input), cfg.resumeCycles);
      var index := ChooseOffset(BlockedOffsets(cfg, input));
      if index.None? {
        sent := sent + [HALT];
        return;
      }
      RampToward(cfg.offsets[index.value]);
      var command := Degraded(input);
      speed := command.speed;
      sent := sent + [command];
    }

    /** The pursuit command, slowed by the fix penalty. */
    method Degraded(input: Input) returns (command: Command)
      requires Valid()
      ensures command == Drive(cfg, input)
    {
      var (pursued, omega) := Pursue(input.curvature, cfg.nominal, cfg.gain, cfg.maxOmega, cfg.minSpeed);
      hide Pursue;
      pursued := pursued * input.degraded;
      if input.degraded == 0.0 {
        pursued, omega := 0.0, 0.0;
      }
      return Command(pursued, omega);
    }

    /** The index of the offset to make for; none if all are blocked. */
    method ChooseOffset(blocked: seq<bool>) returns (index: Option<nat>)
      requires Valid() && |blocked| == |cfg.offsets|
      modifies this`committed, this`clearStreak
      ensures Valid()
      ensures Choice(committed, clearStreak) ==
          Choose(Choice(old(committed), old(clearStreak)), blocked, cfg.resumeCycles)
      ensures index == if AllBlocked(blocked) then None else Some(committed)
    {
      var best := Best(blocked);
      if best == |blocked| {
        return None;
      }
      if best > committed {
        committed, clearStreak := best, 0;
      } else if best < committed {
        clearStreak := clearStreak + 1;
        if clearStreak >= cfg.resumeCycles {
          committed, clearStreak := best, 0;
        }
      } else {
        clearStreak := 0;
      }
      return Some(committed);
    }

    /** Bounded per distance driven, except before the first position. */
    method RampToward(target: real)
      modifies this`dCmd
      ensures dCmd == if prevSeen then Toward(old(dCmd), target, Allowance(cfg.rampRate, speed, cfg.period)) else target
    {
      if !prevSeen {
        dCmd := target;
        return;
      }
      var allowance := Allowance(cfg.rampRate, speed, cfg.period);
      var delta := target - dCmd;
      var size := if Abs(delta) < allowance then Abs(delta) else allowance;
      dCmd := dCmd + (if delta >= 0.0 then size else -size);
    }
  }
}
