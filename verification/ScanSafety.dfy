/** The forward safety brake of `scan_safety_node.py`: what each event publishes,
    as a step of a state machine, and what holds over every run of it. */
module ScanSafety {

  datatype Option<+T> = None | Some(value: T)

  datatype Vector = Vector(x: real, y: real, z: real)
  datatype Twist = Twist(linear: Vector, angular: Vector)

  const STILL := Twist(Vector(0.0, 0.0, 0.0), Vector(0.0, 0.0, 0.0))

  datatype Scan = Scan(angleMin: real, angleIncrement: real, ranges: seq<real>, rangeMax: real)

  /** `inSector` is the wrapped-angle test against the forward sector. */
  datatype Config = Config(
    inSector: real -> bool,
    stop: real,
    minRange: real,
    scanTimeout: real,
    cmdTimeout: real,
    period: real)

  datatype Stamped<+T> = Stamped(what: T, at: real)

  /** One Twist on the output, with the obstacle flag published beside it. */
  datatype Publication = Publication(at: real, twist: Twist, obstacle: bool)

  datatype Node = Node(
    scan: Option<Stamped<Scan>>,
    cmd: Option<Stamped<Twist>>,
    pubTime: Option<real>,
    out: seq<Publication>)

  const INITIAL := Node(None, None, None, [])

  datatype Event = OnScan(at: real, scan: Scan) | OnCmd(at: real, cmd: Twist) | OnTick(at: real)

  // ----- the forward sector -----

  datatype Key = Key(angleMin: real, angleIncrement: real, beams: nat)
  datatype Sector = Sector(key: Key, indices: seq<nat>)

  function KeyOf(scan: Scan): Key {
    Key(scan.angleMin, scan.angleIncrement, |scan.ranges|)
  }

  /** The bearing of beam `i`. */
  function Bearing(angleMin: real, angleIncrement: real, i: nat): real {
    angleMin + i as real * angleIncrement
  }

  /** The first beam is at the scan's start angle, and the next is one step on. */
  lemma BearingsAreSpaced(angleMin: real, angleIncrement: real, i: nat)
    ensures Bearing(angleMin, angleIncrement, 0) == angleMin
    ensures Bearing(angleMin, angleIncrement, i + 1) == Bearing(angleMin, angleIncrement, i) + angleIncrement
  {
    assert (i + 1) as real * angleIncrement == i as real * angleIncrement + angleIncrement;
  }

  predicate InSector(cfg: Config, key: Key, i: nat) {
    i < key.beams && cfg.inSector(Bearing(key.angleMin, key.angleIncrement, i))
  }

  // ----- the gate -----

  /** Some valid return inside the sector is closer than the stop distance. */
  ghost predicate Near(cfg: Config, scan: Scan) {
    exists i :: 0 <= i < |scan.ranges| && NearAt(cfg, scan, i)
  }

  predicate NearAt(cfg: Config, scan: Scan, i: nat)
    requires i < |scan.ranges|
  {
    && InSector(cfg, KeyOf(scan), i)
    && cfg.minRange <= scan.ranges[i] <= scan.rangeMax
    && scan.ranges[i] < cfg.stop
  }

  /** Forward motion is allowed: the scan is fresh and shows nothing near. */
  ghost predicate Clear(cfg: Config, scan: Option<Stamped<Scan>>, now: real) {
    scan.Some? && now - scan.value.at <= cfg.scanTimeout && !Near(cfg, scan.value.what)
  }

  ghost predicate Blocks(cfg: Config, scan: Option<Stamped<Scan>>, cmd: Twist, now: real) {
    cmd.linear.x > 0.0 && !Clear(cfg, scan, now)
  }

  /** The command with its forward component zeroed if blocked. */
  function Gated(cmd: Twist, blocked: bool): Twist {
    if blocked then cmd.(linear := cmd.linear.(x := 0.0)) else cmd
  }

  ghost function Publish(cfg: Config, n: Node, cmd: Twist, now: real): Node {
    var blocked := Blocks(cfg, n.scan, cmd, now);
    n.(out := n.out + [Publication(now, Gated(cmd, blocked), blocked)], pubTime := Some(now))
  }

  // ----- one event, and a run -----

  ghost function Step(cfg: Config, n: Node, e: Event): Node {
    match e
    case OnScan(now, scan) => n.(scan := Some(Stamped(scan, now)))
    case OnCmd(now, cmd) => Publish(cfg, n.(cmd := Some(Stamped(cmd, now))), cmd, now)
    case OnTick(now) =>
      if n.cmd.None? then n
      else if now - n.cmd.value.at > cfg.cmdTimeout then
        n.(cmd := None, out := n.out + [Publication(now, STILL, false)])
      else if n.pubTime.Some? && now - n.pubTime.value < cfg.period then n
      else Publish(cfg, n, n.cmd.value.what, now)
  }

  ghost function Run(cfg: Config, evs: seq<Event>): Node {
    if evs == [] then INITIAL else Step(cfg, Run(cfg, evs[..|evs| - 1]), evs[|evs| - 1])
  }

  lemma {:induction false} RunSnoc(cfg: Config, evs: seq<Event>, e: Event)
    ensures Run(cfg, evs + [e]) == Step(cfg, Run(cfg, evs), e)
  {
    assert (evs + [e])[..|evs|] == evs;
  }

  // ----- the history a run has seen -----

  ghost function LatestScan(evs: seq<Event>): Option<Stamped<Scan>> {
    if evs == [] then None
    else
      var e := evs[|evs| - 1];
      if e.OnScan? then Some(Stamped(e.scan, e.at)) else LatestScan(evs[..|evs| - 1])
  }

  ghost function LatestCmd(evs: seq<Event>): Option<Stamped<Twist>> {
    if evs == [] then None
    else
      var e := evs[|evs| - 1];
      if e.OnCmd? then Some(Stamped(e.cmd, e.at)) else LatestCmd(evs[..|evs| - 1])
  }

  /** The state holds the latest scan, and the latest command or none. */
  lemma {:induction false} StateIsHistory(cfg: Config, evs: seq<Event>)
    ensures var n := Run(cfg, evs);
      && n.scan == LatestScan(evs)
      && (n.cmd.Some? ==> n.cmd == LatestCmd(evs))
      && (n.cmd.Some? ==> n.pubTime.Some? && n.out != [] && n.out[|n.out| - 1].at == n.pubTime.value)
    decreases |evs|
  {
    hide Blocks;
    if evs != [] {
      StateIsHistory(cfg, evs[..|evs| - 1]);
    }
  }

  // ----- safety -----

  /** A publication is the zero Twist of an expired command, or the latest command,
      not older than its timeout, with all components unchanged except that a
      positive forward one is zeroed unless the latest scan is fresh and clear. */
  ghost predicate Justified(cfg: Config, evs: seq<Event>, p: Publication)
    requires evs != []
  {
    var e := evs[|evs| - 1];
    var cmd := LatestCmd(evs);
    && p.at == e.at && !e.OnScan? && cmd.Some?
    && if e.OnTick? && e.at - cmd.value.at > cfg.cmdTimeout then p.twist == STILL && !p.obstacle
       else
         && p.obstacle == (cmd.value.what.linear.x > 0.0 && !Clear(cfg, LatestScan(evs), e.at))
         && p.twist.linear.x == (if p.obstacle then 0.0 else cmd.value.what.linear.x)
         && p.twist.linear.y == cmd.value.what.linear.y && p.twist.linear.z == cmd.value.what.linear.z
         && p.twist.angular == cmd.value.what.angular
  }

  /** An event publishes nothing or one justified Twist. */
  lemma {:induction false} EventPublishes(cfg: Config, evs: seq<Event>, e: Event)
    ensures var before, after := Run(cfg, evs).out, Run(cfg, evs + [e]).out;
      || after == before
      || (|after| == |before| + 1 && before == after[..|before|] && Justified(cfg, evs + [e], after[|before|]))
  {
    hide Clear;
    RunSnoc(cfg, evs, e);
    StateIsHistory(cfg, evs);
    assert (evs + [e])[..|evs|] == evs;
  }

  /** Every Twist ever published was justified by the events up to some point. */
  lemma {:induction false} EveryPublicationIsJustified(cfg: Config, evs: seq<Event>, i: nat) returns (k: nat)
    requires i < |Run(cfg, evs).out|
    ensures 0 < k <= |evs| && Justified(cfg, evs[..k], Run(cfg, evs).out[i])
    decreases |evs|
  {
    hide Justified, Step;
    var last := |evs| - 1;
    var before := evs[..last];
    assert evs == before + [evs[last]];
    EventPublishes(cfg, before, evs[last]);
    if i < |Run(cfg, before).out| {
      k := EveryPublicationIsJustified(cfg, before, i);
      assert before[..k] == evs[..k];
    } else {
      k := |evs|;
      assert evs[..k] == evs;
    }
  }

  /** The brake: forward motion is published only while the latest scan is at most
      the timeout old and no return of it that is in the sector and within the range
      limits is closer than the stop distance. */
  lemma {:induction false} ForwardOnlyWhenClear(cfg: Config, evs: seq<Event>, i: nat) returns (k: nat)
    requires i < |Run(cfg, evs).out| && Run(cfg, evs).out[i].twist.linear.x > 0.0
    ensures 0 < k <= |evs| && Run(cfg, evs).out[i].at == evs[k - 1].at && LatestScan(evs[..k]).Some?
    ensures var scan := LatestScan(evs[..k]).value;
      && Run(cfg, evs).out[i].at - scan.at <= cfg.scanTimeout
      && forall j :: 0 <= j < |scan.what.ranges| && Returned(cfg, scan.what, j) ==> scan.what.ranges[j] >= cfg.stop
  {
    k := EveryPublicationIsJustified(cfg, evs, i);
    SeesNear(cfg, LatestScan(evs[..k]).value.what);
  }

  /** Beam `j` lies in the forward sector and returned a range within the limits. */
  predicate Returned(cfg: Config, scan: Scan, j: nat)
    requires j < |scan.ranges|
  {
    && cfg.inSector(Bearing(scan.angleMin, scan.angleIncrement, j))
    && cfg.minRange <= scan.ranges[j] <= scan.rangeMax
  }

  lemma SeesNear(cfg: Config, scan: Scan)
    ensures Near(cfg, scan) <==>
            exists j :: 0 <= j < |scan.ranges| && Returned(cfg, scan, j) && scan.ranges[j] < cfg.stop
  {
    hide Bearing;
    if Near(cfg, scan) {
      var i :| 0 <= i < |scan.ranges| && NearAt(cfg, scan, i);
      assert Returned(cfg, scan, i);
    }
    if j :| 0 <= j < |scan.ranges| && Returned(cfg, scan, j) && scan.ranges[j] < cfg.stop {
      assert NearAt(cfg, scan, j);
    }
  }

  // ----- what each event publishes -----

  /** The log grows by exactly one publication. */
  ghost predicate Adds(before: seq<Publication>, after: seq<Publication>) {
    |after| == |before| + 1 && before == after[..|before|]
  }

  /** A scan publishes nothing. */
  lemma {:induction false} ScanIsSilent(cfg: Config, evs: seq<Event>, t: real, scan: Scan)
    ensures Run(cfg, evs + [OnScan(t, scan)]).out == Run(cfg, evs).out
  {
    RunSnoc(cfg, evs, OnScan(t, scan));
  }

  /** A command goes out at once, whatever came before: unchanged, unless it is
      forward and there is no scan, or only an old one, or something near in it; then
      without its forward component. */
  lemma {:induction false} CommandGoesOut(cfg: Config, evs: seq<Event>, t: real, c: Twist)
    ensures var before, after := Run(cfg, evs).out, Run(cfg, evs + [OnCmd(t, c)]).out;
      && Adds(before, after)
      && var p := after[|before|];
         var scan := LatestScan(evs);
         var blocked :=
           c.linear.x > 0.0 && (
             || scan.None?
             || t - scan.value.at > cfg.scanTimeout
             || exists j ::
                  && 0 <= j < |scan.value.what.ranges| && Returned(cfg, scan.value.what, j)
                  && scan.value.what.ranges[j] < cfg.stop);
         && p.at == t && p.obstacle == blocked
         && p.twist == if blocked then c.(linear := c.linear.(x := 0.0)) else c
  {
    hide Near, Returned;
    RunSnoc(cfg, evs, OnCmd(t, c));
    StateIsHistory(cfg, evs);
    if LatestScan(evs).Some? { SeesNear(cfg, LatestScan(evs).value.what); }
  }

  /** A tick publishes nothing without a command held; one zero Twist when the command
      has expired; and otherwise the command, gated as on arrival, if and only if the
      last publication is at least one period old. */
  lemma {:induction false} TickGoesOut(cfg: Config, evs: seq<Event>, t: real)
    ensures var n, after := Run(cfg, evs), Run(cfg, evs + [OnTick(t)]).out;
      && (n.cmd.None? ==> after == n.out)
      && (n.cmd.Some? ==>
            && n.cmd == LatestCmd(evs) && n.out != []
            && var c, last := n.cmd.value, n.out[|n.out| - 1];
               if t - c.at > cfg.cmdTimeout then after == n.out + [Publication(t, STILL, false)]
               else if t - last.at < cfg.period then after == n.out
               else Adds(n.out, after) && after[|n.out|] == Run(cfg, evs + [OnCmd(t, c.what)]).out[|n.out|])
  {
    hide Blocks, Gated;
    RunSnoc(cfg, evs, OnTick(t));
    StateIsHistory(cfg, evs);
    if Run(cfg, evs).cmd.Some? { RunSnoc(cfg, evs, OnCmd(t, Run(cfg, evs).cmd.value.what)); }
  }

  // ----- timing -----

  ghost function LastTime(evs: seq<Event>, start: real): real {
    if evs == [] then start else evs[|evs| - 1].at
  }

  ghost function LastTick(evs: seq<Event>, start: real): real {
    if evs == [] then start
    else
      var e := evs[|evs| - 1];
      if e.OnTick? then e.at else LastTick(evs[..|evs| - 1], start)
  }

  /** Time does not run backwards, and no event comes more than `d` after the last
      tick (or after the timer was started). */
  ghost predicate Regular(evs: seq<Event>, start: real, d: real) {
    forall k :: 0 <= k < |evs| ==> RegularAt(evs, start, d, k)
  }

  ghost predicate RegularAt(evs: seq<Event>, start: real, d: real, k: nat)
    requires k < |evs|
  {
    LastTime(evs[..k], start) <= evs[k].at <= LastTick(evs[..k], start) + d
  }

  lemma RegularPrefix(evs: seq<Event>, start: real, d: real, n: nat)
    requires n <= |evs| && Regular(evs, start, d)
    ensures Regular(evs[..n], start, d)
  {
    forall k | 0 <= k < n ensures RegularAt(evs[..n], start, d, k) {
      assert evs[..n][..k] == evs[..k] && RegularAt(evs, start, d, k);
    }
  }

  /** While a command is held, the last tick was less than one period after the
      last publication. */
  lemma {:induction false} TickFollowsPublication(cfg: Config, evs: seq<Event>, start: real, d: real)
    requires Regular(evs, start, d) && cfg.period > 0.0
    ensures LastTick(evs, start) <= LastTime(evs, start)
    ensures var n := Run(cfg, evs);
      n.cmd.Some? ==> n.pubTime.Some? && LastTick(evs, start) < n.pubTime.value + cfg.period
    decreases |evs|
  {
    hide Blocks, Gated;
    if evs != [] {
      var last := |evs| - 1;
      RegularPrefix(evs, start, d, last);
      TickFollowsPublication(cfg, evs[..last], start, d);
      assert RegularAt(evs, start, d, last);
    }
  }

  /** With ticks at most `d` apart, whenever anything happens while a command is
      held, the last publication is less than one period plus `d` ago; so
      consecutive publications for a held command are closer than that. */
  lemma {:induction false} HeldCommandIsRepublished(cfg: Config, evs: seq<Event>, start: real, d: real, k: nat)
    requires Regular(evs, start, d) && cfg.period > 0.0 && k < |evs|
    requires Run(cfg, evs[..k]).cmd.Some?
    ensures var out := Run(cfg, evs[..k]).out;
      out != [] && evs[k].at - out[|out| - 1].at < cfg.period + d
  {
    hide Step;
    RegularPrefix(evs, start, d, k);
    TickFollowsPublication(cfg, evs[..k], start, d);
    StateIsHistory(cfg, evs[..k]);
    assert RegularAt(evs, start, d, k);
  }

  // ----- the reaction bound -----

  /** When no command is held, the last thing published was a stop, if anything. */
  lemma {:induction false} IdleMeansStopped(cfg: Config, evs: seq<Event>)
    ensures var n := Run(cfg, evs); n.cmd.None? ==> n.out == [] || n.out[|n.out| - 1].twist == STILL
    decreases |evs|
  {
    hide Blocks, Gated;
    if evs != [] {
      IdleMeansStopped(cfg, evs[..|evs| - 1]);
    }
  }

  /** At an event after `t0` the way is not clear. */
  ghost predicate NotClearAfter(cfg: Config, evs: seq<Event>, t0: real, j: nat)
    requires j < |evs|
  {
    evs[j].at > t0 ==> !Clear(cfg, LatestScan(evs[..j + 1]), evs[j].at)
  }

  /** The reaction bound.  With ticks at most `d` apart, once the way has not been
      clear for one period plus `d`, for whatever reason and whatever commands kept
      coming, the last Twist published does not move the robot forward. */
  lemma {:induction false} ForwardMotionStops(cfg: Config, evs: seq<Event>, start: real, d: real, t0: real, n: nat)
    requires Regular(evs, start, d) && cfg.period > 0.0 && n < |evs|
    requires forall j: nat :: j < n ==> NotClearAfter(cfg, evs, t0, j)
    requires evs[n].at >= t0 + cfg.period + d
    ensures var out := Run(cfg, evs[..n]).out; out == [] || out[|out| - 1].twist.linear.x <= 0.0
  {
    hide Step, Clear, Regular;
    var seen := evs[..n];
    var out := Run(cfg, seen).out;
    if Run(cfg, seen).cmd.None? {
      IdleMeansStopped(cfg, seen);
    } else {
      HeldCommandIsRepublished(cfg, evs, start, d, n);
      var last := out[|out| - 1];
      var k := EveryPublicationIsJustified(cfg, seen, |out| - 1);
      assert seen[..k] == evs[..k] && seen[..k][k - 1] == evs[k - 1];
      assert NotClearAfter(cfg, evs, t0, k - 1) && evs[..k - 1 + 1] == evs[..k];
    }
  }

  lemma {:induction false} ScanTimesGrow(evs: seq<Event>, start: real, d: real, j: nat)
    requires Regular(evs, start, d) && j <= |evs|
    ensures LatestScan(evs).Some? ==> LatestScan(evs).value.at <= LastTime(evs, start)
    ensures LatestScan(evs[..j]).Some? ==>
        LatestScan(evs).Some? && LatestScan(evs[..j]).value.at <= LatestScan(evs).value.at
    decreases |evs|
  {
    var last := |evs| - 1;
    if j == |evs| {
      assert evs[..j] == evs;
    }
    if evs != [] {
      RegularPrefix(evs, start, d, last);
      assert RegularAt(evs, start, d, last);
      if j <= last {
        ScanTimesGrow(evs[..last], start, d, j);
        assert evs[..last][..j] == evs[..j];
      } else {
        ScanTimesGrow(evs[..last], start, d, last);
      }
    }
  }

  /** If no scan comes any more, forward motion ends within the scan timeout, one
      period and `d` of the last one. */
  lemma {:induction false} SilentScannerStops(cfg: Config, evs: seq<Event>, start: real, d: real, n: nat)
    requires Regular(evs, start, d) && cfg.period > 0.0 && n < |evs|
    requires LatestScan(evs[..n]).Some?
    requires evs[n].at >= LatestScan(evs[..n]).value.at + cfg.scanTimeout + cfg.period + d
    ensures var out := Run(cfg, evs[..n]).out; out == [] || out[|out| - 1].twist.linear.x <= 0.0
  {
    hide Step, Run, LatestScan, Regular;
    var t0 := LatestScan(evs[..n]).value.at + cfg.scanTimeout;
    RegularPrefix(evs, start, d, n);
    forall j: nat | j < n ensures NotClearAfter(cfg, evs, t0, j) {
      ScanTimesGrow(evs[..n], start, d, j + 1);
      assert evs[..n][..j + 1] == evs[..j + 1];
    }
    ForwardMotionStops(cfg, evs, start, d, t0, n);
  }

  // ----- expiry -----

  ghost predicate NoCommand(evs: seq<Event>) {
    forall e :: e in evs ==> !e.OnCmd?
  }

  /** The timeout; a negative one lets a command live for no time at all. */
  function Lifetime(cfg: Config): real {
    if cfg.cmdTimeout > 0.0 then cfg.cmdTimeout else 0.0
  }

  ghost predicate LateTick(cfg: Config, e: Event, t: real) {
    e.OnTick? && e.at - t > cfg.cmdTimeout
  }

  /** Everything published from a point on, given the log up to it. */
  ghost predicate ExtendsWithin(before: seq<Publication>, after: seq<Publication>, deadline: real) {
    && before <= after
    && forall i :: |before| <= i < |after| ==> after[i].at <= deadline
  }

  /** Until a tick finds it expired, a command without a successor stays held and
      is republished, never later than its timeout. */
  lemma {:induction false} HeldUntilExpiry(cfg: Config, pre: seq<Event>, c: Twist, t: real, suf: seq<Event>)
    requires NoCommand(suf) && forall e :: e in suf ==> !LateTick(cfg, e, t)
    ensures var n, m := Run(cfg, pre + [OnCmd(t, c)]), Run(cfg, pre + [OnCmd(t, c)] + suf);
      && m.cmd == Some(Stamped(c, t))
      && ExtendsWithin(n.out, m.out, t + cfg.cmdTimeout)
    decreases |suf|
  {
    hide Blocks, Gated;
    var head := pre + [OnCmd(t, c)];
    RunSnoc(cfg, pre, OnCmd(t, c));
    if suf == [] {
      assert head + suf == head;
    } else {
      var last := |suf| - 1;
      var e := suf[last];
      assert e in suf;
      HeldUntilExpiry(cfg, pre, c, t, suf[..last]);
      assert head + suf == head + suf[..last] + [e];
      RunSnoc(cfg, head + suf[..last], e);
    }
  }

  /** Once no command is held, nothing is published until the next one. */
  lemma {:induction false} SilentWithoutCommand(cfg: Config, evs: seq<Event>, suf: seq<Event>)
    requires NoCommand(suf) && Run(cfg, evs).cmd.None?
    ensures Run(cfg, evs + suf).cmd.None? && Run(cfg, evs + suf).out == Run(cfg, evs).out
    decreases |suf|
  {
    if suf == [] {
      assert evs + suf == evs;
    } else {
      var last := |suf| - 1;
      assert suf[last] in suf;
      SilentWithoutCommand(cfg, evs, suf[..last]);
      assert evs + suf == evs + suf[..last] + [suf[last]];
      RunSnoc(cfg, evs + suf[..last], suf[last]);
    }
  }

  /** After a command without a successor, the first tick that finds it expired
      publishes one zero Twist, at most `d` after its timeout, and nothing is
      published after that; before it, everything published was within the
      timeout. */
  lemma {:induction false} ExpiryStopsOnce(cfg: Config, pre: seq<Event>, c: Twist, t: real, suf: seq<Event>, m: nat,
      start: real, d: real)
    requires NoCommand(suf) && m < |suf| && LateTick(cfg, suf[m], t)
    requires forall i :: 0 <= i < m ==> !LateTick(cfg, suf[i], t)
    requires Regular(pre + [OnCmd(t, c)] + suf, start, d)
    ensures var head := pre + [OnCmd(t, c)];
      var held := Run(cfg, head + suf[..m]).out;
      && ExtendsWithin(Run(cfg, head).out, held, t + cfg.cmdTimeout)
      && Run(cfg, head + suf).out == held + [Publication(suf[m].at, STILL, false)]
      && t + cfg.cmdTimeout < suf[m].at <= t + Lifetime(cfg) + d
  {
    hide Step, Run, ExtendsWithin, LateTick, Regular;
    var head := pre + [OnCmd(t, c)];
    PrefixIsTimely(cfg, suf, m, t);
    HeldUntilExpiry(cfg, pre, c, t, suf[..m]);
    RunSnoc(cfg, head + suf[..m], suf[m]);
    ExpiryStep(cfg, Run(cfg, head + suf[..m]), c, t, suf[m]);
    SilentWithoutCommand(cfg, head + suf[..m] + [suf[m]], suf[m + 1..]);
    assert head + suf[..m] + [suf[m]] + suf[m + 1..] == head + suf;
    ExpiryIsPrompt(cfg, pre, c, t, suf, m, start, d);
  }

  lemma PrefixIsTimely(cfg: Config, suf: seq<Event>, m: nat, t: real)
    requires m <= |suf| && forall i :: 0 <= i < m ==> !LateTick(cfg, suf[i], t)
    ensures forall e :: e in suf[..m] ==> !LateTick(cfg, e, t)
  {
  }

  lemma ExpiryIsPrompt(cfg: Config, pre: seq<Event>, c: Twist, t: real, suf: seq<Event>, m: nat, start: real, d: real)
    requires m < |suf| && LateTick(cfg, suf[m], t) && forall i :: 0 <= i < m ==> !LateTick(cfg, suf[i], t)
    requires Regular(pre + [OnCmd(t, c)] + suf, start, d)
    ensures t + cfg.cmdTimeout < suf[m].at <= t + Lifetime(cfg) + d
  {
    var head := pre + [OnCmd(t, c)];
    var whole := head + suf;
    var k := |head| + m;
    assert whole[..k] == head + suf[..m] && whole[k] == suf[m] && RegularAt(whole, start, d, k);
    PrefixIsTimely(cfg, suf, m, t);
    TickBeforeExpiry(cfg, pre, c, t, suf[..m], start, d, whole);
  }

  lemma ExpiryStep(cfg: Config, n: Node, c: Twist, t: real, e: Event)
    requires n.cmd == Some(Stamped(c, t)) && LateTick(cfg, e, t)
    ensures Step(cfg, n, e) == n.(cmd := None, out := n.out + [Publication(e.at, STILL, false)])
  {
  }

  /** Up to the first late tick, the last tick was not past the timeout. */
  lemma {:induction false} TickBeforeExpiry(cfg: Config, pre: seq<Event>, c: Twist, t: real, suf: seq<Event>,
      start: real, d: real, whole: seq<Event>)
    requires Regular(whole, start, d) && pre + [OnCmd(t, c)] + suf <= whole
    requires forall e :: e in suf ==> !LateTick(cfg, e, t)
    ensures LastTick(pre + [OnCmd(t, c)] + suf, start) <= t + Lifetime(cfg)
    decreases |suf|
  {
    var head := pre + [OnCmd(t, c)];
    var all := head + suf;
    if suf == [] {
      assert all == head && head[..|pre|] == pre && whole[..|pre|] == pre && whole[|pre|] == OnCmd(t, c);
      RegularPrefix(whole, start, d, |pre|);
      TickIsPast(pre, start, d);
      assert RegularAt(whole, start, d, |pre|);
    } else {
      var last := |suf| - 1;
      assert all[..|all| - 1] == head + suf[..last] && all[|all| - 1] == suf[last];
      assert suf[last] in suf;
      assert head + suf[..last] <= whole;
      TickBeforeExpiry(cfg, pre, c, t, suf[..last], start, d, whole);
    }
  }

  lemma {:induction false} TickIsPast(evs: seq<Event>, start: real, d: real)
    requires Regular(evs, start, d)
    ensures LastTick(evs, start) <= LastTime(evs, start)
    decreases |evs|
  {
    if evs != [] {
      var last := |evs| - 1;
      RegularPrefix(evs, start, d, last);
      TickIsPast(evs[..last], start, d);
      assert RegularAt(evs, start, d, last);
    }
  }

  /** The expiry does happen: no event comes later than `d` past the timeout unless
      some tick before it found the command expired. */
  lemma ExpiryHappens(cfg: Config, pre: seq<Event>, c: Twist, t: real, suf: seq<Event>, start: real, d: real, e: Event)
    requires Regular(pre + [OnCmd(t, c)] + suf + [e], start, d)
    requires e.at > t + Lifetime(cfg) + d
    ensures exists f :: f in suf && LateTick(cfg, f, t)
  {
    var all := pre + [OnCmd(t, c)] + suf;
    var whole := all + [e];
    assert whole[..|all|] == all && whole[|all|] == e && RegularAt(whole, start, d, |all|);
    if forall f :: f in suf ==> !LateTick(cfg, f, t) {
      TickBeforeExpiry(cfg, pre, c, t, suf, start, d, whole);
      assert false;
    }
  }

  // ----- the node -----

  /** The indices of the sector for a scan geometry, in order. */
  ghost predicate IsSector(cfg: Config, s: Sector) {
    && (forall i: nat :: i in s.indices <==> InSector(cfg, s.key, i))
    && (forall a, b :: 0 <= a < b < |s.indices| ==> s.indices[a] < s.indices[b])
  }

  class ScanSafetyNode {
    const cfg: Config
    var scan: Option<Scan>
    var scanTime: Option<real>
    var cmd: Option<Twist>
    var cmdTime: Option<real>
    var pubTime: Option<real>
    var sector: Option<Sector>

    /** What has been published. */
    var out: seq<Publication>

    ghost function State(): Node
      reads this
      requires Consistent()
    {
      Node(
        if scan.None? then None else Some(Stamped(scan.value, scanTime.value)),
        if cmd.None? then None else Some(Stamped(cmd.value, cmdTime.value)),
        pubTime, out)
    }

    ghost predicate Consistent()
      reads this
    {
      (scan.Some? <==> scanTime.Some?) && (cmd.Some? <==> cmdTime.Some?)
    }

    /** A cached sector is the one its geometry has. */
    ghost predicate Valid()
      reads this
    {
      && Consistent() && (cmd.Some? ==> pubTime.Some?)
      && (sector.Some? ==> IsSector(cfg, sector.value))
    }

    constructor (c: Config)
      ensures Valid() && State() == INITIAL && cfg == c
    {
      cfg := c;
      scan, scanTime, cmd, cmdTime, pubTime, sector := None, None, None, None, None, None;
      out := [];
    }

    method HandleScan(msg: Scan, now: real)
      requires Valid()
      modifies this
      ensures Valid() && State() == Step(cfg, old(State()), OnScan(now, msg))
    {
      scan := Some(msg);
      scanTime := Some(now);
    }

    method HandleCmd(twist: Twist, now: real)
      requires Valid()
      modifies this
      ensures Valid() && State() == Step(cfg, old(State()), OnCmd(now, twist))
    {
      cmd := Some(twist);
      cmdTime := Some(now);
      PublishGated(twist, now);
    }

    method HandleTick(now: real)
      requires Valid()
      modifies this
      ensures Valid() && State() == Step(cfg, old(State()), OnTick(now))
    {
      if cmd.None? {
        return;
      }
      if now - cmdTime.value > cfg.cmdTimeout {
        cmd, cmdTime := None, None;
        out := out + [Publication(now, STILL, false)];
        return;
      }
      if now - pubTime.value < cfg.period {
        return;
      }
      PublishGated(cmd.value, now);
    }

    method PublishGated(twist: Twist, now: real)
      requires Consistent() && (sector.Some? ==> IsSector(cfg, sector.value))
      modifies this`out, this`pubTime, this`sector
      ensures Valid() && State() == Publish(cfg, old(State()), twist, now)
    {
      hide IsSector;
      var blocked := false;
      if twist.linear.x > 0.0 {
        if scan.None? || now - scanTime.value > cfg.scanTimeout {
          blocked := true;
        } else {
          var best := ForwardMin(scan.value);
          if best.Some? && best.value < cfg.stop {
            blocked := true;
          }
        }
      }
      out := out + [Publication(now, Gated(twist, blocked), blocked)];
      pubTime := Some(now);
    }

    /** The sector of this scan, from the cache if the geometry is unchanged. */
    method SectorIndices(msg: Scan) returns (indices: seq<nat>)
      requires sector.Some? ==> IsSector(cfg, sector.value)
      modifies this`sector
      ensures sector.Some? && IsSector(cfg, sector.value) && sector.value == Sector(KeyOf(msg), indices)
    {
      var key := KeyOf(msg);
      if sector.None? || sector.value.key != key {
        indices := [];
        for i := 0 to |msg.ranges|
          invariant forall j: nat :: j in indices <==> j < i && InSector(cfg, key, j)
          invariant forall a, b :: 0 <= a < b < |indices| ==> indices[a] < indices[b]
        {
          if InSector(cfg, key, i) {
            forall a | 0 <= a < |indices| ensures indices[a] < i { assert indices[a] in indices; }
            indices := indices + [i];
          }
        }
        sector := Some(Sector(key, indices));
      }
      indices := sector.value.indices;
    }

    /** The closest valid return in the sector; none stands for infinity. */
    method ForwardMin(msg: Scan) returns (best: Option<real>)
      requires sector.Some? ==> IsSector(cfg, sector.value)
      modifies this`sector
      ensures sector.Some? && IsSector(cfg, sector.value)
      ensures best.Some? && best.value < cfg.stop <==> Near(cfg, msg)
    {
      hide Near, NearAt, IsSector, InSector;
      var indices := SectorIndices(msg);
      SectorInRange(cfg, msg, indices);
      best := None;
      ghost var at: nat := 0;
      for k := 0 to |indices|
        invariant best.None? ==> forall j :: 0 <= j < k ==> !ValidReturn(cfg, msg, indices[j])
        invariant best.Some? ==> at < k && ValidReturn(cfg, msg, indices[at]) && msg.ranges[indices[at]] == best.value
        invariant best.Some? ==> forall j :: 0 <= j < k && ValidReturn(cfg, msg, indices[j]) ==>
            best.value <= msg.ranges[indices[j]]
      {
        var rng := msg.ranges[indices[k]];
        if cfg.minRange <= rng <= msg.rangeMax && (best.None? || rng < best.value) {
          best := Some(rng);
          at := k;
        }
      }
      MinimumDecides(cfg, msg, indices, best, at);
    }
  }

  predicate ValidReturn(cfg: Config, msg: Scan, i: nat) {
    i < |msg.ranges| && cfg.minRange <= msg.ranges[i] <= msg.rangeMax
  }

  lemma SectorInRange(cfg: Config, msg: Scan, indices: seq<nat>)
    requires IsSector(cfg, Sector(KeyOf(msg), indices))
    ensures forall j :: 0 <= j < |indices| ==> indices[j] < |msg.ranges|
  {
    forall j | 0 <= j < |indices| ensures indices[j] < |msg.ranges| {
      assert indices[j] in indices;
      assert InSector(cfg, KeyOf(msg), indices[j]);
    }
  }

  /** Comparing the least valid return of the sector with the stop distance tells
      whether any is below it. */
  lemma MinimumDecides(cfg: Config, msg: Scan, indices: seq<nat>, best: Option<real>, at: nat)
    requires IsSector(cfg, Sector(KeyOf(msg), indices))
    requires best.None? ==> forall j :: 0 <= j < |indices| ==> !ValidReturn(cfg, msg, indices[j])
    requires best.Some? ==>
        at < |indices| && ValidReturn(cfg, msg, indices[at]) && msg.ranges[indices[at]] == best.value
    requires best.Some? ==> forall j :: 0 <= j < |indices| && ValidReturn(cfg, msg, indices[j]) ==>
        best.value <= msg.ranges[indices[j]]
    ensures best.Some? && best.value < cfg.stop <==> Near(cfg, msg)
  {
    if best.Some? && best.value < cfg.stop {
      assert indices[at] in indices;
      assert NearAt(cfg, msg, indices[at]);
    }
    if Near(cfg, msg) {
      var i :| 0 <= i < |msg.ranges| && NearAt(cfg, msg, i);
      assert i in indices;
      var j :| 0 <= j < |indices| && indices[j] == i;
      assert ValidReturn(cfg, msg, indices[j]);
    }
  }
}
