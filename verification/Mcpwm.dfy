/** The motor-control PWM unit of src/esp32c6.c: three timers whose ticks are caught up in a
    loop at each poll, and three operators, each driven by one of them. */
module Mcpwm {
  import opened Arith
  import opened Common
  import opened Timers

  // ----- configuration

  /** A timer's settings: `mode` is 0 paused, 1 up, 2 down, 3 up and down. */
  datatype TimerConfig = TimerConfig(prescale: nat, period: nat, mode: nat)

  /** An operator's settings: its timer, the compare values, and for each of the two generators
      the action for each of the eight events. */
  datatype OperConfig = OperConfig(timer: nat, c0: nat, c1: nat, actionsA: seq<nat>, actionsB: seq<nat>)

  datatype Config = Config(clkPrescale: nat, timers: seq<TimerConfig>, opers: seq<OperConfig>)

  predicate WellFormed(cfg: Config) {
    && |cfg.timers| == 3
    && |cfg.opers| == 3
    && forall o <- cfg.opers :: |o.actionsA| == 8 && |o.actionsB| == 8
  }

  /** Cycles a tick: two for each cycle of the 40 MHz source. */
  function Step(cfg: Config, t: nat): (s: nat)
    requires |cfg.timers| == 3 && t < 3
    ensures s > 0
  {
    (cfg.timers[t].prescale + 1) * (cfg.clkPrescale + 1) * 2
  }

  /** A tick takes so many periods of the 40 MHz source, in cycles of 80 MHz, as the two prescalers
      say. */
  lemma StepExact(cfg: Config, t: nat)
    requires |cfg.timers| == 3 && t < 3
    ensures Step(cfg, t) * 40 == (cfg.clkPrescale + 1) * (cfg.timers[t].prescale + 1) * 80
  {
  }

  // ----- one tick

  datatype Stop = Never | AtZero | AtPeak

  datatype Timer = Timer(running: bool, stopAt: Stop, phase: nat, down: bool)

  /** Generator levels, and the one-shot forces that the next event consumes. */
  datatype Oper = Oper(a: bool, b: bool, forceA: bool, forceB: bool)

  function Stops(tc: TimerConfig, x: Timer): bool {
    (x.stopAt == AtZero && x.phase == 0) || (x.stopAt == AtPeak && x.phase == tc.period)
  }

  /** The next counter value and direction. */
  function Count(tc: TimerConfig, x: Timer): Timer
    requires tc.period > 0
  {
    if tc.mode == 1 then x.(down := false, phase := if x.phase == tc.period then 0 else x.phase + 1)
    else if tc.mode == 2 then x.(down := true, phase := if x.phase == 0 then tc.period else x.phase - 1)
    else if !x.down then
      if x.phase == tc.period then x.(phase := tc.period - 1, down := true) else x.(phase := x.phase + 1)
    else if x.phase == 0 then x.(phase := 1, down := false)
    else x.(phase := x.phase - 1)
  }

  /** One tick of a timer; a stopped one stays as it is. */
  function Tick(tc: TimerConfig, x: Timer): Timer
    requires tc.period > 0
  {
    if !x.running then x
    else if Stops(tc, x) then x.(running := false, stopAt := Never)
    else Count(tc, x)
  }

  /** Which of the eight events an operator sees. */
  function Event(oc: OperConfig, tc: TimerConfig, x: Timer): (e: Option<nat>)
    ensures e.Some? ==> e.value < 8
  {
    if !x.down then
      if x.phase == 0 then Some(0)
      else if x.phase == tc.period then Some(1)
      else if x.phase == oc.c0 then Some(2)
      else if x.phase == oc.c1 then Some(3)
      else None
    else
      if x.phase == tc.period then Some(4)
      else if x.phase == 0 then Some(5)
      else if x.phase == oc.c1 then Some(6)
      else if x.phase == oc.c0 then Some(7)
      else None
  }

  function Act(action: nat, level: bool): bool {
    if action == 1 then false
    else if action == 2 then true
    else if action == 3 then !level
    else level
  }

  function Fired(oc: OperConfig, tc: TimerConfig, x: Timer, op: Oper): Oper
    requires |oc.actionsA| == 8 && |oc.actionsB| == 8
  {
    match Event(oc, tc, x)
    case None => op
    case Some(e) => Oper(Act(oc.actionsA[e], op.a), Act(oc.actionsB[e], op.b), false, false)
  }

  /** One tick of an operator whose timer is `x`. */
  function OperTick(oc: OperConfig, tc: TimerConfig, x: Timer, op: Oper): Oper
    requires |oc.actionsA| == 8 && |oc.actionsB| == 8
  {
    if x.running && !Stops(tc, x) then Fired(oc, tc, x, op) else op
  }

  // ----- many ticks

  function Ticks(tc: TimerConfig, x: Timer, k: nat): Timer
    requires tc.period > 0
  {
    if k == 0 then x else Tick(tc, Ticks(tc, x, k - 1))
  }

  function OperTicks(oc: OperConfig, tc: TimerConfig, x: Timer, op: Oper, k: nat): Oper
    requires |oc.actionsA| == 8 && |oc.actionsB| == 8 && tc.period > 0
  {
    if k == 0 then op else OperTick(oc, tc, Ticks(tc, x, k - 1), OperTicks(oc, tc, x, op, k - 1))
  }

  lemma {:induction false} TicksSplit(tc: TimerConfig, x: Timer, a: nat, b: nat)
    requires tc.period > 0
    ensures Ticks(tc, x, a + b) == Ticks(tc, Ticks(tc, x, a), b)
  {
    if b > 0 {
      TicksSplit(tc, x, a, b - 1);
    }
  }

  lemma {:induction false} OperTicksSplit(oc: OperConfig, tc: TimerConfig, x: Timer, op: Oper, a: nat, b: nat)
    requires |oc.actionsA| == 8 && |oc.actionsB| == 8 && tc.period > 0
    ensures OperTicks(oc, tc, x, op, a + b) == OperTicks(oc, tc, Ticks(tc, x, a), OperTicks(oc, tc, x, op, a), b)
  {
    if b > 0 {
      TicksSplit(tc, x, a, b - 1);
      OperTicksSplit(oc, tc, x, op, a, b - 1);
    }
  }

  lemma {:induction false} StoppedStays(tc: TimerConfig, x: Timer, k: nat)
    requires !x.running && tc.period > 0
    ensures Ticks(tc, x, k) == x
  {
    if k > 0 {
      StoppedStays(tc, x, k - 1);
    }
  }

  // ----- closed form of the counter

  function Mod(x: nat, n: nat): (r: nat)
    requires n > 0
    ensures r < n
  {
    x % n
  }

  /** The counter `k` ticks after a start: a rising sawtooth, a falling one, or a triangle. */
  function Wave(tc: TimerConfig, k: nat): (p: nat)
    requires tc.period > 0
    ensures p <= tc.period
  {
    var j := Mod(k, if tc.mode == 1 || tc.mode == 2 then tc.period + 1 else 2 * tc.period);
    if tc.mode == 1 then j
    else if tc.mode == 2 then (if j == 0 then 0 else tc.period + 1 - j)
    else if j <= tc.period then j
    else 2 * tc.period - j
  }

  /** Whether the last of `k` ticks, at least one, counted down. */
  function WaveDown(tc: TimerConfig, k: nat): bool
    requires tc.period > 0
  {
    if tc.mode == 1 then false
    else if tc.mode == 2 then true
    else
      var j := Mod(k, 2 * tc.period);
      j == 0 || j > tc.period
  }

  lemma ModNext(k: nat, n: nat)
    requires n > 1
    ensures Mod(k + 1, n) == if Mod(k, n) == n - 1 then 0 else Mod(k, n) + 1
  {
    var q, r := k / n, k % n;
    assert k == n * q + r;
    assert n * (q + 1) == n * q + n;
    if r == n - 1 {
      DivUnique(k + 1, n, q + 1, 0);
    } else {
      DivUnique(k + 1, n, q, r + 1);
    }
  }

  /** With no stop command, a timer started at 0, with whatever direction was left over,
      follows the closed form for ever. */
  lemma {:induction false} TicksFollowWave(tc: TimerConfig, x: Timer, k: nat)
    requires tc.period > 0 && x.running && x.stopAt == Never && x.phase == 0
    ensures
      var y := Ticks(tc, x, k);
      y.running && y.stopAt == Never && y.phase == Wave(tc, k) <= tc.period && (k > 0 ==> y.down == WaveDown(tc, k))
  {
    if k == 0 {
      DivUnique(0, tc.period + 1, 0, 0);
      DivUnique(0, 2 * tc.period, 0, 0);
    } else {
      TicksFollowWave(tc, x, k - 1);
      ModNext(k - 1, tc.period + 1);
      ModNext(k - 1, 2 * tc.period);
    }
  }

  // ----- a poll of the whole unit

  datatype Unit = Unit(timers: seq<Timer>, clocks: seq<Clock>, opers: seq<Oper>)

  predicate Shape(u: Unit) {
    |u.timers| == 3 && |u.clocks| == 3 && |u.opers| == 3
  }

  ghost predicate Ready(cfg: Config, u: Unit, cycle: nat) {
    WellFormed(cfg) && Shape(u) && forall t :: 0 <= t < 3 ==> u.clocks[t].last <= cycle
  }

  /** Whether a poll looks at timer `t`. */
  predicate Active(tc: TimerConfig, x: Timer) {
    x.running && tc.mode != 0 && tc.period != 0
  }

  /** The ticks due at a poll. */
  function Due(cfg: Config, u: Unit, t: nat, cycle: nat): nat
    requires WellFormed(cfg) && Shape(u) && t < 3 && u.clocks[t].last <= cycle
  {
    if Active(cfg.timers[t], u.timers[t]) then Elapsed(u.clocks[t], cycle, Step(cfg, t)) else 0
  }

  function TimerPoll(cfg: Config, u: Unit, t: nat, cycle: nat): Timer
    requires WellFormed(cfg) && Shape(u) && t < 3 && u.clocks[t].last <= cycle
  {
    if Active(cfg.timers[t], u.timers[t]) then Ticks(cfg.timers[t], u.timers[t], Due(cfg, u, t, cycle)) else u.timers[t]
  }

  function ClockPoll(cfg: Config, u: Unit, t: nat, cycle: nat): Clock
    requires WellFormed(cfg) && Shape(u) && t < 3 && u.clocks[t].last <= cycle
  {
    if Active(cfg.timers[t], u.timers[t]) then Polled(u.clocks[t], cycle, Step(cfg, t)) else u.clocks[t]
  }

  ghost function OperPoll(cfg: Config, u: Unit, o: nat, cycle: nat): Oper
    requires Ready(cfg, u, cycle) && o < 3
  {
    var oc := cfg.opers[o];
    if oc.timer < 3 && Active(cfg.timers[oc.timer], u.timers[oc.timer]) then
      OperTicks(oc, cfg.timers[oc.timer], u.timers[oc.timer], u.opers[o], Due(cfg, u, oc.timer, cycle))
    else u.opers[o]
  }

  ghost function UnitPoll(cfg: Config, u: Unit, cycle: nat): (v: Unit)
    requires Ready(cfg, u, cycle)
    ensures Ready(cfg, v, cycle)
  {
    Unit([TimerPoll(cfg, u, 0, cycle), TimerPoll(cfg, u, 1, cycle), TimerPoll(cfg, u, 2, cycle)],
         [ClockPoll(cfg, u, 0, cycle), ClockPoll(cfg, u, 1, cycle), ClockPoll(cfg, u, 2, cycle)],
         [OperPoll(cfg, u, 0, cycle), OperPoll(cfg, u, 1, cycle), OperPoll(cfg, u, 2, cycle)])
  }

  /** A timer that does not run, is paused or has the period 0 stands still, with its clock, and so
      do its operators. */
  lemma PausedStays(cfg: Config, u: Unit, t: nat, o: nat, cycle: nat)
    requires Ready(cfg, u, cycle) && t < 3 && o < 3
    requires !u.timers[t].running || cfg.timers[t].mode == 0 || cfg.timers[t].period == 0
    ensures
      var v := UnitPoll(cfg, u, cycle);
      && v.timers[t] == u.timers[t] && v.clocks[t] == u.clocks[t]
      && (cfg.opers[o].timer == t ==> v.opers[o] == u.opers[o])
  {
  }

  /** Nothing observable differs; the clock of a timer that stopped no longer matters. */
  ghost predicate Agree(u: Unit, v: Unit) {
    && Shape(u) && Shape(v)
    && u.timers == v.timers
    && u.opers == v.opers
    && forall t :: 0 <= t < 3 && u.timers[t].running ==> u.clocks[t] == v.clocks[t]
  }

  lemma {:induction false} OperStopped(oc: OperConfig, tc: TimerConfig, x: Timer, op: Oper, k: nat)
    requires |oc.actionsA| == 8 && |oc.actionsB| == 8 && tc.period > 0 && !x.running
    ensures OperTicks(oc, tc, x, op, k) == op
  {
    if k > 0 {
      StoppedStays(tc, x, k - 1);
      OperStopped(oc, tc, x, op, k - 1);
    }
  }

  lemma TimerSplit(cfg: Config, u: Unit, t: nat, mid: nat, cycle: nat)
    requires Ready(cfg, u, mid) && mid <= cycle && t < 3
    ensures
      var v := UnitPoll(cfg, u, mid);
      && TimerPoll(cfg, v, t, cycle) == TimerPoll(cfg, u, t, cycle)
      && (TimerPoll(cfg, u, t, cycle).running ==> ClockPoll(cfg, v, t, cycle) == ClockPoll(cfg, u, t, cycle))
  {
    var v, tc, x := UnitPoll(cfg, u, mid), cfg.timers[t], u.timers[t];
    if Active(tc, x) {
      var step := Step(cfg, t);
      var a, b := Elapsed(u.clocks[t], mid, step), Elapsed(Polled(u.clocks[t], mid, step), cycle, step);
      PollSplit(u.clocks[t], mid, cycle, step);
      TicksSplit(tc, x, a, b);
      if !Ticks(tc, x, a).running {
        StoppedStays(tc, Ticks(tc, x, a), b);
      }
      assert v.timers[t] == Ticks(tc, x, a);
    }
  }

  lemma OperSplit(cfg: Config, u: Unit, o: nat, mid: nat, cycle: nat)
    requires Ready(cfg, u, mid) && mid <= cycle && o < 3
    ensures OperPoll(cfg, UnitPoll(cfg, u, mid), o, cycle) == OperPoll(cfg, u, o, cycle)
  {
    var v, oc, t := UnitPoll(cfg, u, mid), cfg.opers[o], cfg.opers[o].timer;
    if t < 3 && Active(cfg.timers[t], u.timers[t]) {
      var tc, x, step := cfg.timers[t], u.timers[t], Step(cfg, t);
      var a, b := Elapsed(u.clocks[t], mid, step), Elapsed(Polled(u.clocks[t], mid, step), cycle, step);
      PollSplit(u.clocks[t], mid, cycle, step);
      OperTicksSplit(oc, tc, x, u.opers[o], a, b);
      assert v.timers[t] == Ticks(tc, x, a) && v.opers[o] == OperTicks(oc, tc, x, u.opers[o], a);
      if !Ticks(tc, x, a).running {
        OperStopped(oc, tc, Ticks(tc, x, a), v.opers[o], b);
      }
    }
  }

  /** A poll in between is not noticed, not by a stop command either. */
  lemma UnitPollSplit(cfg: Config, u: Unit, mid: nat, cycle: nat)
    requires Ready(cfg, u, mid) && mid <= cycle
    ensures Agree(UnitPoll(cfg, UnitPoll(cfg, u, mid), cycle), UnitPoll(cfg, u, cycle))
  {
    TimerSplit(cfg, u, 0, mid, cycle);
    TimerSplit(cfg, u, 1, mid, cycle);
    TimerSplit(cfg, u, 2, mid, cycle);
    OperSplit(cfg, u, 0, mid, cycle);
    OperSplit(cfg, u, 1, mid, cycle);
    OperSplit(cfg, u, 2, mid, cycle);
  }

  lemma AgreePoll(cfg: Config, u: Unit, v: Unit, cycle: nat)
    requires Ready(cfg, u, cycle) && Ready(cfg, v, cycle) && Agree(u, v)
    ensures Agree(UnitPoll(cfg, u, cycle), UnitPoll(cfg, v, cycle))
  {
  }

  ghost function UnitRun(cfg: Config, u: Unit, start: nat, cycles: seq<nat>): (v: Unit)
    requires Ready(cfg, u, start) && Schedule(start, cycles)
    ensures Ready(cfg, v, LastOf(start, cycles))
    decreases |cycles|
  {
    if cycles == [] then u
    else
      var v := UnitRun(cfg, u, start, cycles[..|cycles| - 1]);
      UnitPoll(cfg, v, cycles[|cycles| - 1])
  }

  /** Phases, directions, generator levels and forces do not depend on how polling splits the
      cycles: any schedule leaves what a single poll at its end leaves. */
  lemma {:induction false} UnitRunIsOnePoll(cfg: Config, u: Unit, start: nat, cycles: seq<nat>)
    requires Ready(cfg, u, start) && Schedule(start, cycles) && cycles != []
    ensures start <= LastOf(start, cycles)
    ensures Agree(UnitRun(cfg, u, start, cycles), UnitPoll(cfg, u, LastOf(start, cycles)))
    decreases |cycles|
  {
    ScheduleBounds(start, cycles);
    var before, cycle := cycles[..|cycles| - 1], cycles[|cycles| - 1];
    if before != [] {
      var mid := LastOf(start, before);
      ScheduleBounds(start, before);
      UnitRunIsOnePoll(cfg, u, start, before);
      AgreePoll(cfg, UnitRun(cfg, u, start, before), UnitPoll(cfg, u, mid), cycle);
      UnitPollSplit(cfg, u, mid, cycle);
    }
  }

  /** A timer started at cycle `start` without a stop command: after any polling schedule its
      phase is the closed form of the ticks since then. */
  lemma StartedFollowsWave(cfg: Config, u: Unit, t: nat, start: nat, cycles: seq<nat>)
    requires Ready(cfg, u, start) && Schedule(start, cycles) && cycles != [] && t < 3
    requires u.clocks[t] == Clock(start, 0) && u.timers[t].running
    requires cfg.timers[t].mode != 0 && cfg.timers[t].period > 0
    requires u.timers[t].stopAt == Never && u.timers[t].phase == 0
    ensures start <= LastOf(start, cycles)
    ensures
      var x, tc := UnitRun(cfg, u, start, cycles).timers[t], cfg.timers[t];
      x.phase == Wave(tc, Elapsed(Clock(start, 0), LastOf(start, cycles), Step(cfg, t))) <= tc.period
  {
    UnitRunIsOnePoll(cfg, u, start, cycles);
    TicksFollowWave(cfg.timers[t], u.timers[t], Elapsed(u.clocks[t], LastOf(start, cycles), Step(cfg, t)));
  }

  // ----- the unit, polled in place

  class PwmUnit {
    const cfg: Config
    const timers: array<Timer>
    const clocks: array<Clock>
    const opers: array<Oper>

    ghost predicate Valid() {
      && WellFormed(cfg)
      && timers.Length == clocks.Length == opers.Length == 3
      && timers as object != clocks && timers as object != opers && clocks as object != opers
    }

    ghost function State(): Unit
      reads timers, clocks, opers
    {
      Unit(timers[..], clocks[..], opers[..])
    }

    constructor (cfg: Config)
      requires WellFormed(cfg)
      ensures Valid() && this.cfg == cfg && fresh(timers) && fresh(clocks) && fresh(opers)
      ensures forall t :: 0 <= t < 3 ==> timers[t] == Timer(false, Never, 0, false)
    {
      this.cfg := cfg;
      timers := new Timer[3](_ => Timer(false, Never, 0, false));
      clocks := new Clock[3](_ => Clock(0, 0));
      opers := new Oper[3](_ => Oper(false, false, false, false));
    }

    /** The start and stop commands; the direction is left as it was. */
    method Command(t: nat, cmd: nat, cycle: nat)
      requires Valid() && t < 3
      modifies timers, clocks
      ensures forall k :: 0 <= k < 3 && k != t ==> timers[k] == old(timers[k]) && clocks[k] == old(clocks[k])
      ensures cmd <= 1 ==>
        timers[t] == old(timers[t]).(running := false, stopAt := Never) && clocks[t] == old(clocks[t])
      ensures 2 <= cmd <= 4 ==>
        && timers[t] == Timer(true, if cmd == 3 then AtZero else if cmd == 4 then AtPeak else Never, 0,
                              old(timers[t]).down)
        && clocks[t] == Clock(cycle, 0)
      ensures cmd > 4 ==> timers[t] == old(timers[t]) && clocks[t] == old(clocks[t])
    {
      if cmd <= 1 {
        timers[t] := timers[t].(running := false, stopAt := Never);
      } else if cmd <= 4 {
        timers[t] := timers[t].(running := true, phase := 0,
                                stopAt := if cmd == 3 then AtZero else if cmd == 4 then AtPeak else Never);
        clocks[t] := Clock(cycle, 0);
      }
    }

    /** Applies the events of one tick to the operators of timer `t`. */
    method Fire(t: nat, x: Timer)
      requires Valid() && t < 3
      modifies opers
      ensures forall o :: 0 <= o < 3 ==>
        opers[o] ==
          if cfg.opers[o].timer == t then Fired(cfg.opers[o], cfg.timers[t], x, old(opers[o])) else old(opers[o])
    {
      for o := 0 to 3
        invariant forall k :: 0 <= k < o ==>
          opers[k] ==
            if cfg.opers[k].timer == t then Fired(cfg.opers[k], cfg.timers[t], x, old(opers[k])) else old(opers[k])
        invariant forall k :: o <= k < 3 ==> opers[k] == old(opers[k])
      {
        var oc := cfg.opers[o];
        if oc.timer != t {
          continue;
        }
        var ev := Event(oc, cfg.timers[t], x);
        if ev.None? {
          continue;
        }
        var op := opers[o];
        opers[o] := Oper(Act(oc.actionsA[ev.value], op.a), Act(oc.actionsB[ev.value], op.b), false, false);
      }
    }

    /** Catches up one timer; `u` is the unit at the start of the poll. */
    method PollTimer(t: nat, cycle: nat, ghost u: Unit)
      requires Valid() && Ready(cfg, u, cycle) && t < 3 && timers[t] == u.timers[t] && clocks[t] == u.clocks[t]
      modifies timers, clocks, opers
      ensures forall k :: 0 <= k < 3 && k != t ==> timers[k] == old(timers[k]) && clocks[k] == old(clocks[k])
      ensures timers[t] == TimerPoll(cfg, u, t, cycle) && clocks[t] == ClockPoll(cfg, u, t, cycle)
      ensures forall o :: 0 <= o < 3 ==>
        opers[o] ==
          if Active(cfg.timers[t], u.timers[t])
          then Driven(t, o, u.timers[t], old(opers[o]), Due(cfg, u, t, cycle))
          else old(opers[o])
    {
      var tc := cfg.timers[t];
      if !Active(tc, timers[t]) {
        return;
      }
      var elapsed := Accumulate(t, cycle, Step(cfg, t));
      CatchUp(t, elapsed);
    }

    /** Turns the cycles since the last poll into ticks. */
    method Accumulate(t: nat, cycle: nat, step: nat) returns (elapsed: nat)
      requires Valid() && t < 3 && clocks[t].last <= cycle && step > 0
      modifies clocks
      ensures elapsed == Elapsed(old(clocks[t]), cycle, step) && clocks[t] == Polled(old(clocks[t]), cycle, step)
      ensures forall k :: 0 <= k < 3 && k != t ==> clocks[k] == old(clocks[k])
    {
      var c := clocks[t];
      var frac := c.frac + (cycle - c.last);
      elapsed := frac / step;
      clocks[t] := Clock(cycle, frac % step);
    }

    method CatchUp(t: nat, elapsed: nat)
      requires Valid() && t < 3 && Active(cfg.timers[t], timers[t])
      modifies timers, opers
      ensures forall k :: 0 <= k < 3 && k != t ==> timers[k] == old(timers[k])
      ensures timers[t] == Ticks(cfg.timers[t], old(timers[t]), elapsed)
      ensures forall o :: 0 <= o < 3 ==> opers[o] == Driven(t, o, old(timers[t]), old(opers[o]), elapsed)
    {
      var tc := cfg.timers[t];
      ghost var x := timers[t];
      for i := 0 to elapsed
        invariant forall k :: 0 <= k < 3 && k != t ==> timers[k] == old(timers[k])
        invariant timers[t] == Ticks(tc, x, i) && timers[t].running
        invariant forall o :: 0 <= o < 3 ==> opers[o] == Driven(t, o, x, old(opers[o]), i)
      {
        if Stops(tc, timers[t]) {
          timers[t] := timers[t].(running := false, stopAt := Never);
          Halted(t, x, i, elapsed);
          break;
        }
        Fire(t, timers[t]);
        timers[t] := Count(tc, timers[t]);
      }
    }

    /** An operator after `k` ticks of timer `t`. */
    ghost function Driven(t: nat, o: nat, x: Timer, op: Oper, k: nat): Oper
      requires WellFormed(cfg) && t < 3 && o < 3 && cfg.timers[t].period > 0
    {
      if cfg.opers[o].timer == t then OperTicks(cfg.opers[o], cfg.timers[t], x, op, k) else op
    }

    /** Once a timer has stopped, further ticks change nothing. */
    lemma Halted(t: nat, x: Timer, i: nat, n: nat)
      requires WellFormed(cfg) && t < 3 && cfg.timers[t].period > 0 && i < n
      requires Stops(cfg.timers[t], Ticks(cfg.timers[t], x, i)) && Ticks(cfg.timers[t], x, i).running
      ensures Ticks(cfg.timers[t], x, n) == Ticks(cfg.timers[t], x, i + 1) && !Ticks(cfg.timers[t], x, i + 1).running
      ensures forall o, op :: 0 <= o < 3 ==> Driven(t, o, x, op, n) == Driven(t, o, x, op, i)
    {
      var tc := cfg.timers[t];
      TicksSplit(tc, x, i + 1, n - i - 1);
      StoppedStays(tc, Ticks(tc, x, i + 1), n - i - 1);
      forall o, op | 0 <= o < 3 ensures Driven(t, o, x, op, n) == Driven(t, o, x, op, i) {
        OperTicksSplit(cfg.opers[o], tc, x, op, i + 1, n - i - 1);
        OperStopped(cfg.opers[o], tc, Ticks(tc, x, i + 1), OperTicks(cfg.opers[o], tc, x, op, i + 1), n - i - 1);
      }
    }

    /** One poll: the three timers in turn. */
    method Poll(cycle: nat)
      requires Valid() && Ready(cfg, State(), cycle)
      modifies timers, clocks, opers
      ensures State() == UnitPoll(cfg, old(State()), cycle)
    {
      ghost var u := State();
      PollTimer(0, cycle, u);
      PollTimer(1, cycle, u);
      PollTimer(2, cycle, u);
      assert forall o :: 0 <= o < 3 ==> opers[o] == OperPoll(cfg, u, o, cycle);
    }
  }
}
