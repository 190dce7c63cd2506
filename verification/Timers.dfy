/** The polled counters of src/esp32c3.c and src/esp32c6.c: timer groups, system timer and RTC.
    A poll turns the cycles since the last one into ticks and keeps the remainder. */
module Timers {
  import opened Arith

  const U64: nat := 0x1_0000_0000_0000_0000

  // ----- a counter with a fractional remainder

  /** `last` is the cycle of the latest poll, `frac` the cycles not counted yet. */
  datatype Clock = Clock(last: nat, frac: nat)

  /** Ticks since the last poll. */
  function Elapsed(c: Clock, cycle: nat, step: nat): nat
    requires step > 0 && c.last <= cycle
  {
    (c.frac + (cycle - c.last)) / step
  }

  function Polled(c: Clock, cycle: nat, step: nat): Clock
    requires step > 0 && c.last <= cycle
  {
    Clock(cycle, (c.frac + (cycle - c.last)) % step)
  }

  /** A poll in between changes neither the number of ticks nor the remainder. */
  lemma PollSplit(c: Clock, mid: nat, cycle: nat, step: nat)
    requires step > 0 && c.last <= mid <= cycle
    ensures
      var m := Polled(c, mid, step);
      && Elapsed(c, cycle, step) == Elapsed(c, mid, step) + Elapsed(m, cycle, step)
      && Polled(m, cycle, step) == Polled(c, cycle, step)
      && m.frac < step
  {
    DivSplit(c.frac + (mid - c.last), cycle - mid, step);
  }

  ghost function LastOf(start: nat, cycles: seq<nat>): nat {
    if cycles == [] then start else cycles[|cycles| - 1]
  }

  /** Poll cycles that never go back. */
  ghost predicate Schedule(start: nat, cycles: seq<nat>)
    decreases |cycles|
  {
    cycles == [] ||
    var before := cycles[..|cycles| - 1];
    Schedule(start, before) && LastOf(start, before) <= LastOf(start, cycles)
  }

  lemma {:induction false} ScheduleBounds(start: nat, cycles: seq<nat>)
    requires Schedule(start, cycles)
    ensures start <= LastOf(start, cycles)
    decreases |cycles|
  {
    if cycles != [] {
      ScheduleBounds(start, cycles[..|cycles| - 1]);
    }
  }

  // ----- timer groups

  const XTAL_RATIO: nat := 2
  const CSR_CLK_MHZ: nat := 16

  /** A timer's settings; `divider` is the register field, 0 to 0xffff. */
  datatype TimgConfig = TimgConfig(divider: nat, useXtal: bool, increase: bool, alarmEn: bool, alarm: nat,
                                   autoreload: bool, reload: nat)

  /** Cycles a tick on the C6, where a cycle is one of the PLL's. */
  function StepC6(cfg: TimgConfig): (s: nat)
    ensures s > 0
  {
    (cfg.divider + 1) * if cfg.useXtal then XTAL_RATIO else 1
  }

  /** Cycles a tick on the C3, whose cycles are slower than both timer clocks. */
  function StepC3(cfg: TimgConfig): (s: nat)
    ensures s > 0
  {
    var step := ((cfg.divider + 1) * CSR_CLK_MHZ) / if cfg.useXtal then 40 else 80;
    if step == 0 then 1 else step
  }

  /** A tick takes `divider + 1` periods of the selected clock, 40 or 80 MHz, in cycles of 80 MHz. */
  lemma StepC6Exact(cfg: TimgConfig)
    ensures StepC6(cfg) * (if cfg.useXtal then 40 else 80) == (cfg.divider + 1) * 80
  {
  }

  /** So it does in the C3's cycles of 16 MHz, rounded down, but never less than one. */
  lemma StepC3Floor(cfg: TimgConfig)
    ensures
      var clk, periods := if cfg.useXtal then 40 else 80, (cfg.divider + 1) * 16;
      && (periods < clk ==> StepC3(cfg) == 1)
      && (periods >= clk ==> StepC3(cfg) * clk <= periods < (StepC3(cfg) + 1) * clk)
  {
  }

  datatype Timg = Timg(clock: Clock, counter: nat, raised: bool)

  /** The counter after `ticks`: up modulo 2^64, or down to 0. */
  function Moved(counter: nat, increase: bool, ticks: nat): nat {
    if increase then (counter + ticks) % U64
    else if ticks > counter then 0
    else counter - ticks
  }

  predicate Past(cfg: TimgConfig, counter: nat) {
    cfg.alarmEn && cfg.alarm != 0 && if cfg.increase then counter >= cfg.alarm else counter <= cfg.alarm
  }

  /** One poll: count, then look at the alarm. */
  function TimgPoll(cfg: TimgConfig, step: nat, s: Timg, cycle: nat): Timg
    requires step > 0 && s.clock.last <= cycle
  {
    var counter := Moved(s.counter, cfg.increase, Elapsed(s.clock, cycle, step));
    var past := Past(cfg, counter);
    if past && cfg.autoreload then Timg(Clock(cycle, 0), cfg.reload, true)
    else Timg(Polled(s.clock, cycle, step), counter, s.raised || past)
  }

  lemma MovedTwice(counter: nat, increase: bool, a: nat, b: nat)
    requires counter < U64
    ensures Moved(Moved(counter, increase, a), increase, b) == Moved(counter, increase, a + b)
  {
  }

  /** One tick of a counter, at its ends too. */
  lemma MovedOnce(counter: nat)
    requires counter < 0x1_0000_0000_0000_0000
    ensures Moved(counter, true, 1) == if counter == 0xffff_ffff_ffff_ffff then 0 else counter + 1
    ensures Moved(counter, false, 1) == if counter == 0 then 0 else counter - 1
  {
  }

  ghost function TimgRun(cfg: TimgConfig, step: nat, s: Timg, cycles: seq<nat>): Timg
    requires step > 0 && Schedule(s.clock.last, cycles)
    ensures TimgRun(cfg, step, s, cycles).clock.last == LastOf(s.clock.last, cycles)
    decreases |cycles|
  {
    if cycles == [] then s
    else TimgPoll(cfg, step, TimgRun(cfg, step, s, cycles[..|cycles| - 1]), cycles[|cycles| - 1])
  }

  /** Without auto-reload, whatever the polling schedule, the counter has moved by one for every
      `step` cycles since the start, and the remainder is below `step`. */
  lemma {:induction false} TimgCounts(cfg: TimgConfig, step: nat, s: Timg, cycles: seq<nat>)
    requires step > 0 && Schedule(s.clock.last, cycles) && !cfg.autoreload && s.counter < U64 && s.clock.frac < step
    ensures
      var end, r := LastOf(s.clock.last, cycles), TimgRun(cfg, step, s, cycles);
      && s.clock.last <= end
      && r.counter == Moved(s.counter, cfg.increase, Elapsed(s.clock, end, step))
      && r.clock == Polled(s.clock, end, step)
      && r.clock.frac < step
    decreases |cycles|
  {
    ScheduleBounds(s.clock.last, cycles);
    if cycles == [] {
      DivUnique(s.clock.frac, step, 0, s.clock.frac);
      MovedTwice(s.counter, cfg.increase, 0, 0);
    } else {
      var before, cycle := cycles[..|cycles| - 1], cycles[|cycles| - 1];
      TimgCounts(cfg, step, s, before);
      var mid := LastOf(s.clock.last, before);
      PollSplit(s.clock, mid, cycle, step);
      MovedTwice(s.counter, cfg.increase, Elapsed(s.clock, mid, step),
                 Elapsed(Polled(s.clock, mid, step), cycle, step));
    }
  }

  /** The counter has come to the alarm value, from below or from above. */
  ghost predicate Reached(cfg: TimgConfig, counter: nat) {
    cfg.alarmEn && cfg.alarm > 0 && (if cfg.increase then cfg.alarm <= counter else counter <= cfg.alarm)
  }

  lemma TicksMonotone(c: Clock, mid: nat, cycle: nat, step: nat)
    requires step > 0 && c.last <= mid <= cycle
    ensures Elapsed(c, mid, step) <= Elapsed(c, cycle, step)
  {
    PollSplit(c, mid, cycle, step);
  }

  lemma ReachedLater(cfg: TimgConfig, counter: nat, a: nat, b: nat)
    requires counter < U64 && a <= b && (cfg.increase ==> counter + b < U64)
    ensures Reached(cfg, Moved(counter, cfg.increase, a)) ==> Reached(cfg, Moved(counter, cfg.increase, b))
  {
  }

  /** No polling schedule misses the alarm or raises it early: without auto-reload, as long as the
      counter does not wrap, it has been raised if the counter has come to the alarm value by the
      last poll, and only then. */
  lemma {:induction false} AlarmRaised(cfg: TimgConfig, step: nat, s: Timg, cycles: seq<nat>)
    requires step > 0 && Schedule(s.clock.last, cycles) && !cfg.autoreload && s.counter < U64 && s.clock.frac < step
    requires cycles != []
    ensures s.clock.last <= LastOf(s.clock.last, cycles)
    ensures
      var ticks := Elapsed(s.clock, LastOf(s.clock.last, cycles), step);
      (cfg.increase ==> s.counter + ticks < U64) ==>
        (TimgRun(cfg, step, s, cycles).raised <==>
          s.raised || Reached(cfg, Moved(s.counter, cfg.increase, ticks)))
    decreases |cycles|
  {
    ScheduleBounds(s.clock.last, cycles);
    var before, end := cycles[..|cycles| - 1], LastOf(s.clock.last, cycles);
    TimgCounts(cfg, step, s, cycles);
    if before != [] {
      var mid := LastOf(s.clock.last, before);
      ScheduleBounds(s.clock.last, before);
      AlarmRaised(cfg, step, s, before);
      TicksMonotone(s.clock, mid, end, step);
      if cfg.increase ==> s.counter + Elapsed(s.clock, end, step) < U64 {
        ReachedLater(cfg, s.counter, Elapsed(s.clock, mid, step), Elapsed(s.clock, end, step));
      }
    }
  }

  /** With auto-reload the next alarm comes `alarm - reload` ticks after the poll that saw the
      last one. */
  lemma NextAlarm(cfg: TimgConfig, step: nat, s: Timg, cycle: nat, next: nat)
    requires step > 0 && s.clock.last <= cycle <= next && cfg.increase && cfg.autoreload && cfg.alarmEn
    requires Reached(cfg, Moved(s.counter, true, Elapsed(s.clock, cycle, step)))
    requires cfg.reload < cfg.alarm && cfg.reload + (next - cycle) / step < U64
    ensures
      var r := TimgPoll(cfg, step, s, cycle);
      && r.raised && r.clock.last == cycle
      && (TimgPoll(cfg, step, r.(raised := false), next).raised <==> next - cycle >= step * (cfg.alarm - cfg.reload))
  {
    var n, d := next - cycle, cfg.alarm - cfg.reload;
    DivMod(n, step);
    if n / step >= d {
      MulAtLeast(step, d, n / step);
    } else {
      MulAtLeast(step, n / step + 1, d);
      Distribute(step, n / step, 1);
    }
  }

  /** A timer group's counter, polled in place. */
  class TimerGroup {
    var anchor: nat
    var frac: nat
    var counter: nat
    var raised: bool

    ghost function State(): Timg
      reads this
    {
      Timg(Clock(anchor, frac), counter, raised)
    }

    /** One poll of a running timer, on either chip. */
    method Poll(cfg: TimgConfig, cycle: nat, c3: bool)
      requires anchor <= cycle
      modifies this
      ensures State() == TimgPoll(cfg, if c3 then StepC3(cfg) else StepC6(cfg), old(State()), cycle)
    {
      var step := if c3 then StepC3(cfg) else StepC6(cfg);
      frac := frac + (cycle - anchor);
      anchor := cycle;
      var elapsed := frac / step;
      frac := frac % step;
      var cnt;
      if cfg.increase {
        cnt := (counter + elapsed) % U64;
      } else {
        cnt := if elapsed > counter then 0 else counter - elapsed;
      }
      counter := cnt;
      var past := cfg.alarmEn && cfg.alarm != 0 && if cfg.increase then cnt >= cfg.alarm else cnt <= cfg.alarm;
      if past {
        raised := true;
        if cfg.autoreload {
          counter := cfg.reload;
          anchor := cycle;
          frac := 0;
        }
      }
    }
  }

  // ----- free-running counters: the C6's system timer and the C3's RTC

  const SYSTIMER_DIVISOR: nat := 5
  const RTC_DIVISOR: nat := 64

  datatype Free = Free(clock: Clock, count: nat)

  function FreePoll(divisor: nat, s: Free, cycle: nat): Free
    requires divisor > 0 && s.clock.last <= cycle
  {
    Free(Polled(s.clock, cycle, divisor), s.count + Elapsed(s.clock, cycle, divisor))
  }

  ghost function FreeRun(divisor: nat, s: Free, cycles: seq<nat>): Free
    requires divisor > 0 && Schedule(s.clock.last, cycles)
    ensures FreeRun(divisor, s, cycles).clock.last == LastOf(s.clock.last, cycles)
    decreases |cycles|
  {
    if cycles == [] then s
    else FreePoll(divisor, FreeRun(divisor, s, cycles[..|cycles| - 1]), cycles[|cycles| - 1])
  }

  /** A counter that starts at cycle 0 shows the cycles divided by its divisor, rounded down,
      and keeps the exact remainder, whatever the polling schedule. */
  lemma {:induction false} FreeCounts(divisor: nat, cycles: seq<nat>)
    requires divisor > 0 && Schedule(0, cycles)
    ensures
      var end, r := LastOf(0, cycles), FreeRun(divisor, Free(Clock(0, 0), 0), cycles);
      r.count == end / divisor && r.clock.frac == end % divisor
    decreases |cycles|
  {
    var s := Free(Clock(0, 0), 0);
    if cycles == [] {
      DivUnique(0, divisor, 0, 0);
    } else {
      var before, cycle := cycles[..|cycles| - 1], cycles[|cycles| - 1];
      FreeCounts(divisor, before);
      var mid := LastOf(0, before);
      DivSplit(mid, cycle - mid, divisor);
    }
  }

  class FreeCounter {
    var last: nat
    var frac: nat
    var count: nat

    ghost function State(): Free
      reads this
    {
      Free(Clock(last, frac), count)
    }

    constructor ()
      ensures State() == Free(Clock(0, 0), 0)
    {
      last, frac, count := 0, 0, 0;
    }

    /** The C6 adds the elapsed cycles to the remainder, then divides. */
    method PollSystimer(cycle: nat)
      requires last <= cycle
      modifies this
      ensures State() == FreePoll(5, old(State()), cycle)
    {
      var elapsed := cycle - last;
      last := cycle;
      frac := frac + elapsed;
      var ticks := frac / SYSTIMER_DIVISOR;
      frac := frac % SYSTIMER_DIVISOR;
      count := count + ticks;
    }

    /** The C3 divides a total that it does not store. */
    method PollRtc(cycle: nat)
      requires last <= cycle
      modifies this
      ensures State() == FreePoll(64, old(State()), cycle)
    {
      var elapsed := cycle - last;
      last := cycle;
      var total := elapsed + frac;
      frac := total % RTC_DIVISOR;
      count := count + total / RTC_DIVISOR;
    }
  }
}
