/** The wave forms that the generators of the motor-control PWM unit put out. */
module McpwmDuty {
  import opened Arith
  import opened Common
  import opened Mcpwm
  import opened Timers

  /** A timer that counts and is not to stop, from 0. */
  ghost predicate Started(tc: TimerConfig, x: Timer) {
    tc.period > 0 && x.running && x.stopAt == Never && x.phase == 0
  }

  /** Ticks after which the counter comes round. */
  ghost function Cycle(tc: TimerConfig): nat {
    if tc.mode == 1 || tc.mode == 2 then tc.period + 1 else 2 * tc.period
  }

  /** Strictly between zero and the peak, whose events go before those of the compare values. */
  ghost predicate Inside(c: nat, tc: TimerConfig) {
    0 < c < tc.period
  }

  /** Whether event `e` is ever seen: it must belong to a direction in which the timer counts, and
      of two equal compare values only the first is seen going up, only the second going down. */
  ghost predicate Seen(oc: OperConfig, tc: TimerConfig, e: nat) {
    match e
    case 0 => tc.mode == 1
    case 1 => tc.mode != 2
    case 2 => tc.mode != 2 && Inside(oc.c0, tc)
    case 3 => tc.mode != 2 && Inside(oc.c1, tc) && oc.c1 != oc.c0
    case 4 => tc.mode == 2
    case 5 => tc.mode != 1
    case 6 => tc.mode != 1 && Inside(oc.c1, tc)
    case 7 => tc.mode != 1 && Inside(oc.c0, tc) && oc.c0 != oc.c1
    case _ => false
  }

  /** The tick of the cycle at which it is. */
  ghost function TickOf(oc: OperConfig, tc: TimerConfig, e: nat): int {
    match e
    case 1 => tc.period
    case 2 => oc.c0
    case 3 => oc.c1
    case 4 => 1
    case 6 => Cycle(tc) - oc.c1
    case 7 => Cycle(tc) - oc.c0
    case _ => 0
  }

  /** Each event is seen at its tick of the cycle and at no other, from the second tick on, and at
      the first one too if the timer was left with the direction in which it comes to 0. */
  lemma EventTimes(oc: OperConfig, tc: TimerConfig, x: Timer, k: nat, e: nat)
    requires Started(tc, x) && (k > 0 || x.down == WaveDown(tc, 0))
    ensures Event(oc, tc, Ticks(tc, x, k)) == Some(e) <==> Seen(oc, tc, e) && Mod(k, Cycle(tc)) == TickOf(oc, tc, e)
  {
    TicksFollowWave(tc, x, k);
  }

  // ----- generators 0 and 1 of an operator

  ghost function Actions(oc: OperConfig, g: nat): seq<nat> {
    if g == 0 then oc.actionsA else oc.actionsB
  }

  ghost function Level(op: Oper, g: nat): bool {
    if g == 0 then op.a else op.b
  }

  /** A generator that goes high at event `s`, low at event `r`, and heeds no other that is seen. */
  ghost predicate Pulse(oc: OperConfig, tc: TimerConfig, g: nat, s: nat, r: nat) {
    && |oc.actionsA| == 8 && |oc.actionsB| == 8 && s != r && Seen(oc, tc, s) && Seen(oc, tc, r)
    && forall e :: 0 <= e < 8 && Seen(oc, tc, e) ==>
      Actions(oc, g)[e] == if e == s then 2 else if e == r then 1 else 0
  }

  /** The timer was left with the direction in which it comes to 0, or the generator heeds neither
      of the events at 0. */
  ghost predicate StartsRight(oc: OperConfig, tc: TimerConfig, g: nat, x: Timer)
    requires Started(tc, x) && |oc.actionsA| == 8 && |oc.actionsB| == 8
  {
    x.down == WaveDown(tc, 0) || (Actions(oc, g)[0] == 0 && Actions(oc, g)[5] == 0)
  }

  /** From tick `from` up to tick `to` of a cycle, which may be the next one. */
  ghost predicate Between(j: int, from: int, to: int) {
    if from < to then from <= j < to else !(to <= j < from)
  }

  /** What a tick does to the level. */
  lemma PulseStep(oc: OperConfig, tc: TimerConfig, g: nat, x: Timer, op: Oper, k: nat, s: nat, r: nat)
    requires Started(tc, x) && Pulse(oc, tc, g, s, r) && (k > 0 || x.down == WaveDown(tc, 0))
    ensures
      var j := Mod(k, Cycle(tc));
      Level(OperTicks(oc, tc, x, op, k + 1), g) ==
        if j == TickOf(oc, tc, s) then true
        else if j == TickOf(oc, tc, r) then false
        else Level(OperTicks(oc, tc, x, op, k), g)
  {
    TicksFollowWave(tc, x, k);
    assert Ticks(tc, x, k + 1 - 1) == Ticks(tc, x, k);
    EventTimes(oc, tc, x, k, s);
    EventTimes(oc, tc, x, k, r);
    assert Actions(oc, g)[s] == 2 && Actions(oc, g)[r] == 1;
    var e := Event(oc, tc, Ticks(tc, x, k));
    if e.Some? {
      EventTimes(oc, tc, x, k, e.value);
      assert Actions(oc, g)[e.value] == if e.value == s then 2 else if e.value == r then 1 else 0;
    }
  }

  /** What the first tick does, if it does not heed the events at 0. */
  lemma FirstStep(oc: OperConfig, tc: TimerConfig, g: nat, x: Timer, op: Oper)
    requires Started(tc, x) && |oc.actionsA| == 8 && |oc.actionsB| == 8
    requires Actions(oc, g)[0] == 0 && Actions(oc, g)[5] == 0
    ensures Level(OperTicks(oc, tc, x, op, 1), g) == Level(op, g)
  {
    assert Ticks(tc, x, 0) == x && OperTicks(oc, tc, x, op, 0) == op;
  }

  /** The level before the first tick is that of the end of a cycle, or one of the two events has
      been seen by tick `k`. */
  ghost predicate Settled(oc: OperConfig, tc: TimerConfig, g: nat, op: Oper, k: nat, s: nat, r: nat) {
    || Level(op, g) == Between(Cycle(tc) - 1, TickOf(oc, tc, s), TickOf(oc, tc, r))
    || TickOf(oc, tc, s) < k
    || TickOf(oc, tc, r) < k
  }

  /** Away from both ticks the level is that of the tick before. */
  lemma BetweenNext(j: nat, n: nat, from: int, to: int)
    requires j < n && 0 <= from < n && 0 <= to < n
    ensures
      var next := if j == n - 1 then 0 else j + 1;
      next != from && next != to ==> (Between(next, from, to) <==> Between(j, from, to))
  {
  }

  lemma PulseNext(oc: OperConfig, tc: TimerConfig, g: nat, x: Timer, op: Oper, k: nat, s: nat, r: nat)
    requires Started(tc, x) && Pulse(oc, tc, g, s, r) && k > 0
    ensures
      var j, from, to := Mod(k, Cycle(tc)), TickOf(oc, tc, s), TickOf(oc, tc, r);
      var before, after := Level(OperTicks(oc, tc, x, op, k), g), Level(OperTicks(oc, tc, x, op, k + 1), g);
      && (j == from || j == to ==> (after <==> Between(j, from, to)))
      && (j != from && j != to && (before <==> Between(Mod(k - 1, Cycle(tc)), from, to)) ==>
            (after <==> Between(j, from, to)))
  {
    PulseStep(oc, tc, g, x, op, k, s, r);
    ModNext(k - 1, Cycle(tc));
    BetweenNext(Mod(k - 1, Cycle(tc)), Cycle(tc), TickOf(oc, tc, s), TickOf(oc, tc, r));
  }

  /** The output is high from the tick of the one event to that of the other, in every cycle. */
  lemma {:induction false} PulseDuty(oc: OperConfig, tc: TimerConfig, g: nat, x: Timer, op: Oper, k: nat,
                                     s: nat, r: nat)
    requires Started(tc, x) && Pulse(oc, tc, g, s, r) && StartsRight(oc, tc, g, x)
    requires k > 0 && Settled(oc, tc, g, op, k, s, r)
    ensures
      Level(OperTicks(oc, tc, x, op, k), g)
      <==> Between(Mod(k - 1, Cycle(tc)), TickOf(oc, tc, s), TickOf(oc, tc, r))
  {
    if k == 1 {
      PulseStart(oc, tc, g, x, op, s, r);
    } else {
      PulseNext(oc, tc, g, x, op, k - 1, s, r);
      var j := Mod(k - 1, Cycle(tc));
      if j != TickOf(oc, tc, s) && j != TickOf(oc, tc, r) {
        SettledBefore(oc, tc, g, op, k, s, r);
        PulseDuty(oc, tc, g, x, op, k - 1, s, r);
      }
    }
  }

  lemma PulseStart(oc: OperConfig, tc: TimerConfig, g: nat, x: Timer, op: Oper, s: nat, r: nat)
    requires Started(tc, x) && Pulse(oc, tc, g, s, r) && StartsRight(oc, tc, g, x)
    requires Settled(oc, tc, g, op, 1, s, r)
    ensures Level(OperTicks(oc, tc, x, op, 1), g) <==> Between(Mod(0, Cycle(tc)), TickOf(oc, tc, s), TickOf(oc, tc, r))
  {
    DivUnique(0, Cycle(tc), 0, 0);
    if x.down == WaveDown(tc, 0) {
      PulseStep(oc, tc, g, x, op, 0, s, r);
    } else {
      assert Actions(oc, g)[s] == 2 && Actions(oc, g)[r] == 1;
      FirstStep(oc, tc, g, x, op);
    }
  }

  lemma SettledBefore(oc: OperConfig, tc: TimerConfig, g: nat, op: Oper, k: nat, s: nat, r: nat)
    requires k > 1 && tc.period > 0 && Settled(oc, tc, g, op, k, s, r)
    requires Seen(oc, tc, s) && Mod(k - 1, Cycle(tc)) != TickOf(oc, tc, s)
    requires Seen(oc, tc, r) && Mod(k - 1, Cycle(tc)) != TickOf(oc, tc, r)
    ensures Settled(oc, tc, g, op, k - 1, s, r)
  {
    if k - 1 < Cycle(tc) {
      DivUnique(k - 1, Cycle(tc), 0, k - 1);
    }
  }

  // ----- the usual set-ups

  ghost function CompareOf(oc: OperConfig, g: nat): nat {
    if g == 0 then oc.c0 else oc.c1
  }

  /** High at zero, low at the compare value going up; a timer that counts up and was not left
      counting down. */
  lemma EdgeAlignedDuty(oc: OperConfig, tc: TimerConfig, g: nat, x: Timer, op: Oper, k: nat)
    requires Started(tc, x) && tc.mode == 1 && !x.down && g < 2 && k > 0
    requires Pulse(oc, tc, g, 0, if g == 0 then 2 else 3)
    ensures Level(OperTicks(oc, tc, x, op, k), g) <==> Wave(tc, k - 1) < CompareOf(oc, g)
  {
    PulseDuty(oc, tc, g, x, op, k, 0, if g == 0 then 2 else 3);
  }

  /** High at the peak, low at the compare value going down; a timer that counts down. */
  lemma DownDuty(oc: OperConfig, tc: TimerConfig, g: nat, x: Timer, op: Oper, k: nat)
    requires Started(tc, x) && tc.mode == 2 && g < 2 && k > 0
    requires Pulse(oc, tc, g, 4, if g == 0 then 7 else 6) && StartsRight(oc, tc, g, x)
    requires k > 1 || !Level(op, g)
    ensures Level(OperTicks(oc, tc, x, op, k), g) <==> Wave(tc, k - 1) > CompareOf(oc, g)
  {
    PulseDuty(oc, tc, g, x, op, k, 4, if g == 0 then 7 else 6);
  }

  /** Low at the compare value going up, high at it going down; a timer that does both. */
  lemma CentreAlignedDuty(oc: OperConfig, tc: TimerConfig, g: nat, x: Timer, op: Oper, k: nat)
    requires Started(tc, x) && tc.mode == 3 && g < 2 && k > 0
    requires Pulse(oc, tc, g, if g == 0 then 7 else 6, if g == 0 then 2 else 3) && StartsRight(oc, tc, g, x)
    requires k > CompareOf(oc, g) || Level(op, g)
    ensures
      var p := Wave(tc, k - 1);
      Level(OperTicks(oc, tc, x, op, k), g) <==>
        p < CompareOf(oc, g) || (p == CompareOf(oc, g) && WaveDown(tc, k - 1))
  {
    PulseDuty(oc, tc, g, x, op, k, if g == 0 then 7 else 6, if g == 0 then 2 else 3);
  }

  /** The same through the unit, under any polling schedule. */
  lemma PolledCentreAligned(cfg: Config, u: Unit, o: nat, g: nat, start: nat, cycles: seq<nat>)
    requires Ready(cfg, u, start) && Schedule(start, cycles) && cycles != [] && o < 3 && cfg.opers[o].timer < 3
    requires
      var oc, t := cfg.opers[o], cfg.opers[o].timer;
      var tc, x := cfg.timers[t], u.timers[t];
      && u.clocks[t] == Clock(start, 0) && Started(tc, x) && tc.mode == 3 && g < 2
      && Pulse(oc, tc, g, if g == 0 then 7 else 6, if g == 0 then 2 else 3) && StartsRight(oc, tc, g, x)
      && Level(u.opers[o], g)
    ensures start <= LastOf(start, cycles)
    ensures
      var oc, t := cfg.opers[o], cfg.opers[o].timer;
      var tc, k := cfg.timers[t], Elapsed(Clock(start, 0), LastOf(start, cycles), Step(cfg, t));
      k > 0 ==>
        var p := Wave(tc, k - 1);
        Level(UnitRun(cfg, u, start, cycles).opers[o], g) <==>
          p < CompareOf(oc, g) || (p == CompareOf(oc, g) && WaveDown(tc, k - 1))
  {
    UnitRunIsOnePoll(cfg, u, start, cycles);
    var oc, t := cfg.opers[o], cfg.opers[o].timer;
    var k := Elapsed(u.clocks[t], LastOf(start, cycles), Step(cfg, t));
    if k > 0 {
      CentreAlignedDuty(oc, cfg.timers[t], g, u.timers[t], u.opers[o], k);
    }
  }

  /** The centre-aligned set-up of both generators, with equal compare values. */
  ghost predicate Equal(oc: OperConfig, tc: TimerConfig, x: Timer) {
    && Started(tc, x) && tc.mode == 3 && oc.c0 == oc.c1 && Inside(oc.c0, tc)
    && oc.actionsA == [0, 0, 1, 0, 0, 0, 0, 2] && oc.actionsB == [0, 0, 0, 1, 0, 0, 2, 0]
  }

  lemma EqualStep(oc: OperConfig, tc: TimerConfig, x: Timer, op: Oper, k: nat)
    requires Equal(oc, tc, x)
    ensures
      var before, after := OperTicks(oc, tc, x, op, k), OperTicks(oc, tc, x, op, k + 1);
      && after.a == (before.a && Mod(k, Cycle(tc)) != oc.c0)
      && (before.b ==> after.b)
  {
    if k == 0 {
      assert Ticks(tc, x, 0) == x && OperTicks(oc, tc, x, op, 0) == op;
      DivUnique(0, Cycle(tc), 0, 0);
    } else {
      TicksFollowWave(tc, x, k);
      EventTimes(oc, tc, x, k, 2);
      EventTimes(oc, tc, x, k, 3);
      EventTimes(oc, tc, x, k, 7);
    }
    assert Ticks(tc, x, k + 1 - 1) == Ticks(tc, x, k);
  }

  lemma ModSmall(k: nat, n: nat)
    requires k < n
    ensures Mod(k, n) == k
  {
    DivUnique(k, n, 0, k);
  }

  /** The tick at which the counter first comes to the compare value. */
  lemma EqualFirst(oc: OperConfig, tc: TimerConfig, x: Timer, op: Oper)
    requires Equal(oc, tc, x)
    ensures !OperTicks(oc, tc, x, op, oc.c0 + 1).a
  {
    EqualStep(oc, tc, x, op, oc.c0);
    ModSmall(oc.c0, Cycle(tc));
  }

  lemma {:induction false} EqualLow(oc: OperConfig, tc: TimerConfig, x: Timer, op: Oper, k: nat)
    requires Equal(oc, tc, x) && k > oc.c0
    ensures !OperTicks(oc, tc, x, op, k).a
  {
    if k == oc.c0 + 1 {
      EqualFirst(oc, tc, x, op);
    } else {
      EqualLow(oc, tc, x, op, k - 1);
      EqualStep(oc, tc, x, op, k - 1);
    }
  }

  lemma {:induction false} EqualHigh(oc: OperConfig, tc: TimerConfig, x: Timer, op: Oper, k: nat)
    requires Equal(oc, tc, x) && op.b
    ensures OperTicks(oc, tc, x, op, k).b
  {
    if k > 0 {
      EqualHigh(oc, tc, x, op, k - 1);
      EqualStep(oc, tc, x, op, k - 1);
    }
  }

  /** With equal compare values a centre-aligned set-up fails: generator A goes low and stays low,
      and generator B never goes low. */
  lemma EqualCompares(oc: OperConfig, tc: TimerConfig, x: Timer, op: Oper, k: nat)
    requires Equal(oc, tc, x)
    ensures k > oc.c0 ==> !OperTicks(oc, tc, x, op, k).a
    ensures op.b ==> OperTicks(oc, tc, x, op, k).b
  {
    if k > oc.c0 {
      EqualLow(oc, tc, x, op, k);
    }
    if op.b {
      EqualHigh(oc, tc, x, op, k);
    }
  }

  lemma ToggleStep(oc: OperConfig, tc: TimerConfig, g: nat, x: Timer, op: Oper, k: nat)
    requires Started(tc, x) && tc.mode == 1 && !x.down && |oc.actionsA| == 8 && |oc.actionsB| == 8
    requires Actions(oc, g) == [3, 0, 0, 0, 0, 0, 0, 0]
    ensures
      var before, after := Level(OperTicks(oc, tc, x, op, k), g), Level(OperTicks(oc, tc, x, op, k + 1), g);
      after == if Mod(k, tc.period + 1) == 0 then !before else before
  {
    TicksFollowWave(tc, x, k);
    EventTimes(oc, tc, x, k, 0);
    assert Ticks(tc, x, k + 1 - 1) == Ticks(tc, x, k);
  }

  ghost function Turns(k: nat, n: nat): nat
    requires n > 0
  {
    k / n
  }

  lemma TurnsNext(k: nat, n: nat)
    requires n > 0
    ensures Turns(k + 1, n) == if Mod(k + 1, n) == 0 then Turns(k, n) + 1 else Turns(k, n)
  {
    var q, r := k / n, k % n;
    DivMod(k, n);
    Distribute(n, q, 1);
    if r == n - 1 {
      DivUnique(k + 1, n, q + 1, 0);
    } else {
      DivUnique(k + 1, n, q, r + 1);
    }
  }

  ghost predicate OddTurns(tc: TimerConfig, k: nat) {
    Turns(k, tc.period + 1) % 2 == 1
  }

  lemma ToggleFirst(oc: OperConfig, tc: TimerConfig, g: nat, x: Timer, op: Oper)
    requires Started(tc, x) && tc.mode == 1 && !x.down && |oc.actionsA| == 8 && |oc.actionsB| == 8
    requires Actions(oc, g) == [3, 0, 0, 0, 0, 0, 0, 0]
    ensures Level(OperTicks(oc, tc, x, op, 1), g) == !Level(op, g) && !OddTurns(tc, 0)
  {
    ToggleStep(oc, tc, g, x, op, 0);
    DivUnique(0, tc.period + 1, 0, 0);
    assert OperTicks(oc, tc, x, op, 0) == op;
  }

  lemma ToggleNext(oc: OperConfig, tc: TimerConfig, g: nat, x: Timer, op: Oper, k: nat)
    requires Started(tc, x) && tc.mode == 1 && !x.down && |oc.actionsA| == 8 && |oc.actionsB| == 8
    requires Actions(oc, g) == [3, 0, 0, 0, 0, 0, 0, 0] && k > 0
    ensures
      var before, after := Level(OperTicks(oc, tc, x, op, k), g), Level(OperTicks(oc, tc, x, op, k + 1), g);
      OddTurns(tc, k) <==> (OddTurns(tc, k - 1) <==> (before <==> after))
  {
    ToggleStep(oc, tc, g, x, op, k);
    TurnsNext(k - 1, tc.period + 1);
  }

  /** An output toggled at zero has half the frequency of the timer: it changes once a turn. */
  lemma {:induction false} ToggleDuty(oc: OperConfig, tc: TimerConfig, g: nat, x: Timer, op: Oper, k: nat)
    requires Started(tc, x) && tc.mode == 1 && !x.down && |oc.actionsA| == 8 && |oc.actionsB| == 8
    requires Actions(oc, g) == [3, 0, 0, 0, 0, 0, 0, 0] && k > 0
    ensures Level(OperTicks(oc, tc, x, op, k), g) <==> (Level(op, g) <==> OddTurns(tc, k - 1))
  {
    if k == 1 {
      ToggleFirst(oc, tc, g, x, op);
    } else {
      ToggleDuty(oc, tc, g, x, op, k - 1);
      ToggleNext(oc, tc, g, x, op, k - 1);
    }
  }

  /** A one-shot force is off once an event has been seen, and not before. */
  lemma {:induction false} ForceConsumed(oc: OperConfig, tc: TimerConfig, x: Timer, op: Oper, k: nat)
    requires Started(tc, x) && |oc.actionsA| == 8 && |oc.actionsB| == 8
    ensures
      var seen := exists i :: 0 <= i < k && Event(oc, tc, Ticks(tc, x, i)).Some?;
      var now := OperTicks(oc, tc, x, op, k);
      (now.forceA <==> op.forceA && !seen) && (now.forceB <==> op.forceB && !seen)
  {
    if k > 0 {
      ForceConsumed(oc, tc, x, op, k - 1);
      TicksFollowWave(tc, x, k - 1);
    }
  }

  /** A timer told to stop at the peak counts up to it and stays there; told to stop at zero, where
      a start puts it, it does not count at all. */
  lemma {:induction false} StopTimes(tc: TimerConfig, x: Timer, k: nat)
    requires tc.period > 0 && tc.mode != 2 && x.running && x.stopAt != Never && x.phase == 0
    ensures
      var y, last := Ticks(tc, x, k), if x.stopAt == AtPeak then tc.period else 0;
      && y.phase == (if k <= last then k else last) && (y.running <==> k <= last)
      && (0 < k <= last ==> !y.down) && (k <= last ==> y.stopAt == x.stopAt)
  {
    if k > 0 {
      StopTimes(tc, x, k - 1);
    }
  }
}
