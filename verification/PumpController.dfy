/** The pump controller of the Arduino logger (EclipseArduino/pumpLogger/pump.cpp): a machine of four
    states, run again and again, that limits how long the pump runs and makes it rest. */
module PumpController {

  const WORD: nat := 0x1_0000_0000
  const UNSET: nat := 0xFF

  datatype Status = Off | Pumping | Resting | Override

  /** The limits of `PumpFrame`, in seconds and hours. */
  datatype Frame = Frame(upTime: nat, restTime: nat, startHour: nat, endHour: nat)

  /** What one pass sees: whether the clock is set, the level switch, the clock when the switch is
      sampled, the hour when the frame is tested, the clock when a limit is tested and when a start
      or rest is noted, and the hour when an override is tested again. */
  datatype Pass = Pass(clockSet: bool, level: bool, sampled: nat, hour: nat, test: nat, mark: nat, hourAgain: nat) {
    predicate Ordered() { sampled <= test <= mark < WORD }
  }

  /** An input change, as logged. */
  datatype Change = Change(at: nat, level: bool)

  datatype Pump = Pump(status: Status, start: nat, rest: nat, high: bool)

  predicate InFrame(f: Frame, hour: nat) { f.startHour <= hour < f.endHour }

  /** `pumpStart + upTime < now()`, in 32 bits. */
  predicate Over(since: nat, limit: nat, now: nat) { (since + limit) % WORD < now }

  function Starts(p: Pump, c: Pass): Pump { p.(status := Pumping, start := c.mark) }

  function Rests(p: Pump, c: Pass): Pump { p.(status := Resting, rest := c.mark) }

  /** One pass of the machine, pins configured and clock set. */
  function RunOn(p: Pump, f: Frame, c: Pass): Pump {
    if !InFrame(f, c.hour) then
      (if InFrame(f, c.hourAgain) then Pump(Off, 0, 0, false) else Pump(Override, 0, 0, true))
    else match p.status
      case Off => if c.level then Starts(p, c) else p
      case Pumping =>
        var q := p.(high := false);
        var r := if Over(p.start, f.upTime, c.test) then Rests(q, c) else q;
        if c.level then r else r.(status := Off)
      case Resting =>
        var q := p.(high := true);
        if Over(p.rest, f.restTime, c.test) then Starts(q, c) else q
      case Override => if InFrame(f, c.hourAgain) then p.(status := Off, high := false) else p.(high := true)
  }

  // ----- The class -----

  class PumpClass {
    var status: Status
    var pumpStart: nat
    var pumpRest: nat
    var overridePin: nat
    var levelPin: nat
    var outputHigh: bool
    var prevState: bool
    var logged: seq<Change>

    ghost function Value(): Pump
      reads this
    {
      Pump(status, pumpStart, pumpRest, outputHigh)
    }

    constructor ()
      ensures Value() == Pump(Off, 0, 0, false) && overridePin == levelPin == UNSET
      ensures logged == [] && Alternates(logged, prevState)
    {
      status, pumpStart, pumpRest := Off, 0, 0;
      overridePin, levelPin := UNSET, UNSET;
      outputHigh, prevState, logged := false, false, [];
    }

    method Init(pin: nat, level: nat)
      modifies this`overridePin, this`levelPin
      ensures overridePin == pin && levelPin == level
    {
      overridePin, levelPin := pin, level;
    }

    method Start(mark: nat)
      modifies this`status, this`pumpStart
      ensures status == Pumping && pumpStart == mark
    {
      status := Pumping;
      pumpStart := mark;
    }

    method Rest(mark: nat)
      modifies this`status, this`pumpRest
      ensures status == Resting && pumpRest == mark
    {
      status := Resting;
      pumpRest := mark;
    }

    /** `sample`: every change of the level switch is logged once. */
    method Sample(c: Pass)
      requires Alternates(logged, prevState)
      modifies this`prevState, this`logged
      ensures prevState == c.level && Alternates(logged, prevState)
      ensures logged == old(logged) + (if old(prevState) == c.level then [] else [Change(c.sampled, c.level)])
    {
      if c.level != prevState {
        prevState := c.level;
        logged := logged + [Change(c.sampled, c.level)];
      }
    }

    /** `run`. */
    method Run(f: Frame, c: Pass)
      requires Alternates(logged, prevState)
      modifies this
      ensures unchanged(this`overridePin, this`levelPin) && Alternates(logged, prevState)
      ensures overridePin == UNSET || levelPin == UNSET || !c.clockSet ==> unchanged(this)
      ensures overridePin != UNSET && levelPin != UNSET && c.clockSet ==>
        && Value() == RunOn(old(Value()), f, c) && prevState == c.level
        && logged == old(logged) + (if old(prevState) == c.level then [] else [Change(c.sampled, c.level)])
    {
      if overridePin == UNSET || levelPin == UNSET {
        return;
      }
      if !c.clockSet {
        return;
      }
      Sample(c);
      if !InFrame(f, c.hour) {
        status := Override;
        pumpStart := 0;
        pumpRest := 0;
      }
      match status
      case Off =>
        if c.level {
          Start(c.mark);
        }
      case Pumping =>
        outputHigh := false;
        if (pumpStart + f.upTime) % WORD < c.test {
          Rest(c.mark);
        }
        if !c.level {
          status := Off;
        }
      case Resting =>
        outputHigh := true;
        if (pumpRest + f.restTime) % WORD < c.test {
          Start(c.mark);
        }
      case Override =>
        outputHigh := true;
        if InFrame(f, c.hourAgain) {
          outputHigh := false;
          status := Off;
        }
    }
  }

  /** The logged levels alternate, beginning with a set switch, and end at the last level seen. */
  predicate Alternates(log: seq<Change>, last: bool) {
    (forall i :: 0 <= i < |log| ==> log[i].level == (i % 2 == 0)) && last == (|log| % 2 == 1)
  }

  // ----- Outside the frame -----

  /** A pass that sees the clock outside the frame ends in override with the output high, whatever the
      state was; it ends with the output released only if the hour has changed in between. */
  lemma OutsideOverrides(p: Pump, f: Frame, c: Pass)
    requires !InFrame(f, c.hour)
    ensures RunOn(p, f, c).status == Override <==> !InFrame(f, c.hourAgain)
    ensures RunOn(p, f, c).high <==> !InFrame(f, c.hourAgain)
    ensures RunOn(p, f, c).start == 0 == RunOn(p, f, c).rest
  {}

  // ----- Runs -----

  /** The state after a run of passes. */
  function After(p: Pump, f: Frame, passes: seq<Pass>): Pump {
    if passes == [] then p
    else RunOn(After(p, f, passes[..|passes| - 1]), f, passes[|passes| - 1])
  }

  /** The seconds spent pumping between the first and the last pass of a run. */
  function PumpingTime(p: Pump, f: Frame, passes: seq<Pass>): int {
    if |passes| < 2 then 0
    else
      var n := |passes|;
      var before := passes[..n - 1];
      PumpingTime(p, f, before)
      + if After(p, f, before).status == Pumping then passes[n - 1].mark - passes[n - 2].mark else 0
  }

  predicate Started(before: Pump, after: Pump) { before.status != Pumping && after.status == Pumping }

  /** How often the pump was started, and how often after a completed rest. */
  function StartCount(p: Pump, f: Frame, passes: seq<Pass>): nat {
    if passes == [] then 0
    else
      var before := passes[..|passes| - 1];
      StartCount(p, f, before) + if Started(After(p, f, before), After(p, f, passes)) then 1 else 0
  }

  function RestCount(p: Pump, f: Frame, passes: seq<Pass>): nat {
    if passes == [] then 0
    else
      var before := passes[..|passes| - 1];
      var was := After(p, f, before);
      RestCount(p, f, before) + if was.status == Resting && After(p, f, passes).status == Pumping then 1 else 0
  }

  /** The clock is set and the sums with the limits stay inside 32 bits. */
  predicate Timed(f: Frame, c: Pass) {
    c.clockSet && c.Ordered() && c.mark + f.upTime < WORD && c.mark + f.restTime < WORD
  }

  /** The clock never goes back, and no pass ends more than d seconds after the test of the one before. */
  predicate Steady(f: Frame, passes: seq<Pass>, d: nat) {
    && (forall i :: 0 <= i < |passes| ==> Timed(f, passes[i]))
    && (forall i :: 0 < i < |passes| ==>
      passes[i - 1].mark <= passes[i].test && passes[i].mark <= passes[i - 1].test + d)
  }

  /** A machine that has just been set up, or is off or overridden. */
  predicate Idle(p: Pump) { p.status == Off || p.status == Override }

  /** While pumping, the last test was within the limit of the start, and the time pumped before this
      start is within what the earlier starts allow. */
  predicate Within(now: Pump, f: Frame, last: Pass, d: nat, total: int, allowed: int) {
    if now.status != Pumping then total <= allowed
    else
      && now.start <= last.mark && last.test <= now.start + f.upTime < WORD
      && total - (last.mark - now.start) <= allowed - (f.upTime + d)
  }

  lemma WithinNext(was: Pump, f: Frame, last: Pass, c: Pass, d: nat, total: int, allowed: int)
    requires Within(was, f, last, d, total, allowed) && Timed(f, c)
    requires last.mark <= c.test && c.mark <= last.test + d
    ensures var now := RunOn(was, f, c);
      Within(now, f, c, d, total + (if was.status == Pumping then c.mark - last.mark else 0),
             allowed + if Started(was, now) then f.upTime + d else 0)
  {}

  lemma {:induction false} RunWithin(p: Pump, f: Frame, passes: seq<Pass>, d: nat)
    requires Idle(p) && Steady(f, passes, d) && passes != []
    ensures Within(After(p, f, passes), f, passes[|passes| - 1], d,
                   PumpingTime(p, f, passes), StartCount(p, f, passes) * (f.upTime + d))
    decreases |passes|
  {
    var n := |passes|;
    var before, c := passes[..n - 1], passes[n - 1];
    var was, starts := After(p, f, before), StartCount(p, f, before);
    More(starts, f.upTime + d);
    if n == 1 {
      FirstPass(p, f, passes, d);
    } else {
      RunWithin(p, f, before, d);
      assert before[n - 2] == passes[n - 2];
      WithinNext(was, f, passes[n - 2], c, d, PumpingTime(p, f, before), starts * (f.upTime + d));
    }
  }

  lemma More(n: nat, u: nat)
    ensures (n + 1) * u == n * u + u
  {}

  lemma {:induction false} FirstPass(p: Pump, f: Frame, passes: seq<Pass>, d: nat)
    requires Idle(p) && |passes| == 1 && Timed(f, passes[0])
    ensures Within(After(p, f, passes), f, passes[0], d,
                   PumpingTime(p, f, passes), StartCount(p, f, passes) * (f.upTime + d))
  {
    assert passes[..0] == [];
  }

  /** Every stretch of pumping is bounded: whatever the level switch and the hour do, the pump runs for
      at most the up time and one gap between passes per start. */
  lemma {:induction false} PumpingBound(p: Pump, f: Frame, passes: seq<Pass>, d: nat)
    requires Idle(p) && Steady(f, passes, d)
    ensures PumpingTime(p, f, passes) <= StartCount(p, f, passes) * (f.upTime + d)
  {
    if passes != [] {
      RunWithin(p, f, passes, d);
    }
  }

  /** The switch asks for water and the hour is in the frame, throughout. */
  predicate Demand(f: Frame, passes: seq<Pass>) {
    forall i :: 0 <= i < |passes| ==> passes[i].level && InFrame(f, passes[i].hour)
  }

  lemma {:induction false} StartsAreRests(p: Pump, f: Frame, passes: seq<Pass>)
    requires p.status == Off && Demand(f, passes)
    ensures StartCount(p, f, passes) == if passes == [] then 0 else RestCount(p, f, passes) + 1
    ensures passes == [] <==> After(p, f, passes).status == Off
    ensures After(p, f, passes).status != Override
    decreases |passes|
  {
    if passes != [] {
      StartsAreRests(p, f, passes[..|passes| - 1]);
    }
  }

  /** The duty bound under constant demand: pumping time is at most one up time and one gap more than
      the completed rests allow. */
  lemma {:induction false} DutyBound(p: Pump, f: Frame, passes: seq<Pass>, d: nat)
    requires p.status == Off && Steady(f, passes, d) && Demand(f, passes)
    ensures PumpingTime(p, f, passes) <= (RestCount(p, f, passes) + 1) * (f.upTime + d)
  {
    PumpingBound(p, f, passes, d);
    StartsAreRests(p, f, passes);
  }

  lemma {:induction false} RestNoted(p: Pump, f: Frame, passes: seq<Pass>, d: nat)
    requires Idle(p) && Steady(f, passes, d)
    ensures After(p, f, passes).status == Resting ==> After(p, f, passes).rest + f.restTime < WORD
    decreases |passes|
  {
    if passes != [] {
      var n := |passes|;
      RestNoted(p, f, passes[..n - 1], d);
      RestNotedNext(After(p, f, passes[..n - 1]), f, passes[n - 1]);
    }
  }

  lemma RestNotedNext(was: Pump, f: Frame, c: Pass)
    requires Timed(f, c) && (was.status == Resting ==> was.rest + f.restTime < WORD)
    ensures var now := RunOn(was, f, c); now.status == Resting ==> now.rest + f.restTime < WORD
    ensures var now := RunOn(was, f, c);
      was.status == Resting && now.status == Pumping ==> now.start - was.rest > f.restTime
  {}

  /** A rest that ends in a start has lasted longer than the rest time. */
  lemma {:induction false} RestLasts(p: Pump, f: Frame, passes: seq<Pass>, d: nat)
    requires Idle(p) && Steady(f, passes, d) && passes != []
    ensures var was := After(p, f, passes[..|passes| - 1]);
      var now := After(p, f, passes);
      was.status == Resting && now.status == Pumping ==> now.start - was.rest > f.restTime
  {
    var n := |passes|;
    RestNoted(p, f, passes[..n - 1], d);
    RestNotedNext(After(p, f, passes[..n - 1]), f, passes[n - 1]);
  }

  // ----- What leaves a state -----

  /** The last pass of a run, whatever the others have led to: inside the frame "off" is left exactly when the
      switch is set, and the time is noted. */
  lemma {:induction false} OffLeft(p: Pump, f: Frame, passes: seq<Pass>)
    requires passes != []
    ensures var was, now, c := After(p, f, passes[..|passes| - 1]), After(p, f, passes), passes[|passes| - 1];
      was.status == Off && f.startHour <= c.hour < f.endHour ==>
        && (now.status == Pumping <==> c.level) && (now.status == Off <==> !c.level)
        && now.start == (if c.level then c.mark else was.start) && now.rest == was.rest && now.high == was.high
  {}

  /** "Pumping" is left exactly when the switch is released or the up time is exceeded. */
  lemma {:induction false} PumpingLeft(p: Pump, f: Frame, passes: seq<Pass>)
    requires passes != []
    ensures var was, now, c := After(p, f, passes[..|passes| - 1]), After(p, f, passes), passes[|passes| - 1];
      var over := (was.start + f.upTime) % 0x1_0000_0000 < c.test;
      was.status == Pumping && f.startHour <= c.hour < f.endHour ==>
        && (now.status == Off <==> !c.level) && (now.status == Resting <==> c.level && over)
        && (now.status == Pumping <==> c.level && !over)
        && now.rest == (if over then c.mark else was.rest) && now.start == was.start && !now.high
  {}

  /** "Resting" is left exactly when the rest time is exceeded, whatever the switch says. */
  lemma {:induction false} RestingLeft(p: Pump, f: Frame, passes: seq<Pass>)
    requires passes != []
    ensures var was, now, c := After(p, f, passes[..|passes| - 1]), After(p, f, passes), passes[|passes| - 1];
      var over := (was.rest + f.restTime) % 0x1_0000_0000 < c.test;
      was.status == Resting && f.startHour <= c.hour < f.endHour ==>
        && (now.status == Pumping <==> over) && (now.status == Resting <==> !over)
        && now.start == (if over then c.mark else was.start) && now.rest == was.rest && now.high
  {}

  /** Override is left exactly when the hour is in the frame again, and entered from any state outside it; the
      times are forgotten. */
  lemma {:induction false} OverrideLeft(p: Pump, f: Frame, passes: seq<Pass>)
    requires passes != []
    ensures var was, now, c := After(p, f, passes[..|passes| - 1]), After(p, f, passes), passes[|passes| - 1];
      var back := f.startHour <= c.hourAgain < f.endHour;
      was.status == Override || !(f.startHour <= c.hour < f.endHour) ==>
        && (now.status == Off <==> back) && (now.status == Override <==> !back) && now.high == !back
        && (!(f.startHour <= c.hour < f.endHour) ==> now.start == now.rest == 0)
  {}

  /** No pass finds the switch set. */
  predicate NeverLow(passes: seq<Pass>) { forall i :: 0 <= i < |passes| ==> !passes[i].level }

  /** Then an idle machine never starts. */
  lemma {:induction false} NeverStarts(p: Pump, f: Frame, passes: seq<Pass>)
    requires Idle(p) && NeverLow(passes)
    ensures Idle(After(p, f, passes)) && StartCount(p, f, passes) == 0 && PumpingTime(p, f, passes) == 0
    decreases |passes|
  {
    if passes != [] {
      NeverStarts(p, f, passes[..|passes| - 1]);
    }
  }

  /** Whether the pump was started in the last pass or one after which it went on pumping, and when. */
  function StartedAt(p: Pump, f: Frame, passes: seq<Pass>): nat
    requires passes != []
  {
    var before, c := passes[..|passes| - 1], passes[|passes| - 1];
    if Started(After(p, f, before), After(p, f, passes)) || before == [] then c.mark else StartedAt(p, f, before)
  }

  /** While the pump runs, the time noted is that of the pass that started it. */
  lemma {:induction false} StartNoted(p: Pump, f: Frame, passes: seq<Pass>)
    requires Idle(p) && passes != []
    ensures After(p, f, passes).status == Pumping ==> After(p, f, passes).start == StartedAt(p, f, passes)
    decreases |passes|
  {
    var before := passes[..|passes| - 1];
    OffLeft(p, f, passes);
    PumpingLeft(p, f, passes);
    RestingLeft(p, f, passes);
    OverrideLeft(p, f, passes);
    if before != [] {
      StartNoted(p, f, before);
    } else {
      assert After(p, f, before) == p;
    }
  }

  // ----- The output -----

  /** Over any run the output is low when the machine is off and high in override; from the second pass
      on it is low while pumping and high while resting. Whenever the last pass saw the clock outside the
      frame, the machine is in override with the output high, unless the hour changed within the pass. */
  lemma {:induction false} OutputFollows(p: Pump, f: Frame, passes: seq<Pass>)
    requires p.status == Off && !p.high && passes != []
    ensures var was, now := After(p, f, passes[..|passes| - 1]), After(p, f, passes);
      && (now.status == Off ==> !now.high) && (now.status == Override ==> now.high)
      && (was.status == now.status == Pumping ==> !now.high)
      && (was.status == now.status == Resting ==> now.high)
    ensures var now, last := After(p, f, passes), passes[|passes| - 1];
      !InFrame(f, last.hour) ==>
        (now.status == Override <==> !InFrame(f, last.hourAgain)) && now.high == (now.status == Override)
    decreases |passes|
  {
    var last := passes[|passes| - 1];
    if |passes| > 1 {
      OutputFollows(p, f, passes[..|passes| - 1]);
    }
    if !InFrame(f, last.hour) {
      OutsideOverrides(After(p, f, passes[..|passes| - 1]), f, last);
    }
  }
}
