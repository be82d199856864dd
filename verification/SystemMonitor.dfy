/** The pump controller of the eCos logger (loggerFirmware/src/sys_mon.cpp): it reacts to the tank
    level and the clock, and writes every switching of the pump to the event log. */
module SystemMonitor {

  /** Minutes and hours from the non-volatile settings. */
  datatype Config = Config(frameStart: nat, frameEnd: nat, upTime: nat, restTime: nat) {
    function Up(): nat { upTime * 60 }
    function Rest(): nat { restTime * 60 }
    predicate InFrame(hour: nat) { frameStart <= hour < frameEnd }
  }

  /** What an action sees: the settings, the clock and the tank. */
  datatype Action = Action(settings: Config, now: nat, hour: nat, tankLow: bool) {
    predicate Demand() { tankLow && settings.InFrame(hour) }
  }

  /** A logged event of port 5. */
  datatype Entry = Entry(on: bool, at: nat)

  datatype Monitor = Monitor(on: bool, start: nat, idle: nat, left: int, inFrame: bool, relay: bool, log: seq<Entry>)

  function StartOn(m: Monitor, now: nat): Monitor {
    if m.on then m else m.(on := true, relay := true, log := m.log + [Entry(true, now)])
  }

  function StopOn(m: Monitor, now: nat, switchRelay: bool): Monitor {
    if m.on then m.(on := false, relay := m.relay && !switchRelay, log := m.log + [Entry(false, now)]) else m
  }

  /** The run time is used up. */
  predicate Spent(m: Monitor, c: Config, now: nat) { m.start != 0 && now - m.start > c.Up() }

  predicate Rested(m: Monitor, c: Config, now: nat) { m.idle != 0 && now - m.idle > c.Rest() }

  function HandleOn(m: Monitor, a: Action): Monitor {
    var c := a.settings;
    if !a.tankLow then
      StopOn(m.(idle := 0, start := 0, left := 0), a.now, false)
    else if !c.InFrame(a.hour) then
      StopOn(m.(idle := 0, start := 0, left := 0), a.now, true).(inFrame := false)
    else if !Spent(m, c, a.now) then
      var start := if m.start == 0 then a.now else m.start;
      StartOn(m.(inFrame := true, start := start, left := c.Up() - (a.now - start)), a.now)
    else if Rested(m, c, a.now) then
      StartOn(m.(inFrame := true, idle := 0, start := a.now), a.now).(left := c.Rest())
    else
      var idle := if m.idle == 0 then a.now else m.idle;
      StopOn(m.(inFrame := true, idle := idle, left := c.Rest() - (a.now - idle)), a.now, true)
  }

  // ----- The class -----

  class SysMon {
    var mPumpStatus: bool
    var mPumpStartTime: nat
    var mPumpIdleTime: nat
    var mPumpTimeLeft: int
    var mPumpInFrameFlag: bool
    var relayOn: bool
    var log: seq<Entry>

    ghost function Value(): Monitor
      reads this
    {
      Monitor(mPumpStatus, mPumpStartTime, mPumpIdleTime, mPumpTimeLeft, mPumpInFrameFlag, relayOn, log)
    }

    constructor ()
      ensures Value() == Fresh()
      ensures !mPumpStatus && mPumpStartTime == mPumpIdleTime == 0 == mPumpTimeLeft && mPumpInFrameFlag && log == []
    {
      mPumpStatus, mPumpStartTime, mPumpIdleTime := false, 0, 0;
      mPumpTimeLeft, mPumpInFrameFlag := 0, true;
      relayOn, log := false, [];
    }

    method StartPump(now: nat)
      modifies this`mPumpStatus, this`relayOn, this`log
      ensures Value() == StartOn(old(Value()), now)
    {
      if !mPumpStatus {
        mPumpStatus := true;
        relayOn := true;
        log := log + [Entry(true, now)];
      }
    }

    method StopPump(now: nat, switchRelay: bool)
      modifies this`mPumpStatus, this`relayOn, this`log
      ensures Value() == StopOn(old(Value()), now, switchRelay)
    {
      if mPumpStatus {
        mPumpStatus := false;
        if switchRelay {
          relayOn := false;
        }
        log := log + [Entry(false, now)];
      }
    }

    /** `handleAction(sysmonHandlePump)`. */
    method HandleAction(a: Action)
      modifies this
      ensures Value() == HandleOn(old(Value()), a)
    {
      var c := a.settings;
      var now := a.now;
      if a.tankLow {
        if c.frameStart <= a.hour && a.hour < c.frameEnd {
          mPumpInFrameFlag := true;
          if mPumpStartTime != 0 && now - mPumpStartTime > c.upTime * 60 {
            if mPumpIdleTime != 0 && now - mPumpIdleTime > c.restTime * 60 {
              mPumpIdleTime := 0;
              mPumpStartTime := now;
              StartPump(now);
              mPumpTimeLeft := c.restTime * 60;
            } else {
              if mPumpIdleTime == 0 {
                mPumpIdleTime := now;
              }
              mPumpTimeLeft := c.restTime * 60 - (now - mPumpIdleTime);
              StopPump(now, true);
            }
          } else {
            if mPumpStartTime == 0 {
              mPumpStartTime := now;
            }
            mPumpTimeLeft := c.upTime * 60 - (now - mPumpStartTime);
            StartPump(now);
          }
        } else {
          mPumpIdleTime := 0;
          mPumpStartTime := 0;
          mPumpTimeLeft := 0;
          StopPump(now, true);
          mPumpInFrameFlag := false;
        }
      } else {
        mPumpIdleTime := 0;
        mPumpStartTime := 0;
        mPumpTimeLeft := 0;
        StopPump(now, false);
      }
    }
  }

  function Fresh(): Monitor { Monitor(false, 0, 0, 0, true, false, []) }

  // ----- One action -----

  /** After an action the pump is on exactly if the tank is low, the hour is in the frame and the time
      since the noted start is within the limit. */
  lemma OnIff(m: Monitor, a: Action)
    requires a.now > 0
    ensures var n := HandleOn(m, a);
      n.on <==> a.Demand() && n.start > 0 && a.now - n.start <= a.settings.Up()
  {}

  /** The time left, as displayed while the pump is wanted: what remains of the up time when it is on,
      unless it has just been restarted and the two limits differ, and of the rest time when it is off. */
  lemma TimeLeftIff(m: Monitor, a: Action)
    requires a.Demand()
    ensures var n, c := HandleOn(m, a), a.settings;
      if n.on then n.left == c.Up() - (a.now - n.start) <==> !Spent(m, c, a.now) || c.Up() == c.Rest()
      else n.left == c.Rest() - (a.now - n.idle)
  {}

  // ----- Runs -----

  /** Started, spent, and restarted as soon as the rest is over. */
  function Cycle(c: Config): seq<Action> {
    [Action(c, 1, c.frameStart, true), Action(c, c.Up() + 2, c.frameStart, true),
     Action(c, c.Up() + c.Rest() + 3, c.frameStart, true)]
  }

  /** For example: after such a run the pump has just been started, and the time left is the rest time, which
      is right exactly if the two limits are equal. */
  lemma RestartShowsRest(c: Config)
    requires c.frameStart < c.frameEnd
    ensures var m := After(Fresh(), Cycle(c)); m.on && m.start == LastNow(Cycle(c)) && m.left == c.Rest()
    ensures var m := After(Fresh(), Cycle(c)); m.left == c.Up() - (LastNow(Cycle(c)) - m.start) <==> c.Up() == c.Rest()
  {
    var actions := Cycle(c);
    TimeLeftIff(After(Fresh(), actions[..2]), actions[2]);
    assert actions[..2][..1] == [actions[0]] && [actions[0]][..0] == [];
    assert After(Fresh(), [actions[0]]) == HandleOn(Fresh(), actions[0]);
    assert After(Fresh(), actions[..2]) == HandleOn(After(Fresh(), [actions[0]]), actions[1]);
  }

  function After(m: Monitor, actions: seq<Action>): Monitor {
    if actions == [] then m
    else HandleOn(After(m, actions[..|actions| - 1]), actions[|actions| - 1])
  }

  /** Times are not zero and never go back. */
  predicate InOrder(actions: seq<Action>) {
    && (forall i :: 0 <= i < |actions| ==> actions[i].now > 0)
    && (forall i :: 0 < i < |actions| ==> actions[i - 1].now <= actions[i].now)
  }

  function LastNow(actions: seq<Action>): nat { if actions == [] then 0 else actions[|actions| - 1].now }

  // ----- The books after any run -----

  /** What the last action leaves, whatever the actions before it were. A full tank or an hour outside the frame
      stops the pump and clears the books; otherwise the books say whether it runs, since when, and how long it
      will go on doing what it does. */
  lemma {:induction false} BooksAfter(actions: seq<Action>)
    requires actions != [] && actions[|actions| - 1].now > 0
    ensures var was, m, a := After(Fresh(), actions[..|actions| - 1]), After(Fresh(), actions), actions[|actions| - 1];
      var c := a.settings;
      var within := c.frameStart <= a.hour < c.frameEnd;
      var spent := was.start != 0 && a.now - was.start > 60 * c.upTime;
      var rested := was.idle != 0 && a.now - was.idle > 60 * c.restTime;
      && m.inFrame == (if a.tankLow then within else was.inFrame)
      && if !a.tankLow || !within then !m.on && m.start == m.idle == 0 == m.left
         else if !spent then
           m.on && m.start == (if was.start == 0 then a.now else was.start) && m.idle == was.idle
           && m.left == 60 * c.upTime - (a.now - m.start)
         else if rested then m.on && m.start == a.now && m.idle == 0 && m.left == 60 * c.restTime
         else
           !m.on && m.start == was.start && m.idle == (if was.idle == 0 then a.now else was.idle)
           && m.left == 60 * c.restTime - (a.now - m.idle)
  {}

  // ----- The log and the pump agree -----

  predicate Alternates(log: seq<Entry>, on: bool) {
    (forall i :: 0 <= i < |log| ==> log[i].on == (i % 2 == 0)) && on == (|log| % 2 == 1)
  }

  /** The seconds between on and off events, up to `now` if the pump is still on. */
  function OnGaps(log: seq<Entry>, now: nat): int {
    if log == [] then 0
    else
      var last := log[|log| - 1];
      if last.on then OnGaps(log[..|log| - 1], now) + now - last.at
      else OnGaps(log[..|log| - 1], last.at)
  }

  /** The seconds from the first to the last action during which the pump is on. */
  function OnTime(m: Monitor, actions: seq<Action>): int {
    if |actions| < 2 then 0
    else
      var n := |actions|;
      var before := actions[..n - 1];
      OnTime(m, before) + if After(m, before).on then actions[n - 1].now - actions[n - 2].now else 0
  }

  lemma {:induction false} GapsGrow(log: seq<Entry>, on: bool, before: nat, now: nat)
    requires Alternates(log, on)
    ensures OnGaps(log, now) == OnGaps(log, before) + if on then now - before else 0
  {
    if on {
      var rest := log[..|log| - 1];
      GapsGrow(rest, false, before, now);
    }
  }

  lemma {:induction false} GapsAdd(log: seq<Entry>, e: Entry)
    requires Alternates(log, !e.on)
    ensures Alternates(log + [e], e.on) && OnGaps(log + [e], e.at) == OnGaps(log, e.at)
  {
    assert (log + [e])[..|log|] == log;
  }

  lemma {:induction false} LogNext(m: Monitor, before: nat, a: Action)
    requires Alternates(m.log, m.on)
    ensures var n := HandleOn(m, a);
      && Alternates(n.log, n.on)
      && OnGaps(n.log, a.now) == OnGaps(m.log, before) + if m.on then a.now - before else 0
  {
    GapsGrow(m.log, m.on, before, a.now);
    GapsAdd(m.log, Entry(!m.on, a.now));
  }

  /** Over any run the logged states alternate on, off, on, ..., ending at the state of the pump, and
      the gaps between on and off events add up to the time the pump was on, to the second. The
      settings may change from action to action. */
  lemma {:induction false} LogAgrees(actions: seq<Action>)
    ensures var m := After(Fresh(), actions);
      && Alternates(m.log, m.on)
      && OnGaps(m.log, LastNow(actions)) == OnTime(Fresh(), actions)
    decreases |actions|
  {
    if actions != [] {
      var n := |actions|;
      var before := actions[..n - 1];
      LogAgrees(before);
      LogNext(After(Fresh(), before), LastNow(before), actions[n - 1]);
    }
  }

  // ----- Limits, read off the log -----

  /** What holds between actions, the last of which saw this up time: the books of the class agree with the
      log. */
  predicate Inv(m: Monitor, up: nat, now: nat) {
    && Alternates(m.log, m.on)
    && m.start <= now && m.idle <= now
    && (m.on ==> m.start > 0 && m.idle == 0 && m.log[|m.log| - 1].at == m.start && now - m.start <= up)
    && (!m.on && m.start > 0 ==> m.idle > 0 && m.log != [] && m.log[|m.log| - 1].at == m.idle)
    && (m.start == 0 ==> m.idle == 0)
  }

  /** An action finds the pump at rest and the up time longer than what had passed when it stopped, so that it
      goes on pumping. The books still hold the old start, and the rest that was broken off. */
  predicate Resumes(m: Monitor, a: Action) {
    !m.on && m.start > 0 && a.Demand() && !Spent(m, a.settings, a.now)
  }

  /** Exactly that breaks the agreement. */
  lemma BooksAgreeIff(m: Monitor, up: nat, before: nat, a: Action)
    requires Inv(m, up, before) && before <= a.now && a.now > 0
    ensures Inv(HandleOn(m, a), a.settings.Up(), a.now) <==> !Resumes(m, a)
  {}

  /** No logged stretch of pumping is longer than this. */
  predicate OnAtMost(log: seq<Entry>, bound: nat) {
    forall i :: 0 <= i < |log| - 1 && log[i].on ==> log[i + 1].at - log[i].at <= bound
  }

  /** Every logged pause is longer than this. */
  predicate OffMoreThan(log: seq<Entry>, bound: nat) {
    forall i :: 0 <= i < |log| - 1 && !log[i].on ==> log[i + 1].at - log[i].at > bound
  }

  lemma LimitsNext(m: Monitor, up: nat, before: nat, a: Action, most: nat, d: nat)
    requires Inv(m, up, before) && before <= a.now <= before + d && a.now > 0 && up <= most
    requires OnAtMost(m.log, most + d)
    ensures OnAtMost(HandleOn(m, a).log, most + d)
  {}

  lemma RestNext(m: Monitor, up: nat, before: nat, a: Action, rest: nat)
    requires Inv(m, up, before) && before <= a.now && a.now > 0 && !Resumes(m, a)
    requires a.Demand() && rest <= a.settings.Rest()
    requires OffMoreThan(m.log, rest) && (m.start == 0 ==> m.log == [])
    ensures OffMoreThan(HandleOn(m, a).log, rest) && HandleOn(m, a).start > 0
  {}

  /** Settings that may change, within these limits. */
  predicate Within(c: Config, most: nat, rest: nat) { c.Up() <= most && rest <= c.Rest() }

  /** Actions no more than d seconds apart, under such settings. */
  predicate Regular(actions: seq<Action>, most: nat, rest: nat, d: nat) {
    && InOrder(actions)
    && (forall i :: 0 <= i < |actions| ==> Within(actions[i].settings, most, rest))
    && (forall i :: 0 < i < |actions| ==> actions[i].now <= actions[i - 1].now + d)
  }

  /** No action of the run resumes. */
  predicate NeverResumes(actions: seq<Action>) {
    forall i :: 0 <= i < |actions| ==> !Resumes(After(Fresh(), actions[..i]), actions[i])
  }

  function LastUp(actions: seq<Action>): nat
    requires actions != []
  {
    actions[|actions| - 1].settings.Up()
  }

  /** What such a run keeps; `demand` says that the pump was wanted throughout. */
  predicate Kept(m: Monitor, up: nat, now: nat, most: nat, rest: nat, d: nat, demand: bool) {
    && Inv(m, up, now) && OnAtMost(m.log, most + d)
    && (demand ==> m.start > 0 && OffMoreThan(m.log, rest))
  }

  lemma KeptFirst(a: Action, most: nat, rest: nat, d: nat)
    requires a.now > 0
    ensures Kept(HandleOn(Fresh(), a), a.settings.Up(), a.now, most, rest, d, a.Demand())
  {}

  lemma KeptNext(m: Monitor, up: nat, before: nat, a: Action, most: nat, rest: nat, d: nat, demand: bool)
    requires Kept(m, up, before, most, rest, d, demand) && up <= most && Within(a.settings, most, rest)
    requires before <= a.now <= before + d && a.now > 0 && !Resumes(m, a)
    ensures Kept(HandleOn(m, a), a.settings.Up(), a.now, most, rest, d, demand && a.Demand())
  {
    BooksAgreeIff(m, up, before, a);
    LimitsNext(m, up, before, a, most, d);
    if demand && a.Demand() {
      RestNext(m, up, before, a, rest);
    }
  }

  predicate Wanted(actions: seq<Action>) { forall i :: 0 <= i < |actions| ==> actions[i].Demand() }

  lemma {:induction false} RunKept(actions: seq<Action>, most: nat, rest: nat, d: nat)
    requires actions != [] && Regular(actions, most, rest, d) && NeverResumes(actions)
    ensures Kept(After(Fresh(), actions), LastUp(actions), LastNow(actions), most, rest, d, Wanted(actions))
    decreases |actions|
  {
    var n := |actions|;
    var before, a := actions[..n - 1], actions[n - 1];
    if n == 1 {
      assert After(Fresh(), actions) == HandleOn(Fresh(), a);
      KeptFirst(a, most, rest, d);
    } else {
      RegularBefore(actions, most, rest, d);
      NeverResumesBefore(actions);
      RunKept(before, most, rest, d);
      KeptNext(After(Fresh(), before), LastUp(before), LastNow(before), a, most, rest, d, Wanted(before));
    }
  }

  lemma NeverResumesBefore(actions: seq<Action>)
    requires actions != [] && NeverResumes(actions)
    ensures NeverResumes(actions[..|actions| - 1])
    ensures !Resumes(After(Fresh(), actions[..|actions| - 1]), actions[|actions| - 1])
  {
    var before := actions[..|actions| - 1];
    forall i | 0 <= i < |before|
      ensures !Resumes(After(Fresh(), before[..i]), before[i])
    {
      assert before[..i] == actions[..i];
    }
  }

  lemma RegularBefore(actions: seq<Action>, most: nat, rest: nat, d: nat)
    requires |actions| > 1 && Regular(actions, most, rest, d)
    ensures var n := |actions|;
      var before, a := actions[..n - 1], actions[n - 1];
      && Regular(before, most, rest, d) && LastNow(before) <= a.now <= LastNow(before) + d
      && Within(a.settings, most, rest) && LastUp(before) <= most
      && a.now > 0 && (Wanted(actions) <==> Wanted(before) && a.Demand())
  {
    var n := |actions|;
    var before, a := actions[..n - 1], actions[n - 1];
    assert actions == before + [a];
    assert before[n - 2] == actions[n - 2];
    assert Within(actions[n - 2].settings, most, rest);
  }

  /** Settings may change, as long as no action resumes. Every stretch of pumping in the log is bounded by the
      longest up time and one gap between actions, and under constant demand every pause in it is longer than
      the shortest rest time. */
  lemma {:induction false} LimitsKept(actions: seq<Action>, most: nat, rest: nat, d: nat)
    requires Regular(actions, most, rest, d) && NeverResumes(actions)
    ensures var m := After(Fresh(), actions);
      OnAtMost(m.log, most + d) && (Wanted(actions) ==> OffMoreThan(m.log, rest))
  {
    if actions != [] {
      RunKept(actions, most, rest, d);
    }
  }

  /** Over any such run, when the pump is on, the last action found the tank low and the hour in the
      frame, and the pump was switched on, as logged, no longer ago than the up time it saw. */
  lemma {:induction false} OnWithinLimit(actions: seq<Action>, most: nat, rest: nat, d: nat)
    requires Regular(actions, most, rest, d) && NeverResumes(actions) && actions != []
    ensures var m := After(Fresh(), actions);
      m.on ==> actions[|actions| - 1].Demand() && m.log != []
               && 0 <= LastNow(actions) - m.log[|m.log| - 1].at <= LastUp(actions)
  {
    RunKept(actions, most, rest, d);
    OnAsLogged(After(Fresh(), actions[..|actions| - 1]), actions[|actions| - 1]);
  }

  lemma OnAsLogged(was: Monitor, a: Action)
    requires a.now > 0 && Inv(HandleOn(was, a), a.settings.Up(), a.now)
    ensures var m := HandleOn(was, a);
      m.on ==> a.Demand() && m.log != [] && 0 <= a.now - m.log[|m.log| - 1].at <= a.settings.Up()
  {
    OnIff(was, a);
  }

  /** The up time stays the same throughout. */
  predicate SameUp(actions: seq<Action>, up: nat) { forall i :: 0 <= i < |actions| ==> actions[i].settings.Up() == up }

  /** A pump at rest has used up this time. */
  predicate UsedUp(m: Monitor, up: nat) { !m.on && m.start > 0 ==> m.idle - m.start > up }

  lemma UsedUpNext(m: Monitor, up: nat, before: nat, a: Action)
    requires Inv(m, up, before) && UsedUp(m, up) && before <= a.now && a.now > 0 && a.settings.Up() == up
    ensures !Resumes(m, a) && UsedUp(HandleOn(m, a), up)
  {}

  lemma {:induction false} SameUpBooks(actions: seq<Action>, up: nat)
    requires InOrder(actions) && SameUp(actions, up)
    ensures Inv(After(Fresh(), actions), up, LastNow(actions)) && UsedUp(After(Fresh(), actions), up)
    decreases |actions|
  {
    if actions != [] {
      var before, a := actions[..|actions| - 1], actions[|actions| - 1];
      SameUpBooks(before, up);
      UsedUpNext(After(Fresh(), before), up, LastNow(before), a);
      BooksAgreeIff(After(Fresh(), before), up, LastNow(before), a);
    }
  }

  /** Then no action resumes. */
  lemma SameUpNeverResumes(actions: seq<Action>, up: nat)
    requires InOrder(actions) && SameUp(actions, up)
    ensures NeverResumes(actions)
  {
    forall i | 0 <= i < |actions|
      ensures !Resumes(After(Fresh(), actions[..i]), actions[i])
    {
      SameUpBooks(actions[..i], up);
      UsedUpNext(After(Fresh(), actions[..i]), up, LastNow(actions[..i]), actions[i]);
    }
  }

  /** An action that resumes, for example: an up time of one minute is raised to ten while the pump rests. The
      pump goes on one second into a rest of five minutes, and is on for more than eighteen minutes then,
      since the old rest counts as the next one. */
  lemma ResumeOverruns(c: Config)
    requires c.frameStart < c.frameEnd && c.upTime == 1 && c.restTime == 5
    ensures var actions := Raised(c);
      var m := After(Fresh(), actions);
      && InOrder(actions) && Wanted(actions) && LastUp(actions) == 600
      && m.on && m.log == [Entry(true, 1), Entry(false, 62), Entry(true, 63)] && LastNow(actions) == 1202
  {
    var actions := Raised(c);
    assert actions[..5] == actions;
    assert actions[..4][..3] == actions[..3] && actions[..3][..2] == actions[..2] && actions[..2][..1] == actions[..1];
    assert actions[..5][..4] == actions[..4] && actions[..1][..0] == [];
    assert After(Fresh(), actions[..2]) == HandleOn(HandleOn(Fresh(), actions[0]), actions[1]) by {
      assert After(Fresh(), actions[..1]) == HandleOn(Fresh(), actions[0]);
    }
    assert After(Fresh(), actions[..4]) == HandleOn(HandleOn(After(Fresh(), actions[..2]), actions[2]), actions[3]) by {
      assert After(Fresh(), actions[..3]) == HandleOn(After(Fresh(), actions[..2]), actions[2]);
    }
  }

  function Raised(c: Config): seq<Action> {
    var more := c.(upTime := 10);
    [Action(c, 1, c.frameStart, true), Action(c, 62, c.frameStart, true), Action(more, 63, c.frameStart, true),
     Action(more, 602, c.frameStart, true), Action(more, 1202, c.frameStart, true)]
  }

  // ----- The relay -----

  /** The last switching-off found the tank full. */
  function StoppedFull(m: Monitor, actions: seq<Action>): bool {
    if actions == [] then false
    else
      var was := After(m, actions[..|actions| - 1]);
      var a := actions[|actions| - 1];
      if was.on then !a.tankLow
      else if HandleOn(was, a).on then false
      else StoppedFull(m, actions[..|actions| - 1])
  }

  /** A stop at a full tank leaves the relay as it is, and no later action in the off state switches
      it. So the relay is on exactly if the pump is on or was last stopped by a full tank. */
  lemma {:induction false} RelayIff(actions: seq<Action>)
    ensures var m := After(Fresh(), actions);
      m.relay <==> m.on || StoppedFull(Fresh(), actions)
    decreases |actions|
  {
    if actions != [] {
      RelayIff(actions[..|actions| - 1]);
    }
  }

  /** For example, the relay stays on when the hour leaves the frame after a full tank. */
  lemma RelayStaysOn(c: Config)
    requires c.frameStart < c.frameEnd
    ensures var actions := [Action(c, 1, c.frameStart, true), Action(c, 2, c.frameStart, false),
                            Action(c, 3, c.frameEnd, true)];
      var m := After(Fresh(), actions);
      !m.on && !m.inFrame && m.relay && m.log == [Entry(true, 1), Entry(false, 2)]
  {
    var a, b, e := Action(c, 1, c.frameStart, true), Action(c, 2, c.frameStart, false), Action(c, 3, c.frameEnd, true);
    assert [a, b, e][..2] == [a, b] && [a, b][..1] == [a] && [a][..0] == [];
    assert After(Fresh(), [a]) == HandleOn(Fresh(), a);
    assert After(Fresh(), [a, b]) == HandleOn(HandleOn(Fresh(), a), b);
    assert After(Fresh(), [a, b, e]) == HandleOn(After(Fresh(), [a, b]), e);
  }
}
