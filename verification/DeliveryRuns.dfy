/** Runs of the delivery protocol: one that loses events, and what the steps of the protocol are at the
    level of the characters that pass between device and server. */
module DeliveryRuns {
  import opened StateEvent
  import opened StateLog
  import opened EventLogger
  import opened Wrappers
  import opened PumpServer
  import opened PumpSession
  import opened ServedSession
  import opened SessionHeader
  import opened Delivery
  import DeviceReply

  // ----- A run that loses events -----

  lemma {:induction false} RunAppend(w: World, x: seq<Step>, y: seq<Step>)
    requires Possible(w, x) && Possible(Run(w, x), y)
    ensures Possible(w, x + y) && Run(w, x + y) == Run(Run(w, x), y)
    decreases |x|
  {
    if x == [] {
      assert x + y == y;
    } else {
      var next := FirstStep(w, x, y);
      RunAppend(next, x[1..], y);
      FirstStepBefore(w, x[0], next, x[1..] + y);
      FirstOfSum(x, y);
    }
  }

  lemma FirstOfSum<T>(x: seq<T>, y: seq<T>)
    requires x != []
    ensures x + y == [x[0]] + (x[1..] + y)
  {}

  lemma FirstStep(w: World, x: seq<Step>, y: seq<Step>) returns (next: World)
    requires x != [] && Possible(w, x) && Possible(Run(w, x), y)
    ensures Inv(w.log) && Enabled(w, x[0]) && next == Apply(w, x[0])
    ensures Possible(next, x[1..]) && Run(next, x[1..]) == Run(w, x) && Possible(Run(next, x[1..]), y)
  {
    next := Apply(w, x[0]);
  }

  lemma {:induction false} FirstStepBefore(w: World, step: Step, next: World, rest: seq<Step>)
    requires Inv(w.log) && Enabled(w, step) && next == Apply(w, step) && Possible(next, rest)
    ensures Possible(w, [step] + rest) && Run(w, [step] + rest) == Run(next, rest)
  {
    assert ([step] + rest)[1..] == rest;
  }

  function Logs(es: seq<Cell>, initial: seq<Cell>): seq<Step> {
    if es == [] then [] else [LogStep(es[0], initial)] + Logs(es[1..], initial)
  }

  /** Logging into room that is there. */
  lemma {:induction false} LogsRun(w: World, es: seq<Cell>, initial: seq<Cell>)
    requires Inv(w.log) && w.net.Quiet? && w.log.tail + |es| < |w.log.slots|
    requires Initial(initial) && Events(es)
    ensures Possible(w, Logs(es, initial))
    ensures var end := Run(w, Logs(es, initial));
      && end == w.(log := end.log, logged := w.logged + es)
      && Inv(end.log) && |end.log.slots| == |w.log.slots| && end.log.tail == w.log.tail + |es|
      && Pending(end.log) == Pending(w.log) + es
    decreases |es|
  {
    if es == [] {
      assert w.logged + es == w.logged && Pending(w.log) + es == Pending(w.log);
    } else {
      EventLogger.LogKeepsInv(w.log, initial, es[0]);
      var next := Apply(w, LogStep(es[0], initial));
      assert w.dropped + [] == w.dropped && w.made + [] == w.made;
      assert next == w.(log := next.log, logged := w.logged + [es[0]]);
      assert Pending(next.log) == Pending(w.log) + [es[0]];
      assert es == [es[0]] + es[1..];
      assert (w.logged + [es[0]]) + es[1..] == w.logged + es;
      assert (Pending(w.log) + [es[0]]) + es[1..] == Pending(w.log) + es;
      assert Logs(es, initial)[1..] == Logs(es[1..], initial);
      forall k | 0 <= k < |es[1..]|
        ensures Storable(es[1..][k])
      {
        assert Storable(es[k + 1]);
      }
      LogsRun(next, es[1..], initial);
    }
  }

  /** The server reads one of the events, its answer breaks off behind the count, an event is logged, and
      a session follows in which the server reads none. */
  function CutAndLog(e: Cell, initial: seq<Cell>): seq<Step> {
    [SendStep, ServeStep(1, [true]), CutStep(1), LogStep(e, initial), SendStep, ServeStep(0, []), AckStep]
  }

  /** A world that has room for one more event only. */
  predicate Brimming(w: World, es: seq<Cell>) {
    && Inv(w.log) && w.net.Quiet? && w.stale.None? && w.store == w.acked == []
    && w.log.tail + 1 == |w.log.slots| && Pending(w.log) == es && |es| > BACKUPS
  }

  lemma AfterCut(w: World, es: seq<Cell>) returns (cut: World)
    requires Brimming(w, es)
    ensures Possible(w, [SendStep, ServeStep(1, [true]), CutStep(1)])
    ensures cut == Run(w, [SendStep, ServeStep(1, [true]), CutStep(1)])
    ensures Inv(cut.log) && Pending(cut.log) == es && cut.log.tail + 1 == |cut.log.slots|
    ensures cut.net == Quiet && cut.stale == Some(1) && cut.store == [es[0]] && cut.acked == []
  {
    SendsPending(w.log);
    var sent := Apply(w, SendStep);
    assert sent.net == Net.Sent(es) && es[..1] == [es[0]] && [true][1..] == [] && es[..1][1..] == [];
    var served := Apply(sent, ServeStep(1, [true]));
    assert Inserted(es[..1], [true]) == [es[0]] + Inserted([], []) == [es[0]];
    assert served.store == [] + [es[0]] == [es[0]];
    cut := Apply(served, CutStep(1));
    ThreeSteps(w, SendStep, ServeStep(1, [true]), CutStep(1));
  }

  lemma {:induction false} ThreeSteps(w: World, a: Step, b: Step, c: Step)
    requires Inv(w.log) && Enabled(w, a)
    requires Inv(Apply(w, a).log) && Enabled(Apply(w, a), b)
    requires Inv(Apply(Apply(w, a), b).log) && Enabled(Apply(Apply(w, a), b), c)
    ensures Possible(w, [a, b, c]) && Run(w, [a, b, c]) == Apply(Apply(Apply(w, a), b), c)
  {
    var last := Apply(Apply(Apply(w, a), b), c);
    assert [c][1..] == [] && [b, c][1..] == [c] && [a, b, c][1..] == [b, c];
    assert Possible(last, []) && Run(last, []) == last;
    assert Possible(Apply(Apply(w, a), b), [c]) && Run(Apply(Apply(w, a), b), [c]) == last;
    assert Possible(Apply(w, a), [b, c]) && Run(Apply(w, a), [b, c]) == last;
  }

  lemma {:induction false} OneStep(w: World, a: Step)
    requires Inv(w.log) && Enabled(w, a)
    ensures Possible(w, [a]) && Run(w, [a]) == Apply(w, a)
  {
    assert [a][1..] == [] && Possible(Apply(w, a), []);
  }

  /** Logging then clears; the first event kept is now the oldest one pending. */
  lemma ClearedBehind(cut: World, es: seq<Cell>, e: Cell, initial: seq<Cell>) returns (now: World)
    requires Inv(cut.log) && Pending(cut.log) == es && |es| > BACKUPS && cut.log.tail + 1 == |cut.log.slots|
    requires cut.net == Quiet && Storable(e) && Initial(initial)
    ensures Possible(cut, [LogStep(e, initial)]) && now == Run(cut, [LogStep(e, initial)])
    ensures Inv(now.log) && now == cut.(log := now.log, logged := now.logged, dropped := now.dropped, made := now.made)
    ensures Pending(now.log) != [] && Pending(now.log)[0] == es[|es| - BACKUPS]
  {
    EventLogger.LogKeepsInv(cut.log, initial, e);
    MakesNothingIff(cut.log, initial);
    OneStep(cut, LogStep(e, initial));
    now := Apply(cut, LogStep(e, initial));
    var kept := Kept(cut.log);
    assert Pending(now.log) == [] + kept + [e];
    assert kept[0] == cut.log.slots[cut.log.tail - BACKUPS];
  }

  lemma {:induction false} EmptySteps(w: World)
    requires Inv(w.log) && w.net == Quiet && w.stale == Some(1) && Pending(w.log) != []
    ensures Possible(w, [SendStep, ServeStep(0, []), AckStep])
    ensures var end := Run(w, [SendStep, ServeStep(0, []), AckStep]);
      end.acked == w.acked + [Pending(w.log)[0]] && end.store == w.store
  {
    SendsPending(w.log);
    var sent := Apply(w, SendStep);
    var served := Apply(sent, ServeStep(0, []));
    assert served.store == w.store + [] == w.store && Pending(served.log) == Pending(w.log);
    assert Pending(w.log)[..1] == [Pending(w.log)[0]];
    ThreeSteps(w, SendStep, ServeStep(0, []), AckStep);
  }

  lemma {:induction false} ThreeParts(w: World, x: seq<Step>, y: seq<Step>, z: seq<Step>)
    requires Possible(w, x) && Possible(Run(w, x), y) && Possible(Run(Run(w, x), y), z)
    ensures Possible(w, x + y + z) && Run(w, x + y + z) == Run(Run(Run(w, x), y), z)
  {
    RunAppend(w, x, y);
    RunAppend(w, x + y, z);
  }

  lemma CutAndLogParts(e: Cell, initial: seq<Cell>)
    ensures CutAndLog(e, initial)
      == [SendStep, ServeStep(1, [true]), CutStep(1)] + [LogStep(e, initial)] + [SendStep, ServeStep(0, []), AckStep]
  {}

  lemma {:induction false} CutAndLogRun(w: World, es: seq<Cell>, e: Cell, initial: seq<Cell>)
    requires Brimming(w, es) && Storable(e) && Initial(initial)
    ensures Possible(w, CutAndLog(e, initial))
    ensures var end := Run(w, CutAndLog(e, initial)); end.acked == [es[|es| - BACKUPS]] && end.store == [es[0]]
  {
    var cut := AfterCut(w, es);
    var now := ClearedBehind(cut, es, e, initial);
    EmptySteps(now);
    CutAndLogParts(e, initial);
    ThreeParts(w, [SendStep, ServeStep(1, [true]), CutStep(1)], [LogStep(e, initial)],
               [SendStep, ServeStep(0, []), AckStep]);
    assert [] + [es[|es| - BACKUPS]] == [es[|es| - BACKUPS]];
  }

  /** A device booted on a blank region, and an empty store. */
  function Start(cells: nat, under: seq<Cell>): World {
    World(BootOn(Blanks(cells), under), Quiet, None, [], [], [], [], [])
  }

  lemma Filled(cells: nat, under: seq<Cell>, es: seq<Cell>, initial: seq<Cell>) returns (w: World)
    requires 18 <= cells == |es| + 1 && Events(es) && Initial(initial)
    ensures WorldInv(Start(cells, under)) && Possible(Start(cells, under), Logs(es, initial))
    ensures w == Run(Start(cells, under), Logs(es, initial)) && Brimming(w, es)
  {
    var start := Start(cells, under);
    FirstBoot(cells, under);
    BlankRegion(cells, under);
    LogsRun(start, es, initial);
    w := Run(start, Logs(es, initial));
    assert [] + es == es;
  }

  /** A count cut short loses events: from a first boot on, log events until the region is full, let the
      answer to the first of them break off, and log one more. The next session acknowledges an event
      that was never stored. */
  lemma {:induction false} StaleCountLosesEvents(cells: nat, under: seq<Cell>, es: seq<Cell>, e: Cell,
                                                  initial: seq<Cell>)
    requires 18 <= cells == |es| + 1 && Events(es) && Storable(e) && Initial(initial)
    requires forall i :: 0 < i < |es| ==> es[i] != es[0]
    ensures var steps := Logs(es, initial) + CutAndLog(e, initial);
      && WorldInv(Start(cells, under)) && Possible(Start(cells, under), steps)
      && !Safe(Run(Start(cells, under), steps))
  {
    var w := Filled(cells, under, es, initial);
    CutAndLogRun(w, es, e, initial);
    RunAppend(Start(cells, under), Logs(es, initial), CutAndLog(e, initial));
    NotSafe(Run(w, CutAndLog(e, initial)), es[|es| - BACKUPS], es[0]);
  }

  lemma NotSafe(end: World, acked: Cell, stored: Cell)
    requires end.acked == [acked] && end.store == [stored] && acked != stored
    ensures !Safe(end)
  {
    assert end.acked[0] == acked;
  }

  lemma BlankRegion(cells: nat, under: seq<Cell>)
    requires 18 <= cells
    ensures var l := BootOn(Blanks(cells), under);
      |l.slots| == cells && l.tail == 0 && Inv(l) && Pending(l) == []
  {
    FirstBoot(cells, under);
    BlankNotSeen();
    RebootRecoversIff(Blanks(cells), under, 0, 0);
  }

  // ----- Characters -----

  /** A pending event, as it is printed. */
  function SampleOf(c: Cell): (e: Sample)
    ensures e.Valid()
  {
    Sample(LittleEndian(Octet8(c[0]), Octet8(c[1]), Octet8(c[2]), Octet8(c[3])), Octet8(c[4]), Octet8(c[5]))
  }

  function Octet8(b: bv8): (n: nat)
    ensures n < 0x100
  {
    b as nat
  }

  function LittleEndian(a: nat, b: nat, c: nat, d: nat): (n: nat)
    requires a < 0x100 && b < 0x100 && c < 0x100 && d < 0x100
    ensures n < 0x1_0000_0000
  {
    a + 0x100 * b + 0x1_0000 * c + 0x100_0000 * d
  }

  function Samples(events: seq<Cell>): (es: seq<Sample>)
    ensures |es| == |events| && forall i :: 0 <= i < |es| ==> es[i] == SampleOf(events[i])
  {
    seq(|events|, i requires 0 <= i < |events| => SampleOf(events[i]))
  }

  function All(n: nat): seq<bool> { seq(n, _ => true) }

  /** A session is a step of the protocol: whatever part of it arrives, if the server answers, then
      with the number of a prefix of the events sent, and its readings are what is received of them. */
  lemma SessionIsServeStep(w: World, head: seq<string>, k: nat, input: string, n: nat)
    requires Inv(w.log) && w.net.Sent? && HeaderLines(head) && k <= BUFFER
    requires k <= |ServedSession.Sent(head, Samples(w.net.events))|
    requires input == ServedSession.Sent(head, Samples(w.net.events))[..k] && Served(input) == Outcome.Answered(n)
    ensures n <= |w.net.events|
    ensures Enabled(w, ServeStep(n, All(n)))
    ensures Apply(w, ServeStep(n, All(n))) == w.(store := w.store + w.net.events[..n], net := Net.Answered(n))
    ensures Readings(Taken(input)) == Got(head, Samples(w.net.events), k)
    ensures |Readings(Taken(input))| == n
  {
    AnsweredReads(head, Samples(w.net.events), k, input, n);
    PrefixServed(w, n);
  }

  lemma PrefixServed(w: World, n: nat)
    requires Inv(w.log) && w.net.Sent? && n <= |w.net.events|
    ensures Enabled(w, ServeStep(n, All(n)))
    ensures Apply(w, ServeStep(n, All(n))) == w.(store := w.store + w.net.events[..n], net := Net.Answered(n))
  {
    InsertedAll(w.net.events[..n], All(n));
  }

  /** And the answer to it is obeyed as its count, if nothing is left over in the device; without events there is
      none. */
  lemma {:induction false} AnswerIsAckStep(l: Log, n: nat)
    requires Inv(l)
    ensures DeviceReply.Kept("", Reply(Outcome.Answered(n))) == ""
    ensures Obey(l, DeviceReply.Lines("", Reply(Outcome.Answered(n))))
      == if n == 0 then l else AckMany(l.(curr := l.head), n)
  {
    if n > 0 {
      AnswerObeyed(l, n);
    }
  }

  lemma {:induction false} AnswerObeyed(l: Log, n: nat)
    requires Inv(l) && n > 0
    ensures DeviceReply.Kept("", Reply(Outcome.Answered(n))) == ""
    ensures Obey(l, DeviceReply.Lines("", Reply(Outcome.Answered(n)))) == AckMany(l.(curr := l.head), n)
  {
    CountObeyed(l, n, []);
    assert [DeviceReply.AckLine(n)] + [] == [DeviceReply.AckLine(n)];
    assert Wire([DeviceReply.AckLine(n)]) == Reply(Outcome.Answered(n));
  }
}
