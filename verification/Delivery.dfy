/** The delivery protocol over the EEPROM log, of either logger: the device sends its pending events
    (EclipseArduino/pumpLogger/event_reporter.cpp), the server stores what it reads and answers with
    a count (loggerd/src/pump_client.cpp), and the device acknowledges that many from the head. */
module Delivery {
  import opened StateEvent
  import opened StateLog
  import opened Wrappers
  import DeviceReply
  import opened EventLogger
  import PumpSession
  import StateLogger

  // ----- The device's loops -----

  /** What `replyLogs` sends: events from the head on until a cell reads as no event. */
  function SendFrom(slots: seq<Cell>, i: nat): (sent: seq<Cell>)
    requires i <= |slots|
    decreases |slots| - i
  {
    if i == |slots| || !Seen(slots[i]) then [] else [slots[i]] + SendFrom(slots, i + 1)
  }

  lemma {:induction false} SendFromTail(slots: seq<Cell>, i: nat, tail: nat)
    requires i <= tail < |slots| && !Seen(slots[tail])
    requires forall k :: i <= k < tail ==> Seen(slots[k])
    ensures SendFrom(slots, i) == slots[i..tail]
    decreases tail - i
  {
    if i < tail {
      SendFromTail(slots, i + 1, tail);
    }
  }

  /** The device sends exactly its pending events, in order. */
  lemma SendsPending(l: Log)
    requires Inv(l)
    ensures SendFrom(l.slots, l.head) == Pending(l)
  {
    InvLayout(l);
    BlankNotSeen();
    SendFromTail(l.slots, l.head, l.tail);
  }

  /** `replyLogs`. */
  method ReplyLogs(logger: StateLogger.Logger) returns (lines: seq<Cell>)
    requires logger.Valid() && Inv(logger.State())
    modifies logger`currAddress
    ensures logger.Valid() && lines == Pending(old(logger.State()))
    ensures logger.State() == old(logger.State()).(curr := old(logger.State()).tail + 1)
  {
    ghost var l := logger.State();
    SendsPending(l);
    logger.Reset();
    lines := [];
    ghost var i := l.head;
    while true
      invariant logger.Valid() && logger.State() == l.(curr := i) && l.head <= i <= l.tail
      invariant Pending(l) == lines + SendFrom(l.slots, i)
      decreases l.tail - i
    {
      logger.IndexOf(logger.currAddress);
      var evt := logger.GetEvent();
      StateLogger.ParsedLook(l.slots[i]);
      if evt[CRC] == 0 {
        EndOfPending(l, i);
        assert lines + [] == lines;
        break;
      }
      MorePending(l, i, lines);
      lines := lines + [evt];
      i := i + 1;
    }
  }

  lemma {:induction false} EndOfPending(l: Log, i: nat)
    requires Inv(l) && l.head <= i <= l.tail && !Seen(l.slots[i])
    ensures i == l.tail && SendFrom(l.slots, i) == []
  {
    InvLayout(l);
  }

  lemma MorePending(l: Log, i: nat, lines: seq<Cell>)
    requires Inv(l) && l.head <= i <= l.tail && Seen(l.slots[i])
    requires Pending(l) == lines + SendFrom(l.slots, i)
    ensures i < l.tail && Pending(l) == (lines + [l.slots[i]]) + SendFrom(l.slots, i + 1)
  {
    BlankNotSeen();
  }

  /** n calls of `ack`. */
  function AckMany(l: Log, n: nat): Log
    requires Inv(l)
    decreases n
  {
    if n == 0 then l else AckKeepsInv(l); AckMany(AckOn(l), n - 1)
  }

  lemma {:induction false} AckManyMoves(l: Log, n: nat)
    requires Inv(l)
    ensures Inv(AckMany(l, n))
    ensures Pending(AckMany(l, n)) == if n <= |Pending(l)| then Pending(l)[n..] else []
    decreases n
  {
    if n > 0 {
      AckKeepsInv(l);
      AckManyMoves(AckOn(l), n - 1);
    }
  }

  /** The acknowledgement loop of `serviceServerData`. Its counter is eight bits wide. */
  method AckFromHead(logger: StateLogger.Logger, n: nat)
    requires logger.Valid() && Inv(logger.State()) && n < 256
    modifies logger, logger.eeprom
    ensures logger.Valid()
    ensures logger.State() == AckMany(old(logger.State()).(curr := old(logger.State()).head), n)
  {
    logger.Reset();
    ghost var l: Log := logger.State();
    ghost var now: Log := l;
    for k := 0 to n
      invariant logger.Valid() && logger.State() == now && Inv(now)
      invariant AckMany(l, n) == AckMany(now, n - k)
    {
      AckOne(now, n - k);
      logger.IndexOf(logger.headAddress);
      logger.Ack();
      now := AckOn(now);
    }
  }

  lemma AckOne(l: Log, n: nat)
    requires Inv(l) && n > 0
    ensures l.head < |l.slots| && Inv(AckOn(l)) && AckMany(l, n) == AckMany(AckOn(l), n - 1)
  {
    AckKeepsInv(l);
  }

  // ----- The device's reading of the replies -----

  predicate CountFits(line: string) {
    |line| >= 2 && (DeviceReply.Execute(line).Ack? ==> DeviceReply.Execute(line).n < 256)
  }

  /** The eight-bit counter reaches every count. */
  predicate CountsFit(lines: seq<string>) {
    forall i :: 0 <= i < |lines| ==> CountFits(lines[i])
  }

  function ObeyLine(l: Log, line: string): (r: Log)
    requires Inv(l) && |line| >= 2
    ensures Inv(r)
  {
    match DeviceReply.Execute(line)
    case Ack(n) =>
      if n > 0 then AckManyMoves(l.(curr := l.head), n); AckMany(l.(curr := l.head), n) else l.(curr := l.head)
    case _ => l
  }

  /** The acknowledgements of these lines, one after the other. */
  function Obey(l: Log, lines: seq<string>): Log
    requires Inv(l) && forall i :: 0 <= i < |lines| ==> |lines[i]| >= 2
    decreases |lines|
  {
    if lines == [] then l else Obey(ObeyLine(l, lines[0]), lines[1..])
  }

  /** The device's end of a connection; `rxString` is static. */
  class Reporter {
    var rxString: string

    constructor ()
      ensures rxString == ""
    {
      rxString := "";
    }

    method DoLine(logger: StateLogger.Logger, line: string)
      requires logger.Valid() && Inv(logger.State()) && CountFits(line)
      modifies logger, logger.eeprom
      ensures logger.Valid() && logger.State() == ObeyLine(old(logger.State()), line)
    {
      var command := DeviceReply.Execute(line);
      if command.Ack? {
        if command.n > 0 {
          AckFromHead(logger, command.n);
        } else {
          logger.Reset();
        }
      }
    }

    /** One character. */
    method DoChar(logger: StateLogger.Logger, c: char)
      requires logger.Valid() && Inv(logger.State()) && CountsFit(DeviceReply.Take(rxString, c).1)
      modifies this, logger, logger.eeprom
      ensures rxString == DeviceReply.Take(old(rxString), c).0
      ensures logger.Valid() && logger.State() == Obey(old(logger.State()), DeviceReply.Take(old(rxString), c).1)
    {
      rxString := rxString + [c];
      if DeviceReply.EndsLine(c) {
        rxString := DeviceReply.Trim(rxString);
        if |rxString| < 2 {
          return;
        }
        ghost var lines := [rxString];
        assert lines[0] == rxString && lines[1..] == [];
        DoLine(logger, rxString);
        rxString := "";
      }
    }

    /** `serviceServerData`, for the acknowledgements; clock and settings are not part of the log. */
    method ServiceServerData(logger: StateLogger.Logger, input: string)
      requires logger.Valid() && Inv(logger.State()) && CountsFit(DeviceReply.Lines(rxString, input))
      modifies this, logger, logger.eeprom
      ensures rxString == DeviceReply.Kept(old(rxString), input)
      ensures logger.Valid() && logger.State() == Obey(old(logger.State()), DeviceReply.Lines(old(rxString), input))
    {
      ghost var l, rx := logger.State(), rxString;
      ghost var hearing := Hearing(l, rx, input);
      var i := 0;
      while i < |input|
        invariant i <= |input| && rxString == rx && CountsFit(DeviceReply.Lines(rx, input[i..]))
        invariant logger.Valid() && logger.State() == l && Inv(l) && Hearing(l, rx, input[i..]) == hearing
      {
        l, rx := HearOne(l, rx, input[i..]);
        assert input[i..][0] == input[i] && input[i..][1..] == input[i + 1..];
        DoChar(logger, input[i]);
        i := i + 1;
      }
    }
  }

  /** What is left in the string, and the log, after this input. */
  function Hearing(l: Log, rx: string, input: string): (string, Log)
    requires Inv(l)
  {
    (DeviceReply.Kept(rx, input), Obey(l, DeviceReply.Lines(rx, input)))
  }

  lemma HearOne(l: Log, rx: string, input: string) returns (after: Log, kept: string)
    requires Inv(l) && input != [] && CountsFit(DeviceReply.Lines(rx, input))
    ensures var (k, done) := DeviceReply.Take(rx, input[0]);
      && CountsFit(done) && kept == k && after == Obey(l, done)
    ensures Inv(after) && CountsFit(DeviceReply.Lines(kept, input[1..]))
    ensures Hearing(l, rx, input) == Hearing(after, kept, input[1..])
  {
    var (k, done) := DeviceReply.Take(rx, input[0]);
    kept := k;
    var lines, rest := DeviceReply.Lines(rx, input), DeviceReply.Lines(k, input[1..]);
    assert lines == done + rest;
    assert forall i :: 0 <= i < |rest| ==> rest[i] == lines[|done| + i];
    assert forall i :: 0 <= i < |done| ==> done[i] == lines[i];
    after := Obey(l, done);
    if done != [] {
      assert done[1..] == [] && lines[0] == done[0] && lines[1..] == rest;
    } else {
      assert lines == rest;
    }
  }

  /** A reply with a count acknowledges that many events from the head, if nothing is left over from an
      earlier reply. */
  lemma {:induction false} CountObeyed(l: Log, n: nat, others: seq<string>)
    requires Inv(l) && n > 0
    requires forall i :: 0 <= i < |others| ==> DeviceReply.Reply(others[i]) && !DeviceReply.Execute(others[i]).Ack?
    ensures var input := PumpSession.Wire([DeviceReply.AckLine(n)] + others);
      && DeviceReply.Kept("", input) == ""
      && Obey(l, DeviceReply.Lines("", input)) == AckMany(l.(curr := l.head), n)
  {
    var replies := [DeviceReply.AckLine(n)] + others;
    DeviceReply.AckHeard(n);
    assert forall i :: 0 < i < |replies| ==> replies[i] == others[i - 1];
    DeviceReply.AllHeard(replies);
    FirstObeyed(l, DeviceReply.AckLine(n), others, n);
  }

  lemma {:induction false} FirstObeyed(l: Log, line: string, others: seq<string>, n: nat)
    requires Inv(l) && |line| >= 2 && DeviceReply.Execute(line) == DeviceReply.Ack(n)
    requires forall i :: 0 <= i < |others| ==> |others[i]| >= 2 && !DeviceReply.Execute(others[i]).Ack?
    ensures Obey(l, [line] + others) == AckMany(l.(curr := l.head), n)
  {
    var lines := [line] + others;
    assert lines[0] == line && lines[1..] == others;
    AckManyMoves(l.(curr := l.head), n);
    OthersIgnored(AckMany(l.(curr := l.head), n), others);
  }

  lemma {:induction false} OthersIgnored(l: Log, others: seq<string>)
    requires Inv(l)
    requires forall i :: 0 <= i < |others| ==> |others[i]| >= 2 && !DeviceReply.Execute(others[i]).Ack?
    ensures Obey(l, others) == l
    decreases |others|
  {
    if others != [] {
      OthersIgnored(l, others[1..]);
    }
  }

  /** The same when an earlier acknowledgement, of m events, was cut short behind its letter: the
      device acknowledges what the cut count reads as, and not this reply's count. */
  lemma {:induction false} CutCountObeyed(l: Log, m: nat, j: nat, replies: seq<string>)
    requires Inv(l) && 1 <= j <= |DeviceReply.AckLine(m)| && replies != []
    requires forall i :: 0 <= i < |replies| ==> DeviceReply.Reply(replies[i]) && replies[i][0] in "AFT"
    requires forall i :: 1 <= i < |replies| ==> |replies[i]| >= 2 && !DeviceReply.Execute(replies[i]).Ack?
    ensures var input, k := PumpSession.Wire(replies), DeviceReply.Leading(m, j - 1);
      && DeviceReply.Kept(DeviceReply.AckLine(m)[..j], input) == "" && k <= m
      && Obey(l, DeviceReply.Lines(DeviceReply.AckLine(m)[..j], input)) == AckMany(l.(curr := l.head), k)
  {
    var rx := DeviceReply.AckLine(m)[..j];
    var line := rx + replies[0];
    DeviceReply.AckHeard(m);
    DeviceReply.CutReplyGlued(rx, replies);
    DeviceReply.CutAckGlued(m, j, replies[0]);
    var k := DeviceReply.Leading(m, j - 1);
    FirstObeyed(l, line, replies[1..], k);
  }

  // ----- The protocol -----

  /** What is under way between device and server. Answered(0) is a reply without a count. */
  datatype Net = Quiet | Sent(events: seq<Cell>) | Answered(n: nat)

  /** The log, the network, the server's store, and four histories: events ever logged, events
      acknowledged, events dropped by `clear`, and events it has made up. `stale` is the count an
      acknowledgement cut short has left in the device's string, where it stays until the next reply
      completes the line. */
  datatype World = World(log: Log, net: Net, stale: Option<nat>, store: seq<Cell>,
                         logged: seq<Cell>, acked: seq<Cell>, dropped: seq<Cell>, made: seq<Cell>)

  /** LogStep: `initial` is what the backup array of the logger starts out with, if it has to clear.
      ServeStep: the server reads the first `lines` event lines, and `inserted` says which of them the
      data base takes; it counts them all (`handleLine` ignores the result of the insert).
      CutStep: the connection breaks inside the count of the reply, of which k has arrived.
      LoseStep: the connection breaks before the count, or the count is swallowed by a setting cut
      short in an earlier session. */
  datatype Step =
    | LogStep(e: Cell, initial: seq<Cell>)
    | SendStep
    | ServeStep(lines: nat, inserted: seq<bool>)
    | AckStep
    | CutStep(k: nat)
    | LoseStep
    | RebootStep

  /** The device is single-threaded: it logs nothing between sending and acknowledging. */
  predicate Enabled(w: World, s: Step) {
    match s
    case LogStep(e, initial) => w.net.Quiet? && Storable(e) && Initial(initial)
    case SendStep => w.net.Quiet?
    case ServeStep(lines, inserted) => w.net.Sent? && lines <= |w.net.events| && |inserted| == lines
    case AckStep => w.net.Answered?
    case CutStep(k) => w.net.Answered? && w.net.n > 0 && k <= w.net.n
    case LoseStep => true
    case RebootStep => true
  }

  function Inserted(events: seq<Cell>, ok: seq<bool>): seq<Cell>
    requires |events| == |ok|
  {
    if events == [] then [] else (if ok[0] then [events[0]] else []) + Inserted(events[1..], ok[1..])
  }

  function Apply(w: World, s: Step): World
    requires Inv(w.log) && Enabled(w, s)
  {
    match s
    case LogStep(e, initial) =>
      w.(log := LogWith(w.log, initial, e), logged := w.logged + [e],
         dropped := w.dropped + Lost(w.log), made := w.made + Made(w.log, initial))
    case SendStep => w.(net := Sent(SendFrom(w.log.slots, w.log.head)), log := w.log.(curr := w.log.tail + 1))
    case ServeStep(lines, inserted) =>
      w.(store := w.store + Inserted(w.net.events[..lines], inserted), net := Answered(lines))
    case AckStep =>
      var n := Count(w);
      var m := if n <= |Pending(w.log)| then n else |Pending(w.log)|;
      w.(log := Counted(w), acked := w.acked + Pending(w.log)[..m], net := Quiet, stale := None)
    case CutStep(k) => w.(net := Quiet, stale := if w.stale.Some? then w.stale else Some(k))
    case LoseStep => w.(net := Quiet)
    case RebootStep => w.(log := BootOn(w.log.slots, w.log.under), net := Quiet, stale := None)
  }

  /** What the device takes the count to be. */
  function Count(w: World): nat
    requires w.net.Answered?
  {
    match w.stale case Some(k) => k case None => w.net.n
  }

  /** The log after the reply; without a count in it the device does not touch the log. */
  function Counted(w: World): Log
    requires Inv(w.log) && w.net.Answered?
  {
    if w.stale.None? && w.net.n == 0 then w.log else AckMany(w.log.(curr := w.log.head), Count(w))
  }

  /** Every acknowledged event is in the store. */
  predicate Safe(w: World) { forall i :: 0 <= i < |w.acked| ==> w.acked[i] in w.store }

  /** No event disappears: each one logged, or made up, is acknowledged, pending or dropped. */
  predicate Conserved(w: World)
    requires Inv(w.log)
  {
    multiset(w.logged) + multiset(w.made) == multiset(w.acked) + multiset(Pending(w.log)) + multiset(w.dropped)
  }

  /** The first n pending events are in the store. */
  predicate StoredUpTo(w: World, n: nat)
    requires Inv(w.log)
  {
    n <= |Pending(w.log)| && forall i :: 0 <= i < n ==> Pending(w.log)[i] in w.store
  }

  /** What is on the network, or left over from it, is a true statement about the log and the store. */
  predicate Truthful(w: World)
    requires Inv(w.log)
  {
    && (w.stale.Some? ==> StoredUpTo(w, w.stale.value))
    && match w.net
       case Quiet => true
       case Sent(events) => events == Pending(w.log)
       case Answered(n) => StoredUpTo(w, n)
  }

  predicate WorldInv(w: World) {
    Inv(w.log) && Safe(w) && Conserved(w) && Truthful(w)
  }

  /** The data base takes every line the server counts. */
  predicate AllInserted(s: Step) {
    s.ServeStep? ==> forall i :: 0 <= i < |s.inserted| ==> s.inserted[i]
  }

  /** No pending event is dropped, and none made up, while a count cut short is waiting to be completed. */
  predicate NothingStaleDropped(w: World, s: Step)
    requires Inv(w.log)
  {
    s.LogStep? && w.stale.Some? && Initial(s.initial) ==> Lost(w.log) == [] && Made(w.log, s.initial) == []
  }

  lemma {:induction false} InsertedAll(events: seq<Cell>, ok: seq<bool>)
    requires |events| == |ok| && forall i :: 0 <= i < |ok| ==> ok[i]
    ensures Inserted(events, ok) == events
  {
    if events != [] {
      InsertedAll(events[1..], ok[1..]);
    }
  }

  lemma KeptIsSuffix(l: Log)
    requires Inv(l)
    ensures |Kept(l)| <= |Pending(l)| && Pending(l) == Lost(l) + Kept(l)
  {}

  lemma LogStepKeeps(w: World, e: Cell, initial: seq<Cell>)
    requires WorldInv(w) && w.net.Quiet? && Storable(e) && Initial(initial)
    requires NothingStaleDropped(w, LogStep(e, initial))
    ensures WorldInv(Apply(w, LogStep(e, initial)))
  {
    EventLogger.LogKeepsInv(w.log, initial, e);
    KeptIsSuffix(w.log);
    var after := Apply(w, LogStep(e, initial));
    Balance(w.logged, w.made, w.acked, w.dropped, Lost(w.log), Kept(w.log), Made(w.log, initial), e);
    assert Pending(after.log) == Made(w.log, initial) + Kept(w.log) + [e];
    assert Conserved(after);
    if w.stale.Some? {
      assert Pending(after.log) == Pending(w.log) + [e];
    }
  }

  /** The books stay balanced when events are dropped, made up and logged. */
  lemma Balance(logged: seq<Cell>, made: seq<Cell>, acked: seq<Cell>, dropped: seq<Cell>,
                lost: seq<Cell>, kept: seq<Cell>, more: seq<Cell>, e: Cell)
    requires multiset(logged) + multiset(made) == multiset(acked) + multiset(lost + kept) + multiset(dropped)
    ensures multiset(logged + [e]) + multiset(made + more)
      == multiset(acked) + multiset(more + kept + [e]) + multiset(dropped + lost)
  {
    var before, after := multiset(logged) + multiset(made), multiset(logged + [e]) + multiset(made + more);
    var parts := multiset(acked) + multiset(more + kept + [e]) + multiset(dropped + lost);
    forall x: Cell
      ensures after[x] == parts[x]
    {
      assert after[x] == before[x] + multiset([e])[x] + multiset(more)[x];
      assert before[x] == multiset(acked)[x] + multiset(lost)[x] + multiset(kept)[x] + multiset(dropped)[x];
    }
  }

  lemma ServeStepKeeps(w: World, s: Step)
    requires WorldInv(w) && s.ServeStep? && Enabled(w, s) && AllInserted(s)
    ensures WorldInv(Apply(w, s))
  {
    var events := w.net.events[..s.lines];
    InsertedAll(events, s.inserted);
    assert forall i :: 0 <= i < s.lines ==> Pending(w.log)[i] == events[i];
  }

  lemma AckStepKeeps(w: World)
    requires WorldInv(w) && w.net.Answered?
    ensures WorldInv(Apply(w, AckStep))
  {
    var n, pending := Count(w), Pending(w.log);
    var l := w.log.(curr := w.log.head);
    AckManyMoves(l, n);
    var after := Apply(w, AckStep);
    assert pending == pending[..n] + pending[n..];
    assert after == w.(log := after.log, acked := w.acked + pending[..n], net := Quiet, stale := None);
    assert Inv(after.log) && Pending(after.log) == pending[n..];
    AckBalance(w.acked, pending[..n], pending[n..], w.dropped);
    assert Safe(after) by {
      assert StoredUpTo(w, n);
    }
  }

  lemma AckBalance(acked: seq<Cell>, front: seq<Cell>, back: seq<Cell>, dropped: seq<Cell>)
    ensures multiset(acked) + multiset(front + back) + multiset(dropped)
      == multiset(acked + front) + multiset(back) + multiset(dropped)
  {}

  lemma StepKeeps(w: World, s: Step)
    requires WorldInv(w) && Enabled(w, s) && AllInserted(s) && NothingStaleDropped(w, s)
    ensures WorldInv(Apply(w, s))
  {
    match s
    case LogStep(e, initial) => LogStepKeeps(w, e, initial);
    case SendStep => SendsPending(w.log);
    case ServeStep(_, _) => ServeStepKeeps(w, s);
    case AckStep => AckStepKeeps(w);
    case CutStep(_) =>
    case LoseStep =>
    case RebootStep => RebootRecovers(w.log);
  }

  /** A sequence of steps each of which is possible when its turn comes. */
  ghost predicate Possible(w: World, steps: seq<Step>)
    decreases |steps|
  {
    steps == [] || (Inv(w.log) && Enabled(w, steps[0]) && Possible(Apply(w, steps[0]), steps[1..]))
  }

  ghost function Run(w: World, steps: seq<Step>): World
    requires Possible(w, steps)
    decreases |steps|
  {
    if steps == [] then w else Run(Apply(w, steps[0]), steps[1..])
  }

  /** Every insert succeeds, and nothing is dropped while a count cut short is waiting. */
  ghost predicate Careful(w: World, steps: seq<Step>)
    requires Possible(w, steps)
    decreases |steps|
  {
    steps == [] ||
      (AllInserted(steps[0]) && NothingStaleDropped(w, steps[0]) && Careful(Apply(w, steps[0]), steps[1..]))
  }

  /** At-least-once delivery, over every run: an acknowledged event is in the store, and every event
      ever logged is stored, still pending, or was dropped when the region was full. */
  lemma {:induction false} AtLeastOnce(w: World, steps: seq<Step>)
    requires WorldInv(w) && Possible(w, steps) && Careful(w, steps)
    ensures var end := Run(w, steps);
      && WorldInv(end)
      && forall e :: e in end.logged ==> e in end.store || e in Pending(end.log) || e in end.dropped
    decreases |steps|
  {
    if steps == [] {
      Accounted(w);
    } else {
      StepKeeps(w, steps[0]);
      AtLeastOnce(Apply(w, steps[0]), steps[1..]);
    }
  }

  lemma Accounted(w: World)
    requires WorldInv(w)
    ensures forall e :: e in w.logged ==> e in w.store || e in Pending(w.log) || e in w.dropped
  {
    forall e | e in w.logged
      ensures e in w.store || e in Pending(w.log) || e in w.dropped
    {
      assert e in multiset(w.logged) && e in multiset(w.logged) + multiset(w.made);
      assert e in multiset(w.acked) || e in multiset(Pending(w.log)) || e in multiset(w.dropped);
    }
  }

  /** The start: a device booted on a blank region and an empty store. */
  lemma FirstBoot(cells: nat, under: seq<Cell>)
    requires 18 <= cells
    ensures WorldInv(World(BootOn(Blanks(cells), under), Quiet, None, [], [], [], [], []))
  {
    BlankNotSeen();
    RebootRecoversIff(Blanks(cells), under, 0, 0);
  }

  // ----- The inserts must succeed -----

  lemma {:induction false} InsertedOnly(events: seq<Cell>, ok: seq<bool>, i: nat)
    requires |events| == |ok| && i < |events|
    requires forall j :: 0 <= j < |events| && j != i ==> events[j] != events[i]
    ensures events[i] in Inserted(events, ok) <==> ok[i]
  {
    if i == 0 {
      InsertedFrom(events[1..], ok[1..], events[0]);
    } else {
      InsertedOnly(events[1..], ok[1..], i - 1);
      assert events[0] != events[i];
    }
  }

  lemma {:induction false} InsertedFrom(events: seq<Cell>, ok: seq<bool>, e: Cell)
    requires |events| == |ok| && e !in events
    ensures e !in Inserted(events, ok)
  {
    if events != [] {
      InsertedFrom(events[1..], ok[1..], e);
    }
  }

  /** The server counts a line whether or not the data base took it. So a session with new, pairwise
      different events is safe exactly when every insert succeeds. */
  lemma SafeIffInserted(w: World, s: Step)
    requires WorldInv(w) && s.ServeStep? && Enabled(w, s) && s.lines > 0 && w.stale.None?
    requires forall i :: 0 <= i < s.lines ==> Pending(w.log)[i] !in w.store
    requires forall i, j :: 0 <= i < j < s.lines ==> Pending(w.log)[i] != Pending(w.log)[j]
    ensures Safe(Apply(Apply(w, s), AckStep)) <==> forall i :: 0 <= i < s.lines ==> s.inserted[i]
  {
    var served := Apply(w, s);
    var events := w.net.events[..s.lines];
    var after := Apply(served, AckStep);
    assert after.acked == w.acked + events;
    forall i | 0 <= i < s.lines
      ensures events[i] in after.store <==> s.inserted[i]
    {
      assert events[i] == Pending(w.log)[i];
      InsertedOnly(events, s.inserted, i);
    }
    if forall i :: 0 <= i < s.lines ==> s.inserted[i] {
    } else {
      var i :| 0 <= i < s.lines && !s.inserted[i];
      assert after.acked[|w.acked| + i] == events[i];
    }
  }

  // ----- And nothing may be dropped behind a count cut short -----

  lemma AckSafeIff(w: World)
    requires Inv(w.log) && Safe(w) && w.net.Answered?
    ensures Safe(Apply(w, AckStep)) <==>
      forall i :: 0 <= i < Count(w) && i < |Pending(w.log)| ==> Pending(w.log)[i] in w.store
  {
    var pending := Pending(w.log);
    var m := if Count(w) <= |pending| then Count(w) else |pending|;
    var after := Apply(w, AckStep);
    assert after.acked == w.acked + pending[..m];
    if Safe(after) {
      forall i | 0 <= i < m
        ensures pending[i] in w.store
      {
        assert after.acked[|w.acked| + i] == pending[i];
      }
    }
  }

  /** A session in which the server reads no event: the count left over is obeyed. */
  function EmptySession(w: World): World
    requires Inv(w.log) && w.net.Quiet?
  {
    SendsPending(w.log);
    Apply(Apply(Apply(w, SendStep), ServeStep(0, [])), AckStep)
  }

  lemma EmptySessionSafeIff(w: World)
    requires Inv(w.log) && Safe(w) && w.net.Quiet? && w.stale.Some?
    ensures Safe(EmptySession(w)) <==>
      forall i :: 0 <= i < w.stale.value && i < |Pending(w.log)| ==> Pending(w.log)[i] in w.store
  {
    SendsPending(w.log);
    var served := Apply(Apply(w, SendStep), ServeStep(0, []));
    assert served.store == w.store + [] == w.store && Pending(served.log) == Pending(w.log);
    AckSafeIff(served);
  }

  /** Neither the new event nor those the logger may make up are in the store, and of the pending ones
      only those the count was given for. */
  predicate OnlyCounted(w: World, e: Cell, initial: seq<Cell>)
    requires Inv(w.log) && w.stale.Some?
  {
    && e !in w.store && (forall i :: 0 <= i < |initial| ==> initial[i] !in w.store)
    && (forall i :: w.stale.value <= i < |Pending(w.log)| ==> Pending(w.log)[i] !in w.store)
  }

  /** When an event is logged while a count cut short is waiting, the next reply is safe exactly if
      logging it has dropped nothing and made nothing up. */
  lemma StaleCountIff(w: World, e: Cell, initial: seq<Cell>)
    requires WorldInv(w) && w.net.Quiet? && w.stale.Some? && w.stale.value > 0
    requires Storable(e) && Initial(initial) && OnlyCounted(w, e, initial)
    ensures Inv(LogWith(w.log, initial, e))
    ensures Safe(EmptySession(Apply(w, LogStep(e, initial)))) <==> Lost(w.log) == [] && Made(w.log, initial) == []
  {
    EventLogger.LogKeepsInv(w.log, initial, e);
    StalePending(w, e, initial, Pending(LogWith(w.log, initial, e)));
    EmptySessionSafeIff(Apply(w, LogStep(e, initial)));
  }

  lemma StalePending(w: World, e: Cell, initial: seq<Cell>, now: seq<Cell>)
    requires WorldInv(w) && w.stale.Some? && w.stale.value > 0
    requires Initial(initial) && OnlyCounted(w, e, initial) && now == Made(w.log, initial) + Kept(w.log) + [e]
    ensures (forall i :: 0 <= i < w.stale.value && i < |now| ==> now[i] in w.store)
      <==> Lost(w.log) == [] && Made(w.log, initial) == []
  {
    KeptIsSuffix(w.log);
    CountedStored(w, e, initial);
    MadeNotStored(w, e, initial);
    FirstStoredIff(now, Made(w.log, initial), Kept(w.log), Lost(w.log), e, w.store, w.stale.value);
  }

  lemma CountedStored(w: World, e: Cell, initial: seq<Cell>)
    requires WorldInv(w) && w.stale.Some? && OnlyCounted(w, e, initial)
    ensures w.stale.value <= |Pending(w.log)|
    ensures forall i :: 0 <= i < |Pending(w.log)| ==> (Pending(w.log)[i] in w.store <==> i < w.stale.value)
  {
    assert StoredUpTo(w, w.stale.value);
  }

  lemma MadeNotStored(w: World, e: Cell, initial: seq<Cell>)
    requires Inv(w.log) && w.stale.Some? && OnlyCounted(w, e, initial) && |initial| == BACKUPS
    ensures forall i :: 0 <= i < |Made(w.log, initial)| ==> Made(w.log, initial)[i] !in w.store
  {
    forall i | 0 <= i < |Made(w.log, initial)|
      ensures Made(w.log, initial)[i] !in w.store
    {
      MadeInitially(w.log, initial, i);
    }
  }

  lemma MadeInitially(l: Log, initial: seq<Cell>, i: nat)
    requires Inv(l) && |initial| == BACKUPS && i < |Made(l, initial)|
    ensures Made(l, initial)[i] in initial
  {
    var rest := initial[|Newest(l)|..];
    StateLogger.ReverseAt(rest, i);
    assert rest[|rest| - 1 - i] in initial;
  }

  /** The first n pending events are stored and no other event is: they still come first exactly if
      nothing is gone in front of them and nothing has come there. */
  lemma FirstStoredIff(now: seq<Cell>, made: seq<Cell>, kept: seq<Cell>, lost: seq<Cell>, e: Cell,
                       store: seq<Cell>, n: nat)
    requires now == made + kept + [e] && 0 < n <= |lost + kept|
    requires forall i :: 0 <= i < |lost + kept| ==> ((lost + kept)[i] in store <==> i < n)
    requires e !in store && forall i :: 0 <= i < |made| ==> made[i] !in store
    ensures (forall i :: 0 <= i < n && i < |now| ==> now[i] in store) <==> lost == [] && made == []
  {
    if made != [] {
      assert now[0] == made[0];
    } else if lost != [] {
      var j := if n - 1 < |kept| then n - 1 else |kept|;
      if j < |kept| {
        assert now[j] == kept[j] == (lost + kept)[|lost| + j];
      } else {
        assert now[j] == e;
      }
    } else {
      assert forall i :: 0 <= i < n ==> now[i] == (lost + kept)[i];
    }
  }
}
