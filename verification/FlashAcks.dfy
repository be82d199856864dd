/** What acknowledging reaches in the flash log (loggerFirmware/src/log.cpp), on the first lap and behind
    it, where the head no longer follows the writer. */
module FlashAcks {
  import opened SignedTimes
  import opened FlashEvent
  import opened FlashRing
  import opened FlashLog
  import opened FlashRuns

  // ----- One acknowledgement -----

  /** The slots that hold events: those of this lap, and those of the previous one whose sectors have not
      been entered. */
  predicate Held(past: Past, i: nat) {
    i < |past.cur| || (past.prev != [] && SectorEnd(|past.cur|) <= i < LAP)
  }

  function EventAt(past: Past, i: nat): Record
    requires Held(past, i) && |past.cur| < LAP && (past.prev != [] ==> |past.prev| == LAP)
  {
    if i < |past.cur| then past.cur[i] else past.prev[i]
  }

  /** The event is not later than asked, as numbers of seconds; zero asks for all. */
  predicate NotLater(r: Record, logTime: bv32) { logTime == 0 || Signed(TimeStamp(r)) <= Signed(logTime) }

  lemma HeldSlot(l: Log, past: Past, i: nat, logTime: bv32)
    requires Inv(l, past) && Held(past, i)
    ensures i < LAP && Holds(l.slots[i], EventAt(past, i)) && Sealed(l.slots[i])
    ensures InTime(l.slots[i], logTime) <==> NotLater(EventAt(past, i), logTime)
    ensures Processed(Marked(l.slots[i]))
  {
    assert Holds(l.slots[i], EventAt(past, i));
    HoldsFacts(l.slots[i], EventAt(past, i));
    InTimeIff(EventAt(past, i), logTime);
  }

  lemma HeadHeldIffSealed(l: Log, past: Past)
    requires Inv(l, past)
    ensures Sealed(l.slots[l.head]) <==> Held(past, l.head)
  {
    if Sealed(l.slots[l.head]) {
      SealedSlotHolds(l, past, l.head);
    }
    if Held(past, l.head) {
      HeldSlot(l, past, l.head, 0);
    }
  }

  /** An acknowledgement succeeds exactly if the head stands at an event, of this lap or of what is left of
      the previous one, that is not too young. */
  lemma AckOnIff(l: Log, past: Past, logTime: bv32)
    requires Inv(l, past)
    ensures AckOn(l, logTime).1 <==>
      Held(past, l.head) && (logTime == 0 || Signed(TimeStamp(EventAt(past, l.head))) <= Signed(logTime))
  {
    HeadHeldIffSealed(l, past);
    if Held(past, l.head) {
      HeldSlot(l, past, l.head, logTime);
    }
  }

  // ----- Acknowledging in bulk -----

  /** `while(acknowledge(logTime));` as the menus run it. */
  ghost function AckAll(l: Log, past: Past, logTime: bv32): Log
    requires Inv(l, past)
    decreases SLOTS - l.head
  {
    AckKeepsInv(l, past, logTime);
    var step := AckOn(l, logTime);
    if step.1 then AckAll(step.0, past, logTime) else step.0
  }

  /** The records from `from` to `to` are readable and not too young, and are now marked; no other
      slot has changed. */
  ghost predicate MarkedRun(before: Slots, after: Slots, from: nat, to: nat, logTime: bv32) {
    && from <= to <= SLOTS
    && (forall i :: from <= i < to ==> Sealed(before[i]) && InTime(before[i], logTime) && after[i] == Marked(before[i]))
    && (forall i :: 0 <= i < from || to <= i < SLOTS ==> after[i] == before[i])
  }

  lemma MarkedRunGrows(before: Slots, middle: Slots, after: Slots, from: nat, to: nat, logTime: bv32)
    requires from < SLOTS && Sealed(before[from]) && InTime(before[from], logTime)
    requires middle == before[from := Marked(before[from])]
    requires MarkedRun(middle, after, from + 1, to, logTime)
    ensures MarkedRun(before, after, from, to, logTime)
  {
    assert after[from] == middle[from];
    assert forall i :: from < i < to ==> middle[i] == before[i];
  }

  /** The loop over `acknowledge` marks exactly the longest run of records from the head on that are
      readable and not too young, and touches nothing else. */
  lemma {:induction false} AckAllMarksPrefix(l: Log, past: Past, logTime: bv32)
    requires Inv(l, past)
    ensures var after := AckAll(l, past, logTime);
      && Inv(after, past) && after.tail == l.tail
      && MarkedRun(l.slots, after.slots, l.head, after.head, logTime)
      && (!Sealed(l.slots[after.head]) || !InTime(l.slots[after.head], logTime))
    decreases SLOTS - l.head
  {
    AckKeepsInv(l, past, logTime);
    var (next, more) := AckOn(l, logTime);
    if more {
      var after := AckAll(next, past, logTime);
      AckAllMarksPrefix(next, past, logTime);
      MarkedRunGrows(l.slots, next.slots, after.slots, l.head, after.head, logTime);
      assert next.slots[after.head] == l.slots[after.head];
    }
  }

  /** The slot in front of which the loop stops at the latest: the head never passes from one lap to
      another. */
  function Reach(l: Log, past: Past): nat {
    if l.head < |past.cur| then |past.cur| else if Held(past, l.head) then LAP else l.head
  }

  lemma HeldUpToReach(l: Log, past: Past, i: nat)
    requires l.head <= i < Reach(l, past)
    ensures Held(past, i)
  {}

  lemma NotSealedAtReach(l: Log, past: Past)
    requires Inv(l, past)
    ensures !Sealed(l.slots[Reach(l, past)])
  {
    BlankIsNoRecord();
    if Reach(l, past) == l.head {
      HeadHeldIffSealed(l, past);
    }
  }

  /** What the loop reaches, in any state: events from the head up to the first that is too young, but not
      beyond the lap the head is on. All of them are processed then. */
  lemma {:induction false} AckAllReach(l: Log, past: Past, logTime: bv32)
    requires Inv(l, past)
    ensures var after := AckAll(l, past, logTime);
      && l.head <= after.head <= Reach(l, past)
      && (forall i :: l.head <= i < after.head ==>
        Held(past, i) && NotLater(EventAt(past, i), logTime) && Processed(after.slots[i]))
      && (after.head < Reach(l, past) ==> !NotLater(EventAt(past, after.head), logTime))
  {
    var after := AckAll(l, past, logTime);
    AckAllMarksPrefix(l, past, logTime);
    NotSealedAtReach(l, past);
    forall i | l.head <= i < after.head
      ensures Held(past, i) && NotLater(EventAt(past, i), logTime) && Processed(after.slots[i])
    {
      HeldUpToReach(l, past, i);
      HeldSlot(l, past, i, logTime);
    }
    if after.head < Reach(l, past) {
      HeldUpToReach(l, past, after.head);
      HeldSlot(l, past, after.head, logTime);
    }
  }

  /** Every event in flash is processed. */
  ghost predicate AllProcessed(slots: Slots, past: Past)
    requires |past.cur| < LAP
  {
    forall i: nat :: Held(past, i) ==> Processed(slots[i])
  }

  /** Acknowledging without a time limit leaves every event in flash processed exactly if those are that
      the loop does not reach: the events of this lap before the head, and of the previous lap all that the
      head does not have in front of it on that lap. */
  lemma {:induction false} AckAllProcessesIff(l: Log, past: Past)
    requires Inv(l, past)
    ensures AllProcessed(AckAll(l, past, 0).slots, past) <==>
      && (forall i :: 0 <= i < |past.cur| && i < l.head ==> Processed(l.slots[i]))
      && (past.prev != [] ==> (forall i :: SectorEnd(|past.cur|) <= i < LAP ==>
        SectorEnd(|past.cur|) <= l.head <= i || Processed(l.slots[i])))
  {
    var after := AckAll(l, past, 0);
    AckAllMarksPrefix(l, past, 0);
    AckAllReach(l, past, 0);
    assert after.head == Reach(l, past);
    assert forall i: nat :: Held(past, i) && !(l.head <= i < after.head) ==> after.slots[i] == l.slots[i];
    if AllProcessed(after.slots, past) {
      ProcessedApart(l, past, after.slots);
    }
  }

  lemma ProcessedApart(l: Log, past: Past, slots: Slots)
    requires Inv(l, past) && AllProcessed(slots, past)
    requires forall i: nat :: Held(past, i) && !(l.head <= i < Reach(l, past)) ==> slots[i] == l.slots[i]
    ensures forall i :: 0 <= i < |past.cur| && i < l.head ==> Processed(l.slots[i])
    ensures past.prev != [] ==> (forall i :: SectorEnd(|past.cur|) <= i < LAP ==>
      SectorEnd(|past.cur|) <= l.head <= i || Processed(l.slots[i]))
  {
    forall i: nat | Held(past, i) && !(l.head <= i < Reach(l, past))
      ensures Processed(l.slots[i])
    {}
  }

  /** On the first lap it always does. */
  lemma {:induction false} FirstLapAllProcessed(l: Log, past: Past)
    requires Inv(l, past) && past.prev == []
    ensures AllProcessed(AckAll(l, past, 0).slots, past)
  {
    AckAllProcessesIff(l, past);
  }

  // ----- Behind the first lap -----

  /** A lap of events none of which has been acknowledged: from its last event on none can be, though 6143
      of them are in flash. */
  lemma LapSilencesAck(slots: Slots, lap: seq<Record>, logTime: bv32, k: nat)
    requires Factory(slots) && Entries(lap) && |lap| == LAP && 1 <= k <= WINDOW
    ensures AllLegal(Logs(lap))
    ensures var l := Reached(slots, Logs(lap)).0;
      && !AckOn(l, logTime).1 && HeldBack(l, lap, k)
  {
    FirstBoot(slots);
    UnacknowledgedLap(BootOn(slots).0, lap);
    Silenced(Reached(slots, Logs(lap)).0, lap, logTime, k);
  }

  lemma {:induction false} UnacknowledgedLap(l: Log, lap: seq<Record>)
    requires Inv(l, NOTHING) && l.head == 0 && Entries(lap) && |lap| == LAP
    ensures AllLegal(Logs(lap)) && Run(l, NOTHING, Logs(lap)).0.head == 0
    ensures Run(l, NOTHING, Logs(lap)).1 == Past([], lap, [])
  {
    LogsRun(l, NOTHING, lap);
    LapComplete(NOTHING, lap);
    assert [] + lap == lap;
  }

  lemma Silenced(l: Log, lap: seq<Record>, logTime: bv32, k: nat)
    requires Inv(l, Past([], lap, [])) && l.head == 0 && |lap| == LAP && 1 <= k <= WINDOW
    ensures !AckOn(l, logTime).1 && HeldBack(l, lap, k)
  {
    AckOnIff(l, Past([], lap, []), logTime);
    WindowHeld(l, Past([], lap, []), k);
    assert Past([], lap, []).All() == lap;
  }

  predicate NoReboot(ops: seq<Op>) { Reboot !in ops }

  /** At the end of the lap the head stays, whatever happens short of a reboot. */
  lemma {:induction false} HeadStuck(l: Log, past: Past, ops: seq<Op>)
    requires Inv(l, past) && l.head == LAP && AllLegal(ops) && NoReboot(ops)
    ensures Run(l, past, ops).0.head == LAP
    decreases |ops|
  {
    if ops != [] {
      assert Legal(ops[0]) && ops[0] != Reboot;
      ApplyKeepsInv(l, past, ops[0]);
      HeadStaysOnce(l, past, ops[0]);
      HeadStuck(Apply(l, ops[0]), Grow(past, ops[0]), ops[1..]);
    }
  }

  lemma HeadStaysOnce(l: Log, past: Past, op: Op)
    requires Inv(l, past) && l.head == LAP && op != Reboot
    ensures Apply(l, op).head == LAP
  {
    if op.AckOp? {
      AckOnIff(l, past, op.logTime);
    }
  }

  /** Each event acknowledged as soon as it is logged. */
  function LogAcks(rs: seq<Record>): (ops: seq<Op>)
    ensures Entries(rs) ==> AllLegal(ops)
  {
    if rs == [] then [] else
      [LogOp(rs[0])] + ([AckOp(0)] + LogAcks(rs[1..]))
  }

  /** A log of which everything is acknowledged. */
  ghost predicate CaughtUp(l: Log, past: Past) {
    Inv(l, past) && if past.prev == [] then l.head == l.tail else past.cur == [] && l.head == LAP
  }

  lemma LogAckStep(l: Log, past: Past, r: Record)
    requires CaughtUp(l, past) && past.prev == [] && Entry(r)
    ensures CaughtUp(AckOn(LogOn(l, r), 0).0, past.Extend(r)) && AckOn(LogOn(l, r), 0).0.head == l.head + 1
  {
    LogKeepsInv(l, past, r);
    AckOnIff(LogOn(l, r), past.Extend(r), 0);
    AckKeepsInv(LogOn(l, r), past.Extend(r), 0);
  }

  lemma {:induction false} RunNext(l: Log, past: Past, op: Op, ops: seq<Op>)
    requires Inv(l, past) && Legal(op) && AllLegal(ops)
    ensures Inv(Apply(l, op), Grow(past, op)) && AllLegal([op] + ops)
    ensures Run(l, past, [op] + ops) == Run(Apply(l, op), Grow(past, op), ops)
  {
    ApplyKeepsInv(l, past, op);
    assert ([op] + ops)[0] == op && ([op] + ops)[1..] == ops;
  }

  lemma {:induction false} PairNext(l: Log, past: Past, r: Record, ops: seq<Op>)
    requires Inv(l, past) && Entry(r) && AllLegal(ops)
    ensures Inv(AckOn(LogOn(l, r), 0).0, past.Extend(r)) && AllLegal([LogOp(r)] + ([AckOp(0)] + ops))
    ensures Run(l, past, [LogOp(r)] + ([AckOp(0)] + ops)) == Run(AckOn(LogOn(l, r), 0).0, past.Extend(r), ops)
  {
    LogKeepsInv(l, past, r);
    RunNext(l, past, LogOp(r), [AckOp(0)] + ops);
    RunNext(LogOn(l, r), past.Extend(r), AckOp(0), ops);
  }

  lemma {:induction false} LogAcksRun(l: Log, past: Past, rs: seq<Record>)
    requires CaughtUp(l, past) && past.prev == [] && Entries(rs) && |past.cur| + |rs| <= LAP
    ensures Run(l, past, LogAcks(rs)).0.head == |past.cur| + |rs|
    decreases |rs|
  {
    if rs != [] {
      PairNext(l, past, rs[0], LogAcks(rs[1..]));
      LogAckStep(l, past, rs[0]);
      if |rs| > 1 {
        LogAcksRun(AckOn(LogOn(l, rs[0]), 0).0, past.Extend(rs[0]), rs[1..]);
      }
    }
  }

  /** A device that acknowledges each event as it comes acknowledges none after its first lap, until it is
      rebooted. */
  lemma {:induction false} EachAckedThenNone(slots: Slots, lap: seq<Record>, ops: seq<Op>, logTime: bv32)
    requires Factory(slots) && Entries(lap) && |lap| == LAP && AllLegal(ops) && NoReboot(ops)
    ensures AllLegal(LogAcks(lap) + ops) && !AckOn(Reached(slots, LogAcks(lap) + ops).0, logTime).1
  {
    FirstBoot(slots);
    var l := BootOn(slots).0;
    LogAcksRun(l, NOTHING, lap);
    StuckAfter(l, NOTHING, LogAcks(lap), ops, logTime);
  }

  lemma {:induction false} StuckAfter(l: Log, past: Past, ops: seq<Op>, more: seq<Op>, logTime: bv32)
    requires Inv(l, past) && AllLegal(ops) && AllLegal(more) && NoReboot(more) && Run(l, past, ops).0.head == LAP
    ensures AllLegal(ops + more) && !AckOn(Run(l, past, ops + more).0, logTime).1
  {
    RunAppend(l, past, ops, more);
    HeadStuck(Run(l, past, ops).0, Run(l, past, ops).1, more);
    AckOnIff(Run(l, past, ops + more).0, Run(l, past, ops + more).1, logTime);
  }

  /** What is left of the loop behind a call that returned `more`. */
  ghost function Rest(l: Log, past: Past, logTime: bv32, more: bool): Log
    requires Inv(l, past)
  {
    if more then AckAll(l, past, logTime) else l
  }

  /** One call in the loop. */
  method AcknowledgeOne(log: CLog, logTime: bv32, ghost past: Past, ghost l: Log)
    returns (more: bool, ghost next: Log)
    requires log.Valid() && log.State() == l && Inv(l, past)
    modifies log`headAddr, log`readAddr, log.flash
    ensures log.Valid() && log.State() == next && Inv(next, past)
    ensures Rest(next, past, logTime, more) == AckAll(l, past, logTime)
    ensures if more then l.head < next.head <= SLOTS else next.head == l.head
  {
    AckKeepsInv(l, past, logTime);
    more := log.Acknowledge(logTime);
    next := AckOn(l, logTime).0;
  }

  /** The menus' loop itself. */
  method AcknowledgeAll(log: CLog, logTime: bv32, ghost past: Past)
    requires log.Valid() && Inv(log.State(), past)
    modifies log`headAddr, log`readAddr, log.flash
    ensures log.Valid() && log.State() == old(AckAll(log.State(), past, logTime))
  {
    ghost var result := AckAll(log.State(), past, logTime);
    var more;
    ghost var l;
    more, l := AcknowledgeOne(log, logTime, past, log.State());
    while more
      invariant log.Valid() && log.State() == l && Inv(l, past)
      invariant result == Rest(l, past, logTime, more)
      decreases SLOTS - l.head, more
    {
      more, l := AcknowledgeOne(log, logTime, past, l);
    }
  }
}
