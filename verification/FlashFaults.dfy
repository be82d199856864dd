/** Where the flash log (loggerFirmware/src/log.cpp) loses events: a chip whose last slot is not clean, and
    power that fails between a program and an erase. */
module FlashFaults {
  import opened Wrappers
  import opened FlashEvent
  import opened FlashRing
  import opened FlashRuns
  import opened FlashAcks

  // ----- A chip whose last slot reads as a record -----

  /** A run from any state, which ends where an operation would leave the region. */
  function Execute(l: Log, ops: seq<Op>): Option<Log>
    decreases |ops|
  {
    if ops == [] then Some(l)
    else if l.head >= SLOTS || l.tail >= SLOTS then None
    else Execute(Apply(l, ops[0]), ops[1..])
  }

  lemma {:induction false} RunIsExecute(l: Log, past: Past, ops: seq<Op>)
    requires Inv(l, past) && AllLegal(ops)
    ensures Execute(l, ops) == Some(Run(l, past, ops).0)
    decreases |ops|
  {
    if ops != [] {
      assert Legal(ops[0]);
      ApplyKeepsInv(l, past, ops[0]);
      RunIsExecute(Apply(l, ops[0]), Grow(past, ops[0]), ops[1..]);
    }
  }

  /** After this run the k-th newest event is in flash. */
  ghost predicate Retains(slots: Slots, ops: seq<Op>, k: nat) {
    var end := Execute(BootOn(slots).0, ops);
    end.Some? && HeldBack(end.value, Logged(ops), k)
  }

  ghost predicate AlwaysRetains(slots: Slots) {
    forall ops, k :: AllLegal(ops) && 1 <= k <= WINDOW && k <= |Logged(ops)| ==> Retains(slots, ops, k)
  }

  lemma FactoryRetains(slots: Slots)
    requires Factory(slots)
    ensures AlwaysRetains(slots)
  {
    forall ops, k | AllLegal(ops) && 1 <= k <= WINDOW && k <= |Logged(ops)|
      ensures Retains(slots, ops, k)
    {
      FirstBoot(slots);
      RunIsExecute(BootOn(slots).0, NOTHING, ops);
      Retention(slots, ops, k);
    }
  }

  /** The same lap on two chips, of which only the first has a record in the slot behind the lap. */
  predicate Twin(l: Log, m: Log) {
    && SameLap(l.slots, m.slots) && l.head == m.head && l.tail == m.tail
    && Sealed(l.slots[LAP]) && (l.tail < 3 * PER_SECTOR ==> l.slots[3 * PER_SECTOR] == Blank())
  }

  /** Logging leaves the last slot alone if its sector starts blank. */
  lemma EndLeftAlone(l: Log, r: Record)
    requires l.tail < LAP && (l.tail < 3 * PER_SECTOR ==> l.slots[3 * PER_SECTOR] == Blank())
    ensures LogOn(l, r).slots[LAP] == l.slots[LAP]
    ensures LogOn(l, r).tail != 0 && LogOn(l, r).tail < 3 * PER_SECTOR ==> LogOn(l, r).slots[3 * PER_SECTOR] == Blank()
  {}

  lemma TwinLog(l: Log, m: Log, r: Record)
    requires Twin(l, m) && l.tail < LAP
    ensures SameLap(LogOn(l, r).slots, LogOn(m, r).slots) && LogOn(l, r).tail == LogOn(m, r).tail
    ensures Sealed(LogOn(l, r).slots[LAP]) && (l.tail + 1 < LAP ==> Twin(LogOn(l, r), LogOn(m, r)))
  {
    EndLeftAlone(l, r);
    if l.tail + 1 < LAP {
      SameLapLog(l, m, r);
      OneLogMovesOn(l, r);
    } else {
      SameLapAt(l.slots, m.slots, l.tail);
      var x, y := ProgramSlot(l.slots, l.tail, r), ProgramSlot(m.slots, m.tail, r);
      assert SameLap(x, y);
      SameLapErase(x, y, 0);
    }
  }

  lemma TwinAck(l: Log, m: Log)
    requires SameLap(l.slots, m.slots) && l.head == m.head < LAP && l.tail == m.tail
    ensures var x, y := AckOn(l, 0).0, AckOn(m, 0).0;
      SameLap(x.slots, y.slots) && x.head == y.head && x.tail == y.tail == l.tail && x.slots[LAP] == l.slots[LAP]
    ensures l.head != 3 * PER_SECTOR || !Sealed(l.slots[l.head]) ==>
      AckOn(l, 0).0.slots[3 * PER_SECTOR] == l.slots[3 * PER_SECTOR]
  {
    SameLapAt(l.slots, m.slots, l.head);
    var r := Marked(l.slots[l.head]);
    assert SameLap(ProgramSlot(l.slots, l.head, r), ProgramSlot(m.slots, m.head, r));
  }

  /** A lap whose events are acknowledged as they come ends with the head in front of the last slot. */
  lemma {:induction false} TwinRun(l: Log, m: Log, past: Past, rs: seq<Record>) returns (end: Log)
    requires Twin(l, m) && CaughtUp(m, past) && past.prev == []
    requires Entries(rs) && rs != [] && |past.cur| + |rs| == LAP
    ensures Execute(l, LogAcks(rs)) == Some(end)
    ensures end.head == LAP && end.tail == 0 && Sealed(end.slots[LAP])
    decreases |rs|
  {
    PairExecuted(l, rs[0], LogAcks(rs[1..]));
    LogAckStep(m, past, rs[0]);
    TwinPair(l, m, past, rs[0]);
    end := AckOn(LogOn(l, rs[0]), 0).0;
    if |rs| > 1 {
      end := TwinRun(end, AckOn(LogOn(m, rs[0]), 0).0, past.Extend(rs[0]), rs[1..]);
    }
  }

  lemma TwinPair(l: Log, m: Log, past: Past, r: Record)
    requires Twin(l, m) && CaughtUp(m, past) && past.prev == [] && Entry(r)
    ensures var x, y := AckOn(LogOn(l, r), 0).0, AckOn(LogOn(m, r), 0).0;
      && Sealed(x.slots[LAP]) && x.head == y.head && x.tail == y.tail
      && (l.tail + 1 < LAP ==> Twin(x, y))
  {
    TwinLog(l, m, r);
    LogKeepsInv(m, past, r);
    TwinAck(LogOn(l, r), LogOn(m, r));
  }

  lemma {:induction false} PairExecuted(l: Log, r: Record, ops: seq<Op>)
    requires l.head < SLOTS && l.tail < LAP
    ensures Execute(l, [LogOp(r)] + ([AckOp(0)] + ops)) == Execute(AckOn(LogOn(l, r), 0).0, ops)
  {
    var more := [AckOp(0)] + ops;
    assert more[0] == AckOp(0) && more[1..] == ops;
    assert ([LogOp(r)] + more)[0] == LogOp(r) && ([LogOp(r)] + more)[1..] == more;
  }

  lemma {:induction false} ExecuteAppend(l: Log, x: seq<Op>, y: seq<Op>)
    requires Execute(l, x).Some?
    ensures Execute(l, x + y) == Execute(Execute(l, x).value, y)
    decreases |x|
  {
    if x == [] {
      assert x + y == y;
    } else {
      assert (x + y)[0] == x[0] && (x + y)[1..] == x[1..] + y;
      ExecuteAppend(Apply(l, x[0]), x[1..], y);
    }
  }

  /** One more acknowledgement takes the record in the last slot for an event, and erases its sector. */
  lemma {:induction false} LastSectorErased(l: Log, lap: seq<Record>)
    requires l.head == LAP && l.tail == 0 && Sealed(l.slots[LAP]) && |lap| == LAP && Entries(lap)
    ensures Execute(l, [AckOp(0)]).Some? && !HeldBack(Execute(l, [AckOp(0)]).value, lap, 1)
  {
    assert [AckOp(0)][1..] == [];
    var after := AckOn(l, 0).0;
    assert after.slots[LAP - 1] == Blank();
    BlankIsNoRecord();
    if Holds(Blank(), lap[LAP - 1]) {
      HoldsFacts(Blank(), lap[LAP - 1]);
    }
  }

  lemma {:induction false} LogAcksLogged(rs: seq<Record>)
    ensures Logged(LogAcks(rs) + [AckOp(0)]) == rs
  {
    if rs == [] {
      assert LogAcks(rs) + [AckOp(0)] == [AckOp(0)] && [AckOp(0)][1..] == [];
    } else {
      var rest := LogAcks(rs[1..]) + [AckOp(0)];
      LogAcksLogged(rs[1..]);
      assert LogAcks(rs) + [AckOp(0)] == [LogOp(rs[0])] + ([AckOp(0)] + rest);
      assert ([LogOp(rs[0])] + ([AckOp(0)] + rest))[1..] == [AckOp(0)] + rest && ([AckOp(0)] + rest)[1..] == rest;
      assert [rs[0]] + ([] + rs[1..]) == rs;
    }
  }

  lemma TwinBoot(slots: Slots)
    requires !Find(Looks(slots), 0, 0, true, false).0 && forall s :: 1 <= s < 4 ==> Uniform(slots, s)
    requires !EndQuiet(slots)
    ensures Twin(BootOn(slots).0, BootOn(Cleaned(slots)).0) && CaughtUp(BootOn(Cleaned(slots)).0, NOTHING)
  {
    CleanedIsFactory(slots);
    FirstBoot(Cleaned(slots));
    SameLapErase(slots, Cleaned(slots), 0);
  }

  lemma {:induction false} LapLosesSector(l: Log, m: Log, lap: seq<Record>)
    requires Twin(l, m) && CaughtUp(m, NOTHING) && Entries(lap) && |lap| == LAP
    ensures var end := Execute(l, LogAcks(lap) + [AckOp(0)]); end.Some? && !HeldBack(end.value, lap, 1)
  {
    var end := TwinRun(l, m, NOTHING, lap);
    ExecuteAppend(l, LogAcks(lap), [AckOp(0)]);
    LastSectorErased(end, lap);
  }

  lemma {:induction false} LastSectorLost(slots: Slots, lap: seq<Record>)
    requires !Find(Looks(slots), 0, 0, true, false).0 && Entries(lap) && |lap| == LAP
    requires forall s :: 1 <= s < 4 ==> Uniform(slots, s)
    requires !EndQuiet(slots)
    ensures AllLegal(LogAcks(lap) + [AckOp(0)]) && Logged(LogAcks(lap) + [AckOp(0)]) == lap
    ensures !Retains(slots, LogAcks(lap) + [AckOp(0)], 1)
  {
    TwinBoot(slots);
    LapLosesSector(BootOn(slots).0, BootOn(Cleaned(slots)).0, lap);
    LogAcksLogged(lap);
  }

  /** On a chip without records whose later sectors are clean as far as a lap uses them, every run retains
      the newest events exactly if the slot behind the lap does not read as a record, or will be erased. */
  lemma AlwaysRetainsIff(slots: Slots, r: Record)
    requires !Find(Looks(slots), 0, 0, true, false).0 && Entry(r)
    requires forall s :: 1 <= s < 4 ==> Uniform(slots, s)
    ensures AlwaysRetains(slots) <==> EndQuiet(slots)
  {
    if EndQuiet(slots) {
      FactoryRetains(slots);
    } else {
      LastSectorLost(slots, seq(LAP, _ => r));
    }
  }
}
