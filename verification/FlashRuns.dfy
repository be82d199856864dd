/** What the flash log guarantees over whole runs: any interleaving of logging, acknowledging and
    reboots, through any number of laps. */
module FlashRuns {
  import opened FlashEvent
  import opened FlashRing

  datatype Op = LogOp(r: Record) | AckOp(logTime: bv32) | Reboot

  predicate Legal(op: Op) { op.LogOp? ==> Entry(op.r) }

  predicate AllLegal(ops: seq<Op>) { forall i :: 0 <= i < |ops| ==> Legal(ops[i]) }

  function Apply(l: Log, op: Op): Log
    requires l.head < SLOTS && l.tail < SLOTS
  {
    match op
    case LogOp(r) => LogOn(l, r)
    case AckOp(logTime) => AckOn(l, logTime).0
    case Reboot => BootOn(l.slots).0
  }

  function Grow(past: Past, op: Op): Past {
    if op.LogOp? then past.Extend(op.r) else past
  }

  /** The events a run logs, oldest first. */
  function Logged(ops: seq<Op>): seq<Record> {
    if ops == [] then [] else (if ops[0].LogOp? then [ops[0].r] else []) + Logged(ops[1..])
  }

  lemma ApplyKeepsInv(l: Log, past: Past, op: Op)
    requires Inv(l, past) && Legal(op)
    ensures Inv(Apply(l, op), Grow(past, op))
  {
    match op
    case LogOp(r) => LogKeepsInv(l, past, r);
    case AckOp(logTime) => AckKeepsInv(l, past, logTime);
    case Reboot => BootKeepsInv(l, past);
  }

  function PastAfter(past: Past, ops: seq<Op>): Past
    decreases |ops|
  {
    if ops == [] then past else PastAfter(Grow(past, ops[0]), ops[1..])
  }

  /** A run from a state that meets the invariant; it never leaves the invariant. */
  ghost function Run(l: Log, past: Past, ops: seq<Op>): (r: (Log, Past))
    requires Inv(l, past) && AllLegal(ops)
    ensures Inv(r.0, r.1) && r.1 == PastAfter(past, ops)
    decreases |ops|
  {
    if ops == [] then (l, past)
    else
      assert Legal(ops[0]);
      ApplyKeepsInv(l, past, ops[0]);
      Run(Apply(l, ops[0]), Grow(past, ops[0]), ops[1..])
  }

  lemma ExtendAll(past: Past, r: Record)
    ensures past.Extend(r).All() == past.All() + [r]
  {}

  lemma {:induction false} PastHolds(past: Past, ops: seq<Op>)
    ensures PastAfter(past, ops).All() == past.All() + Logged(ops)
    decreases |ops|
  {
    if ops == [] {
      assert past.All() + [] == past.All();
    } else {
      var rest := Logged(ops[1..]);
      PastHolds(Grow(past, ops[0]), ops[1..]);
      if ops[0].LogOp? {
        ExtendAll(past, ops[0].r);
        Reassociate(past.All(), ops[0].r, rest);
      } else {
        assert [] + rest == rest;
      }
    }
  }

  lemma Reassociate(before: seq<Record>, r: Record, rest: seq<Record>)
    ensures (before + [r]) + rest == before + ([r] + rest)
  {}

  /** The state a fresh chip is in after its first boot and the given run. */
  ghost function Reached(slots: Slots, ops: seq<Op>): (r: (Log, Past))
    requires Factory(slots) && AllLegal(ops)
    ensures Inv(r.0, r.1) && r.1 == PastAfter(NOTHING, ops)
  {
    FirstBoot(slots);
    Run(BootOn(slots).0, NOTHING, ops)
  }

  /** Write safety: in every reachable state the tail slot is in range and erased, and logging an
      event there stores exactly that event. */
  lemma AlwaysWriteSafe(slots: Slots, ops: seq<Op>, r: Record)
    requires Factory(slots) && Entry(r) && AllLegal(ops)
    ensures var l := Reached(slots, ops).0;
      WriteSafe(l) && LogOn(l, r).slots[l.tail] == r
  {
    var (l, past) := Reached(slots, ops);
    InvWriteSafe(l, past);
    LogKeepsInv(l, past, r);
    Programmed(l, past, r);
    StoredAtTail(l, r);
  }

  lemma StoredAtTail(l: Log, r: Record)
    requires l.tail < LAP && ProgramSlot(l.slots, l.tail, r) == l.slots[l.tail := r]
    ensures LogOn(l, r).slots[l.tail] == r
  {
    if l.tail + 2 < SLOTS && (l.tail + 1) % PER_SECTOR == 0 {
      InSector(l.tail + 1, l.tail, SectorEnd(l.tail + 1));
    } else if l.tail + 2 >= SLOTS {
      InSector(0, l.tail, PER_SECTOR);
    }
  }

  // ----- A lap that ends -----

  lemma {:induction false} RunAppend(l: Log, past: Past, x: seq<Op>, y: seq<Op>)
    requires Inv(l, past) && AllLegal(x) && AllLegal(y)
    ensures AllLegal(x + y)
    ensures Run(l, past, x + y) == Run(Run(l, past, x).0, Run(l, past, x).1, y)
    decreases |x|
  {
    if x == [] {
      assert x + y == y;
    } else {
      assert Legal(x[0]) && (x + y)[0] == x[0] && (x + y)[1..] == x[1..] + y;
      ApplyKeepsInv(l, past, x[0]);
      RunAppend(Apply(l, x[0]), Grow(past, x[0]), x[1..], y);
    }
  }

  /** Logging these events and nothing else. */
  function Logs(rs: seq<Record>): (ops: seq<Op>)
    ensures |ops| == |rs| && forall i :: 0 <= i < |ops| ==> ops[i] == LogOp(rs[i])
  {
    seq(|rs|, i requires 0 <= i < |rs| => LogOp(rs[i]))
  }

  predicate Entries(rs: seq<Record>) { forall i :: 0 <= i < |rs| ==> Entry(rs[i]) }

  lemma {:induction false} LogsNext(l: Log, past: Past, rs: seq<Record>)
    requires Inv(l, past) && Entries(rs) && rs != []
    ensures Entry(rs[0]) && Entries(rs[1..]) && AllLegal(Logs(rs)) && AllLegal(Logs(rs[1..]))
    ensures Inv(LogOn(l, rs[0]), past.Extend(rs[0]))
    ensures Run(l, past, Logs(rs)) == Run(LogOn(l, rs[0]), past.Extend(rs[0]), Logs(rs[1..]))
  {
    assert Legal(Logs(rs)[0]) && Logs(rs)[1..] == Logs(rs[1..]);
    LogKeepsInv(l, past, rs[0]);
  }

  /** A lap after more events, at most up to its end. */
  function Further(past: Past, rs: seq<Record>): Past {
    if |past.cur| + |rs| < LAP then past.(cur := past.cur + rs) else Past(past.older + past.prev, past.cur + rs, [])
  }

  lemma {:induction false} LogsPast(past: Past, rs: seq<Record>)
    requires |past.cur| < LAP && |past.cur| + |rs| <= LAP
    ensures PastAfter(past, Logs(rs)) == Further(past, rs)
    decreases |rs|
  {
    if rs == [] {
      assert past.cur + rs == past.cur;
    } else {
      assert Logs(rs)[1..] == Logs(rs[1..]);
      assert past.cur + [rs[0]] + rs[1..] == past.cur + rs;
      if |rs| > 1 {
        LogsPast(past.Extend(rs[0]), rs[1..]);
      } else {
        assert rs[1..] == [] && Logs([]) == [];
        assert PastAfter(past.Extend(rs[0]), []) == past.Extend(rs[0]);
      }
    }
  }

  /** Logging leaves the head alone. */
  lemma {:induction false} LogsRun(l: Log, past: Past, rs: seq<Record>)
    requires Inv(l, past) && Entries(rs) && |past.cur| + |rs| <= LAP
    ensures AllLegal(Logs(rs)) && Run(l, past, Logs(rs)).0.head == l.head
    ensures Run(l, past, Logs(rs)).1 == Further(past, rs)
  {
    LogsPast(past, rs);
    LogsHead(l, past, rs);
  }

  lemma {:induction false} LogsHead(l: Log, past: Past, rs: seq<Record>)
    requires Inv(l, past) && Entries(rs)
    ensures AllLegal(Logs(rs)) && Run(l, past, Logs(rs)).0.head == l.head
    decreases |rs|
  {
    if rs != [] {
      LogsNext(l, past, rs);
      LogsHead(LogOn(l, rs[0]), past.Extend(rs[0]), rs[1..]);
    }
  }

  lemma FirstSlotKept(l: Log, r: Record)
    requires 0 < l.tail && l.tail + 2 < SLOTS
    ensures LogOn(l, r).slots[0] == l.slots[0]
  {
    if (l.tail + 1) % PER_SECTOR == 0 {
      InSector(l.tail + 1, 0, SectorEnd(l.tail + 1));
    }
  }

  /** The first event of a lap stays as it was written while the others follow. */
  lemma {:induction false} FirstSlotOfLap(l: Log, past: Past, rs: seq<Record>)
    requires Inv(l, past) && Entries(rs) && 0 < |past.cur| && |past.cur| + |rs| < LAP
    ensures AllLegal(Logs(rs)) && Run(l, past, Logs(rs)).0.slots[0] == l.slots[0]
    decreases |rs|
  {
    if rs != [] {
      LogsNext(l, past, rs);
      FirstSlotKept(l, rs[0]);
      FirstSlotOfLap(LogOn(l, rs[0]), past.Extend(rs[0]), rs[1..]);
    }
  }

  /** A lap in which only the first event has been acknowledged. */
  function LapOf(lap: seq<Record>): seq<Op>
    requires lap != []
  {
    Logs(lap[..1]) + [AckOp(0)] + Logs(lap[1..])
  }

  /** A run that goes on with events, at most to the end of its lap. */
  lemma {:induction false} LogsAfter(l: Log, past: Past, ops: seq<Op>, rs: seq<Record>)
    requires Inv(l, past) && AllLegal(ops) && Entries(rs) && |Run(l, past, ops).1.cur| + |rs| <= LAP
    ensures AllLegal(ops + Logs(rs)) && Run(l, past, ops + Logs(rs)).0.head == Run(l, past, ops).0.head
    ensures Run(l, past, ops + Logs(rs)).1 == Further(Run(l, past, ops).1, rs)
    ensures Run(l, past, ops + Logs(rs)) == Run(Run(l, past, ops).0, Run(l, past, ops).1, Logs(rs))
  {
    LogsRun(Run(l, past, ops).0, Run(l, past, ops).1, rs);
    RunAppend(l, past, ops, Logs(rs));
  }

  /** At its end the head is at slot 1 and the tail at slot 0. */
  lemma LapRun(slots: Slots, lap: seq<Record>)
    requires Factory(slots) && Entries(lap) && |lap| == LAP
    ensures AllLegal(LapOf(lap))
    ensures var (l, past) := Reached(slots, LapOf(lap)); l.head == 1 && past == Past([], lap, [])
  {
    FirstBoot(slots);
    LapRunFrom(BootOn(slots).0, lap[..1], lap[1..]);
    assert lap[..1] + lap[1..] == lap;
  }

  lemma {:induction false} LapRunFrom(l: Log, first: seq<Record>, rest: seq<Record>)
    requires Inv(l, NOTHING) && l.head == 0
    requires Entries(first) && Entries(rest) && |first| == 1 && 1 + |rest| == LAP
    ensures var ops := Logs(first) + [AckOp(0)] + Logs(rest);
      && AllLegal(ops) && Run(l, NOTHING, ops).0.head == 1
      && Run(l, NOTHING, ops).1 == Past([], first + rest, [])
  {
    FirstAcked(l, first);
    LogsAfter(l, NOTHING, Logs(first) + [AckOp(0)], rest);
    LapComplete(Past([], [], first), rest);
  }

  lemma LapComplete(past: Past, rest: seq<Record>)
    requires past.older == [] && past.prev == [] && |past.cur| + |rest| == LAP
    ensures Further(past, rest) == Past([], past.cur + rest, [])
  {
    assert past.older + past.prev == [];
  }

  lemma {:induction false} FirstAcked(l0: Log, first: seq<Record>)
    requires Inv(l0, NOTHING) && l0.head == 0 && |first| == 1 && Entries(first)
    ensures AllLegal(Logs(first) + [AckOp(0)])
    ensures var (l, past) := Run(l0, NOTHING, Logs(first) + [AckOp(0)]); l.head == 1 && past == Past([], [], first)
  {
    LogsRun(l0, NOTHING, first);
    var (l1, p1) := Run(l0, NOTHING, Logs(first));
    assert [] + first == first;
    AckFirst(l1, p1);
    assert [AckOp(0)][1..] == [] && Legal([AckOp(0)][0]);
    assert Run(l1, p1, [AckOp(0)]) == (AckOn(l1, 0).0, p1);
    RunAppend(l0, NOTHING, Logs(first), [AckOp(0)]);
  }

  /** The events after such a lap: the head stays at slot 1, and the event at slot 0 is not processed. */
  lemma LapAndMoreRun(slots: Slots, lap: seq<Record>, more: seq<Record>)
    requires Factory(slots) && Entries(lap) && Entries(more) && |lap| == LAP && |more| < LAP
    ensures AllLegal(LapOf(lap) + Logs(more))
    ensures var (l, past) := Reached(slots, LapOf(lap) + Logs(more));
      && l.head == 1 && past == Past([], lap, more)
      && (more != [] ==> !Processed(l.slots[0]))
  {
    LapRun(slots, lap);
    FirstBoot(slots);
    LogsAfter(BootOn(slots).0, NOTHING, LapOf(lap), more);
    assert [] + more == more;
    if more != [] {
      FirstOfLap(Reached(slots, LapOf(lap)).0, Reached(slots, LapOf(lap)).1, more);
    }
  }

  lemma AckFirst(l: Log, past: Past)
    requires Inv(l, past) && past.prev == [] && |past.cur| == 1 && l.head == 0
    ensures Inv(AckOn(l, 0).0, past) && AckOn(l, 0).0.head == 1
  {
    AckKeepsInv(l, past, 0);
    assert Holds(l.slots[0], past.cur[0]);
    HoldsFacts(l.slots[0], past.cur[0]);
  }

  lemma {:induction false} FirstOfLap(l: Log, past: Past, more: seq<Record>)
    requires Inv(l, past) && past.cur == [] && Entries(more) && 0 < |more| < LAP
    ensures AllLegal(Logs(more)) && !Processed(Run(l, past, Logs(more)).0.slots[0])
  {
    LogsNext(l, past, more);
    Programmed(l, past, more[0]);
    StoredAtTail(l, more[0]);
    FirstSlotOfLap(LogOn(l, more[0]), past.Extend(more[0]), more[1..]);
  }

  /** Recovery fails behind a lap: after such a run a reboot finds the head at slot 0 instead of slot 1,
      and with nothing logged on the new lap it numbers from 0 again, though 6143 events are held. */
  lemma LapForgotten(slots: Slots, lap: seq<Record>, more: seq<Record>, k: nat)
    requires Factory(slots) && Entries(lap) && Entries(more) && |lap| == LAP && |more| < LAP && 1 <= k <= WINDOW
    ensures AllLegal(LapOf(lap) + Logs(more))
    ensures var l := Reached(slots, LapOf(lap) + Logs(more)).0;
      && l.head == 1 && BootOn(l.slots).0.head == 0
      && (more == [] ==> BootOn(l.slots).1 == 0 && After(lap[LAP - 1]) != 0)
      && HeldBack(l, lap + more, k)
  {
    LapAndMoreRun(slots, lap, more);
    Forgotten(Reached(slots, LapOf(lap) + Logs(more)).0, lap, more, k);
  }

  lemma Forgotten(l: Log, lap: seq<Record>, more: seq<Record>, k: nat)
    requires Inv(l, Past([], lap, more)) && |lap| == LAP && 1 <= k <= WINDOW
    requires more != [] ==> !Processed(l.slots[0])
    ensures BootOn(l.slots).0.head == 0 && (more == [] ==> BootOn(l.slots).1 == 0 && After(lap[LAP - 1]) != 0)
    ensures HeldBack(l, lap + more, k)
  {
    var past := Past([], lap, more);
    HeadForgotten(l, past);
    NumberForgotten(l, past);
    assert past.All() == lap + more by {
      assert [] + lap == lap;
    }
    WindowHeld(l, past, k);
  }

  lemma NumberForgotten(l: Log, past: Past)
    requires Inv(l, past) && |past.prev| == LAP
    ensures past.cur == [] ==> BootOn(l.slots).1 == 0 && After(past.prev[LAP - 1]) != 0
  {
    if past.cur == [] {
      NumberedFromZero(l, past);
      assert Newest(past) == past.prev[LAP - 1];
    }
  }

  lemma HeadForgotten(l: Log, past: Past)
    requires Inv(l, past) && (l.tail > 0 ==> !Processed(l.slots[0]))
    ensures BootOn(l.slots).0.head == 0
  {
    BootRecovers(l, past);
  }

  // ----- Retention -----

  /** Three of the four sectors, less the slot that is never used. */
  const WINDOW: nat := 6143

  /** The slot k events back from the tail. */
  function SlotBack(tail: nat, k: nat): int {
    if k <= tail then tail - k else LAP + tail - k
  }

  lemma WindowHeld(l: Log, past: Past, k: nat)
    requires Inv(l, past) && 1 <= k <= WINDOW && k <= |past.All()|
    ensures HeldBack(l, past.All(), k)
  {
    var all := past.All();
    var slot := SlotBack(l.tail, k);
    if k <= l.tail {
      assert all[|all| - k] == past.cur[slot];
    } else {
      PreviousLapInReach(l.tail, k);
      assert past.prev != [];
      assert all[|all| - k] == past.prev[slot];
    }
  }

  lemma PreviousLapInReach(tail: nat, k: nat)
    requires tail < k <= WINDOW && tail < LAP
    ensures SectorEnd(tail) <= LAP + tail - k < LAP
  {}

  /** The k-th newest of the logged events is in flash, where it belongs. */
  ghost predicate HeldBack(l: Log, logged: seq<Record>, k: nat) {
    && 1 <= k <= |logged|
    && 0 <= SlotBack(l.tail, k) < LAP
    && Holds(l.slots[SlotBack(l.tail, k)], logged[|logged| - k])
  }

  lemma {:induction false} AllLogged(past: Past, ops: seq<Op>)
    requires past == PastAfter(NOTHING, ops)
    ensures past.All() == Logged(ops)
  {
    PastHolds(NOTHING, ops);
    NothingBefore(Logged(ops));
  }

  lemma NothingBefore(logged: seq<Record>)
    ensures NOTHING.All() + logged == logged
  {}

  /** Retention: after any run, the last min(total, 6143) events logged are still in flash, in order
      going back from the tail, each unchanged but for its processed mark. */
  lemma {:induction false} Retention(slots: Slots, ops: seq<Op>, k: nat)
    requires Factory(slots) && AllLegal(ops)
    requires 1 <= k <= WINDOW && k <= |Logged(ops)|
    ensures HeldBack(Reached(slots, ops).0, Logged(ops), k)
  {
    AllLogged(Reached(slots, ops).1, ops);
    WindowHeld(Reached(slots, ops).0, Reached(slots, ops).1, k);
  }

  /** The window is no larger: when a later lap has just entered a sector, the event one further back
      is erased. */
  lemma WindowIsTight(l: Log, past: Past)
    requires Inv(l, past) && past.prev != [] && l.tail % PER_SECTOR == 0 && l.tail <= 2 * PER_SECTOR
    ensures l.slots[SlotBack(l.tail, WINDOW + 1)] == Blank()
  {}

  // ----- Reading -----

  /** Slots between the read position and the tail, in log order. */
  function Ahead(l: Log): int {
    if l.read <= l.tail then l.tail - l.read else LAP - l.read + l.tail
  }

  /** `readNext` goes round the laps as the writer does: each call moves one event on and the call
      that reaches the tail, and no earlier one, says so. */
  lemma ReadNextMovesOn(l: Log)
    requires l.read < LAP && l.tail < LAP && l.read != l.tail
    ensures var (next, more) := ReadNextOn(l);
      next.read < LAP && Ahead(next) == Ahead(l) - 1 && (more <==> Ahead(next) > 0)
  {}

  // ----- The assumption on the chip is needed -----

  /** Logging a list of events and nothing else. */
  function LogMany(l: Log, rs: seq<Record>): Log
    requires l.tail + |rs| < LAP
    decreases |rs|
  {
    if rs == [] then l else LogMany(LogOn(l, rs[0]), rs[1..])
  }

  /** Logging up to slot j leaves a sector alone that starts blank. */
  lemma {:induction false} SectorLeftAlone(l: Log, rs: seq<Record>, s: nat, j: nat)
    requires 1 <= s < 4 && s * PER_SECTOR <= j < (s + 1) * PER_SECTOR && j < LAP
    requires l.tail + |rs| == j
    requires l.tail <= s * PER_SECTOR ==> l.slots[s * PER_SECTOR] == Blank()
    ensures LogMany(l, rs).tail == j && LogMany(l, rs).slots[j] == l.slots[j]
    decreases |rs|
  {
    if rs != [] {
      var next := LogOn(l, rs[0]);
      OneLogLeavesAlone(l, rs[0], s, j);
      SectorLeftAlone(next, rs[1..], s, j);
    }
  }

  lemma OneLogLeavesAlone(l: Log, r: Record, s: nat, j: nat)
    requires 1 <= s < 4 && s * PER_SECTOR <= j < (s + 1) * PER_SECTOR && l.tail < j < LAP
    requires l.tail <= s * PER_SECTOR ==> l.slots[s * PER_SECTOR] == Blank()
    ensures var next := LogOn(l, r);
      && next.tail == l.tail + 1 && next.slots[j] == l.slots[j]
      && (next.tail <= s * PER_SECTOR ==> next.slots[s * PER_SECTOR] == Blank())
  {
    var end := SectorEnd(l.tail + 1);
    if (l.tail + 1) % PER_SECTOR == 0 {
      InSector(l.tail + 1, j, end);
      InSector(l.tail + 1, s * PER_SECTOR, end);
    }
  }

  /** Whether the n-th event logged in a row after this state is written safely. */
  predicate SafeAfter(l: Log, r: Record, n: nat)
    requires l.tail + n < LAP
  {
    WriteSafe(LogMany(l, seq(n, _ => r)))
  }

  lemma DirtySlotReached(slots: Slots, r: Record, s: nat, j: nat)
    requires !Find(Looks(slots), 0, 0, true, false).0
    requires 1 <= s < 4 && s * PER_SECTOR <= j < (s + 1) * PER_SECTOR && j < LAP
    requires slots[s * PER_SECTOR] == Blank() && slots[j] != Blank()
    ensures !SafeAfter(BootOn(slots).0, r, j)
  {
    InSector(0, j, PER_SECTOR);
    InSector(0, s * PER_SECTOR, PER_SECTOR);
    SectorLeftAlone(BootOn(slots).0, seq(j, _ => r), s, j);
  }

  lemma DirtySectorBreaks(slots: Slots, r: Record, s: nat)
    requires !Find(Looks(slots), 0, 0, true, false).0
    requires 1 <= s < 4 && !Uniform(slots, s)
    ensures exists n: nat :: n < LAP && !SafeAfter(BootOn(slots).0, r, n)
  {
    var j :| s * PER_SECTOR <= j < (s + 1) * PER_SECTOR && j < LAP && slots[j] != Blank();
    DirtySlotReached(slots, r, s, j);
  }

  /** The slots a lap uses are the same. */
  predicate SameLap(x: Slots, y: Slots) { x[..LAP] == y[..LAP] }

  lemma SameLapAt(x: Slots, y: Slots, i: nat)
    requires SameLap(x, y) && i < LAP
    ensures x[i] == y[i]
  {
    assert x[..LAP][i] == y[..LAP][i];
  }

  /** Logging never looks at the slot behind the lap. */
  lemma SameLapLog(l: Log, m: Log, r: Record)
    requires SameLap(l.slots, m.slots) && l.tail == m.tail && l.tail + 1 < LAP
    ensures SameLap(LogOn(l, r).slots, LogOn(m, r).slots) && LogOn(l, r).tail == LogOn(m, r).tail
  {
    SameLapAt(l.slots, m.slots, l.tail);
    SameLapAt(l.slots, m.slots, l.tail + 1);
    var x, y := ProgramSlot(l.slots, l.tail, r), ProgramSlot(m.slots, m.tail, r);
    assert SameLap(x, y);
    SameLapErase(x, y, l.tail + 1);
  }

  lemma SameLapErase(x: Slots, y: Slots, i: nat)
    requires SameLap(x, y) && i < SLOTS
    ensures SameLap(EraseSectorOf(x, i), EraseSectorOf(y, i))
  {
    forall k | 0 <= k < LAP
      ensures EraseSectorOf(x, i)[k] == EraseSectorOf(y, i)[k]
    {
      SameLapAt(x, y, k);
    }
  }

  lemma {:induction false} SameLapLogs(l: Log, m: Log, rs: seq<Record>)
    requires SameLap(l.slots, m.slots) && l.tail == m.tail && l.tail + |rs| < LAP
    ensures WriteSafe(LogMany(l, rs)) <==> WriteSafe(LogMany(m, rs))
    decreases |rs|
  {
    if rs == [] {
      SameLapAt(l.slots, m.slots, l.tail);
    } else {
      SameLapLog(l, m, rs[0]);
      OneLogMovesOn(l, rs[0]);
      SameLapLogs(LogOn(l, rs[0]), LogOn(m, rs[0]), rs[1..]);
    }
  }

  lemma OneLogMovesOn(l: Log, r: Record)
    requires l.tail + 1 < LAP
    ensures LogOn(l, r).tail == l.tail + 1
  {}

  /** A scan that finds nothing finds nothing with a blank slot more. */
  lemma {:induction false} FindNothing(x: seq<Look>, y: seq<Look>, curr: nat)
    requires |x| == |y| == SLOTS && curr < SLOTS && !Find(x, 0, curr, true, false).0
    requires forall i :: 0 <= i < SLOTS ==> y[i] == x[i] || y[i].end
    ensures !Find(y, 0, curr, true, false).0
    decreases SLOTS - curr
  {
    if !y[curr].end && curr + 1 < SLOTS {
      FindNothing(x, y, curr + 1);
    }
  }

  /** The chip with the slot behind the lap made blank. */
  function Cleaned(slots: Slots): Slots { slots[LAP := Blank()] }

  lemma CleanedIsFactory(slots: Slots)
    requires !Find(Looks(slots), 0, 0, true, false).0 && forall s :: 1 <= s < 4 ==> Uniform(slots, s)
    ensures Factory(Cleaned(slots)) && SameLap(slots, Cleaned(slots))
  {
    BlankIsNoRecord();
    FindNothing(Looks(slots), Looks(Cleaned(slots)), 0);
    forall s | 1 <= s < 4
      ensures Uniform(Cleaned(slots), s)
    {
      assert Uniform(slots, s);
    }
  }

  lemma CleanSectorsSafe(slots: Slots, r: Record, n: nat)
    requires !Find(Looks(slots), 0, 0, true, false).0 && Entry(r) && n < LAP
    requires forall s :: 1 <= s < 4 ==> Uniform(slots, s)
    ensures SafeAfter(BootOn(slots).0, r, n)
  {
    CleanedIsFactory(slots);
    FirstBoot(Cleaned(slots));
    LogManySafe(BootOn(Cleaned(slots)).0, NOTHING, seq(n, _ => r));
    SameLapErase(slots, Cleaned(slots), 0);
    SameLapLogs(BootOn(slots).0, BootOn(Cleaned(slots)).0, seq(n, _ => r));
  }

  /** After the first boot, logging is safe for the whole first lap exactly when every later sector
      that starts blank is blank, as far as the lap uses it. */
  lemma WriteSafeIff(slots: Slots, r: Record)
    requires !Find(Looks(slots), 0, 0, true, false).0 && Entry(r)
    ensures (forall n: nat :: n < LAP ==> SafeAfter(BootOn(slots).0, r, n))
      <==> (forall s :: 1 <= s < 4 ==> Uniform(slots, s))
  {
    if forall s :: 1 <= s < 4 ==> Uniform(slots, s) {
      forall n: nat | n < LAP
        ensures SafeAfter(BootOn(slots).0, r, n)
      {
        CleanSectorsSafe(slots, r, n);
      }
    } else {
      var s :| 1 <= s < 4 && !Uniform(slots, s);
      DirtySectorBreaks(slots, r, s);
    }
  }

  lemma {:induction false} LogManySafe(l: Log, past: Past, rs: seq<Record>)
    requires Inv(l, past) && l.tail + |rs| < LAP
    requires forall i :: 0 <= i < |rs| ==> Entry(rs[i])
    ensures WriteSafe(LogMany(l, rs))
    decreases |rs|
  {
    if rs != [] {
      LogKeepsInv(l, past, rs[0]);
      LogManySafe(LogOn(l, rs[0]), past.Extend(rs[0]), rs[1..]);
    }
  }
}
