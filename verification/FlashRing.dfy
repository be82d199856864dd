/** The circular log of loggerFirmware/src/log.cpp at the level of slots: 8192 slots of 32 bytes
    in four 64 KiB sectors of NOR flash, and what every operation does to them. */
module FlashRing {
  import opened SignedTimes
  import opened FlashEvent

  const SLOTS: nat := 8192
  const PER_SECTOR: nat := 2048

  /** The slots a lap uses; the last slot of the region is never written. */
  const LAP: nat := 8191

  type Slots = s: seq<Record> | |s| == SLOTS witness seq(SLOTS, _ => Blank())

  datatype Log = Log(slots: Slots, head: nat, tail: nat, read: nat)

  // ----- Operations -----

  function EraseSectorOf(slots: Slots, i: nat): Slots
    requires i < SLOTS
  {
    seq(SLOTS, k requires 0 <= k < SLOTS => if k / PER_SECTOR == i / PER_SECTOR then Blank() else slots[k])
  }

  function ProgramSlot(slots: Slots, i: nat, r: Record): Slots
    requires i < SLOTS
  {
    slots[i := AndRecords(slots[i], r)]
  }

  /** `inc_curr_addr`. */
  function Advance(slots: Slots, tail: nat): (Slots, nat)
    requires tail < SLOTS
  {
    if tail + 2 >= SLOTS then (EraseSectorOf(slots, 0), 0)
    else if (tail + 1) % PER_SECTOR == 0 && slots[tail + 1] != Blank() then (EraseSectorOf(slots, tail + 1), tail + 1)
    else (slots, tail + 1)
  }

  /** `logEvent`. */
  function LogOn(l: Log, r: Record): Log
    requires l.tail < SLOTS
  {
    var next := Advance(ProgramSlot(l.slots, l.tail, r), l.tail);
    l.(slots := next.0, tail := next.1)
  }

  /** Whether `acknowledge(logTime)` accepts this record: zero stands for no limit. */
  predicate InTime(r: Record, logTime: bv32) {
    logTime == 0 || TimeAtMost(TimeStamp(r), logTime)
  }

  lemma InTimeIff(r: Record, logTime: bv32)
    ensures InTime(r, logTime) <==> logTime == 0 || Signed(TimeStamp(r)) <= Signed(logTime)
  {
    TimesOrdered(TimeStamp(r), logTime);
  }

  /** `acknowledge`. */
  function AckOn(l: Log, logTime: bv32): (Log, bool)
    requires l.head < SLOTS
  {
    var r := l.slots[l.head];
    if !Sealed(r) || !InTime(r, logTime) then (l.(read := l.head), false)
    else
      var marked := ProgramSlot(l.slots, l.head, Marked(r));
      var slots := if l.head + 2 > SLOTS then EraseSectorOf(marked, l.head) else marked;
      (Log(slots, l.head + 1, l.tail, l.head), true)
  }

  /** What a scan sees of a slot: the end mark (sequence 0xFFFFFFFF), `isValid`, `isProcessed`. */
  datatype Look = Look(end: bool, valid: bool, processed: bool)

  function LookAt(r: Record): Look {
    Look(Sequence(r) == NO_SEQUENCE, IsValid(r), Processed(r))
  }

  function Looks(slots: Slots): (looks: seq<Look>)
    ensures |looks| == SLOTS
    ensures forall i :: 0 <= i < SLOTS ==> looks[i] == LookAt(slots[i])
  {
    seq(SLOTS, i requires 0 <= i < SLOTS => LookAt(slots[i]))
  }

  /** `find_entry`, from its loop position `curr` on: whether it found a record, and where it
      stopped. */
  function Find(looks: seq<Look>, start: nat, curr: nat, valid: bool, pendingOnly: bool): (r: (bool, nat))
    requires |looks| == SLOTS && start < SLOTS && curr < SLOTS
    ensures r.1 < SLOTS
    decreases if curr >= start then SLOTS - (curr - start) else start - curr
  {
    if looks[curr].end then (false, curr)
    else if looks[curr].valid == valid && (!pendingOnly || !looks[curr].processed) then (true, curr)
    else
      var next := if curr + 1 >= SLOTS then 0 else curr + 1;
      if next == start then (false, curr) else Find(looks, start, next, valid, pendingOnly)
  }

  /** `set_sequence`. */
  function NextSequence(slots: Slots, tail: nat): bv32
    requires tail < SLOTS
  {
    Sequence(slots[if tail == 0 then SLOTS - 1 else tail - 1]) + 1
  }

  /** The constructor: the log it builds on these slots and the next sequence number. */
  function BootOn(slots: Slots): (Log, bv32) {
    var looks := Looks(slots);
    var first := Find(looks, 0, 0, true, false);
    if first.0 then
      var head := Find(looks, first.1, first.1, true, true).1;
      var tail := Find(looks, head, head, false, false).1;
      var after := if slots[tail] == Blank() then slots else EraseSectorOf(slots, tail);
      (Log(after, head, tail, head), NextSequence(slots, tail))
    else
      (Log(EraseSectorOf(slots, 0), 0, 0, 0), 0)
  }

  /** `readNext`. */
  function ReadNextOn(l: Log): (Log, bool)
    requires l.read < SLOTS
  {
    if l.read == l.tail then (l, false)
    else
      var read := if l.read + 2 >= SLOTS then 0 else l.read + 1;
      (l.(read := read), read != l.tail)
  }

  // ----- History -----

  /** The events ever logged, by lap: laps whose slots are gone, the previous lap, this lap. */
  datatype Past = Past(older: seq<Record>, prev: seq<Record>, cur: seq<Record>) {
    function All(): seq<Record> { older + prev + cur }

    function Extend(r: Record): Past {
      if |cur| + 1 == LAP then Past(older + prev, cur + [r], []) else Past(older, prev, cur + [r])
    }
  }

  /** An event as the firmware creates it. The sequence number 0xFFFFFFFF is what an erased slot
      reads as. */
  predicate Entry(r: Record) { Fresh(r) && Sequence(r) != NO_SEQUENCE }

  /** The slot holds the event, processed or not. */
  predicate Holds(slot: Record, r: Record) { slot == r || slot == Marked(r) }

  lemma HoldsFacts(slot: Record, r: Record)
    requires Entry(r) && Holds(slot, r)
    ensures Sealed(slot) && IsValid(slot) && slot != Blank() && Sequence(slot) != NO_SEQUENCE
    ensures slot[..31] == r[..31] && Sequence(slot) == Sequence(r) && TimeStamp(slot) == TimeStamp(r)
    ensures Holds(Marked(slot), r) && Processed(Marked(slot))
    ensures slot == r ==> !Processed(slot)
  {
    FreshThenMarked(r);
    BlankIsNoRecord();
    MarkSealed(slot);
    assert Marked(Marked(r)) == Marked(r) by { MarkSealed(Marked(r)); }
    assert slot[1] == r[1] && slot[2] == r[2] && slot[3] == r[3] && slot[4] == r[4];
  }

  function SectorEnd(i: nat): (e: nat)
    ensures i < e && e % PER_SECTOR == 0 && (i < SLOTS ==> e <= SLOTS)
  {
    (i / PER_SECTOR + 1) * PER_SECTOR
  }

  /** A sector that starts blank is blank, as far as a lap uses it. */
  predicate Uniform(slots: Slots, sector: nat)
    requires sector < 4
  {
    slots[sector * PER_SECTOR] == Blank() ==>
      forall i :: sector * PER_SECTOR <= i < (sector + 1) * PER_SECTOR && i < LAP ==> slots[i] == Blank()
  }

  /** The slot that is never written does not read as a record, or will be erased before a head can
      reach it. */
  predicate EndQuiet(slots: Slots) { slots[3 * PER_SECTOR] == Blank() ==> !Sealed(slots[LAP]) }

  ghost predicate Recorded(slots: Slots, past: Past) {
    && (past.older != [] ==> past.prev != [])
    && (past.prev != [] ==> |past.prev| == LAP)
    && |past.cur| < LAP
    && (forall i :: 0 <= i < |past.cur| ==> Entry(past.cur[i]) && Holds(slots[i], past.cur[i]))
    && (forall i :: 0 <= i < |past.prev| ==> Entry(past.prev[i]))
    && (past.prev != [] ==> forall i :: SectorEnd(|past.cur|) <= i < LAP ==> Holds(slots[i], past.prev[i]))
  }

  ghost predicate EndSafe(slots: Slots, past: Past) {
    if past.prev == [] && |past.cur| < 3 * PER_SECTOR then EndQuiet(slots) else !Sealed(slots[LAP])
  }

  ghost predicate Erased(slots: Slots, past: Past)
    requires |past.cur| < LAP
  {
    && (forall i :: |past.cur| <= i < SectorEnd(|past.cur|) && i < LAP ==> slots[i] == Blank())
    && (past.prev == [] ==> forall s :: |past.cur| / PER_SECTOR < s < 4 ==> Uniform(slots, s))
    && EndSafe(slots, past)
  }

  /** On the first lap the processed events are those before the head. */
  ghost predicate InOrder(l: Log, past: Past)
    requires |past.cur| < LAP
  {
    past.prev == [] ==> l.head <= l.tail && forall i :: 0 <= i < |past.cur| ==> (Processed(l.slots[i]) <==> i < l.head)
  }

  ghost predicate Inv(l: Log, past: Past) {
    && l.tail == |past.cur|
    && l.head <= LAP
    && Recorded(l.slots, past)
    && Erased(l.slots, past)
    && InOrder(l, past)
  }

  // ----- Every step keeps the invariant -----

  /** Writing safely: the tail is a slot of the lap and it is erased. */
  predicate WriteSafe(l: Log) { l.tail < LAP && l.slots[l.tail] == Blank() }

  lemma InvWriteSafe(l: Log, past: Past)
    requires Inv(l, past)
    ensures WriteSafe(l)
  {}

  /** After the event is programmed and before the tail moves. */
  lemma Programmed(l: Log, past: Past, r: Record)
    requires Inv(l, past) && Entry(r)
    ensures ProgramSlot(l.slots, l.tail, r) == l.slots[l.tail := r]
    ensures !Processed(r) && r != Blank()
  {
    ProgramBlank(r);
    HoldsFacts(r, r);
  }

  lemma InSector(i: nat, k: nat, end: nat)
    requires end == SectorEnd(i)
    ensures k / PER_SECTOR == i / PER_SECTOR <==> end - PER_SECTOR <= k < end
  {}

  /** The next sector is blank, or its first slot shows that it is not. */
  lemma NextSectorKnown(l: Log, past: Past)
    requires Inv(l, past) && l.tail + 2 < SLOTS && (l.tail + 1) % PER_SECTOR == 0
    requires l.slots[l.tail + 1] == Blank()
    ensures past.prev == []
    ensures forall i :: l.tail + 1 <= i < l.tail + 1 + PER_SECTOR && i < LAP ==> l.slots[i] == Blank()
  {
    var next := (l.tail + 1) / PER_SECTOR;
    assert SectorEnd(l.tail) == l.tail + 1 == next * PER_SECTOR;
    if past.prev != [] {
      assert Holds(l.slots[l.tail + 1], past.prev[l.tail + 1]);
      HoldsFacts(l.slots[l.tail + 1], past.prev[l.tail + 1]);
    } else {
      assert Uniform(l.slots, next);
    }
  }

  lemma LogKeepsInv(l: Log, past: Past, r: Record)
    requires Inv(l, past) && Entry(r)
    ensures Inv(LogOn(l, r), past.Extend(r))
  {
    Programmed(l, past, r);
    if l.tail + 2 >= SLOTS {
      LogAtLapEnd(l, past, r);
    } else {
      LogWithinLap(l, past, r);
    }
  }

  /** What the slots look like after an event that does not end the lap: the rest of the tail's
      sector is blank, and nothing but the tail slot and that sector has changed. */
  ghost predicate OneWritten(before: Slots, after: Slots, tail: nat, r: Record)
    requires tail + 2 < SLOTS
  {
    && after[tail] == r
    && (forall i :: 0 <= i < tail ==> after[i] == before[i])
    && (forall i :: tail < i < SectorEnd(tail + 1) && i < LAP ==> after[i] == Blank())
    && (forall i :: SectorEnd(tail + 1) <= i < SLOTS ==> after[i] == before[i])
    && (after[LAP] == Blank()
        || (after[LAP] == before[LAP] && (tail + 1 == 3 * PER_SECTOR ==> before[tail + 1] == Blank())))
  }

  lemma OneWrittenInside(l: Log, past: Past, r: Record)
    requires Inv(l, past) && l.tail + 2 < SLOTS && (l.tail + 1) % PER_SECTOR != 0
    ensures OneWritten(l.slots, l.slots[l.tail := r], l.tail, r)
  {
    assert SectorEnd(l.tail + 1) == SectorEnd(l.tail);
  }

  lemma OneWrittenCrossing(l: Log, past: Past, r: Record)
    requires Inv(l, past) && l.tail + 2 < SLOTS && (l.tail + 1) % PER_SECTOR == 0
    ensures OneWritten(l.slots, Advance(l.slots[l.tail := r], l.tail).0, l.tail, r)
  {
    var slots := l.slots[l.tail := r];
    var next := l.tail + 1;
    var end := SectorEnd(next);
    assert end == next + PER_SECTOR;
    if slots[next] == Blank() {
      NextSectorKnown(l, past);
    } else {
      forall i | 0 <= i < SLOTS
        ensures EraseSectorOf(slots, next)[i] == if next <= i < end then Blank() else slots[i]
      {
        InSector(next, i, end);
      }
    }
  }

  lemma WrittenIsRecorded(before: Slots, after: Slots, past: Past, r: Record)
    requires Recorded(before, past) && Entry(r) && |past.cur| + 2 < SLOTS
    requires OneWritten(before, after, |past.cur|, r)
    ensures Recorded(after, past.Extend(r))
  {
    var cur := past.cur + [r];
    forall i | 0 <= i < |cur|
      ensures Entry(cur[i]) && Holds(after[i], cur[i])
    {
      if i < |past.cur| {
        assert Holds(before[i], past.cur[i]);
      }
    }
    if past.prev != [] {
      forall i | SectorEnd(|cur|) <= i < LAP
        ensures Holds(after[i], past.prev[i])
      {
        LaterSectorEnd(|past.cur|);
        assert Holds(before[i], past.prev[i]);
      }
    }
  }

  lemma LaterSectorEnd(i: nat)
    ensures SectorEnd(i) <= SectorEnd(i + 1) && i / PER_SECTOR <= (i + 1) / PER_SECTOR
  {}

  lemma WrittenEndSafe(before: Slots, after: Slots, past: Past, r: Record)
    requires EndSafe(before, past) && |past.cur| + 2 < SLOTS && OneWritten(before, after, |past.cur|, r)
    ensures EndSafe(after, past.Extend(r))
  {
    WrittenEnds(before, after, |past.cur|, r);
    EndsSafe(before, after, past, r);
  }

  lemma WrittenEnds(before: Slots, after: Slots, n: nat, r: Record)
    requires n + 2 < SLOTS && OneWritten(before, after, n, r)
    ensures after[LAP] == Blank() || after[LAP] == before[LAP]
    ensures after[LAP] != Blank() && n + 1 == 3 * PER_SECTOR ==> before[3 * PER_SECTOR] == Blank()
    ensures n + 1 < 3 * PER_SECTOR ==> after[3 * PER_SECTOR] == before[3 * PER_SECTOR]
  {
    ThreeSectors(n + 1);
  }

  lemma EndsSafe(before: Slots, after: Slots, past: Past, r: Record)
    requires EndSafe(before, past) && |past.cur| + 2 < SLOTS
    requires after[LAP] == Blank() || after[LAP] == before[LAP]
    requires after[LAP] != Blank() && |past.cur| + 1 == 3 * PER_SECTOR ==> before[3 * PER_SECTOR] == Blank()
    requires |past.cur| + 1 < 3 * PER_SECTOR ==> after[3 * PER_SECTOR] == before[3 * PER_SECTOR]
    ensures EndSafe(after, past.Extend(r))
  {
    BlankIsNoRecord();
    EndKept(past.prev == [], |past.cur|, before[LAP], after[LAP], before[3 * PER_SECTOR], after[3 * PER_SECTOR]);
  }

  /** The last slot, and the first of its sector, before and after an event at slot n. */
  lemma EndKept(firstLap: bool, n: nat, end: Record, endAfter: Record, start: Record, startAfter: Record)
    requires if firstLap && n < 3 * PER_SECTOR then start == Blank() ==> !Sealed(end) else !Sealed(end)
    requires !Sealed(Blank()) && (endAfter == Blank() || endAfter == end)
    requires endAfter != Blank() && n + 1 == 3 * PER_SECTOR ==> start == Blank()
    requires n + 1 < 3 * PER_SECTOR ==> startAfter == start
    ensures if firstLap && n + 1 < 3 * PER_SECTOR then startAfter == Blank() ==> !Sealed(endAfter)
            else !Sealed(endAfter)
  {}

  lemma ThreeSectors(n: nat)
    ensures n < 3 * PER_SECTOR ==> SectorEnd(n) <= 3 * PER_SECTOR
  {}

  lemma WrittenIsErased(before: Slots, after: Slots, past: Past, r: Record)
    requires Recorded(before, past) && Erased(before, past) && |past.cur| + 2 < SLOTS
    requires OneWritten(before, after, |past.cur|, r)
    ensures Erased(after, past.Extend(r))
  {
    var tail := |past.cur|;
    LaterSectorEnd(tail);
    if past.prev == [] {
      forall s | (tail + 1) / PER_SECTOR < s < 4
        ensures Uniform(after, s)
      {
        assert Uniform(before, s);
        assert SectorEnd(tail + 1) <= s * PER_SECTOR;
      }
    }
    WrittenEndSafe(before, after, past, r);
  }

  lemma LogWithinLap(l: Log, past: Past, r: Record)
    requires Inv(l, past) && Entry(r) && !Processed(r)
    requires l.tail + 2 < SLOTS
    requires ProgramSlot(l.slots, l.tail, r) == l.slots[l.tail := r]
    ensures Inv(LogOn(l, r), past.Extend(r))
  {
    if (l.tail + 1) % PER_SECTOR == 0 {
      OneWrittenCrossing(l, past, r);
    } else {
      OneWrittenInside(l, past, r);
    }
    var after := LogOn(l, r).slots;
    assert OneWritten(l.slots, after, l.tail, r);
    WrittenIsRecorded(l.slots, after, past, r);
    WrittenIsErased(l.slots, after, past, r);
  }

  lemma LogAtLapEnd(l: Log, past: Past, r: Record)
    requires Inv(l, past) && Entry(r)
    requires l.tail + 2 >= SLOTS
    requires ProgramSlot(l.slots, l.tail, r) == l.slots[l.tail := r]
    ensures Inv(LogOn(l, r), past.Extend(r))
  {
    var slots := l.slots[l.tail := r];
    var after := LogOn(l, r);
    assert SectorEnd(l.tail) == SLOTS && SectorEnd(0) == PER_SECTOR;
    forall i | 0 <= i < SLOTS
      ensures after.slots[i] == if i < PER_SECTOR then Blank() else slots[i]
    {
      InSector(0, i, PER_SECTOR);
    }
  }

  // ----- Acknowledging -----

  /** Every slot that reads as a record holds an event of this lap or of the previous one. */
  lemma SealedSlotHolds(l: Log, past: Past, i: nat)
    requires Inv(l, past) && i < SLOTS && Sealed(l.slots[i]) && (past.prev == [] ==> i <= l.tail)
    ensures i < |past.cur| || (past.prev != [] && SectorEnd(|past.cur|) <= i < LAP)
    ensures Holds(l.slots[i], if i < |past.cur| then past.cur[i] else past.prev[i])
  {
    assert l.slots[i] != Blank() by { BlankIsNoRecord(); }
  }

  lemma MarkKeepsRecorded(slots: Slots, past: Past, i: nat)
    requires Recorded(slots, past) && i < SLOTS
    requires i < |past.cur| || (past.prev != [] && SectorEnd(|past.cur|) <= i < LAP)
    ensures Recorded(slots[i := Marked(slots[i])], past)
    ensures Sealed(slots[i]) && Processed(Marked(slots[i]))
  {
    var e := if i < |past.cur| then past.cur[i] else past.prev[i];
    HoldsFacts(slots[i], e);
    var after := slots[i := Marked(slots[i])];
    forall k | 0 <= k < |past.cur|
      ensures Holds(after[k], past.cur[k])
    {
      assert Holds(slots[k], past.cur[k]);
    }
    forall k | past.prev != [] && SectorEnd(|past.cur|) <= k < LAP
      ensures Holds(after[k], past.prev[k])
    {
      assert Holds(slots[k], past.prev[k]);
    }
  }

  lemma LaterSectorUntouched(slots: Slots, i: nat, r: Record, s: nat)
    requires i < SLOTS && i / PER_SECTOR < s < 4 && Uniform(slots, s)
    ensures Uniform(slots[i := r], s)
  {
    assert i < s * PER_SECTOR;
  }

  lemma MarkKeepsErased(slots: Slots, past: Past, i: nat, r: Record)
    requires |past.cur| < LAP && Erased(slots, past) && i < SLOTS
    requires i < |past.cur| || (past.prev != [] && SectorEnd(|past.cur|) <= i < LAP)
    ensures Erased(slots[i := r], past)
  {
    if past.prev == [] {
      var after := slots[i := r];
      forall s | |past.cur| / PER_SECTOR < s < 4
        ensures Uniform(after, s)
      {
        LaterSectorUntouched(slots, i, r, s);
      }
    }
  }

  lemma AckKeepsInv(l: Log, past: Past, logTime: bv32)
    requires Inv(l, past)
    ensures Inv(AckOn(l, logTime).0, past)
    ensures AckOn(l, logTime).1 ==>
      l.head < LAP && AckOn(l, logTime).0.slots == l.slots[l.head := Marked(l.slots[l.head])]
  {
    if AckOn(l, logTime).1 {
      SealedSlotHolds(l, past, l.head);
      ProgramMarked(l.slots[l.head]);
      MarkKeepsRecorded(l.slots, past, l.head);
      MarkKeepsErased(l.slots, past, l.head, Marked(l.slots[l.head]));
    }
  }

  // ----- Booting -----

  /** On the first boot nothing is found, a sector whose first slot is blank is blank, and the slot that
      is never written is no record. */
  predicate Factory(slots: Slots) {
    !Find(Looks(slots), 0, 0, true, false).0 && EndQuiet(slots) && forall s :: 1 <= s < 4 ==> Uniform(slots, s)
  }

  const NOTHING := Past([], [], [])

  lemma FirstBoot(slots: Slots)
    requires Factory(slots)
    ensures Inv(BootOn(slots).0, NOTHING) && BootOn(slots).1 == 0
  {
    var after := BootOn(slots).0.slots;
    assert SectorEnd(0) == PER_SECTOR;
    forall i | 0 <= i < SLOTS
      ensures after[i] == if i < PER_SECTOR then Blank() else slots[i]
    {
      InSector(0, i, PER_SECTOR);
    }
    forall s | 0 < s < 4
      ensures Uniform(after, s)
    {
      assert Uniform(slots, s);
    }
  }

  // ----- Any flash contents -----

  predicate Matches(look: Look, valid: bool, pendingOnly: bool) {
    look.valid == valid && (!pendingOnly || !look.processed)
  }

  /** A scan from the first slot stops at the first that matches, or at an end mark before it, or behind the
      last slot. */
  lemma {:induction false} FindFirst(looks: seq<Look>, curr: nat, valid: bool, pendingOnly: bool)
    requires |looks| == SLOTS && curr < SLOTS
    ensures var r := Find(looks, 0, curr, valid, pendingOnly);
      && curr <= r.1 && (forall i :: curr <= i < r.1 ==> !looks[i].end && !Matches(looks[i], valid, pendingOnly))
      && (if r.0 then !looks[r.1].end && Matches(looks[r.1], valid, pendingOnly) else
            looks[r.1].end || (r.1 == SLOTS - 1 && !Matches(looks[r.1], valid, pendingOnly)))
    decreases SLOTS - curr
  {
    if !looks[curr].end && !Matches(looks[curr], valid, pendingOnly) && curr + 1 < SLOTS {
      FindFirst(looks, curr + 1, valid, pendingOnly);
    }
  }

  /** There is a valid record with no end mark up to it. */
  predicate SomeRecord(slots: Slots) {
    exists j :: 0 <= j < SLOTS && IsValid(slots[j]) && forall i :: 0 <= i <= j ==> Sequence(slots[i]) != NO_SEQUENCE
  }

  /** Whatever the flash holds: without such a record the boot starts over. */
  lemma BootStartsOver(slots: Slots)
    requires !SomeRecord(slots)
    ensures BootOn(slots) == (Log(EraseSectorOf(slots, 0), 0, 0, 0), 0)
  {
    FirstRecord(slots, Find(Looks(slots), 0, 0, true, false));
  }

  /** With one, it numbers on after the slot before the tail it finds, and erases at most the tail's sector, and
      that only if the tail is not blank. */
  lemma BootGoesOn(slots: Slots, booted: Log, sequence: bv32)
    requires SomeRecord(slots) && (booted, sequence) == BootOn(slots)
    ensures booted.tail < SLOTS && booted.read == booted.head
    ensures booted.slots == if slots[booted.tail] == Blank() then slots else EraseSectorOf(slots, booted.tail)
    ensures sequence == NextSequence(slots, booted.tail)
  {
    var first := Find(Looks(slots), 0, 0, true, false);
    FirstRecord(slots, first);
    BootFound(slots, booted, sequence, first);
  }

  lemma NextNumber(slots: Slots, tail: nat)
    requires tail < SLOTS
    ensures NextSequence(slots, tail) == Sequence(slots[if tail == 0 then 8191 else tail - 1]) + 1
  {}

  lemma BootFound(slots: Slots, booted: Log, sequence: bv32, first: (bool, nat))
    requires first == Find(Looks(slots), 0, 0, true, false) && first.0 && (booted, sequence) == BootOn(slots)
    ensures booted.tail < SLOTS && booted.read == booted.head && sequence == NextSequence(slots, booted.tail)
    ensures booted.slots == if slots[booted.tail] == Blank() then slots else EraseSectorOf(slots, booted.tail)
  {}

  lemma FirstRecord(slots: Slots, first: (bool, nat))
    requires first == Find(Looks(slots), 0, 0, true, false)
    ensures first.0 <==> SomeRecord(slots)
  {
    var looks := Looks(slots);
    FindFirst(looks, 0, true, false);
    forall i | 0 <= i < SLOTS
      ensures looks[i].end == (Sequence(slots[i]) == NO_SEQUENCE)
      ensures Matches(looks[i], true, false) == IsValid(slots[i])
    {
      assert looks[i] == LookAt(slots[i]);
    }
    RecordFound(slots, first.0, first.1);
  }

  lemma RecordFound(slots: Slots, found: bool, at: nat)
    requires at < SLOTS && forall i :: 0 <= i < at ==> Sequence(slots[i]) != NO_SEQUENCE && !IsValid(slots[i])
    requires if found then Sequence(slots[at]) != NO_SEQUENCE && IsValid(slots[at])
             else Sequence(slots[at]) == NO_SEQUENCE || (at == SLOTS - 1 && !IsValid(slots[at]))
    ensures found <==> SomeRecord(slots)
  {}

  /** Slots `from` to `tail` hold events and the tail slot does not. */
  ghost predicate Filled(looks: seq<Look>, from: nat, tail: nat) {
    && from <= tail < SLOTS == |looks|
    && (forall i :: from <= i < tail ==> !looks[i].end && looks[i].valid)
    && looks[tail].end && !looks[tail].valid
  }

  lemma InvFilled(l: Log, past: Past)
    requires Inv(l, past)
    ensures Filled(Looks(l.slots), 0, l.tail)
  {
    BlankIsNoRecord();
    forall i | 0 <= i < l.tail
      ensures !LookAt(l.slots[i]).end && LookAt(l.slots[i]).valid
    {
      assert Holds(l.slots[i], past.cur[i]);
      HoldsFacts(l.slots[i], past.cur[i]);
    }
  }

  /** The scan for the first record that is not processed stops there, or at the tail. */
  lemma {:induction false} FindPending(looks: seq<Look>, start: nat, curr: nat, tail: nat)
    requires start <= curr && Filled(looks, curr, tail)
    ensures var r := Find(looks, start, curr, true, true);
      && curr <= r.1 <= tail && (r.0 <==> r.1 < tail)
      && (forall i :: curr <= i < r.1 ==> looks[i].processed)
      && (r.1 < tail ==> !looks[r.1].processed)
    decreases tail - curr
  {
    if curr < tail && looks[curr].processed {
      FindPending(looks, start, curr + 1, tail);
    }
  }

  /** The scan for the first slot that is not a record stops at the tail. */
  lemma {:induction false} FindTail(looks: seq<Look>, start: nat, curr: nat, tail: nat)
    requires start <= curr && Filled(looks, curr, tail)
    ensures Find(looks, start, curr, false, false) == (false, tail)
    decreases tail - curr
  {
    if curr < tail {
      FindTail(looks, start, curr + 1, tail);
    }
  }

  lemma NumberingContinues(l: Log, past: Past)
    requires Inv(l, past) && l.tail > 0
    ensures NextSequence(l.slots, l.tail) == Sequence(past.cur[|past.cur| - 1]) + 1
  {
    var last := l.tail - 1;
    HeldSequence(l.slots[last], past.cur[last]);
  }

  lemma HeldSequence(slot: Record, r: Record)
    requires Entry(r) && Holds(slot, r)
    ensures Sequence(slot) == Sequence(r)
  {
    HoldsFacts(slot, r);
  }

  lemma {:induction false} ScansOf(l: Log, past: Past, head: nat)
    requires Inv(l, past) && l.tail > 0
    requires head == Find(Looks(l.slots), 0, 0, true, true).1
    ensures Find(Looks(l.slots), 0, 0, true, false) == (true, 0)
    ensures head <= l.tail && Find(Looks(l.slots), head, head, false, false) == (false, l.tail)
    ensures forall i :: 0 <= i < head ==> Processed(l.slots[i])
    ensures head < l.tail ==> !Processed(l.slots[head])
  {
    var looks := Looks(l.slots);
    InvFilled(l, past);
    FindPending(looks, 0, 0, l.tail);
    FindTail(looks, head, head, l.tail);
    assert forall i :: 0 <= i < SLOTS ==> looks[i].processed == Processed(l.slots[i]);
  }

  /** What a boot finds in every reachable state, first lap or not: nothing is erased, the tail is the
      one that was lost, and the head is the first unprocessed event of this lap. Numbering goes on after
      the newest event of this lap; with none in this lap it starts at 0. */
  lemma BootRecovers(l: Log, past: Past)
    requires Inv(l, past)
    ensures var (booted, sequence) := BootOn(l.slots);
      && booted.slots == l.slots && booted.tail == l.tail && booted.read == booted.head <= l.tail
      && (forall i :: 0 <= i < booted.head ==> Processed(l.slots[i]))
      && (booted.head < l.tail ==> !Processed(l.slots[booted.head]))
      && sequence == if past.cur == [] then 0 else Sequence(past.cur[|past.cur| - 1]) + 1
  {
    if l.tail == 0 {
      InvFilled(l, past);
      EraseBlankSector(l.slots);
    } else {
      ScansOf(l, past, Find(Looks(l.slots), 0, 0, true, true).1);
      NumberingContinues(l, past);
    }
  }

  lemma EraseBlankSector(slots: Slots)
    requires forall i :: 0 <= i < PER_SECTOR ==> slots[i] == Blank()
    ensures EraseSectorOf(slots, 0) == slots
  {}

  lemma BootKeepsInv(l: Log, past: Past)
    requires Inv(l, past)
    ensures Inv(BootOn(l.slots).0, past)
  {
    BootRecovers(l, past);
    var booted := BootOn(l.slots).0;
    if past.prev == [] {
      FirstLapHead(l, past);
    }
  }

  /** On the first lap the head is recovered too. */
  lemma FirstLapHead(l: Log, past: Past)
    requires Inv(l, past) && past.prev == []
    ensures BootOn(l.slots).0.head == l.head
  {
    BootRecovers(l, past);
    var head := BootOn(l.slots).0.head;
    var witnesses := (l.head < l.tail && Processed(l.slots[l.head]), head < l.tail && Processed(l.slots[head]));
  }

  /** The head is recovered exactly if it is on this lap, all events of the lap before it are processed
      and the one it is at is not. On the first lap that is always so. */
  lemma HeadRecoveredIff(l: Log, past: Past)
    requires Inv(l, past)
    ensures BootOn(l.slots).0.head == l.head <==>
      && l.head <= l.tail
      && (forall i :: 0 <= i < l.head ==> Processed(l.slots[i]))
      && (l.head < l.tail ==> !Processed(l.slots[l.head]))
  {
    BootRecovers(l, past);
    var head := BootOn(l.slots).0.head;
    if l.head <= l.tail && head != l.head {
      assert if head < l.head then !Processed(l.slots[head]) else Processed(l.slots[l.head]);
    }
  }

  function Newest(past: Past): Record
    requires past.All() != []
  {
    past.All()[|past.All()| - 1]
  }

  /** The number a boot goes on with. */
  function After(r: Record): bv32 { Sequence(r) + 1 }

  lemma NumberedOnThisLap(l: Log, past: Past)
    requires Inv(l, past) && past.cur != []
    ensures BootOn(l.slots).1 == After(Newest(past))
  {
    BootRecovers(l, past);
    assert Newest(past) == past.cur[|past.cur| - 1];
  }

  lemma NumberedFromZero(l: Log, past: Past)
    requires Inv(l, past) && past.cur == [] && past.All() != []
    ensures BootOn(l.slots).1 == 0 && After(Newest(past)) != 0
  {
    BootRecovers(l, past);
    assert Newest(past) == past.prev[LAP - 1];
    assert Entry(past.prev[LAP - 1]);
    NotZero(Sequence(past.prev[LAP - 1]));
  }

  /** Numbering goes on after the newest event exactly if that event is of this lap. A boot right after
      a lap has ended starts at 0 again, whatever is in the other sectors. */
  lemma NumberingIff(l: Log, past: Past)
    requires Inv(l, past) && past.All() != []
    ensures BootOn(l.slots).1 == After(Newest(past)) <==> past.cur != []
  {
    if past.cur != [] {
      NumberedOnThisLap(l, past);
    } else {
      NumberedFromZero(l, past);
    }
  }

  lemma NotZero(n: bv32)
    ensures n != NO_SEQUENCE ==> n + 1 != 0
  {}
}
