/** What a boot of the flash log (loggerFirmware/src/log.cpp) finds when power has failed after an event was
    programmed and before the tail moved on: line 90 done, the erases of lines 181 and 196 not. */
module FlashPower {
  import opened FlashEvent
  import opened FlashRing
  import opened FlashRuns
  import opened FlashAcks

  // ----- Chips that were blank -----

  predicate BlankChip(slots: Slots) { forall i :: 0 <= i < SLOTS ==> slots[i] == Blank() }

  /** What stays of that: the slot behind the lap, and on the first lap the slots ahead. */
  predicate BlankAhead(slots: Slots, past: Past) {
    slots[LAP] == Blank() && (past.prev == [] ==> forall i :: |past.cur| <= i < SLOTS ==> slots[i] == Blank())
  }

  lemma LogKeepsBlank(l: Log, past: Past, r: Record)
    requires Inv(l, past) && BlankAhead(l.slots, past) && Entry(r)
    ensures BlankAhead(LogOn(l, r).slots, past.Extend(r))
  {
    Programmed(l, past, r);
    if l.tail + 2 >= SLOTS {
      assert past.Extend(r).prev != [];
    } else if (l.tail + 1) % PER_SECTOR == 0 {
      OneWrittenCrossing(l, past, r);
    } else {
      OneWrittenInside(l, past, r);
    }
  }

  lemma ApplyKeepsBlank(l: Log, past: Past, op: Op)
    requires Inv(l, past) && BlankAhead(l.slots, past) && Legal(op)
    ensures BlankAhead(Apply(l, op).slots, Grow(past, op))
  {
    match op
    case LogOp(r) => LogKeepsBlank(l, past, r);
    case AckOp(logTime) =>
      AckKeepsInv(l, past, logTime);
      if AckOn(l, logTime).1 {
        SealedSlotHolds(l, past, l.head);
      }
    case Reboot => BootRecovers(l, past);
  }

  lemma {:induction false} RunKeepsBlank(l: Log, past: Past, ops: seq<Op>)
    requires Inv(l, past) && BlankAhead(l.slots, past) && AllLegal(ops)
    ensures BlankAhead(Run(l, past, ops).0.slots, Run(l, past, ops).1)
    decreases |ops|
  {
    if ops != [] {
      assert Legal(ops[0]);
      ApplyKeepsInv(l, past, ops[0]);
      ApplyKeepsBlank(l, past, ops[0]);
      RunKeepsBlank(Apply(l, ops[0]), Grow(past, ops[0]), ops[1..]);
    }
  }

  lemma BlankChipIsFactory(slots: Slots)
    requires BlankChip(slots)
    ensures Factory(slots) && BlankAhead(BootOn(slots).0.slots, NOTHING)
  {
    BlankIsNoRecord();
    assert Looks(slots)[0].end;
  }

  /** Every state a run from a blank chip reaches. */
  lemma ReachedBlank(slots: Slots, ops: seq<Op>)
    requires BlankChip(slots) && AllLegal(ops)
    ensures Factory(slots) && BlankAhead(Reached(slots, ops).0.slots, Reached(slots, ops).1)
  {
    BlankChipIsFactory(slots);
    FirstBoot(slots);
    RunKeepsBlank(BootOn(slots).0, NOTHING, ops);
  }

  // ----- Power fails -----

  /** The flash after the program. */
  function Torn(l: Log, r: Record): Slots
    requires l.tail < SLOTS
  {
    ProgramSlot(l.slots, l.tail, r)
  }

  /** An erase follows: at the end of a lap, and where a later lap enters a sector. */
  predicate EraseDue(past: Past) {
    |past.cur| + 1 == LAP || (past.prev != [] && (|past.cur| + 1) % PER_SECTOR == 0)
  }

  /** Where none does, the flash is what it would have been anyway, and a boot recovers from it as from any
      other reboot. */
  lemma NothingTorn(l: Log, past: Past, r: Record)
    requires Inv(l, past) && BlankAhead(l.slots, past) && Entry(r) && !EraseDue(past)
    ensures Torn(l, r) == LogOn(l, r).slots
  {
    Programmed(l, past, r);
  }

  /** Where one does, all slots of a lap hold events. */
  lemma TornHolds(l: Log, past: Past, r: Record, i: nat)
    requires Inv(l, past) && Entry(r) && EraseDue(past) && i < LAP
    ensures !LookAt(Torn(l, r)[i]).end && LookAt(Torn(l, r)[i]).valid
  {
    Programmed(l, past, r);
    var e := if i < l.tail then past.cur[i] else if i == l.tail then r else past.prev[i];
    assert Holds(Torn(l, r)[i], e);
    HoldsFacts(Torn(l, r)[i], e);
  }

  lemma TornFilled(l: Log, past: Past, r: Record)
    requires Inv(l, past) && BlankAhead(l.slots, past) && Entry(r) && EraseDue(past)
    ensures Torn(l, r)[LAP] == Blank() && Filled(Looks(Torn(l, r)), 0, LAP)
  {
    BlankIsNoRecord();
    forall i | 0 <= i < LAP
      ensures !LookAt(Torn(l, r)[i]).end && LookAt(Torn(l, r)[i]).valid
    {
      TornHolds(l, past, r, i);
    }
  }

  /** The boot then takes the slot behind the lap for the tail, and numbers on after the one before it. */
  lemma TornBoot(l: Log, past: Past, r: Record)
    requires Inv(l, past) && BlankAhead(l.slots, past) && Entry(r) && EraseDue(past)
    ensures var (booted, sequence) := BootOn(Torn(l, r));
      && booted.slots == Torn(l, r) && booted.tail == LAP && booted.head <= LAP
      && sequence == After(Torn(l, r)[LAP - 1])
  {
    var looks := Looks(Torn(l, r));
    TornFilled(l, past, r);
    FindPending(looks, 0, 0, LAP);
    FindTail(looks, Find(looks, 0, 0, true, true).1, Find(looks, 0, 0, true, true).1, LAP);
  }

  /** So power that fails there is survived exactly if no erase was due. */
  lemma TornRecoveredIff(l: Log, past: Past, r: Record)
    requires Inv(l, past) && BlankAhead(l.slots, past) && Entry(r)
    ensures BootOn(Torn(l, r)).0.tail == LogOn(l, r).tail <==> !EraseDue(past)
  {
    LogKeepsInv(l, past, r);
    if EraseDue(past) {
      TornBoot(l, past, r);
    } else {
      NothingTorn(l, past, r);
      BootRecovers(LogOn(l, r), past.Extend(r));
    }
  }

  lemma LogBehindLap(l: Log, next: Record)
    requires l.tail == LAP && l.slots[LAP] == Blank() && Entry(next)
    ensures var after := LogOn(l, next);
      && after.tail == 0 && after.slots[LAP] == next
      && (forall i :: 0 <= i < PER_SECTOR ==> after.slots[i] == Blank())
      && (forall i :: PER_SECTOR <= i < LAP ==> after.slots[i] == l.slots[i])
  {
    ProgramBlank(next);
    assert SectorEnd(0) == PER_SECTOR;
    var after := LogOn(l, next).slots;
    forall i | 0 <= i < SLOTS
      ensures after[i] == if i < PER_SECTOR then Blank() else if i == LAP then next else l.slots[i]
    {
      InSector(0, i, PER_SECTOR);
    }
  }

  /** Otherwise the next event goes behind the lap, and the first sector is erased, wherever the writer
      was. */
  lemma TornThenLog(l: Log, past: Past, r: Record, next: Record)
    requires Inv(l, past) && BlankAhead(l.slots, past) && Entry(r) && Entry(next) && EraseDue(past)
    ensures var after := LogOn(BootOn(Torn(l, r)).0, next);
      && after.tail == 0 && after.slots[LAP] == next
      && (forall i :: 0 <= i < PER_SECTOR ==> after.slots[i] == Blank())
      && (forall i :: PER_SECTOR <= i < LAP ==> after.slots[i] == Torn(l, r)[i])
  {
    TornBoot(l, past, r);
    TornFilled(l, past, r);
    LogBehindLap(BootOn(Torn(l, r)).0, next);
  }

  /** For example: power fails at the end of the first sector of the second lap. The event just programmed,
      the newest of all, is in no slot after the next one. */
  lemma NewestLost(slots: Slots, lap: seq<Record>, more: seq<Record>, r: Record, next: Record)
    requires BlankChip(slots) && Entries(lap) && Entries(more) && |lap| == LAP && |more| + 1 == PER_SECTOR
    requires Entry(r) && Entry(next) && Sequence(next) != Sequence(r)
    requires forall i :: 0 <= i < LAP ==> Sequence(lap[i]) != Sequence(r)
    ensures Factory(slots) && AllLegal(Logs(lap) + Logs(more))
    ensures var after := LogOn(BootOn(Torn(Reached(slots, Logs(lap) + Logs(more)).0, r)).0, next);
      forall i :: 0 <= i < SLOTS ==> !Holds(after.slots[i], r)
  {
    BlankChipIsFactory(slots);
    FirstBoot(slots);
    LapAndMore(BootOn(slots).0, lap, more);
    ReachedBlank(slots, Logs(lap) + Logs(more));
    GoneFrom(Reached(slots, Logs(lap) + Logs(more)).0, lap, more, r, next);
  }

  lemma {:induction false} LapAndMore(l: Log, lap: seq<Record>, more: seq<Record>)
    requires Inv(l, NOTHING) && l.head == 0 && Entries(lap) && Entries(more) && |lap| == LAP && |more| < LAP
    ensures AllLegal(Logs(lap) + Logs(more)) && Run(l, NOTHING, Logs(lap) + Logs(more)).1 == Past([], lap, more)
  {
    UnacknowledgedLap(l, lap);
    LogsAfter(l, NOTHING, Logs(lap), more);
    assert [] + more == more;
  }

  lemma GoneFrom(l: Log, lap: seq<Record>, more: seq<Record>, r: Record, next: Record)
    requires Inv(l, Past([], lap, more)) && BlankAhead(l.slots, Past([], lap, more))
    requires |lap| == LAP && |more| + 1 == PER_SECTOR && Entry(r) && Entry(next) && Sequence(next) != Sequence(r)
    requires forall i :: 0 <= i < LAP ==> Sequence(lap[i]) != Sequence(r)
    ensures var after := LogOn(BootOn(Torn(l, r)).0, next); forall i :: 0 <= i < SLOTS ==> !Holds(after.slots[i], r)
  {
    var torn := Torn(l, r);
    TornThenLog(l, Past([], lap, more), r, next);
    forall i | PER_SECTOR <= i < LAP
      ensures !Holds(torn[i], r)
    {
      PreviousNotHeld(l, lap, more, r, i);
    }
    NowhereHeld(torn, LogOn(BootOn(torn).0, next).slots, r, next);
  }

  lemma NowhereHeld(torn: Slots, after: Slots, r: Record, next: Record)
    requires Entry(r) && Entry(next) && Sequence(next) != Sequence(r) && after[LAP] == next
    requires forall i :: 0 <= i < PER_SECTOR ==> after[i] == Blank()
    requires forall i :: PER_SECTOR <= i < LAP ==> after[i] == torn[i] && !Holds(torn[i], r)
    ensures forall i :: 0 <= i < SLOTS ==> !Holds(after[i], r)
  {
    NotBlank(r);
    NotHeld(next, next, r);
  }

  lemma PreviousNotHeld(l: Log, lap: seq<Record>, more: seq<Record>, r: Record, i: nat)
    requires Inv(l, Past([], lap, more)) && |lap| == LAP && |more| + 1 == PER_SECTOR <= i < LAP
    requires Entry(r) && Sequence(lap[i]) != Sequence(r)
    ensures !Holds(Torn(l, r)[i], r)
  {
    PreviousHeld(l, Past([], lap, more), i);
    NotHeld(l.slots[i], lap[i], r);
  }

  lemma PreviousHeld(l: Log, past: Past, i: nat)
    requires Inv(l, past) && past.prev != [] && |past.cur| + 1 == PER_SECTOR <= i < LAP
    ensures Entry(past.prev[i]) && Holds(l.slots[i], past.prev[i])
  {
    assert SectorEnd(|past.cur|) == PER_SECTOR;
  }

  lemma NotBlank(r: Record)
    requires Entry(r)
    ensures !Holds(Blank(), r)
  {
    if Holds(Blank(), r) {
      HoldsFacts(Blank(), r);
    }
  }

  lemma NotHeld(slot: Record, e: Record, r: Record)
    requires Entry(e) && Entry(r) && Holds(slot, e) && Sequence(e) != Sequence(r)
    ensures !Holds(slot, r)
  {
    HeldSequence(slot, e);
    if Holds(slot, r) {
      HeldSequence(slot, r);
    }
  }
}
