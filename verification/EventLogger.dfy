/** The log of the pump logger (EclipseArduino/pumpLogger/event_logger.cpp): `StateLogger` again, but
    the entries of its backup array start out as events with a valid checksum, so `clear` also stores
    the entries it has not filled. */
module EventLogger {
  import opened StateEvent
  import opened StateLog
  import StateLogger

  /** The backup array before the region is wiped: the events saved, then what it started out with. */
  function BackUp(l: Log, initial: seq<Cell>): (backUp: seq<Cell>)
    requires |initial| == BACKUPS
    ensures |backUp| == BACKUPS
  {
    Saved(l) + initial[|Saved(l)|..]
  }

  /** The restoring loop: every entry whose checksum byte is not zero, from the last one down. */
  function Restored(backUp: seq<Cell>): (cells: seq<Cell>)
    ensures |cells| <= |backUp|
  {
    if backUp == [] then []
    else Restored(backUp[1..]) + (if backUp[0][CRC] != 0 then [backUp[0]] else [])
  }

  /** `clear`. */
  function Clear(l: Log, initial: seq<Cell>): Log
    requires |initial| == BACKUPS <= |l.slots|
  {
    var kept := Restored(BackUp(l, initial));
    Log(kept + Blanks(|l.slots| - |kept|), l.under, 0, |kept|, 0)
  }

  lemma {:induction false} RestoredAll(backUp: seq<Cell>, rest: seq<Cell>)
    requires forall k :: 0 <= k < |backUp| ==> backUp[k][CRC] != 0
    ensures Restored(backUp + rest) == Restored(rest) + Reverse(backUp)
    decreases |backUp|
  {
    if backUp == [] {
      assert backUp + rest == rest;
      assert Restored(rest) + [] == Restored(rest);
    } else {
      assert (backUp + rest)[1..] == backUp[1..] + rest;
      RestoredAll(backUp[1..], rest);
      Regroup(Restored(rest), Reverse(backUp[1..]), [backUp[0]]);
    }
  }

  lemma Regroup(a: seq<Cell>, b: seq<Cell>, c: seq<Cell>)
    ensures (a + b) + c == a + (b + c)
  {}

  lemma {:induction false} RestoredNone(rest: seq<Cell>)
    requires forall k :: 0 <= k < |rest| ==> rest[k][CRC] == 0
    ensures Restored(rest) == []
    decreases |rest|
  {
    if rest != [] {
      RestoredNone(rest[1..]);
    }
  }

  lemma {:induction false} SavedChecked(slots: seq<Cell>, under: seq<Cell>, i: int, n: nat)
    ensures forall k :: 0 <= k < |Collect(slots, under, Stops, i, n)| ==>
      Collect(slots, under, Stops, i, n)[k][CRC] != 0
    decreases n
  {
    if n > 0 && Has(slots, under, i) && !Stops(At(slots, under, i)) {
      SavedChecked(slots, under, i - 1, n - 1);
    }
  }

  lemma SavedLive(l: Log)
    ensures forall k :: 0 <= k < |Saved(l)| ==> Saved(l)[k][CRC] != 0
  {
    SavedChecked(l.slots, l.under, l.tail - 1, BACKUPS);
  }

  /** What the backup array of the other logger starts out with. */
  function NoEvents(): (initial: seq<Cell>)
    ensures |initial| == BACKUPS && forall k :: 0 <= k < BACKUPS ==> initial[k] == StateLogger.NO_EVENT
  {
    seq(BACKUPS, _ => StateLogger.NO_EVENT)
  }

  lemma RestoredSaved(l: Log)
    ensures Restored(BackUp(l, NoEvents())) == Reverse(Saved(l))
  {
    SavedLive(l);
    RestoredFront(Saved(l), NoEvents()[|Saved(l)|..]);
  }

  lemma {:induction false} RestoredFront(saved: seq<Cell>, rest: seq<Cell>)
    requires forall k :: 0 <= k < |saved| ==> saved[k][CRC] != 0
    requires forall k :: 0 <= k < |rest| ==> rest[k][CRC] == 0
    ensures Restored(saved + rest) == Reverse(saved)
  {
    RestoredAll(saved, rest);
    RestoredNone(rest);
    assert [] + Reverse(saved) == Reverse(saved);
  }

  /** With entries that start out as "no event" this is the other logger's `clear`. */
  lemma NoEventClears(l: Log)
    requires BACKUPS <= |l.slots|
    ensures Clear(l, NoEvents()) == ClearOn(l)
  {
    RestoredSaved(l);
  }

  predicate Events(cells: seq<Cell>) { forall k :: 0 <= k < |cells| ==> Storable(cells[k]) }

  /** With entries that start out as events, the unfilled ones are pending afterwards, in front of the
      events that were kept. */
  lemma ClearMakesUp(l: Log, initial: seq<Cell>)
    requires Inv(l) && StopsAtBottom(l) && |initial| == BACKUPS && Events(initial)
    ensures var after := Clear(l, initial);
      && Inv(after)
      && Pending(after) == Reverse(initial[|Newest(l)|..]) + Newest(l)
  {
    PendingLive(l);
    BackupIsNewest(l);
    SavedLive(l);
    var n := |Saved(l)|;
    assert |Newest(l)| == n;
    var unfilled := initial[n..];
    forall k | 0 <= k < |unfilled|
      ensures unfilled[k][CRC] != 0
    {
      assert Storable(initial[n + k]);
    }
    RestoredAll(Saved(l), unfilled);
    RestoredAll(unfilled, []);
    assert unfilled + [] == unfilled;
    assert [] + Reverse(unfilled) == Reverse(unfilled);
    var kept := Reverse(unfilled) + Newest(l);
    KeptStorable(l, unfilled);
    var after := Clear(l, initial);
    assert after.slots == kept + Blanks(|l.slots| - |kept|) && |kept| == BACKUPS;
    assert after.slots[..|kept|] == kept;
    forall i | 0 <= i < |kept|
      ensures Waiting(after.slots[i])
    {
      assert after.slots[i] == kept[i];
    }
  }

  lemma {:induction false} KeptStorable(l: Log, unfilled: seq<Cell>)
    requires Inv(l) && Events(unfilled)
    ensures Events(Reverse(unfilled) + Newest(l))
  {
    forall j | 0 <= j < |unfilled|
      ensures Storable(Reverse(unfilled)[j])
    {
      StateLogger.ReverseAt(unfilled, j);
    }
    forall j | 0 <= j < |Newest(l)|
      ensures Storable(Newest(l)[j])
    {
      assert Newest(l)[j] == l.slots[l.tail - |Newest(l)| + j];
      assert Waiting(l.slots[l.tail - |Newest(l)| + j]);
    }
  }

  /** So compaction keeps exactly the newest pending events if and only if there are enough of them to
      fill the backup; otherwise it makes events up. */
  lemma ClearIsCompactionIff(l: Log, initial: seq<Cell>)
    requires Inv(l) && StopsAtBottom(l) && |initial| == BACKUPS && Events(initial)
    ensures Clear(l, initial) == Compacted(l) <==> |Pending(l)| >= BACKUPS
  {
    ClearMakesUp(l, initial);
    CompactedInv(l);
    if |Pending(l)| >= BACKUPS {
      assert Pending(Clear(l, initial)) == [] + Newest(l) == Newest(l);
    }
  }

  /** What the backup array of either logger starts out with. */
  predicate Initial(initial: seq<Cell>) {
    |initial| == BACKUPS && (Events(initial) || initial == NoEvents())
  }

  /** `log`, of either logger. */
  function LogWith(l: Log, initial: seq<Cell>, e: Cell): Log
    requires |initial| == BACKUPS < |l.slots|
  {
    var room := if l.tail + 1 >= |l.slots| then Clear(l, initial) else l;
    room.(slots := room.slots[room.tail := e], tail := room.tail + 1)
  }

  /** The events it makes up. */
  function Made(l: Log, initial: seq<Cell>): seq<Cell>
    requires Inv(l) && |initial| == BACKUPS
  {
    if l.tail + 1 >= |l.slots| && Events(initial) then Reverse(initial[|Newest(l)|..]) else []
  }

  /** `log` makes nothing up exactly if it need not clear, if sixteen events or more are pending, or if
      it is the other logger. */
  lemma MakesNothingIff(l: Log, initial: seq<Cell>)
    requires Inv(l) && Initial(initial)
    ensures Made(l, initial) == [] <==> l.tail + 1 < |l.slots| || |Pending(l)| >= BACKUPS || initial == NoEvents()
  {
    assert |Reverse(initial[|Newest(l)|..])| == BACKUPS - |Newest(l)|;
    if initial == NoEvents() {
      assert !Storable(initial[0]);
    }
  }

  lemma LogWithNothing(l: Log, e: Cell)
    requires Inv(l) && Storable(e)
    ensures Inv(LogWith(l, NoEvents(), e)) && LogWith(l, NoEvents(), e) == LogOn(l, e)
    ensures Made(l, NoEvents()) == [] && Pending(LogWith(l, NoEvents(), e)) == Made(l, NoEvents()) + Kept(l) + [e]
  {
    assert !Storable(NoEvents()[0]);
    NoEventClears(l);
    StateLog.LogKeepsInv(l, e);
    assert [] + Kept(l) == Kept(l);
  }

  /** Logging leaves a blank cell inside the EEPROM; pending are the events made up, those kept, and the
      new one. */
  lemma LogKeepsInv(l: Log, initial: seq<Cell>, e: Cell)
    requires Inv(l) && Initial(initial) && Storable(e)
    ensures Inv(LogWith(l, initial, e))
    ensures Pending(LogWith(l, initial, e)) == Made(l, initial) + Kept(l) + [e]
    ensures initial == NoEvents() ==> LogWith(l, initial, e) == LogOn(l, e) && Made(l, initial) == []
  {
    if initial == NoEvents() {
      LogWithNothing(l, e);
    } else if l.tail + 1 >= |l.slots| {
      FullStopsAtBottom(l);
      ClearMakesUp(l, initial);
      AppendKeepsInv(Clear(l, initial), e);
    } else {
      AppendKeepsInv(l, e);
      assert [] + Kept(l) == Kept(l);
    }
  }
}
