/** The EEPROM event log (Arduino/StateLogger/StateLogger.cpp, and the same code in
    EclipseArduino/pumpLogger/event_logger.cpp) at the level of 8-byte cells. The head and tail
    live in RAM and are found again by scanning. */
module StateLog {
  import opened StateEvent

  const BACKUPS: nat := 16

  /** The log's cells, the cells below its region (nearest first), and the three positions. */
  datatype Log = Log(slots: seq<Cell>, under: seq<Cell>, head: nat, tail: nat, curr: nat)

  // ----- Operations -----

  /** What the constructor's scans ask about a cell. */
  datatype Look = Look(seen: bool, waiting: bool)

  function LookAt(c: Cell): Look { Look(Seen(c), c[ACK] == 0xFF) }

  function Looks(slots: seq<Cell>): (looks: seq<Look>)
    ensures |looks| == |slots|
  {
    if slots == [] then [] else [LookAt(slots[0])] + Looks(slots[1..])
  }

  lemma {:induction false} LooksAt(slots: seq<Cell>, i: nat)
    requires i < |slots|
    ensures Looks(slots)[i] == LookAt(slots[i])
  {
    if i > 0 {
      LooksAt(slots[1..], i - 1);
    }
  }

  /** First loop of the constructor: over acknowledged events. */
  function HeadScan(looks: seq<Look>, i: nat): (h: nat)
    requires i <= |looks|
    ensures i <= h <= |looks|
    decreases |looks| - i
  {
    if i == |looks| || !looks[i].seen || looks[i].waiting then i else HeadScan(looks, i + 1)
  }

  /** Second loop: over the remaining events. */
  function TailScan(looks: seq<Look>, i: nat): (t: nat)
    requires i <= |looks|
    ensures i <= t <= |looks|
    decreases |looks| - i
  {
    if i == |looks| || !looks[i].seen then i else TailScan(looks, i + 1)
  }

  function BootOn(slots: seq<Cell>, under: seq<Cell>): Log {
    var head := HeadScan(Looks(slots), 0);
    Log(slots, under, head, TailScan(Looks(slots), head), head)
  }

  /** What stops the backup loop of `clear`: no event, or an acknowledged one. */
  predicate Stops(c: Cell) { !Seen(c) || c[ACK] == 0 }

  predicate Has<T>(slots: seq<T>, under: seq<T>, i: int) { -|under| <= i < |slots| }

  /** Cell i, counted from the start of the region; negative numbers lie below it. */
  function At<T>(slots: seq<T>, under: seq<T>, i: int): T
    requires Has(slots, under, i)
  {
    if i >= 0 then slots[i] else under[-i - 1]
  }

  /** The cells the backup loop saves, newest first, going down from cell i. */
  function Collect<T>(slots: seq<T>, under: seq<T>, stops: T -> bool, i: int, n: nat): (saved: seq<T>)
    ensures |saved| <= n
    decreases n, slots
  {
    if n == 0 || !Has(slots, under, i) || stops(At(slots, under, i)) then []
    else [At(slots, under, i)] + Collect(slots, under, stops, i - 1, n - 1)
  }

  /** Whether that loop reads only cells of the EEPROM. */
  predicate CollectInside<T>(slots: seq<T>, under: seq<T>, stops: T -> bool, i: int, n: nat)
    decreases n, slots
  {
    n == 0 || (Has(slots, under, i) && (stops(At(slots, under, i)) || CollectInside(slots, under, stops, i - 1, n - 1)))
  }

  /** The backup, if the guard lets it happen: more than one event must be pending. */
  function Saved(l: Log): (saved: seq<Cell>)
    ensures |saved| <= BACKUPS
  {
    if l.tail > l.head + 1 then Collect(l.slots, l.under, Stops, l.tail - 1, BACKUPS) else []
  }

  predicate ClearInside(l: Log) {
    l.tail > l.head + 1 ==> CollectInside(l.slots, l.under, Stops, l.tail - 1, BACKUPS)
  }

  function Reverse<T>(s: seq<T>): (r: seq<T>)
    ensures |r| == |s|
  {
    if s == [] then [] else Reverse(s[1..]) + [s[0]]
  }

  function Blanks(n: nat): seq<Cell> { seq(n, _ => Blank()) }

  /** `clear`. */
  function ClearOn(l: Log): (r: Log)
    requires BACKUPS <= |l.slots|
    ensures |r.slots| == |l.slots|
  {
    var kept := Reverse(Saved(l));
    Log(kept + Blanks(|l.slots| - |kept|), l.under, 0, |kept|, 0)
  }

  /** A full region is cleared before an event is logged. */
  function Room(l: Log): (room: Log)
    requires BACKUPS < |l.slots|
    ensures room.tail < |room.slots| == |l.slots|
  {
    if l.tail + 1 >= |l.slots| then ClearOn(l) else l
  }

  /** `log`. */
  function LogOn(l: Log, e: Cell): Log
    requires BACKUPS < |l.slots|
  {
    var room := Room(l);
    room.(slots := room.slots[room.tail := e], tail := room.tail + 1)
  }

  /** `ack`. */
  function AckOn(l: Log): Log
    requires l.head < |l.slots|
  {
    if !Seen(l.slots[l.head]) then l
    else l.(slots := l.slots[l.head := Acked(l.slots[l.head])], head := l.head + 1)
  }

  // ----- The invariant -----

  predicate Waiting(c: Cell) { Storable(c) }

  predicate Done(c: Cell) { Seen(c) && c[ACK] == 0 }

  /** Acknowledged events, then pending events, then blank cells, at least one. */
  predicate Inv(l: Log) {
    && 18 <= |l.slots|
    && l.head <= l.tail < |l.slots|
    && (forall i :: 0 <= i < l.head ==> Done(l.slots[i]))
    && (forall i :: l.head <= i < l.tail ==> Waiting(l.slots[i]))
    && (forall i :: l.tail <= i < |l.slots| ==> l.slots[i] == Blank())
  }

  function Pending(l: Log): seq<Cell>
    requires l.head <= l.tail <= |l.slots|
  {
    l.slots[l.head..l.tail]
  }

  lemma WaitingLook(c: Cell)
    requires Waiting(c)
    ensures LookAt(c) == Look(true, true) && !Stops(c)
    ensures Done(Acked(c))
  {
    StorableIffSeen(c);
    AckedFacts(c);
  }

  // ----- Reboot -----

  /** Acknowledged cells, then waiting cells, then blank ones, with right checksums: what logging and
      acknowledging leave behind when nothing is assumed about the crc octets. */
  ghost predicate Layout(slots: seq<Cell>, head: nat, tail: nat) {
    && head <= tail < |slots|
    && (forall i :: 0 <= i < head ==> Checksum(slots[i]) == 0 && slots[i][ACK] == 0)
    && (forall i :: head <= i < tail ==> Checksum(slots[i]) == 0 && slots[i][ACK] == 0xFF)
    && (forall i :: tail <= i < |slots| ==> slots[i] == Blank())
  }

  lemma {:induction false} HeadScanStops(looks: seq<Look>, i: nat, head: nat)
    requires i <= head <= |looks|
    requires forall k :: i <= k < head ==> looks[k].seen && !looks[k].waiting
    requires head < |looks| ==> !looks[head].seen || looks[head].waiting
    ensures HeadScan(looks, i) == head
    decreases head - i
  {
    if i < head {
      HeadScanStops(looks, i + 1, head);
    }
  }

  lemma {:induction false} TailScanStops(looks: seq<Look>, i: nat, tail: nat)
    requires i <= tail <= |looks|
    requires forall k :: i <= k < tail ==> looks[k].seen
    requires tail < |looks| ==> !looks[tail].seen
    ensures TailScan(looks, i) == tail
    decreases tail - i
  {
    if i < tail {
      TailScanStops(looks, i + 1, tail);
    }
  }

  lemma {:induction false} ScansPassOnlySeen(looks: seq<Look>, i: nat, k: nat)
    requires i <= k < |looks| && !looks[k].seen
    ensures HeadScan(looks, i) <= k
    ensures TailScan(looks, i) <= k
    decreases k - i
  {
    if i < k {
      ScansPassOnlySeen(looks, i + 1, k);
    }
  }

  /** The scans of the constructor stay inside the EEPROM exactly if it holds a cell that is no event. */
  lemma ScansEndInsideIff(slots: seq<Cell>, under: seq<Cell>)
    ensures BootOn(slots, under).tail < |slots| <==> exists i :: 0 <= i < |slots| && !Seen(slots[i])
  {
    var looks := Looks(slots);
    forall i | 0 <= i < |slots|
      ensures looks[i] == LookAt(slots[i])
    {
      LooksAt(slots, i);
    }
    var head := HeadScan(looks, 0);
    TailScanEnds(looks, head);
    if exists i :: 0 <= i < |slots| && !Seen(slots[i]) {
      var i :| 0 <= i < |slots| && !Seen(slots[i]);
      ScansPassOnlySeen(looks, 0, i);
      if head <= i {
        ScansPassOnlySeen(looks, head, i);
      }
    }
  }

  lemma {:induction false} TailScanEnds(looks: seq<Look>, i: nat)
    requires i <= |looks|
    ensures TailScan(looks, i) < |looks| ==> !looks[TailScan(looks, i)].seen
    decreases |looks| - i
  {
    if i < |looks| && looks[i].seen {
      TailScanEnds(looks, i + 1);
    }
  }

  /** Rebooting finds the head and the tail again exactly when no stored event has a crc octet that
      reads as "no event". */
  lemma RebootRecoversIff(slots: seq<Cell>, under: seq<Cell>, head: nat, tail: nat)
    requires Layout(slots, head, tail)
    ensures BootOn(slots, under) == Log(slots, under, head, tail, head)
      <==> forall i :: 0 <= i < tail ==> slots[i][CRC] != 0 && slots[i] != Blank()
  {
    var looks := Looks(slots);
    BlankNotSeen();
    forall i | 0 <= i < |slots|
      ensures looks[i] == LookAt(slots[i])
    {
      LooksAt(slots, i);
    }
    assert forall i :: 0 <= i < tail ==> (Seen(slots[i]) <==> slots[i][CRC] != 0 && slots[i] != Blank());
    assert !looks[tail].seen;
    if forall i :: 0 <= i < tail ==> Seen(slots[i]) {
      assert forall i :: 0 <= i < tail ==> looks[i].seen;
      HeadScanStops(looks, 0, head);
      TailScanStops(looks, head, tail);
    } else {
      var k :| 0 <= k < tail && !Seen(slots[k]);
      assert !looks[k].seen;
      ScansPassOnlySeen(looks, 0, k);
      if head <= k {
        ScansPassOnlySeen(looks, head, k);
      }
    }
  }

  /** In every state of the invariant a reboot recovers head and tail and resets the cursor. */
  lemma RebootRecovers(l: Log)
    requires Inv(l)
    ensures BootOn(l.slots, l.under) == l.(curr := l.head)
  {
    InvLayout(l);
    RebootRecoversIff(l.slots, l.under, l.head, l.tail);
  }

  lemma InvLayout(l: Log)
    requires Inv(l)
    ensures Layout(l.slots, l.head, l.tail)
    ensures forall i :: 0 <= i < l.tail ==> Seen(l.slots[i])
  {
    forall i | 0 <= i < l.tail
      ensures Seen(l.slots[i])
    {
      if i >= l.head {
        WaitingLook(l.slots[i]);
      }
    }
  }

  // ----- Compaction -----

  /** What `clear` is meant to keep: the newest pending events, at most sixteen, and none at all when
      only one is pending (the guard compares with `>`). */
  function Newest(l: Log): (kept: seq<Cell>)
    requires l.head <= l.tail <= |l.slots|
    ensures |kept| <= BACKUPS && |kept| <= l.tail - l.head
  {
    var n := l.tail - l.head;
    if n < 2 then [] else l.slots[l.tail - (if n < BACKUPS then n else BACKUPS)..l.tail]
  }

  lemma CollectStep<T>(slots: seq<T>, under: seq<T>, stops: T -> bool, i: int, n: nat)
    requires n > 0 && Has(slots, under, i) && !stops(At(slots, under, i))
    ensures Reverse(Collect(slots, under, stops, i, n))
      == Reverse(Collect(slots, under, stops, i - 1, n - 1)) + [At(slots, under, i)]
    ensures CollectInside(slots, under, stops, i, n) == CollectInside(slots, under, stops, i - 1, n - 1)
  {
    assert Collect(slots, under, stops, i, n)[1..] == Collect(slots, under, stops, i - 1, n - 1);
  }

  /** Going down through enough live cells, the backup loop takes as many as it wants. */
  lemma {:induction false} CollectEnough<T>(slots: seq<T>, under: seq<T>, stops: T -> bool, top: nat, n: nat)
    requires n <= top <= |slots|
    requires forall k :: top - n <= k < top ==> !stops(slots[k])
    ensures Reverse(Collect(slots, under, stops, top - 1, n)) == slots[top - n..top]
    ensures CollectInside(slots, under, stops, top - 1, n)
    decreases n
  {
    if n > 0 {
      CollectStep(slots, under, stops, top - 1, n);
      CollectEnough(slots, under, stops, top - 1, n - 1);
      SliceLast(slots, top - n, top - 1);
    }
  }

  lemma SliceLast<T>(s: seq<T>, from: nat, i: nat)
    requires from <= i < |s|
    ensures s[from..i + 1] == s[from..i] + [s[i]]
  {}

  /** With fewer live cells it takes them all and looks below. */
  lemma {:induction false} CollectToBottom<T>(slots: seq<T>, under: seq<T>, stops: T -> bool,
                                              bottom: nat, i: int, n: nat)
    requires bottom <= i + 1 <= |slots| && i + 1 <= bottom + n
    requires forall k :: bottom <= k <= i ==> !stops(slots[k])
    ensures var rest := n - (i + 1 - bottom);
      && Reverse(Collect(slots, under, stops, i, n))
        == Reverse(Collect(slots, under, stops, bottom - 1, rest)) + slots[bottom..i + 1]
      && CollectInside(slots, under, stops, i, n) == CollectInside(slots, under, stops, bottom - 1, rest)
    decreases n
  {
    if bottom < i + 1 {
      CollectStep(slots, under, stops, i, n);
      CollectToBottom(slots, under, stops, bottom, i - 1, n - 1);
      SplitLast(Reverse(Collect(slots, under, stops, bottom - 1, n - (i + 1 - bottom))), slots, bottom, i);
    }
  }

  lemma SplitLast<T>(before: seq<T>, s: seq<T>, from: nat, i: nat)
    requires from <= i < |s|
    ensures before + s[from..i + 1] == (before + s[from..i]) + [s[i]]
  {}

  ghost predicate LivePending(l: Log) {
    && l.head <= l.tail <= |l.slots|
    && (forall k :: l.head <= k < l.tail ==> !Stops(l.slots[k]))
    && (l.head > 0 ==> Stops(l.slots[l.head - 1]))
  }

  lemma PendingLive(l: Log)
    requires Inv(l)
    ensures LivePending(l)
  {
    forall k | l.head <= k < l.tail
      ensures !Stops(l.slots[k])
    {
      WaitingLook(l.slots[k]);
    }
  }

  /** The loop stops at the bottom of the pending events: it is full, the cell below is acknowledged,
      or, below the region, there is a cell that is no live event. */
  predicate StopsAtBottom(l: Log) {
    l.tail - l.head >= BACKUPS || l.head > 0 || (l.under != [] && Stops(l.under[0]))
  }

  /** The cells the backup loop of `clear` reads are cells of the EEPROM exactly if it is full before it
      gets below the region, finds an acknowledged event in the region, or, below it, finds a cell that is
      no live event or enough cells. */
  lemma ClearInsideIff(l: Log)
    requires Inv(l) && l.tail - l.head >= 2
    ensures ClearInside(l) <==>
      || l.tail - l.head >= BACKUPS || l.head > 0 || l.tail + |l.under| >= BACKUPS
      || (exists j :: 0 <= j < |l.under| && Stops(l.under[j]))
  {
    PendingLive(l);
    if l.head > 0 || l.tail >= BACKUPS {
      CollectRun(l.slots, l.under, Stops, l.head, l.tail, BACKUPS);
    } else {
      CollectToBottom(l.slots, l.under, Stops, 0, l.tail - 1, BACKUPS);
      BelowInside(l.slots, l.under, Stops, 0, BACKUPS - l.tail);
    }
  }

  /** The same, from j cells below the region on. */
  lemma {:induction false} BelowInside<T>(slots: seq<T>, under: seq<T>, stops: T -> bool, j: nat, n: nat)
    requires j <= |under|
    ensures CollectInside(slots, under, stops, -1 - j, n) <==>
      j + n <= |under| || exists k :: j <= k < |under| && k < j + n && stops(under[k])
    decreases n
  {
    if n > 0 && j < |under| {
      BelowInside(slots, under, stops, j + 1, n - 1);
      if exists k :: j <= k < |under| && k < j + n && stops(under[k]) {
        var k :| j <= k < |under| && k < j + n && stops(under[k]);
      }
    }
  }

  /** The generic fact behind compaction: a backup of up to `limit` cells from a run of live ones. */
  lemma CollectRun<T>(slots: seq<T>, under: seq<T>, stops: T -> bool, bottom: nat, top: nat, limit: nat)
    requires bottom <= top <= |slots|
    requires forall k :: bottom <= k < top ==> !stops(slots[k])
    requires top - bottom >= limit || !Has(slots, under, bottom - 1) || stops(At(slots, under, bottom - 1))
    ensures Reverse(Collect(slots, under, stops, top - 1, limit))
      == slots[top - (if top - bottom < limit then top - bottom else limit)..top]
    ensures top - bottom >= limit || Has(slots, under, bottom - 1) ==>
      CollectInside(slots, under, stops, top - 1, limit)
  {
    if top - bottom >= limit {
      CollectEnough(slots, under, stops, top, limit);
    } else {
      CollectToBottom(slots, under, stops, bottom, top - 1, limit);
      assert [] + slots[bottom..top] == slots[bottom..top];
    }
  }

  lemma BackupIsNewest(l: Log)
    requires LivePending(l) && StopsAtBottom(l)
    ensures Reverse(Saved(l)) == Newest(l)
    ensures ClearInside(l)
  {
    if l.tail - l.head >= 2 {
      CollectRun(l.slots, l.under, Stops, l.head, l.tail, BACKUPS);
    }
  }

  /** The region after compaction. */
  function Compacted(l: Log): Log
    requires l.head <= l.tail <= |l.slots|
  {
    var kept := Newest(l);
    Log(kept + Blanks(|l.slots| - |kept|), l.under, 0, |kept|, 0)
  }

  /** With two or more events pending, `clear` keeps exactly the newest of them, at most sixteen, in
      order, at the start of an otherwise blank region, if and only if the loop stops at the bottom.
      Otherwise it also takes foreign cells for events. */
  lemma CompactionIff(l: Log)
    requires Inv(l) && l.tail - l.head >= 2 && ClearInside(l)
    ensures ClearOn(l) == Compacted(l) <==> StopsAtBottom(l)
  {
    PendingLive(l);
    if StopsAtBottom(l) {
      BackupIsNewest(l);
    } else {
      var n := l.tail;
      CollectToBottom(l.slots, l.under, Stops, 0, l.tail - 1, BACKUPS);
      assert Collect(l.slots, l.under, Stops, -1, BACKUPS - n)[0] == l.under[0];
      assert ClearOn(l).tail > n;
    }
  }

  lemma CompactedInv(l: Log)
    requires Inv(l)
    ensures Inv(Compacted(l)) && Pending(Compacted(l)) == Newest(l)
  {
    var kept := Newest(l);
    var c := Compacted(l);
    assert c.slots[..|kept|] == kept;
    forall i | 0 <= i < |kept|
      ensures Waiting(c.slots[i])
    {
      assert c.slots[i] == l.slots[l.tail - |kept| + i];
    }
  }

  // ----- Logging and acknowledging -----

  /** A full region is one the log itself has filled, so its backup loop always stops in time. */
  lemma FullStopsAtBottom(l: Log)
    requires Inv(l) && l.tail + 1 >= |l.slots|
    ensures StopsAtBottom(l) && ClearInside(l) && ClearOn(l) == Compacted(l)
  {
    PendingLive(l);
    BackupIsNewest(l);
  }

  function Kept(l: Log): seq<Cell>
    requires l.head <= l.tail <= |l.slots|
  {
    if l.tail + 1 >= |l.slots| then Newest(l) else Pending(l)
  }

  /** The pending events that `log` drops when it has to clear first. */
  function Lost(l: Log): seq<Cell>
    requires Inv(l)
  {
    Pending(l)[..|Pending(l)| - |Kept(l)|]
  }

  /** `log` drops nothing exactly if it need not clear, or if the pending events are none, or two to
      sixteen: a single one is dropped by the guard of `clear`. */
  lemma DropsNothingIff(l: Log)
    requires Inv(l)
    ensures Lost(l) == [] <==> l.tail + 1 < |l.slots| || (|Pending(l)| != 1 && |Pending(l)| <= BACKUPS)
  {
    assert |Lost(l)| == |Pending(l)| - |Kept(l)|;
  }

  /** Logging keeps the invariant, so a blank cell is left inside the EEPROM; the new event is the
      newest pending one, behind those that were kept. */
  lemma LogKeepsInv(l: Log, e: Cell)
    requires Inv(l) && Storable(e)
    ensures Inv(LogOn(l, e))
    ensures Pending(LogOn(l, e)) == Kept(l) + [e]
  {
    if l.tail + 1 >= |l.slots| {
      FullStopsAtBottom(l);
      CompactedInv(l);
      AppendKeepsInv(Compacted(l), e);
    } else {
      AppendKeepsInv(l, e);
    }
  }

  lemma AppendKeepsInv(l: Log, e: Cell)
    requires Inv(l) && Storable(e) && l.tail + 1 < |l.slots|
    ensures var after := l.(slots := l.slots[l.tail := e], tail := l.tail + 1);
      Inv(after) && Pending(after) == Pending(l) + [e]
  {}

  /** With only seventeen cells, logging into a region full of pending events leaves no blank cell. */
  lemma SeventeenCellsAreTooFew(l: Log, e: Cell)
    requires |l.slots| == 17 && l.head == 0 && l.tail == 16
    requires forall i :: 0 <= i < 16 ==> Waiting(l.slots[i])
    ensures LogOn(l, e).tail == |l.slots|
  {
    forall k | 0 <= k < 16
      ensures !Stops(l.slots[k])
    {
      WaitingLook(l.slots[k]);
    }
    CollectEnough(l.slots, l.under, Stops, 16, BACKUPS);
  }

  /** `ack` moves the oldest pending event to the acknowledged ones; with none pending it does
      nothing. */
  lemma AckKeepsInv(l: Log)
    requires Inv(l)
    ensures Inv(AckOn(l))
    ensures Pending(AckOn(l)) == if Pending(l) == [] then [] else Pending(l)[1..]
    ensures Pending(l) != [] ==> AckOn(l).slots == l.slots[l.head := Acked(Pending(l)[0])]
  {
    if l.head < l.tail {
      WaitingLook(l.slots[l.head]);
      StorableIffSeen(l.slots[l.head]);
    } else {
      BlankNotSeen();
    }
  }
}
