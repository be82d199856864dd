/** The class `StateLogger` of Arduino/StateLogger/StateLogger.cpp: addresses, EEPROM reads and
    writes, loops. Every method is proved against the cell-level operation of the same name. */
module StateLogger {
  import opened StateEvent
  import opened StateLog

  // ----- The EEPROM -----

  function PutAt(bytes: seq<bv8>, addr: nat, c: Cell): (b: seq<bv8>)
    requires addr + CELL_SIZE <= |bytes|
    ensures |b| == |bytes|
  {
    bytes[..addr] + c + bytes[addr + CELL_SIZE..]
  }

  class Eeprom {
    var bytes: seq<bv8>

    method Get(addr: nat) returns (c: Cell)
      requires addr + CELL_SIZE <= |bytes|
      ensures c == bytes[addr..addr + CELL_SIZE]
    {
      c := bytes[addr..addr + CELL_SIZE];
    }

    method Put(addr: nat, c: Cell)
      requires addr + CELL_SIZE <= |bytes|
      modifies this
      ensures bytes == PutAt(old(bytes), addr, c)
    {
      bytes := bytes[..addr] + c + bytes[addr + CELL_SIZE..];
    }

    method Write(addr: nat, b: bv8)
      requires addr < |bytes|
      modifies this
      ensures bytes == old(bytes)[addr := b]
    {
      bytes := bytes[addr := b];
    }
  }

  // ----- Cells -----

  /** Region and EEPROM end are whole cells apart, as in both sketches (starts 32 and 128). */
  predicate Geometry(length: nat, start: nat) {
    start % CELL_SIZE == 0 && length % CELL_SIZE == 0 && start <= length
  }

  function Slots(bytes: seq<bv8>, start: nat): (s: seq<Cell>)
    requires Geometry(|bytes|, start)
    ensures |s| == (|bytes| - start) / CELL_SIZE
    ensures forall i :: 0 <= i < |s| ==> s[i] == bytes[start + CELL_SIZE * i..start + CELL_SIZE * i + CELL_SIZE]
  {
    seq((|bytes| - start) / CELL_SIZE, i requires 0 <= i < (|bytes| - start) / CELL_SIZE =>
      bytes[start + CELL_SIZE * i..start + CELL_SIZE * i + CELL_SIZE])
  }

  function Under(bytes: seq<bv8>, start: nat): (s: seq<Cell>)
    requires Geometry(|bytes|, start)
    ensures |s| == start / CELL_SIZE
    ensures forall k :: 0 <= k < |s| ==> s[k] == bytes[start - CELL_SIZE * (k + 1)..start - CELL_SIZE * k]
  {
    seq(start / CELL_SIZE,
        k requires 0 <= k < start / CELL_SIZE => bytes[start - CELL_SIZE * (k + 1)..start - CELL_SIZE * k])
  }

  lemma PutIsUpdate(bytes: seq<bv8>, start: nat, i: nat, c: Cell)
    requires Geometry(|bytes|, start) && i < |Slots(bytes, start)|
    ensures Slots(PutAt(bytes, start + CELL_SIZE * i, c), start) == Slots(bytes, start)[i := c]
    ensures Under(PutAt(bytes, start + CELL_SIZE * i, c), start) == Under(bytes, start)
  {
    var after := PutAt(bytes, start + CELL_SIZE * i, c);
    forall k | 0 <= k < |Slots(bytes, start)|
      ensures Slots(after, start)[k] == Slots(bytes, start)[i := c][k]
    {
      PutOne(bytes, start, i, c, k);
    }
    forall k | 0 <= k < |Under(bytes, start)|
      ensures Under(after, start)[k] == Under(bytes, start)[k]
    {
      PutLeavesBelow(bytes, start + CELL_SIZE * i, c, start - CELL_SIZE * (k + 1), start - CELL_SIZE * k);
    }
  }

  lemma PutLeavesBelow(bytes: seq<bv8>, addr: nat, c: Cell, from: nat, to: nat)
    requires from <= to <= addr && addr + CELL_SIZE <= |bytes|
    ensures PutAt(bytes, addr, c)[from..to] == bytes[from..to]
  {}

  lemma PutOne(bytes: seq<bv8>, start: nat, i: nat, c: Cell, k: nat)
    requires Geometry(|bytes|, start) && i < |Slots(bytes, start)| && k < |Slots(bytes, start)|
    ensures var after := PutAt(bytes, start + CELL_SIZE * i, c);
      after[start + CELL_SIZE * k..start + CELL_SIZE * k + CELL_SIZE] == if k == i then c else Slots(bytes, start)[k]
  {}

  /** `s_event`'s default value: no event. */
  const NO_EVENT: Cell := [0, 0, 0, 0, 0, 0, 0xFF, 0]

  /** `s_event(address)`: what an object read from a cell holds. */
  function Parsed(c: Cell): Cell { if IsValid(c) then c else NO_EVENT }

  lemma ParsedLook(c: Cell)
    ensures Parsed(c)[CRC] == 0 <==> !LookAt(c).seen
    ensures LookAt(c).seen ==> Parsed(c) == c && (c[ACK] == 0xFF <==> LookAt(c).waiting)
  {}

  method IsValidCell(c: Cell) returns (valid: bool)
    ensures valid == IsValid(c)
  {
    var blank := true;
    for k := 0 to CELL_SIZE
      invariant blank && forall j :: 0 <= j < k ==> c[j] == 0xFF
    {
      if c[k] != 0xFF {
        blank := false;
        break;
      }
    }
    if blank {
      assert c == Blank();
      return false;
    }
    var csum := CalcCrc(c, CELL_SIZE);
    assert c[..CELL_SIZE] == c;
    return csum == 0;
  }

  /** The backup array holds these events, and "no event" after them. */
  ghost predicate BackedUp(backUp: seq<Cell>, saved: seq<Cell>) {
    && |saved| <= |backUp| == BACKUPS
    && backUp[..|saved|] == saved
    && (forall k :: 0 <= k < |saved| ==> backUp[k][CRC] != 0)
    && (forall k :: |saved| <= k < BACKUPS ==> backUp[k][CRC] == 0)
  }

  /** Entry k of the array: an event to be kept, counted from the newest, or "no event". */
  ghost predicate HoldsEntry(c: Cell, kept: seq<Cell>, k: nat) {
    && (c[CRC] != 0 <==> k < |kept|)
    && (k < |kept| ==> c == kept[|kept| - 1 - k])
  }

  /** All entries from `from` on. */
  ghost predicate Holding(backUp: seq<Cell>, kept: seq<Cell>, from: nat)
    decreases |backUp| - from
  {
    from < |backUp| ==> HoldsEntry(backUp[from], kept, from) && Holding(backUp, kept, from + 1)
  }

  lemma {:induction false} HoldingAt(backUp: seq<Cell>, kept: seq<Cell>, from: nat, k: nat)
    requires Holding(backUp, kept, from) && from <= k < |backUp|
    ensures HoldsEntry(backUp[k], kept, k)
    decreases k - from
  {
    if from < k {
      HoldingAt(backUp, kept, from + 1, k);
    }
  }

  lemma {:induction false} HoldingReversed(backUp: seq<Cell>, saved: seq<Cell>, from: nat)
    requires BackedUp(backUp, saved)
    ensures Holding(backUp, Reverse(saved), from)
    decreases |backUp| - from
  {
    if from < |backUp| {
      if from < |saved| {
        assert backUp[..|saved|][from] == backUp[from];
        ReverseAt(saved, |saved| - 1 - from);
      }
      HoldingReversed(backUp, saved, from + 1);
    }
  }

  /** After k rounds: k events are in the array, the loop is at cell i, and the rest of what is to be
      saved lies from there on down. */
  ghost predicate BackingUp(backUp: seq<Cell>, slots: seq<Cell>, under: seq<Cell>, i: int, k: nat, saved: seq<Cell>) {
    && k <= |backUp| == BACKUPS
    && CollectInside(slots, under, Stops, i, BACKUPS - k)
    && saved == backUp[..k] + Collect(slots, under, Stops, i, BACKUPS - k)
    && (forall j :: 0 <= j < k ==> backUp[j][CRC] != 0)
    && (forall j :: k <= j < BACKUPS ==> backUp[j] == NO_EVENT)
  }

  lemma {:induction false} BackUpStart(backUp: seq<Cell>, slots: seq<Cell>, under: seq<Cell>, i: int, saved: seq<Cell>)
    requires CollectInside(slots, under, Stops, i, BACKUPS) && saved == Collect(slots, under, Stops, i, BACKUPS)
    requires |backUp| == BACKUPS && forall k :: 0 <= k < BACKUPS ==> backUp[k] == NO_EVENT
    ensures BackingUp(backUp, slots, under, i, 0, saved)
  {
    assert backUp[..0] == [];
  }

  /** The loop's test, on the object read from a cell, is the test on the cell. */
  lemma StopTest(c: Cell)
    ensures Stops(c) <==> Parsed(c)[CRC] == 0 || Parsed(c)[ACK] == 0
    ensures !Stops(c) ==> Parsed(c) == c && c[CRC] != 0
  {}

  lemma BackUpStep(backUp: seq<Cell>, slots: seq<Cell>, under: seq<Cell>, i: int, k: nat, saved: seq<Cell>, c: Cell)
    requires k < BACKUPS && BackingUp(backUp, slots, under, i, k, saved)
    requires c == At(slots, under, i) && !Stops(c)
    ensures BackingUp(backUp[k := c], slots, under, i - 1, k + 1, saved)
  {
    var after := backUp[k := c];
    Regroup(backUp[..k], c, Collect(slots, under, Stops, i - 1, BACKUPS - (k + 1)));
    assert after[..k + 1] == backUp[..k] + [c];
  }

  lemma Regroup(x: seq<Cell>, c: Cell, y: seq<Cell>)
    ensures x + ([c] + y) == (x + [c]) + y
  {}

  lemma BackUpEnd(backUp: seq<Cell>, slots: seq<Cell>, under: seq<Cell>, i: int, k: nat, saved: seq<Cell>)
    requires BackingUp(backUp, slots, under, i, k, saved)
    requires k < BACKUPS ==> Stops(At(slots, under, i))
    ensures BackedUp(backUp, saved)
  {
    assert Collect(slots, under, Stops, i, BACKUPS - k) == [];
    assert backUp[..k] + [] == backUp[..k];
  }

  lemma WipedCells(before: seq<bv8>, after: seq<bv8>, start: nat)
    requires |before| == |after| && Geometry(|before|, start)
    requires after[..start] == before[..start]
    requires forall j :: start <= j < |after| ==> after[j] == 0xFF
    ensures Slots(after, start) == Blanks(|Slots(before, start)|)
    ensures Under(after, start) == Under(before, start)
  {
    forall i | 0 <= i < |Slots(after, start)|
      ensures Slots(after, start)[i] == Blank()
    {
      assert forall b :: 0 <= b < CELL_SIZE ==> Slots(after, start)[i][b] == after[start + CELL_SIZE * i + b];
    }
    forall k | 0 <= k < |Under(after, start)|
      ensures Under(after, start)[k] == Under(before, start)[k]
    {
      SameSlice(before, after, start, start - CELL_SIZE * (k + 1), start - CELL_SIZE * k);
    }
  }

  lemma SameSlice(before: seq<bv8>, after: seq<bv8>, start: nat, from: nat, to: nat)
    requires from <= to <= start <= |before| == |after| && after[..start] == before[..start]
    ensures after[from..to] == before[from..to]
  {
    assert after[from..to] == after[..start][from..to];
  }

  lemma {:induction false} ReverseAt<T>(s: seq<T>, j: nat)
    requires j < |s|
    ensures Reverse(s)[j] == s[|s| - 1 - j]
  {
    if j < |s| - 1 {
      ReverseAt(s[1..], j);
    }
  }

  /** The first t events to be kept are back in the otherwise blank region. */
  ghost predicate Restored(cells: seq<Cell>, kept: seq<Cell>, t: nat) {
    t <= |kept| <= |cells| && cells == kept[..t] + Blanks(|cells| - t)
  }

  lemma RestoreStep(cells: seq<Cell>, kept: seq<Cell>, t: nat, c: Cell)
    requires Restored(cells, kept, t) && t < |kept| && c == kept[t]
    ensures Restored(cells[t := c], kept, t + 1)
  {
    assert cells[t := c] == kept[..t + 1] + Blanks(|cells| - (t + 1));
  }

  /** The third part of `clear`, before round k - 1: `kept` has been restored from its oldest event on. */
  ghost predicate Restoring(l: Log, kept: seq<Cell>, under: seq<Cell>, n: nat, k: nat) {
    && |l.slots| == n && l.under == under && l.head == 0 == l.curr
    && l.tail == (if k >= |kept| then 0 else |kept| - k)
    && Restored(l.slots, kept, l.tail)
  }

  lemma RestoreEnds(l: Log, kept: seq<Cell>, under: seq<Cell>, n: nat)
    requires |kept| <= n && |kept| <= BACKUPS
    ensures l == Log(Blanks(n), under, 0, 0, 0) ==> Restoring(l, kept, under, n, BACKUPS)
    ensures Restoring(l, kept, under, n, 0) ==> l == Log(kept + Blanks(n - |kept|), under, 0, |kept|, 0)
  {
    assert kept[..0] + Blanks(n) == Blanks(n);
    assert kept[..|kept|] == kept;
  }

  // ----- `StateLogger` -----

  class Logger {
    const eeprom: Eeprom
    const startAddress: nat
    var headAddress: nat
    var tailAddress: nat
    var currAddress: nat

    ghost predicate CellAddress(addr: nat)
      reads eeprom
    {
      startAddress <= addr <= |eeprom.bytes| && addr % CELL_SIZE == 0
    }

    ghost predicate Valid()
      reads this, eeprom
    {
      && Geometry(|eeprom.bytes|, startAddress)
      && CellAddress(headAddress) && CellAddress(tailAddress) && CellAddress(currAddress)
    }

    function Index(addr: nat): nat
      requires startAddress <= addr
    {
      (addr - startAddress) / CELL_SIZE
    }

    ghost function Cells(): seq<Cell>
      requires Geometry(|eeprom.bytes|, startAddress)
      reads eeprom
    {
      Slots(eeprom.bytes, startAddress)
    }

    ghost function Below(): seq<Cell>
      requires Geometry(|eeprom.bytes|, startAddress)
      reads eeprom
    {
      Under(eeprom.bytes, startAddress)
    }

    ghost function State(): Log
      requires Valid()
      reads this, eeprom
    {
      Log(Cells(), Below(), Index(headAddress), Index(tailAddress), Index(currAddress))
    }

    lemma IndexOf(addr: nat)
      requires Geometry(|eeprom.bytes|, startAddress) && CellAddress(addr)
      ensures startAddress + CELL_SIZE * Index(addr) == addr
      ensures addr < |eeprom.bytes| <==> Index(addr) < |Cells()|
      ensures addr < |eeprom.bytes| ==> addr + CELL_SIZE <= |eeprom.bytes| && CellAddress(addr + CELL_SIZE)
      ensures Index(addr + CELL_SIZE) == Index(addr) + 1
    {}

    lemma CellBytes(i: int)
      requires Geometry(|eeprom.bytes|, startAddress) && Has(Cells(), Below(), i)
      ensures 0 <= startAddress + CELL_SIZE * i && startAddress + CELL_SIZE * i + CELL_SIZE <= |eeprom.bytes|
      ensures eeprom.bytes[startAddress + CELL_SIZE * i..startAddress + CELL_SIZE * i + CELL_SIZE]
        == At(Cells(), Below(), i)
    {}

    /** `s_event evt(address)`, for any cell of the EEPROM. */
    method LoadCell(addr: nat, ghost i: int) returns (evt: Cell)
      requires Geometry(|eeprom.bytes|, startAddress) && Has(Cells(), Below(), i)
      requires addr == startAddress + CELL_SIZE * i
      ensures evt == Parsed(At(Cells(), Below(), i))
    {
      CellBytes(i);
      evt := eeprom.Get(addr);
      var valid := IsValidCell(evt);
      if !valid {
        evt := NO_EVENT;
      }
    }

    /** `s_event evt(address)`. */
    method Load(addr: nat) returns (evt: Cell)
      requires Geometry(|eeprom.bytes|, startAddress) && CellAddress(addr) && addr < |eeprom.bytes|
      ensures evt == Parsed(Cells()[Index(addr)])
    {
      IndexOf(addr);
      evt := LoadCell(addr, Index(addr));
    }

    /** The same, with what the constructor's scans ask about it. */
    method LoadForScan(addr: nat) returns (evt: Cell)
      requires Geometry(|eeprom.bytes|, startAddress) && CellAddress(addr) && addr < |eeprom.bytes|
      requires Index(addr) < |Cells()|
      ensures evt[CRC] == 0 <==> !Looks(Cells())[Index(addr)].seen
      ensures evt[CRC] != 0 ==> (evt[ACK] == 0xFF <==> Looks(Cells())[Index(addr)].waiting)
    {
      LooksAt(Cells(), Index(addr));
      ParsedLook(Cells()[Index(addr)]);
      evt := Load(addr);
    }

    /** `store`. */
    method Store(addr: nat, c: Cell)
      requires Geometry(|eeprom.bytes|, startAddress) && CellAddress(addr) && addr < |eeprom.bytes|
      modifies eeprom
      ensures |eeprom.bytes| == old(|eeprom.bytes|)
      ensures Cells() == old(Cells())[Index(addr) := c] && Below() == old(Below())
    {
      IndexOf(addr);
      PutIsUpdate(eeprom.bytes, startAddress, Index(addr), c);
      eeprom.Put(addr, c);
    }

    /** The constructor: the scans that find head and tail again. They must meet a cell that is not an
        event before the EEPROM ends. */
    constructor (eeprom: Eeprom, address: nat)
      requires Geometry(|eeprom.bytes|, address)
      requires BootOn(Slots(eeprom.bytes, address), Under(eeprom.bytes, address)).tail < |Slots(eeprom.bytes, address)|
      ensures this.eeprom == eeprom && startAddress == address && Valid()
      ensures State() == BootOn(Cells(), Below())
    {
      this.eeprom := eeprom;
      startAddress, headAddress, tailAddress, currAddress := address, address, address, address;
      new;
      headAddress := ScanHead(address);
      currAddress := headAddress;
      tailAddress := ScanTail(headAddress);
    }

    /** The constructor's first loop. */
    method ScanHead(from: nat) returns (addr: nat)
      requires Geometry(|eeprom.bytes|, startAddress) && CellAddress(from)
      requires HeadScan(Looks(Cells()), Index(from)) < |Cells()|
      ensures CellAddress(addr) && Index(addr) == HeadScan(Looks(Cells()), Index(from))
    {
      ghost var looks := Looks(Cells());
      addr := from;
      while true
        invariant CellAddress(addr) && HeadScan(looks, Index(addr)) == HeadScan(looks, Index(from))
        decreases |eeprom.bytes| - addr
      {
        IndexOf(addr);
        var evt := LoadForScan(addr);
        if evt[CRC] == 0 {
          return;
        }
        if evt[ACK] == 0xFF {
          return;
        }
        addr := addr + CELL_SIZE;
      }
    }

    /** The constructor's second loop. */
    method ScanTail(from: nat) returns (addr: nat)
      requires Geometry(|eeprom.bytes|, startAddress) && CellAddress(from)
      requires TailScan(Looks(Cells()), Index(from)) < |Cells()|
      ensures CellAddress(addr) && Index(addr) == TailScan(Looks(Cells()), Index(from))
    {
      ghost var looks := Looks(Cells());
      addr := from;
      while true
        invariant CellAddress(addr) && TailScan(looks, Index(addr)) == TailScan(looks, Index(from))
        decreases |eeprom.bytes| - addr
      {
        IndexOf(addr);
        var evt := LoadForScan(addr);
        if evt[CRC] == 0 {
          return;
        }
        addr := addr + CELL_SIZE;
      }
    }

    /** `reset`. */
    method Reset()
      requires Valid()
      modifies this`currAddress
      ensures Valid() && State() == old(State()).(curr := old(State()).head)
    {
      currAddress := headAddress;
    }

    /** `getEvent`. */
    method GetEvent() returns (evt: Cell)
      requires Valid() && currAddress < |eeprom.bytes|
      modifies this`currAddress
      ensures Valid() && State() == old(State()).(curr := old(State()).curr + 1)
      ensures evt == Parsed(Cells()[old(State()).curr])
    {
      IndexOf(currAddress);
      evt := Load(currAddress);
      currAddress := currAddress + CELL_SIZE;
    }

    /** `ack`. */
    method Ack()
      requires Valid() && headAddress < |eeprom.bytes|
      modifies this`headAddress, eeprom
      ensures Valid() && State() == AckOn(old(State()))
    {
      IndexOf(headAddress);
      var evt := Load(headAddress);
      if evt[CRC] == 0 {
        return;
      }
      var body := evt[..ACK] + [0];
      var crc := CalcCrc(body, |body|);
      assert body[..|body|] == body;
      evt := body + [crc];
      Store(headAddress, evt);
      headAddress := headAddress + CELL_SIZE;
    }

    /** An event goes into the tail cell. */
    method Append(evt: Cell)
      requires Valid() && State().tail < |State().slots|
      modifies this`tailAddress, eeprom
      ensures Valid()
      ensures var l := old(State()); State() == l.(slots := l.slots[l.tail := evt], tail := l.tail + 1)
    {
      IndexOf(tailAddress);
      Store(tailAddress, evt);
      tailAddress := tailAddress + CELL_SIZE;
    }

    /** First part of `clear`: the newest pending events into the backup array. */
    method BackUp(backUp: array<Cell>)
      requires Valid() && State().tail > State().head + 1 && ClearInside(State())
      requires backUp.Length == BACKUPS && forall k :: 0 <= k < BACKUPS ==> backUp[k] == NO_EVENT
      modifies backUp
      ensures BackedUp(backUp[..], Saved(State()))
    {
      ghost var i, saved := State().tail - 1, Saved(State());
      BackUpStart(backUp[..], Cells(), Below(), i, saved);
      IndexOf(tailAddress);
      var addr: int := tailAddress - CELL_SIZE;
      var k := 0;
      while k < BACKUPS
        invariant 0 <= k <= BACKUPS && addr == startAddress + CELL_SIZE * i
        invariant BackingUp(backUp[..], Cells(), Below(), i, k, saved)
      {
        var more := BackUpOne(backUp, k, addr, i, saved);
        if !more {
          return;
        }
        addr, i := addr - CELL_SIZE, i - 1;
        k := k + 1;
      }
      BackUpEnd(backUp[..], Cells(), Below(), i, k, saved);
    }

    /** One round of that loop: the cell at addr goes into entry k, or the loop breaks. */
    method BackUpOne(backUp: array<Cell>, k: nat, addr: int, ghost i: int, ghost saved: seq<Cell>) returns (more: bool)
      requires Valid() && k < BACKUPS && addr == startAddress + CELL_SIZE * i
      requires BackingUp(backUp[..], Cells(), Below(), i, k, saved)
      modifies backUp
      ensures more ==> BackingUp(backUp[..], Cells(), Below(), i - 1, k + 1, saved)
      ensures !more ==> BackedUp(backUp[..], saved)
    {
      ghost var c, cells := At(Cells(), Below(), i), backUp[..];
      var evt := LoadCell(addr, i);
      StopTest(c);
      if evt[CRC] == 0 || evt[ACK] == 0 {
        BackUpEnd(cells, Cells(), Below(), i, k, saved);
        return false;
      }
      BackUpStep(cells, Cells(), Below(), i, k, saved, c);
      backUp[k] := evt;
      assert backUp[..] == cells[k := c];
      return true;
    }

    /** Second part: the whole region to 0xFF. */
    method Wipe()
      requires Geometry(|eeprom.bytes|, startAddress)
      modifies eeprom
      ensures |eeprom.bytes| == old(|eeprom.bytes|)
      ensures Cells() == Blanks(old(|Cells()|)) && Below() == old(Below())
    {
      var len := |eeprom.bytes| - startAddress;
      ghost var before := eeprom.bytes;
      for k := 0 to len
        invariant |eeprom.bytes| == |before|
        invariant eeprom.bytes[..startAddress] == before[..startAddress]
        invariant forall j :: startAddress <= j < startAddress + k ==> eeprom.bytes[j] == 0xFF
      {
        eeprom.Write(startAddress + k, 0xFF);
      }
      WipedCells(before, eeprom.bytes, startAddress);
    }

    /** And the addresses back to its start. */
    method Empty()
      requires Valid()
      modifies this, eeprom
      ensures Valid() && State() == Log(Blanks(|old(State()).slots|), old(State()).under, 0, 0, 0)
    {
      Wipe();
      tailAddress, headAddress, currAddress := startAddress, startAddress, startAddress;
    }

    /** One round of the third part of `clear`: entry k - 1 of the backup, if there is one. */
    method RestoreOne(evt: Cell, k: nat, ghost kept: seq<Cell>, ghost under: seq<Cell>, ghost n: nat)
      requires Valid() && 0 < k && HoldsEntry(evt, kept, k - 1) && Restoring(State(), kept, under, n, k)
      modifies this`tailAddress, eeprom
      ensures Valid() && Restoring(State(), kept, under, n, k - 1)
    {
      if evt[CRC] != 0 {
        RestoreStep(Cells(), kept, State().tail, evt);
        Append(evt);
      }
    }

    /** Third part: the backup back into the region, oldest first. */
    method Restore(backUp: array<Cell>, ghost kept: seq<Cell>)
      requires Valid() && State() == Log(Blanks(|Cells()|), Below(), 0, 0, 0)
      requires backUp.Length == BACKUPS >= |kept| && Holding(backUp[..], kept, 0) && BACKUPS <= |Cells()|
      modifies this`tailAddress, eeprom
      ensures Valid() && State() == Log(kept + Blanks(old(|Cells()|) - |kept|), old(Below()), 0, |kept|, 0)
    {
      ghost var l, held := State(), backUp[..];
      ghost var under, n := l.under, |l.slots|;
      RestoreEnds(l, kept, under, n);
      var k := BACKUPS;
      while k > 0
        invariant 0 <= k <= BACKUPS && held == backUp[..]
        invariant Valid() && State() == l && Restoring(l, kept, under, n, k)
      {
        HoldingAt(held, kept, 0, k - 1);
        var evt := backUp[k - 1];
        RestoreOne(evt, k, kept, under, n);
        l := State();
        k := k - 1;
      }
      RestoreEnds(l, kept, under, n);
    }

    /** `clear`. */
    method Clear()
      requires Valid() && BACKUPS <= |State().slots| && ClearInside(State())
      modifies this, eeprom
      ensures Valid() && State() == ClearOn(old(State()))
    {
      var backUp := new Cell[BACKUPS](_ => NO_EVENT);
      ghost var saved := Saved(State());
      IndexOf(tailAddress);
      if tailAddress - headAddress > CELL_SIZE {
        BackUp(backUp);
      }
      HoldingReversed(backUp[..], saved, 0);
      Empty();
      Restore(backUp, Reverse(saved));
    }

    /** The first half of `log`. */
    method MakeRoom()
      requires Valid() && BACKUPS < |State().slots|
      requires tailAddress + CELL_SIZE >= |eeprom.bytes| ==> ClearInside(State())
      modifies this, eeprom
      ensures Valid() && |Cells()| == old(|Cells()|) && State() == Room(old(State()))
    {
      IndexOf(tailAddress);
      if tailAddress + CELL_SIZE >= |eeprom.bytes| {
        Clear();
      }
    }

    /** `log`. */
    method LogEvent(evt: Cell)
      requires Valid() && BACKUPS < |State().slots|
      requires tailAddress + CELL_SIZE >= |eeprom.bytes| ==> ClearInside(State())
      modifies this, eeprom
      ensures Valid() && State() == LogOn(old(State()), evt)
    {
      MakeRoom();
      Append(evt);
    }
  }
}
