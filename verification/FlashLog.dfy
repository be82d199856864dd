/** `cLog` of loggerFirmware/src/log.cpp: addresses, flash reads and writes, loops. Every method is
    proved against the slot-level operation of the same name. */
module FlashLog {
  import opened SignedTimes
  import opened FlashEvent
  import opened FlashRing
  import opened Checksum8

  const START_ADDR: nat := 0x40000
  const END_ADDR: nat := 0x80000
  const SECTOR_SIZE: nat := 0x10000

  // ----- The chip -----

  function ProgramAt(mem: seq<bv8>, addr: nat, data: seq<bv8>): (m: seq<bv8>)
    requires addr + |data| <= |mem|
    ensures |m| == |mem|
  {
    seq(|mem|, i requires 0 <= i < |mem| => if addr <= i < addr + |data| then And(mem[i], data[i - addr]) else mem[i])
  }

  function EraseAt(mem: seq<bv8>, addr: nat): (m: seq<bv8>)
    ensures |m| == |mem|
  {
    seq(|mem|, i requires 0 <= i < |mem| => if i / SECTOR_SIZE == addr / SECTOR_SIZE then 0xFF else mem[i])
  }

  /** NOR flash: programming clears bits, erasing sets a whole 64 KiB sector. */
  class Flash {
    var mem: seq<bv8>

    ghost predicate Valid() reads this { |mem| == END_ADDR }

    method Read(addr: nat, len: nat) returns (data: seq<bv8>)
      requires addr + len <= |mem|
      ensures data == mem[addr..addr + len]
    {
      data := mem[addr..addr + len];
    }

    method Program(addr: nat, data: seq<bv8>)
      requires addr + |data| <= |mem|
      modifies this
      ensures mem == ProgramAt(old(mem), addr, data)
    {
      mem := ProgramAt(mem, addr, data);
    }

    method Erase(addr: nat)
      modifies this
      ensures mem == EraseAt(old(mem), addr)
    {
      mem := EraseAt(mem, addr);
    }
  }

  // ----- Slots -----

  function Addr(i: nat): nat { START_ADDR + RECORD_SIZE * i }

  function Slot(mem: seq<bv8>, i: nat): Record
    requires |mem| == END_ADDR && i < SLOTS
  {
    mem[Addr(i)..Addr(i) + RECORD_SIZE]
  }

  function SlotsOf(mem: seq<bv8>): (s: Slots)
    requires |mem| == END_ADDR
    ensures forall i :: 0 <= i < SLOTS ==> s[i] == Slot(mem, i)
  {
    seq(SLOTS, i requires 0 <= i < SLOTS => Slot(mem, i))
  }

  lemma ProgramIsProgramSlot(mem: seq<bv8>, i: nat, r: Record)
    requires |mem| == END_ADDR && i < SLOTS
    ensures SlotsOf(ProgramAt(mem, Addr(i), r)) == ProgramSlot(SlotsOf(mem), i, r)
  {
    var after := ProgramAt(mem, Addr(i), r);
    forall k | 0 <= k < SLOTS
      ensures Slot(after, k) == ProgramSlot(SlotsOf(mem), i, r)[k]
    {
      ProgramOneSlot(mem, i, r, k);
    }
  }

  lemma ProgramOneSlot(mem: seq<bv8>, i: nat, r: Record, k: nat)
    requires |mem| == END_ADDR && i < SLOTS && k < SLOTS
    ensures Slot(ProgramAt(mem, Addr(i), r), k) == if k == i then AndRecords(Slot(mem, i), r) else Slot(mem, k)
  {}

  lemma EraseIsEraseSector(mem: seq<bv8>, i: nat)
    requires |mem| == END_ADDR && i < SLOTS
    ensures SlotsOf(EraseAt(mem, Addr(i))) == EraseSectorOf(SlotsOf(mem), i)
  {
    var after := EraseAt(mem, Addr(i));
    forall k | 0 <= k < SLOTS
      ensures Slot(after, k) == EraseSectorOf(SlotsOf(mem), i)[k]
    {
      EraseOneSlot(mem, i, k);
    }
  }

  lemma SameBlock(i: nat, k: nat, a: nat)
    requires i < SLOTS && k < SLOTS && Addr(k) <= a < Addr(k) + RECORD_SIZE
    ensures a / SECTOR_SIZE == Addr(i) / SECTOR_SIZE <==> k / PER_SECTOR == i / PER_SECTOR
  {}

  lemma EraseOneSlot(mem: seq<bv8>, i: nat, k: nat)
    requires |mem| == END_ADDR && i < SLOTS && k < SLOTS
    ensures Slot(EraseAt(mem, Addr(i)), k) == if k / PER_SECTOR == i / PER_SECTOR then Blank() else Slot(mem, k)
  {
    forall b | 0 <= b < RECORD_SIZE
      ensures Slot(EraseAt(mem, Addr(i)), k)[b]
        == if k / PER_SECTOR == i / PER_SECTOR then 0xFF else Slot(mem, k)[b]
    {
      SameBlock(i, k, Addr(k) + b);
    }
  }

  // ----- `cLog` -----

  ghost predicate SlotAddr(addr: nat) {
    START_ADDR <= addr <= END_ADDR && (addr - START_ADDR) % RECORD_SIZE == 0
  }

  function Index(addr: nat): nat
    requires START_ADDR <= addr
  {
    (addr - START_ADDR) / RECORD_SIZE
  }

  lemma IndexOf(addr: nat)
    requires SlotAddr(addr)
    ensures Addr(Index(addr)) == addr && (addr < END_ADDR <==> Index(addr) < SLOTS)
    ensures SlotAddr(addr + RECORD_SIZE) <==> addr < END_ADDR
    ensures Index(addr + RECORD_SIZE) == Index(addr) + 1
  {}

  lemma NextAddr(addr: nat)
    requires SlotAddr(addr) && addr < END_ADDR
    ensures var next := if addr + RECORD_SIZE >= END_ADDR then START_ADDR else addr + RECORD_SIZE;
      && SlotAddr(next) && next < END_ADDR && Index(addr) < SLOTS
      && Index(next) == if Index(addr) + 1 >= SLOTS then 0 else Index(addr) + 1
  {
    IndexOf(addr);
  }

  lemma FindMovesOn(looks: seq<Look>, start: nat, curr: nat, valid: bool, processed: bool)
    requires |looks| == SLOTS && start < SLOTS && curr < SLOTS
    requires !looks[curr].end && !(looks[curr].valid == valid && (!processed || !looks[curr].processed))
    ensures var next := if curr + 1 >= SLOTS then 0 else curr + 1;
      Find(looks, start, curr, valid, processed)
        == if next == start then (false, curr) else Find(looks, start, next, valid, processed)
  {}

  lemma SameIndex(x: nat, y: nat)
    requires SlotAddr(x) && SlotAddr(y)
    ensures Index(x) == Index(y) <==> x == y
  {
    IndexOf(x);
    IndexOf(y);
  }

  lemma LastWritten(slots: Slots, tailAddr: nat, addr: nat)
    requires SlotAddr(tailAddr) && tailAddr < END_ADDR
    requires addr == (if tailAddr == START_ADDR then END_ADDR else tailAddr) - RECORD_SIZE
    ensures SlotAddr(addr) && addr < END_ADDR && Index(addr) < SLOTS && Index(tailAddr) < SLOTS
    ensures Sequence(slots[Index(addr)]) + 1 == NextSequence(slots, Index(tailAddr))
  {}

  class CLog {
    const flash: Flash
    var headAddr: nat
    var tailAddr: nat
    var readAddr: nat

    ghost predicate Valid()
      reads this, flash
    {
      flash.Valid() && SlotAddr(headAddr) && SlotAddr(tailAddr) && SlotAddr(readAddr)
    }

    ghost function State(): Log
      requires Valid()
      reads this, flash
    {
      Log(SlotsOf(flash.mem), Index(headAddr), Index(tailAddr), Index(readAddr))
    }

    /** `cyg_flash_read` of one record. */
    method ReadRecord(addr: nat) returns (data: Record)
      requires flash.Valid() && SlotAddr(addr) && addr < END_ADDR
      ensures data == SlotsOf(flash.mem)[Index(addr)]
    {
      IndexOf(addr);
      data := flash.Read(addr, RECORD_SIZE);
    }

    /** `check_space`. */
    method CheckSpace(addr: nat) returns (blank: bool)
      requires flash.Valid() && SlotAddr(addr) && addr < END_ADDR
      ensures blank <==> SlotsOf(flash.mem)[Index(addr)] == Blank()
    {
      IndexOf(addr);
      var buff := ReadRecord(addr);
      for i := 0 to RECORD_SIZE
        invariant forall k :: 0 <= k < i ==> buff[k] == 0xFF
      {
        if buff[i] != 0xFF {
          return false;
        }
      }
      assert buff == Blank();
      return true;
    }

    /** `make_space`. */
    method MakeSpace(addr: nat)
      requires flash.Valid() && SlotAddr(addr) && addr < END_ADDR
      modifies flash
      ensures flash.Valid() && SlotsOf(flash.mem) == EraseSectorOf(old(SlotsOf(flash.mem)), Index(addr))
    {
      IndexOf(addr);
      EraseIsEraseSector(flash.mem, Index(addr));
      flash.Erase(addr);
    }

    /** `inc_curr_addr`. */
    method IncCurrAddr()
      requires Valid() && tailAddr < END_ADDR
      modifies this`tailAddr, flash
      ensures Valid() && (State().slots, State().tail) == Advance(old(State()).slots, old(State()).tail)
      ensures State() == old(State()).(slots := State().slots, tail := State().tail)
    {
      IndexOf(tailAddr);
      var nextAddr := tailAddr + RECORD_SIZE;
      if nextAddr + RECORD_SIZE >= END_ADDR {
        MakeSpace(START_ADDR);
        tailAddr := START_ADDR;
        return;
      }
      if nextAddr % SECTOR_SIZE == 0 {
        var blank := CheckSpace(nextAddr);
        if !blank {
          MakeSpace(nextAddr);
        }
      }
      tailAddr := nextAddr;
    }

    /** `logEvent`. */
    method LogEvent(e: Record)
      requires Valid() && tailAddr < END_ADDR
      modifies this`tailAddr, flash
      ensures Valid() && State() == LogOn(old(State()), e)
    {
      IndexOf(tailAddr);
      ProgramIsProgramSlot(flash.mem, Index(tailAddr), e);
      flash.Program(tailAddr, e);
      IncCurrAddr();
    }

    /** What `find_entry` asks about one slot. */
    method ReadLook(addr: nat) returns (look: Look)
      requires flash.Valid() && SlotAddr(addr) && addr < END_ADDR
      ensures look == LookAt(SlotsOf(flash.mem)[Index(addr)])
    {
      var data := ReadRecord(addr);
      var event := new Event.FromData(data);
      var valid := event.IsValidEvent();
      var processed := event.IsProcessedEvent();
      look := Look(Sequence(data) == NO_SEQUENCE, valid, processed);
    }

    /** One round of `find_entry`: whether the slot ends the search, and with which answer. */
    method Matches(addr: nat, valid: bool, processed: bool, ghost s: nat) returns (ends: bool, found: bool)
      requires flash.Valid() && SlotAddr(addr) && addr < END_ADDR && s < SLOTS && Index(addr) < SLOTS
      ensures var looks, here := Looks(SlotsOf(flash.mem)), Index(addr);
        if ends then Find(looks, s, here, valid, processed) == (found, here)
        else !looks[here].end && !(looks[here].valid == valid && (!processed || !looks[here].processed))
    {
      var look := ReadLook(addr);
      if look.end {
        return true, false;
      }
      if look.valid == valid {
        if !processed {
          return true, true;
        } else if !look.processed {
          return true, true;
        }
      }
      return false, false;
    }

    /** One round of the scan at a slot; `next` is where it goes on if it does. */
    method ScanOne(addr: nat, start: nat, valid: bool, processed: bool, ghost s: nat, ghost here: nat)
      returns (done: bool, found: bool, next: nat, ghost there: nat)
      requires flash.Valid() && SlotAddr(start) && start < END_ADDR && SlotAddr(addr) && addr < END_ADDR
      requires s == Index(start) && here == Index(addr)
      ensures here < SLOTS && s < SLOTS
      ensures done ==> Find(Looks(SlotsOf(flash.mem)), s, here, valid, processed) == (found, here)
      ensures next == if addr + RECORD_SIZE >= END_ADDR then START_ADDR else addr + RECORD_SIZE
      ensures !done ==> SlotAddr(next) && next != start && next < END_ADDR && there == Index(next) < SLOTS
      ensures !done ==> Find(Looks(SlotsOf(flash.mem)), s, here, valid, processed)
                        == Find(Looks(SlotsOf(flash.mem)), s, there, valid, processed)
    {
      IndexOf(start);
      NextAddr(addr);
      next := addr + RECORD_SIZE;
      if next >= END_ADDR {
        next := START_ADDR;
      }
      there := Index(next);
      done, found := Matches(addr, valid, processed, s);
      if !done {
        FindMovesOn(Looks(SlotsOf(flash.mem)), s, here, valid, processed);
        if next == start {
          done, found := true, false;
        } else {
          SameIndex(next, start);
        }
      }
    }

    /** `find_entry`. */
    method FindEntry(start: nat, valid: bool, processed: bool) returns (found: bool, entryAddr: nat)
      requires flash.Valid() && SlotAddr(start) && start < END_ADDR
      ensures SlotAddr(entryAddr) && entryAddr < END_ADDR
      ensures (found, Index(entryAddr)) == Find(Looks(SlotsOf(flash.mem)), Index(start), Index(start), valid, processed)
    {
      IndexOf(start);
      ghost var looks, s, here := Looks(SlotsOf(flash.mem)), Index(start), Index(start);
      var currAddr: nat := start;
      entryAddr := start;
      while true
        invariant SlotAddr(currAddr) && currAddr < END_ADDR && here == Index(currAddr) < SLOTS
        invariant Find(looks, s, here, valid, processed) == Find(looks, s, s, valid, processed)
        decreases if currAddr >= start then END_ADDR - (currAddr - start) else start - currAddr
      {
        entryAddr := currAddr;
        var done;
        done, found, currAddr, here := ScanOne(currAddr, start, valid, processed, s, here);
        if done {
          return;
        }
      }
    }

    method ReadSequence(addr: nat) returns (seqNumber: bv32)
      requires flash.Valid() && SlotAddr(addr) && addr < END_ADDR
      ensures seqNumber == Sequence(SlotsOf(flash.mem)[Index(addr)])
    {
      var data := ReadRecord(addr);
      seqNumber := Sequence(data);
    }

    /** `set_sequence`. */
    method SetSequence(counter: SequenceCounter)
      requires Valid() && tailAddr < END_ADDR
      modifies counter
      ensures counter.lastSeq == NextSequence(State().slots, State().tail)
    {
      var addr := (if tailAddr == START_ADDR then END_ADDR else tailAddr) - RECORD_SIZE;
      LastWritten(SlotsOf(flash.mem), tailAddr, addr);
      var seqNumber := ReadSequence(addr);
      counter.SetSeqNumber(seqNumber + 1);
    }

    /** The constructor, on whatever the flash holds. */
    constructor (flash: Flash, counter: SequenceCounter)
      requires flash.Valid()
      modifies flash, counter
      ensures this.flash == flash && Valid()
      ensures State() == BootOn(old(SlotsOf(flash.mem))).0
      ensures counter.lastSeq == BootOn(old(SlotsOf(flash.mem))).1
    {
      this.flash := flash;
      headAddr, tailAddr, readAddr := START_ADDR, START_ADDR, START_ADDR;
      new;
      var found, firstValid := FindEntry(START_ADDR, true, false);
      if found {
        MapEntries(firstValid, counter);
      } else {
        StartOver(counter);
      }
    }

    /** The branch that has found none. */
    method StartOver(counter: SequenceCounter)
      requires Valid() && !Find(Looks(SlotsOf(flash.mem)), 0, 0, true, false).0
      modifies this, flash, counter
      ensures Valid() && State() == BootOn(old(SlotsOf(flash.mem))).0
      ensures counter.lastSeq == BootOn(old(SlotsOf(flash.mem))).1
    {
      MakeSpace(START_ADDR);
      tailAddr := START_ADDR;
      readAddr := START_ADDR;
      headAddr := START_ADDR;
      counter.SetSeqNumber(0);
    }

    /** The branch that has found a record. */
    method MapEntries(firstValid: nat, counter: SequenceCounter)
      requires Valid() && SlotAddr(firstValid) && firstValid < END_ADDR
      requires Find(Looks(SlotsOf(flash.mem)), 0, 0, true, false) == (true, Index(firstValid))
      modifies this, flash, counter
      ensures Valid() && State() == BootOn(old(SlotsOf(flash.mem))).0
      ensures counter.lastSeq == BootOn(old(SlotsOf(flash.mem))).1
    {
      var more, address := FindEntry(firstValid, true, true);
      readAddr := address;
      headAddr := readAddr;
      more, address := FindEntry(address, false, false);
      tailAddr := address;
      SetSequence(counter);
      var blank := CheckSpace(tailAddr);
      if !blank {
        MakeSpace(tailAddr);
      }
    }

    /** `readEvent`: the record at the read position, if its first checksum is right. */
    method ReadEvent() returns (ok: bool, data: Record)
      requires Valid() && readAddr < END_ADDR
      ensures data == State().slots[State().read] && (ok <==> Sealed(data))
    {
      IndexOf(readAddr);
      data := ReadRecord(readAddr);
      var crc := Crc8OfRecord(data, RECORD_SIZE - 1);
      ok := crc == 0;
    }

    /** `readNext`. */
    method ReadNext() returns (more: bool)
      requires Valid() && readAddr < END_ADDR
      modifies this`readAddr
      ensures Valid() && (State(), more) == ReadNextOn(old(State()))
    {
      IndexOf(readAddr);
      IndexOf(tailAddr);
      var addr := readAddr;
      if addr == tailAddr {
        return false;
      }
      addr := addr + RECORD_SIZE;
      if addr + RECORD_SIZE >= END_ADDR {
        addr := START_ADDR;
      }
      readAddr := addr;
      return addr != tailAddr;
    }

    /** The record at the head is marked and programmed over itself. */
    method MarkHead(data: Record)
      requires Valid() && headAddr < END_ADDR && data == State().slots[State().head]
      modifies flash
      ensures Valid() && State() == WithHead(old(State()), Marked(data))
    {
      IndexOf(headAddr);
      var event := new Event.FromData(data);
      event.SetProcessed();
      ProgramIsProgramSlot(flash.mem, Index(headAddr), event.data);
      flash.Program(headAddr, event.data);
    }

    /** The last sector is erased when the head is at its end. */
    method EraseLast()
      requires Valid() && headAddr < END_ADDR
      modifies flash
      ensures Valid() && State() == WithoutLast(old(State()))
    {
      IndexOf(headAddr);
      if headAddr + RECORD_SIZE + RECORD_SIZE > END_ADDR {
        MakeSpace(headAddr);
      }
    }

    /** `acknowledge`. */
    method Acknowledge(logTime: bv32) returns (ok: bool)
      requires Valid() && headAddr < END_ADDR
      modifies this`headAddr, this`readAddr, flash
      ensures Valid() && (State(), ok) == AckOn(old(State()), logTime)
      ensures var r := old(State()).slots[old(State()).head];
        ok <==> Sealed(r) && (logTime == 0 || Signed(TimeStamp(r)) <= Signed(logTime))
    {
      IndexOf(headAddr);
      AckInSteps(State(), logTime);
      InTimeIff(State().slots[State().head], logTime);
      readAddr := headAddr;
      var sealed, data := ReadEvent();
      if !sealed {
        return false;
      }
      if logTime != 0 && !TimeAtMost(TimeStamp(data), logTime) {
        return false;
      }
      MarkHead(data);
      EraseLast();
      headAddr := headAddr + RECORD_SIZE;
      return true;
    }
  }

  /** The head slot programmed with r, and the last sector erased if the head is at its end. */
  ghost function WithHead(l: Log, r: Record): Log
    requires l.head < SLOTS
  {
    l.(slots := ProgramSlot(l.slots, l.head, r))
  }

  ghost function WithoutLast(l: Log): Log
    requires l.head < SLOTS
  {
    if l.head + 2 > SLOTS then l.(slots := EraseSectorOf(l.slots, l.head)) else l
  }

  lemma AckInSteps(l: Log, logTime: bv32)
    requires l.head < SLOTS
    ensures var r, read := l.slots[l.head], l.(read := l.head);
      AckOn(l, logTime) == if !Sealed(r) || !InTime(r, logTime) then (read, false)
        else (WithoutLast(WithHead(read, Marked(r))).(head := l.head + 1), true)
  {}
}
