/** The 32-byte record of the flash log (loggerFirmware/src/event.h and event.cc) and its two-stage
    checksum: the first stage seals the record, the second one is filled in when the record has
    been processed. */
module FlashEvent {
  import opened Checksum8
  import opened SignedTimes

  const RECORD_SIZE: nat := 32
  const NO_SEQUENCE: bv32 := 0xFFFF_FFFF

  /** `sEventData`, packed: type, sequence (4), port, temperature (4), state, time (4),
      reserved (15), crc, crcUpdated. */
  type Record = r: seq<bv8> | |r| == RECORD_SIZE witness seq(32, _ => 0)

  /** An erased slot. */
  function Blank(): (r: Record)
    ensures forall i :: 0 <= i < RECORD_SIZE ==> r[i] == 0xFF
  {
    seq(RECORD_SIZE, _ => 0xFF)
  }

  // ----- Fields -----

  function U32(b0: bv8, b1: bv8, b2: bv8, b3: bv8): bv32 {
    (b0 as bv32) | ((b1 as bv32) << 8) | ((b2 as bv32) << 16) | ((b3 as bv32) << 24)
  }

  function LittleEndian(n: bv32): (b: seq<bv8>)
    ensures |b| == 4
  {
    [(n & 0xFF) as bv8, ((n >> 8) & 0xFF) as bv8, ((n >> 16) & 0xFF) as bv8, (n >> 24) as bv8]
  }

  function Sequence(r: Record): bv32 { U32(r[1], r[2], r[3], r[4]) }

  function TimeStamp(r: Record): bv32 { U32(r[11], r[12], r[13], r[14]) }

  lemma OctetsBack(b0: bv8, b1: bv8, b2: bv8, b3: bv8, n: bv32)
    requires n == U32(b0, b1, b2, b3)
    ensures (n & 0xFF) as bv8 == b0 && ((n >> 8) & 0xFF) as bv8 == b1
    ensures ((n >> 16) & 0xFF) as bv8 == b2 && (n >> 24) as bv8 == b3
  {}

  /** The time in a record: four octets from the eleventh on, lowest first. */
  lemma TimeOfRecord(r: Record)
    ensures Signed(TimeStamp(r)) == SignedValue(r[11], r[12], r[13], r[14])
  {
    OctetsBack(r[11], r[12], r[13], r[14], TimeStamp(r));
  }

  /** And its number, four octets from the first on. */
  lemma NumberOfRecord(r: Record)
    ensures Signed(Sequence(r)) == SignedValue(r[1], r[2], r[3], r[4])
  {
    OctetsBack(r[1], r[2], r[3], r[4], Sequence(r));
  }

  // ----- Checksums -----

  /** `readEvent`'s test: the first stage is right. */
  predicate Sealed(r: Record) { Crc8(r[..31]) == 0 }

  /** `isProcessed`: the second stage is right. */
  predicate Processed(r: Record) { Crc8(r) == 0 }

  /** `isValid`. */
  predicate IsValid(r: Record) { Sealed(r) || Processed(r) }

  /** A record as the constructors leave it. */
  predicate Fresh(r: Record) { r[30] == Crc8(r[..30]) && r[31] == 0xFF }

  /** `setProcessed`. */
  function Marked(r: Record): Record { r[31 := Crc8(r[..31])] }

  lemma SealedIff(r: Record)
    ensures Sealed(r) <==> r[30] == Crc8(r[..30])
  {
    assert r[..31] == r[..30] + [r[30]];
    ResidueZeroIff(r[..30], r[30]);
  }

  lemma ProcessedIff(r: Record)
    ensures Processed(r) <==> r[31] == Crc8(r[..31])
  {
    assert r == r[..31] + [r[31]];
    ResidueZeroIff(r[..31], r[31]);
  }

  /** The three stages of a record's life, and that the last step clears the second checksum and
      nothing else. */
  lemma FreshThenMarked(r: Record)
    requires Fresh(r)
    ensures Sealed(r) && IsValid(r) && !Processed(r)
    ensures Marked(r) == r[31 := 0]
    ensures Sealed(Marked(r)) && IsValid(Marked(r)) && Processed(Marked(r))
  {
    SealedIff(r);
    ProcessedIff(r);
    MarkSealed(r);
  }

  /** Marking any sealed record writes zero into the second checksum. */
  lemma MarkSealed(r: Record)
    requires Sealed(r)
    ensures Marked(r) == r[31 := 0]
    ensures Sealed(Marked(r)) && Processed(Marked(r))
  {
    var m := Marked(r);
    assert m[..31] == r[..31];
    ProcessedIff(m);
  }

  // ----- NOR flash can only clear bits -----

  function And(x: bv8, y: bv8): bv8 { x & y }

  function AndRecords(x: Record, y: Record): Record { seq(32, i requires 0 <= i < 32 => And(x[i], y[i])) }

  lemma AndOctet(x: bv8)
    ensures And(x, x) == x && And(0xFF, x) == x && And(x, 0) == 0
  {}

  /** Programming a blank slot stores exactly the record. */
  lemma ProgramBlank(r: Record)
    ensures AndRecords(Blank(), r) == r
  {
    forall i | 0 <= i < 32
      ensures AndRecords(Blank(), r)[i] == r[i]
    {
      AndOctet(r[i]);
    }
  }

  /** Processing a record in place needs no erase: programming the marked record over the sealed one
      stores exactly the marked record. */
  lemma ProgramMarked(r: Record)
    requires Sealed(r)
    ensures AndRecords(r, Marked(r)) == Marked(r)
  {
    MarkSealed(r);
    forall i | 0 <= i < 32
      ensures AndRecords(r, Marked(r))[i] == Marked(r)[i]
    {
      AndOctet(r[i]);
    }
  }

  // ----- A blank slot is not a record -----

  function Blanks(n: nat): seq<bv8> { if n == 0 then [] else [0xFF] + Blanks(n - 1) }

  function BlankCrc(n: nat): bv8 { if n == 0 then 0 else Update(0xFF, BlankCrc(n - 1)) }

  lemma {:induction false} BlanksAre(n: nat)
    ensures Blanks(n) == seq(n, _ => 0xFF)
  {
    if n > 0 {
      BlanksAre(n - 1);
    }
  }

  lemma {:induction false} CrcOfBlanks(n: nat)
    ensures Crc8(Blanks(n)) == BlankCrc(n)
  {
    if n > 0 {
      CrcOfBlanks(n - 1);
      BlanksAre(n - 1);
      BlanksAre(n);
      assert Blanks(n) == Blanks(n - 1) + [0xFF];
      Crc8Append(Blanks(n - 1), [0xFF], 0);
      var c := Crc8(Blanks(n - 1));
      assert [0xFF as bv8][1..] == [];
    }
  }

  lemma UpdateBlank(crc: bv8)
    ensures Update(0xFF, crc) == Shift(Shift(Shift(Shift(Shift(Shift(Shift(Shift(crc ^ 0xFF))))))))
  {
    var x := crc ^ 0xFF;
    var x4 := Shift(Shift(Shift(Shift(x))));
    FourShifts(x, BITS);
    FourShifts(x4, 4);
  }

  lemma FourShifts(x: bv8, n: nat)
    requires n >= 4
    ensures Shifts(x, n) == Shifts(Shift(Shift(Shift(Shift(x)))), n - 4)
  {
    var x2 := Shift(Shift(x));
    assert Shifts(x, n) == Shifts(Shift(x), n - 1) == Shifts(x2, n - 2);
    assert Shifts(x2, n - 2) == Shifts(Shift(x2), n - 3) == Shifts(Shift(Shift(x2)), n - 4);
  }

  lemma BlankCrc31()
    ensures BlankCrc(31) == 0x3f
  {
    UpdateBlank(0x00); assert BlankCrc(1) == 0x35; UpdateBlank(0x35); assert BlankCrc(2) == 0xb4;
    UpdateBlank(0xb4); assert BlankCrc(3) == 0x66; UpdateBlank(0x66); assert BlankCrc(4) == 0x8d;
    UpdateBlank(0x8d); assert BlankCrc(5) == 0x44; UpdateBlank(0x44); assert BlankCrc(6) == 0x12;
    UpdateBlank(0x12); assert BlankCrc(7) == 0x14; UpdateBlank(0x14); assert BlankCrc(8) == 0xc9;
    UpdateBlank(0xc9); assert BlankCrc(9) == 0x63; UpdateBlank(0x63); assert BlankCrc(10) == 0xb2;
    UpdateBlank(0xb2); assert BlankCrc(11) == 0xbb; UpdateBlank(0xbb); assert BlankCrc(12) == 0x27;
    UpdateBlank(0x27); assert BlankCrc(13) == 0x95; UpdateBlank(0x95); assert BlankCrc(14) == 0x1b;
    UpdateBlank(0x1b); assert BlankCrc(15) == 0x88; UpdateBlank(0x88); assert BlankCrc(16) == 0x7b;
    UpdateBlank(0x7b); assert BlankCrc(17) == 0xed; UpdateBlank(0xed); assert BlankCrc(18) == 0x21;
    UpdateBlank(0x21); assert BlankCrc(19) == 0x48; UpdateBlank(0x48); assert BlankCrc(20) == 0xb1;
    UpdateBlank(0xb1); assert BlankCrc(21) == 0x59; UpdateBlank(0x59); assert BlankCrc(22) == 0x72;
    UpdateBlank(0x72); assert BlankCrc(23) == 0x71; UpdateBlank(0x71); assert BlankCrc(24) == 0x93;
    UpdateBlank(0x93); assert BlankCrc(25) == 0xc6; UpdateBlank(0xc6); assert BlankCrc(26) == 0x22;
    UpdateBlank(0x22); assert BlankCrc(27) == 0xaa; UpdateBlank(0xaa); assert BlankCrc(28) == 0xe4;
    UpdateBlank(0xe4); assert BlankCrc(29) == 0xbd; UpdateBlank(0xbd); assert BlankCrc(30) == 0xfa;
    UpdateBlank(0xfa); assert BlankCrc(31) == 0x3f;
  }

  lemma {:induction false} BlankPrefix(blank: seq<bv8>, n: nat)
    requires |blank| == n && forall i :: 0 <= i < n ==> blank[i] == 0xFF
    ensures Crc8(blank) == BlankCrc(n)
  {
    BlanksAre(n);
    CrcOfBlanks(n);
    assert blank == Blanks(n);
  }

  lemma BlankIsNoRecord()
    ensures !Sealed(Blank()) && !Processed(Blank()) && !IsValid(Blank()) && Sequence(Blank()) == NO_SEQUENCE
  {
    BlankPrefix(Blank()[..31], 31);
    BlankCrc31();
    ProcessedIff(Blank());
  }

  // ----- `cEvent` -----

  lemma LittleEndianRoundTrip(n: bv32)
    ensures var b := LittleEndian(n); U32(b[0], b[1], b[2], b[3]) == n
  {
    OctetsRoundTrip(n);
  }

  lemma OctetsRoundTrip(n: bv32)
    ensures U32((n & 0xFF) as bv8, ((n >> 8) & 0xFF) as bv8, ((n >> 16) & 0xFF) as bv8, (n >> 24) as bv8) == n
  {}

  function Body(eventType: bv8, seqNumber: seq<bv8>, port: bv8, temp: seq<bv8>, state: bv8, time: seq<bv8>,
                reserved: seq<bv8>): (b: seq<bv8>)
    requires |seqNumber| == |temp| == |time| == 4 && |reserved| == 15
    ensures |b| == 30
  {
    [eventType] + seqNumber + [port] + temp + [state] + time + reserved
  }

  lemma BodyFields(b: seq<bv8>, eventType: bv8, seqNumber: seq<bv8>, port: bv8, temp: seq<bv8>, state: bv8,
                   time: seq<bv8>, reserved: seq<bv8>)
    requires |seqNumber| == |temp| == |time| == 4 && |reserved| == 15
    requires b == Body(eventType, seqNumber, port, temp, state, time, reserved)
    ensures b[0] == eventType && b[5] == port && b[10] == state
    ensures b[1] == seqNumber[0] && b[2] == seqNumber[1] && b[3] == seqNumber[2] && b[4] == seqNumber[3]
    ensures b[11] == time[0] && b[12] == time[1] && b[13] == time[2] && b[14] == time[3]
    ensures b[6..10] == temp && b[15..30] == reserved
  {}

  lemma BuiltRecord(r: Record, crc: bv8, eventType: bv8, seqNumber: bv32, port: bv8, temp: seq<bv8>, state: bv8,
                    time: bv32, reserved: seq<bv8>)
    requires |temp| == 4 && |reserved| == 15
    requires var b := Body(eventType, LittleEndian(seqNumber), port, temp, state, LittleEndian(time), reserved);
      r == b + [crc, 0xFF] && crc == Crc8(b)
    ensures Fresh(r) && Sequence(r) == seqNumber && TimeStamp(r) == time
    ensures r[0] == eventType && r[5] == port && r[6..10] == temp && r[10] == state && r[15..30] == reserved
  {
    var s, t := LittleEndian(seqNumber), LittleEndian(time);
    var b := Body(eventType, s, port, temp, state, t, reserved);
    LittleEndianRoundTrip(seqNumber);
    LittleEndianRoundTrip(time);
    BodyFields(b, eventType, s, port, temp, state, t, reserved);
    assert r[..30] == b && r[6..10] == b[6..10] && r[15..30] == b[15..30];
  }

  /** The static `mLastSeq`. */
  class SequenceCounter {
    var lastSeq: bv32

    constructor (seqNumber: bv32)
      ensures lastSeq == seqNumber
    {
      lastSeq := seqNumber;
    }

    method SetSeqNumber(seqNumber: bv32)
      modifies this
      ensures lastSeq == seqNumber
    {
      lastSeq := seqNumber;
    }

    /** `mLastSeq++`. */
    method Next() returns (n: bv32)
      modifies this
      ensures n == old(lastSeq) && lastSeq == old(lastSeq) + 1
    {
      n := lastSeq;
      lastSeq := lastSeq + 1;
    }
  }

  class Event {
    var data: Record

    /** Both event constructors. The reserved octets are never assigned, so they are whatever the
        caller's stack held. */
    constructor (counter: SequenceCounter, eventType: bv8, port: bv8, temp: seq<bv8>, state: bv8, time: bv32,
                 reserved: seq<bv8>)
      requires |temp| == 4 && |reserved| == 15
      modifies counter
      ensures counter.lastSeq == old(counter.lastSeq) + 1
      ensures Fresh(data)
      ensures Sequence(data) == old(counter.lastSeq) && TimeStamp(data) == time
      ensures data[0] == eventType && data[5] == port && data[6..10] == temp && data[10] == state
      ensures data[15..30] == reserved
    {
      var seqNumber := counter.Next();
      var body := Body(eventType, LittleEndian(seqNumber), port, temp, state, LittleEndian(time), reserved);
      var crc := Crc8OfRecord(body, 30);
      var record := body + [crc, 0xFF];
      data := record;
      assert body[..30] == body;
      BuiltRecord(record, crc, eventType, seqNumber, port, temp, state, time, reserved);
    }

    /** `cEvent()` followed by `setData`. */
    constructor FromData(record: Record)
      ensures data == record
    {
      data := record;
    }

    method IsValidEvent() returns (valid: bool)
      ensures valid == IsValid(data)
    {
      var crc := Crc8OfRecord(data, 31);
      if crc == 0 {
        return true;
      }
      crc := Crc8OfRecord(data, 32);
      assert data[..32] == data;
      return crc == 0;
    }

    method IsProcessedEvent() returns (processed: bool)
      ensures processed == Processed(data)
    {
      var crc := Crc8OfRecord(data, 32);
      assert data[..32] == data;
      return crc == 0;
    }

    method SetProcessed()
      modifies this
      ensures data == Marked(old(data))
    {
      var crc := Crc8OfRecord(data, 31);
      data := data[31 := crc];
    }
  }
}
