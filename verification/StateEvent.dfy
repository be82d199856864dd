/** `s_event`, the 8-byte record of the EEPROM log (Arduino/StateLogger/StateLogger.h and
    StateLogger.cpp): time stamp (4), port, state, ack, crc. */
module StateEvent {

  const CELL_SIZE: nat := 8
  const ACK: nat := 6
  const CRC: nat := 7

  type Cell = c: seq<bv8> | |c| == CELL_SIZE witness seq(CELL_SIZE, _ => 0)

  /** An erased cell. */
  function Blank(): (c: Cell)
    ensures forall i :: 0 <= i < CELL_SIZE ==> c[i] == 0xFF
  {
    seq(CELL_SIZE, _ => 0xFF)
  }

  /** `calc_crc`: the exclusive or of the octets. */
  function Checksum(data: seq<bv8>): bv8 {
    if data == [] then 0 else Checksum(data[..|data| - 1]) ^ data[|data| - 1]
  }

  method CalcCrc(buff: seq<bv8>, len: nat) returns (csum: bv8)
    requires len <= |buff|
    ensures csum == Checksum(buff[..len])
  {
    csum := 0;
    for k := 0 to len
      invariant csum == Checksum(buff[..k])
    {
      assert buff[..k + 1][..k] == buff[..k];
      csum := csum ^ buff[k];
    }
  }

  /** `isValid`. */
  predicate IsValid(c: Cell) { c != Blank() && Checksum(c) == 0 }

  /** What the logger takes for an event: valid, and with a crc octet that is not zero. */
  predicate Seen(c: Cell) { IsValid(c) && c[CRC] != 0 }

  /** `s_event(timeStamp, port, state)`. */
  function NewEvent(time: seq<bv8>, port: bv8, state: bv8): Cell
    requires |time| == 4
  {
    var body := time + [port, state, 0xFF];
    body + [Checksum(body)]
  }

  /** `acknowledge`. */
  function Acked(c: Cell): Cell {
    var body := c[..ACK] + [0];
    body + [Checksum(body)]
  }

  /** A new event whose crc octet is told apart from "no event", before and after it is
      acknowledged. */
  predicate Storable(c: Cell) {
    c[ACK] == 0xFF && Checksum(c) == 0 && c[CRC] != 0 && c[CRC] != 0xFF
  }

  lemma XorZero(x: bv8, y: bv8)
    ensures x ^ y == 0 <==> x == y
    ensures x ^ 0 == x
    ensures x ^ 0xFF == 0 <==> x == 0xFF
    ensures x ^ 0xFF == 0xFF <==> x == 0
    ensures (x ^ 0xFF) ^ 0xFF == x
  {}

  lemma {:induction false} ChecksumLast(body: seq<bv8>, b: bv8)
    ensures Checksum(body + [b]) == Checksum(body) ^ b
  {
    assert (body + [b])[..|body|] == body;
  }

  /** A cell checks exactly when its last octet is the checksum of the others. */
  lemma {:induction false} ValidIff(c: Cell)
    ensures Checksum(c) == 0 <==> c[CRC] == Checksum(c[..CRC])
  {
    assert c == c[..CRC] + [c[CRC]];
    ChecksumLast(c[..CRC], c[CRC]);
    XorZero(Checksum(c[..CRC]), c[CRC]);
  }

  /** Acknowledging keeps the event and flips every bit of the crc octet. */
  lemma {:induction false} AckedFacts(c: Cell)
    requires c[ACK] == 0xFF && Checksum(c) == 0
    ensures Acked(c)[..ACK] == c[..ACK] && Acked(c)[ACK] == 0
    ensures Checksum(Acked(c)) == 0 && Acked(c) != Blank()
    ensures Acked(c)[CRC] == c[CRC] ^ 0xFF
  {
    var head := c[..ACK];
    var s := Checksum(head);
    assert c[..CRC] == head + [0xFF];
    ChecksumLast(head, 0xFF);
    ChecksumLast(head, 0);
    ValidIff(c);
    ValidIff(Acked(c));
    assert Acked(c)[..CRC] == head + [0];
    XorZero(s, 0);
  }

  /** The crc octet of a new event decides whether the logger will see it, before and after the
      acknowledgement: exactly the values 0x00 and 0xFF are lost. */
  lemma {:induction false} StorableIffSeen(c: Cell)
    requires c[ACK] == 0xFF && Checksum(c) == 0
    ensures Storable(c) <==> Seen(c) && Seen(Acked(c))
  {
    AckedFacts(c);
    XorZero(c[CRC], 0);
    if c[CRC] != 0xFF {
      assert c != Blank();
    }
  }

  lemma BlankNotSeen()
    ensures !Seen(Blank())
  {}

  lemma NewEventFacts(time: seq<bv8>, port: bv8, state: bv8)
    requires |time| == 4
    ensures var c := NewEvent(time, port, state);
      c[..4] == time && c[4] == port && c[5] == state && c[ACK] == 0xFF && Checksum(c) == 0
  {
    var c := NewEvent(time, port, state);
    var body := time + [port, state, 0xFF];
    assert c[..CRC] == body;
    ValidIff(c);
  }
}
