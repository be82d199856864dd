/** What an event whose checksum octet reads as "no event" does to delivery: nothing behind it is sent or
    acknowledged. The loops are those of EclipseArduino/pumpLogger/event_reporter.cpp. */
module DeliveryBlocks {
  import opened StateEvent
  import opened StateLog
  import opened Delivery

  /** The first cell from i on that reads as no event, if there is one. */
  function FirstUnseen(slots: seq<Cell>, i: nat): (k: nat)
    requires i <= |slots|
    ensures i <= k <= |slots| && (k < |slots| ==> !Seen(slots[k]))
    ensures forall j :: i <= j < k ==> Seen(slots[j])
    decreases |slots| - i
  {
    if i == |slots| || !Seen(slots[i]) then i else FirstUnseen(slots, i + 1)
  }

  /** What is sent, whatever the cells hold. */
  lemma {:induction false} SentUpTo(slots: seq<Cell>, i: nat)
    requires i <= |slots|
    ensures SendFrom(slots, i) == slots[i..FirstUnseen(slots, i)]
    decreases |slots| - i
  {
    if i < |slots| && Seen(slots[i]) {
      SentUpTo(slots, i + 1);
    }
  }

  /** On a region of acknowledged, then pending, then blank cells, exactly the pending events are sent if and
      only if every one of them is seen. */
  lemma {:induction false} SentIffSeen(slots: seq<Cell>, head: nat, tail: nat)
    requires Layout(slots, head, tail)
    ensures SendFrom(slots, head) == slots[head..tail] <==> forall i :: head <= i < tail ==> Seen(slots[i])
  {
    SentUpTo(slots, head);
    BlankNotSeen();
    var k := FirstUnseen(slots, head);
    assert !Seen(slots[tail]);
    if k < tail {
      assert |slots[head..k]| < |slots[head..tail]|;
    }
  }

  /** n calls of `ack`, from any state, as long as there is a cell at the head. */
  function Acks(l: Log, n: nat): (after: Log)
    requires l.head <= |l.slots|
    ensures after.head <= |after.slots| == |l.slots|
    decreases n
  {
    if n == 0 || l.head == |l.slots| then l else Acks(AckOn(l), n - 1)
  }

  /** What is acknowledged: up to the first cell that is not seen, however large the count. */
  lemma {:induction false} AckedUpTo(l: Log, n: nat, k: nat)
    requires l.head <= k < |l.slots| && !Seen(l.slots[k]) && forall i :: l.head <= i < k ==> Seen(l.slots[i])
    ensures Acks(l, n).head == if l.head + n <= k then l.head + n else k
    decreases n
  {
    if n > 0 {
      AckedUpTo(AckOn(l), n - 1, k);
    }
  }

  /** Logging any event that checks, seen or not, into room that is there. */
  lemma {:induction false} LogKeepsLayout(l: Log, e: Cell)
    requires Layout(l.slots, l.head, l.tail) && BACKUPS < |l.slots| && l.tail + 1 < |l.slots|
    requires Checksum(e) == 0 && e[ACK] == 0xFF
    ensures var after := LogOn(l, e);
      && Layout(after.slots, after.head, after.tail) && after.head == l.head && after.tail == l.tail + 1
      && after.slots == l.slots[l.tail := e]
  {}

  function LogAll(l: Log, es: seq<Cell>): (after: Log)
    requires BACKUPS < |l.slots|
    ensures |after.slots| == |l.slots| && (l.head <= |l.slots| ==> after.head <= |after.slots|)
    decreases |es|
  {
    if es == [] then l else LogAll(LogOn(l, es[0]), es[1..])
  }

  predicate New(es: seq<Cell>) { forall i :: 0 <= i < |es| ==> Checksum(es[i]) == 0 && es[i][ACK] == 0xFF }

  lemma {:induction false} LogAllKeeps(l: Log, es: seq<Cell>)
    requires Layout(l.slots, l.head, l.tail) && BACKUPS < |l.slots| && l.tail + |es| < |l.slots| && New(es)
    ensures var after := LogAll(l, es);
      && Layout(after.slots, after.head, after.tail) && after.head == l.head && after.tail == l.tail + |es|
      && (forall i :: 0 <= i < l.tail ==> after.slots[i] == l.slots[i])
    decreases |es|
  {
    if es != [] {
      LogKeepsLayout(l, es[0]);
      LogAllKeeps(LogOn(l, es[0]), es[1..]);
    }
  }

  /** An event that is not seen, logged where nothing is pending, silences the device: whatever is logged
      behind it, nothing is sent, and no acknowledgement moves the head. */
  lemma {:induction false} UnseenSilences(l: Log, e: Cell, es: seq<Cell>, n: nat)
    requires Inv(l) && l.head == l.tail && l.tail + 1 + |es| < |l.slots|
    requires Checksum(e) == 0 && e[ACK] == 0xFF && !Seen(e) && New(es)
    ensures var after := LogAll(LogOn(l, e), es);
      && after.tail - after.head == 1 + |es|
      && SendFrom(after.slots, after.head) == [] && Acks(after, n).head == after.head
  {
    InvLayout(l);
    LogKeepsLayout(l, e);
    LogAllKeeps(LogOn(l, e), es);
    var after := LogAll(LogOn(l, e), es);
    assert after.slots[after.head] == e;
    AckedUpTo(after, n, after.head);
  }

  /** There is such an event: state 0 on port 0 at second 255. */
  lemma UnseenEvent()
    ensures var e := NewEvent([0xFF, 0, 0, 0], 0, 0);
      Checksum(e) == 0 && e[ACK] == 0xFF && e[CRC] == 0 && !Seen(e)
  {
    NewEventFacts([0xFF, 0, 0, 0], 0, 0);
    ZerosBetween();
  }

  lemma {:induction false} AppendZero(x: seq<bv8>)
    ensures Checksum(x + [0]) == Checksum(x)
  {
    ChecksumLast(x, 0);
    XorZero(Checksum(x), 0);
  }

  lemma ZerosBetween()
    ensures Checksum([0xFF, 0, 0, 0] + [0, 0, 0xFF]) == 0
  {
    var one: seq<bv8> := [0xFF];
    var body := one + [0] + [0] + [0] + [0] + [0];
    AppendZero(one);
    AppendZero(one + [0]);
    AppendZero(one + [0] + [0]);
    AppendZero(one + [0] + [0] + [0]);
    AppendZero(one + [0] + [0] + [0] + [0]);
    assert one[..0] == [];
    assert Checksum(one) == Checksum([]) ^ 0xFF;
    ChecksumLast(body, 0xFF);
    XorZero(Checksum(body), 0xFF);
    assert [0xFF, 0, 0, 0] + [0, 0, 0xFF] == body + [0xFF];
  }
}
