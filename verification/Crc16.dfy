/** The 16-bit frame check sequence over whole messages: the table-driven loop of
    loggerFirmware/src/crc.cc computes the serial CRC of the transmitted bits (RFC 1662, section
    3.1 and Appendix C.2), the check at the end of a frame accepts exactly the right two octets,
    and every short burst and every odd number of flipped bits is caught. */
module Crc16 {
  import opened CrcRegister

  function CrcFrom(message: seq<bv8>, crc: bv16): bv16
    decreases |message|
  {
    if message == [] then crc else CrcFrom(message[1..], Update(message[0], crc))
  }

  function Crc(message: seq<bv8>): bv16 {
    CrcFrom(message, INIT_CRC)
  }

  /** The loop over a buffer: `ccitt_crc16(data_ptr, len)`. */
  method CrcOfBuffer(data: array<bv8>, len: nat) returns (crc: bv16)
    requires len <= data.Length
    ensures crc == Crc(data[..len])
  {
    crc := INIT_CRC;
    var i := 0;
    while i < len
      invariant 0 <= i <= len
      invariant CrcFrom(data[i..len], crc) == Crc(data[..len])
    {
      assert data[i..len][1..] == data[i + 1..len];
      crc := Update(data[i], crc);
      i := i + 1;
    }
  }

  lemma {:induction false} CrcFromAppend(x: seq<bv8>, y: seq<bv8>, crc: bv16)
    ensures CrcFrom(x + y, crc) == CrcFrom(y, CrcFrom(x, crc))
    decreases |x|
  {
    if x == [] {
      assert x + y == y;
    } else {
      assert (x + y)[1..] == x[1..] + y;
      CrcFromAppend(x[1..], y, Update(x[0], crc));
    }
  }

  // ----- The definition: a shift register over the transmitted bits -----

  /** Any machine that consumes a list of bits, first bit first. */
  function Fold<S>(step: (S, bool) -> S, bits: seq<bool>, s: S): S
    decreases |bits|
  {
    if bits == [] then s else Fold(step, bits[1..], step(s, bits[0]))
  }

  /** The register after consuming `bits`. */
  function Serial(bits: seq<bool>, crc: bv16): bv16 {
    Fold(Feed, bits, crc)
  }

  /** The eight bits of an octet in the order they are sent. */
  function OctetBits(d: bv8): (bits: seq<bool>)
    ensures |bits| == 8
  {
    [d & 1 == 1, (d >> 1) & 1 == 1, (d >> 2) & 1 == 1, (d >> 3) & 1 == 1,
     (d >> 4) & 1 == 1, (d >> 5) & 1 == 1, (d >> 6) & 1 == 1, (d >> 7) & 1 == 1]
  }

  function MessageBits(message: seq<bv8>): (bits: seq<bool>)
    ensures |bits| == 8 * |message|
  {
    if message == [] then [] else OctetBits(message[0]) + MessageBits(message[1..])
  }

  // ----- The table step is eight serial steps -----

  lemma {:induction false} FoldTwo<S>(step: (S, bool) -> S, bits: seq<bool>, s: S)
    requires |bits| >= 2
    ensures Fold(step, bits, s) == Fold(step, bits[2..], step(step(s, bits[0]), bits[1]))
  {
    assert bits[1..][1..] == bits[2..];
  }

  lemma FoldEight<S>(step: (S, bool) -> S, s: S,
                     b0: bool, b1: bool, b2: bool, b3: bool, b4: bool, b5: bool, b6: bool, b7: bool)
    ensures Fold(step, [b0, b1, b2, b3, b4, b5, b6, b7], s)
      == step(step(step(step(step(step(step(step(s, b0), b1), b2), b3), b4), b5), b6), b7)
  {
    var bits := [b0, b1, b2, b3, b4, b5, b6, b7];
    var s2 := step(step(s, b0), b1);
    var s4 := step(step(s2, b2), b3);
    var s6 := step(step(s4, b4), b5);
    FoldTwo(step, bits, s);
    FoldTwo(step, bits[2..], s2);
    FoldTwo(step, bits[4..], s4);
    FoldTwo(step, bits[6..], s6);
    assert bits[2..][2..] == bits[4..] && bits[4..][2..] == bits[6..] && bits[6..][2..] == [];
  }

  lemma {:induction false} FoldAppend<S>(step: (S, bool) -> S, x: seq<bool>, y: seq<bool>, s: S)
    ensures Fold(step, x + y, s) == Fold(step, y, Fold(step, x, s))
    decreases |x|
  {
    if x == [] {
      assert x + y == y;
    } else {
      assert (x + y)[1..] == x[1..] + y;
      FoldAppend(step, x[1..], y, step(s, x[0]));
    }
  }

  lemma UpdateIsSerial(d: bv8, crc: bv16)
    ensures Update(d, crc) == Serial(OctetBits(d), crc)
  {
    UpdateIsFeedOctet(d, crc);
    FoldEight(Feed, crc, d & 1 == 1, (d >> 1) & 1 == 1, (d >> 2) & 1 == 1, (d >> 3) & 1 == 1,
              (d >> 4) & 1 == 1, (d >> 5) & 1 == 1, (d >> 6) & 1 == 1, (d >> 7) & 1 == 1);
  }

  /** The table-driven CRC of any message is the serial CRC of its bits. */
  lemma {:induction false} CrcIsSerial(message: seq<bv8>, crc: bv16)
    ensures CrcFrom(message, crc) == Serial(MessageBits(message), crc)
    decreases |message|
  {
    if message != [] {
      UpdateIsSerial(message[0], crc);
      FoldAppend(Feed, OctetBits(message[0]), MessageBits(message[1..]), crc);
      CrcIsSerial(message[1..], Update(message[0], crc));
    }
  }

  // ----- Nothing is lost: bits can be read back from the register -----

  /** Bits can be read back from any machine whose closeness relation survives a step backwards
      for up to sixteen steps. */
  lemma {:induction false} FoldBackwards<S(!new)>(step: (S, bool) -> S, close: (nat, S, S) -> bool,
                                                  x: seq<bool>, y: seq<bool>, s: S, t: S)
    requires |x| == |y| <= 16
    requires forall r: S :: close(0, r, r)
    requires forall n: nat, p: S, b: bool, q: S, c: bool ::
      n < 16 && close(n, step(p, b), step(q, c)) ==> close(n + 1, p, q) && (p == q ==> b == c)
    requires Fold(step, x, s) == Fold(step, y, t)
    ensures close(|x|, s, t)
    ensures s == t ==> x == y
    decreases |x|
  {
    if x != [] {
      FoldBackwards(step, close, x[1..], y[1..], step(s, x[0]), step(t, y[0]));
      assert x == [x[0]] + x[1..] && y == [y[0]] + y[1..];
    }
  }

  lemma SerialReadBack(x: seq<bool>, y: seq<bool>, s: bv16)
    requires |x| == |y| <= 16
    requires Serial(x, s) == Serial(y, s)
    ensures x == y
  {
    forall n: nat, p: bv16, b: bool, q: bv16, c: bool | n < 16 && Close(n, Feed(p, b), Feed(q, c))
      ensures Close(n + 1, p, q) && (p == q ==> b == c)
    {
      CloseBackwards(n, p, b, q, c);
    }
    FoldBackwards(Feed, Close, x, y, s, s);
  }

  lemma {:induction false} SerialInjective(bits: seq<bool>, s: bv16, t: bv16)
    requires Serial(bits, s) == Serial(bits, t)
    ensures s == t
    decreases |bits|
  {
    if bits != [] {
      SerialInjective(bits[1..], Feed(s, bits[0]), Feed(t, bits[0]));
      FeedInjective(s, t, bits[0]);
    }
  }

  lemma OctetBitsInjective(a: bv8, b: bv8)
    requires OctetBits(a) == OctetBits(b)
    ensures a == b
  {
    var x, y := OctetBits(a), OctetBits(b);
    assert x[0] == y[0] && x[1] == y[1] && x[2] == y[2] && x[3] == y[3];
    assert x[4] == y[4] && x[5] == y[5] && x[6] == y[6] && x[7] == y[7];
    BitsDetermineOctet(a, b);
  }

  lemma {:induction false} MessageBitsInjective(m: seq<bv8>, m': seq<bv8>)
    requires |m| == |m'| && MessageBits(m) == MessageBits(m')
    ensures m == m'
  {
    if m != [] {
      assert OctetBits(m[0]) == MessageBits(m)[..8] == MessageBits(m')[..8] == OctetBits(m'[0]);
      OctetBitsInjective(m[0], m'[0]);
      assert MessageBits(m[1..]) == MessageBits(m)[8..] == MessageBits(m')[8..] == MessageBits(m'[1..]);
      MessageBitsInjective(m[1..], m'[1..]);
      assert m == [m[0]] + m[1..] && m' == [m'[0]] + m'[1..];
    }
  }

  lemma {:induction false} MessageBitsAppend(x: seq<bv8>, y: seq<bv8>)
    ensures MessageBits(x + y) == MessageBits(x) + MessageBits(y)
  {
    if x == [] {
      assert x + y == y;
    } else {
      assert (x + y)[1..] == x[1..] + y;
      MessageBitsAppend(x[1..], y);
    }
  }

  // ----- The frame check sequence -----

  /** The two octets sent after a message: its complemented CRC, low octet first. */
  function Fcs(message: seq<bv8>): (fcs: seq<bv8>)
    ensures |fcs| == 2
  {
    [FcsLow(Crc(message)), FcsHigh(Crc(message))]
  }

  lemma {:induction false} TwoUpdates(a: bv8, b: bv8, s: bv16)
    ensures CrcFrom([a, b], s) == Update(b, Update(a, s))
    ensures CrcFrom([a, b], s) == Serial(OctetBits(a) + OctetBits(b), s)
  {
    var s1 := Update(a, s);
    assert [a, b][1..] == [b] && [b][1..] == [];
    assert CrcFrom([a, b], s) == CrcFrom([b], s1) == CrcFrom([], Update(b, s1));
    UpdateIsSerial(a, s);
    UpdateIsSerial(b, s1);
    FoldAppend(Feed, OctetBits(a), OctetBits(b), s);
  }

  lemma {:induction false} FcsIsGood(s: bv16)
    ensures CrcFrom([FcsLow(s), FcsHigh(s)], s) == GOOD_CRC
  {
    TwoUpdates(FcsLow(s), FcsHigh(s), s);
    var s1 := (s >> 8) ^ 0x0f78;
    FcsIndices(s, s1);
    XorMeans(s >> 8, 0x0f78, s1);
    XorMeans(s1 >> 8, 0xf0b7, GOOD_CRC);
    assert CrcTable(0xFF) == 0x0f78 && CrcTable(0x87) == 0xf0b7;
  }

  /** The check at the end of a frame accepts exactly one pair of octets after any message. */
  lemma FcsAcceptedIffCorrect(m: seq<bv8>, a: bv8, b: bv8)
    ensures Crc(m + [a, b]) == GOOD_CRC <==> [a, b] == Fcs(m)
  {
    var s := Crc(m);
    CrcFromAppend(m, [a, b], INIT_CRC);
    CrcFromAppend(m, Fcs(m), INIT_CRC);
    FcsIsGood(s);
    var c, d := FcsLow(s), FcsHigh(s);
    if Crc(m + [a, b]) == GOOD_CRC {
      TwoUpdates(a, b, s);
      TwoUpdates(c, d, s);
      var x, y := OctetBits(a) + OctetBits(b), OctetBits(c) + OctetBits(d);
      SerialReadBack(x, y, s);
      assert x[..8] == OctetBits(a) && y[..8] == OctetBits(c) && x[8..] == OctetBits(b) && y[8..] == OctetBits(d);
      OctetBitsInjective(a, c);
      OctetBitsInjective(b, d);
    }
  }

  /** A suffix has the check sequence of the whole message exactly if what is in front of it leaves the
      sum where it starts. */
  lemma SuffixChecks(x: seq<bv8>, y: seq<bv8>)
    ensures Fcs(x + y) == Fcs(y) <==> Crc(x) == INIT_CRC
  {
    var s := Crc(x);
    CrcFromAppend(x, y, INIT_CRC);
    if Fcs(x + y) == Fcs(y) {
      assert Fcs(x + y)[0] == Fcs(y)[0] && Fcs(x + y)[1] == Fcs(y)[1];
      FcsDetermines(Crc(x + y), Crc(y));
      CrcIsSerial(y, s);
      CrcIsSerial(y, INIT_CRC);
      SerialInjective(MessageBits(y), s, INIT_CRC);
    }
  }

  // ----- Error detection -----

  /** Two messages of the same length that differ, but only within some 16 consecutive transmitted
      bits, have different CRCs: every burst error of up to 16 bits is caught. */
  lemma {:induction false} BurstDetected(m: seq<bv8>, m': seq<bv8>, from: nat, to: nat)
    requires |m| == |m'| && m != m'
    requires from <= to <= 8 * |m| && to - from <= 16
    requires MessageBits(m)[..from] == MessageBits(m')[..from]
    requires MessageBits(m)[to..] == MessageBits(m')[to..]
    ensures Crc(m) != Crc(m')
  {
    var x, y := MessageBits(m), MessageBits(m');
    CrcIsSerial(m, INIT_CRC);
    CrcIsSerial(m', INIT_CRC);
    if Crc(m) == Crc(m') {
      BurstVisible(x, y, from, to);
      MessageBitsInjective(m, m');
    }
  }

  lemma BurstVisible(x: seq<bool>, y: seq<bool>, from: nat, to: nat)
    requires |x| == |y| && from <= to <= |x| && to - from <= 16
    requires x[..from] == y[..from] && x[to..] == y[to..]
    requires Serial(x, INIT_CRC) == Serial(y, INIT_CRC)
    ensures x == y
  {
    SerialThreeParts(x, from, to);
    SerialThreeParts(y, from, to);
    var s := Serial(x[..from], INIT_CRC);
    SerialInjective(x[to..], Serial(x[from..to], s), Serial(y[from..to], s));
    SerialReadBack(x[from..to], y[from..to], s);
    assert x == x[..from] + x[from..to] + x[to..] && y == y[..from] + y[from..to] + y[to..];
  }

  lemma SerialThreeParts(x: seq<bool>, from: nat, to: nat)
    requires from <= to <= |x|
    ensures Serial(x, INIT_CRC) == Serial(x[to..], Serial(x[from..to], Serial(x[..from], INIT_CRC)))
  {
    assert x == x[..from] + x[from..] && x[from..] == x[from..to] + x[to..];
    FoldAppend(Feed, x[..from], x[from..], INIT_CRC);
    FoldAppend(Feed, x[from..to], x[to..], Serial(x[..from], INIT_CRC));
  }

  /** In particular, no change of two neighbouring octets goes unnoticed. */
  lemma AdjacentOctetsDetected(x: seq<bv8>, a: bv8, b: bv8, a': bv8, b': bv8, y: seq<bv8>)
    requires [a, b] != [a', b']
    ensures Crc(x + [a, b] + y) != Crc(x + [a', b'] + y)
  {
    var m, m' := x + [a, b] + y, x + [a', b'] + y;
    var k := |x|;
    MessageBitsAppend(x + [a, b], y);
    MessageBitsAppend(x + [a', b'], y);
    MessageBitsAppend(x, [a, b]);
    MessageBitsAppend(x, [a', b']);
    assert m[k..k + 2] == [a, b] && m'[k..k + 2] == [a', b'];
    BurstDetected(m, m', 8 * k, 8 * k + 16);
  }

  /** The number of positions at which two bit strings of the same length differ. */
  function Flips(x: seq<bool>, y: seq<bool>): nat
    requires |x| == |y|
  {
    if x == [] then 0 else (if x[0] != y[0] then 1 else 0) + Flips(x[1..], y[1..])
  }

  lemma {:induction false} SerialParity(x: seq<bool>, y: seq<bool>, s: bv16, t: bv16)
    requires |x| == |y|
    ensures (Odd(Serial(x, s)) != Odd(Serial(y, t))) == ((Odd(s) != Odd(t)) != (Flips(x, y) % 2 == 1))
    decreases |x|
  {
    if x != [] {
      FeedParity(s, x[0]);
      FeedParity(t, y[0]);
      SerialParity(x[1..], y[1..], Feed(s, x[0]), Feed(t, y[0]));
    }
  }

  /** Any odd number of flipped bits, anywhere in the message, changes its CRC. */
  lemma {:induction false} OddFlipsDetected(m: seq<bv8>, m': seq<bv8>)
    requires |m| == |m'| && Flips(MessageBits(m), MessageBits(m')) % 2 == 1
    ensures Crc(m) != Crc(m')
  {
    CrcIsSerial(m, INIT_CRC);
    CrcIsSerial(m', INIT_CRC);
    SerialParity(MessageBits(m), MessageBits(m'), INIT_CRC, INIT_CRC);
  }
}
