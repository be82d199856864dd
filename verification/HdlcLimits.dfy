/** The limits of `HDLC_pack` (loggerFirmware/src/crc.cc): what it makes of frames of any length, where
    its eight-bit length wraps, and of frames damaged on the line. */
module HdlcLimits {
  import opened Wrappers
  import opened Crc16
  import opened CrcRegister
  import opened Hdlc
  import opened HdlcStream

  // ----- Frames of any length -----

  /** These octets deliver nothing and lead from one state to another. */
  predicate Quiet(s: Decoder, bytes: seq<bv8>, max: nat, end: Decoder) {
    Outputs(s, bytes, max) == Silence(|bytes|) && After(s, bytes, max) == end
  }

  lemma QuietThen(s: Decoder, x: seq<bv8>, mid: Decoder, y: seq<bv8>, end: Decoder, max: nat)
    requires Quiet(s, x, max, mid) && Quiet(mid, y, max, end)
    ensures Quiet(s, x + y, max, end)
  {
    RunAppend(s, x, y, max);
    SilenceAppend(|x|, |y|);
  }

  lemma NoiseQuiet(noise: seq<bv8>, max: nat)
    requires FLAG !in noise
    ensures Quiet(IDLE, noise, max, IDLE)
  {
    NoiseIgnored(false, noise, max);
  }

  /** What happens to 256 octets of content: the length wraps to 0 at the last of them and the buffer is
      filled from its start again. That octet is compared with the capacity after the wrap. */
  predicate Wraps(content: seq<bv8>, max: nat)
    requires |content| >= 256
  {
    AllFit(0, content[..255], max) && (max > 0 || content[255] in ESCAPED_CHARS)
  }

  /** No octet of the content reaches the capacity, wraps included. */
  predicate Survives(content: seq<bv8>, max: nat) {
    if |content| < 256 then AllFit(0, content, max) else Wraps(content, max) && Survives(content[256..], max)
  }

  /** What is in the buffer then: the octets since the last wrap. */
  function SinceWrap(content: seq<bv8>): seq<bv8> {
    if |content| < 256 then content else SinceWrap(content[256..])
  }

  lemma {:induction false} SinceWrapIs(content: seq<bv8>)
    ensures |SinceWrap(content)| == |content| % 256
    ensures SinceWrap(content) == content[|content| - |SinceWrap(content)|..]
  {
    if |content| >= 256 {
      SinceWrapIs(content[256..]);
    }
  }

  lemma WrapStep(stored: seq<bv8>, b: bv8, max: nat)
    requires |stored| == 255
    ensures Quiet(Decoder(stored, true, false), Stuffed(b), max,
                  if max > 0 || b in ESCAPED_CHARS then Decoder([], true, false) else IDLE)
  {
    var s := Decoder(stored, true, false);
    assert Silence(1) == [None] && Silence(2) == [None] + Silence(1);
    if b in ESCAPED_CHARS {
      var t := Decoder(stored, true, true);
      UnstuffEscaped(b);
      assert Step(s, ESCAPE, max) == (t, None);
      var tail := [0x20 ^ b];
      var u := Decoder([], true, false);
      assert Step(t, 0x20 ^ b, max) == (u, None);
      assert Stuffed(b)[1..] == tail && tail[1..] == [];
      assert After(t, tail, max) == u && Outputs(t, tail, max) == [None];
    } else {
      assert b != FLAG && b != ESCAPE;
      assert [b][1..] == [];
    }
  }

  /** The first 256 octets of a content. */
  lemma WrapQuiet(content: seq<bv8>, max: nat)
    requires |content| >= 256
    ensures Quiet(Decoder([], true, false), StuffAll(content[..256]), max,
                  if Wraps(content, max) then Decoder([], true, false) else IDLE)
  {
    var x, b := content[..255], content[255];
    var end := if Wraps(content, max) then Decoder([], true, false) else IDLE;
    assert content[..256] == x + [b];
    StuffAllAppend(x, [b]);
    assert StuffAll([b]) == Stuffed(b) by {
      assert [b][1..] == [] && Stuffed(b) + [] == Stuffed(b);
    }
    ContentStored([], x, max);
    assert [] + x == x;
    if AllFit(0, x, max) {
      WrapStep(x, b, max);
      QuietThen(Decoder([], true, false), StuffAll(x), Decoder(x, true, false), Stuffed(b), end, max);
    } else {
      StuffedHasNoFlag(b);
      NoiseQuiet(Stuffed(b), max);
      QuietThen(Decoder([], true, false), StuffAll(x), IDLE, Stuffed(b), IDLE, max);
    }
  }

  /** A content of any length, arriving inside a frame, delivers nothing on the way. */
  lemma {:induction false} LongContentStored(content: seq<bv8>, max: nat)
    ensures Quiet(Decoder([], true, false), StuffAll(content), max,
                  if Survives(content, max) then Decoder(SinceWrap(content), true, false) else IDLE)
    decreases |content|
  {
    if |content| < 256 {
      ContentStored([], content, max);
      assert [] + content == content;
    } else {
      var x, rest := content[..256], content[256..];
      var end := if Survives(content, max) then Decoder(SinceWrap(content), true, false) else IDLE;
      assert content == x + rest;
      StuffAllAppend(x, rest);
      WrapQuiet(content, max);
      if Wraps(content, max) {
        LongContentStored(rest, max);
        QuietThen(Decoder([], true, false), StuffAll(x), Decoder([], true, false), StuffAll(rest), end, max);
      } else {
        StuffAllSize(rest);
        NoiseQuiet(StuffAll(rest), max);
        QuietThen(Decoder([], true, false), StuffAll(x), IDLE, StuffAll(rest), IDLE, max);
      }
    }
  }

  /** What a closing flag delivers. */
  function Closing(end: Decoder, max: nat): Option<seq<bv8>> { Step(end, FLAG, max).1 }

  lemma ClosingOf(y: seq<bv8>, fcs: seq<bv8>, max: nat)
    requires |fcs| == 2 && y != []
    ensures Closing(Decoder(y + fcs, true, false), max) == if fcs == Fcs(y) then Some(y) else None
  {
    var last := y + fcs;
    assert last[..|last| - 2] == y && last[|y|..] == fcs;
    assert Content(y)[|y|..] == Fcs(y);
    GoodContent(last, y);
  }

  lemma ClosingNothing(end: Decoder, max: nat)
    requires end == IDLE || |end.stored| <= 2
    ensures Closing(end, max) == None
  {}

  /** The state in which the closing flag of a frame finds the decoder. */
  function AtClosing(payload: seq<bv8>, max: nat): Decoder {
    if Survives(Content(payload), max) then Decoder(SinceWrap(Content(payload)), true, false) else IDLE
  }

  function Outcome(payload: seq<bv8>, max: nat): Option<seq<bv8>> { Closing(AtClosing(payload, max), max) }

  /** A frame of any length delivers nothing before its closing flag. */
  lemma {:induction false} FrameOutcome(payload: seq<bv8>, max: nat)
    ensures Outputs(IDLE, Frame(payload), max) == Silence(|Frame(payload)| - 1) + [Outcome(payload, max)]
  {
    LongContentStored(Content(payload), max);
    FrameRun(payload, max);
    assert After(Decoder([], true, false), StuffAll(Content(payload)), max) == AtClosing(payload, max);
    OneMore(|StuffAll(Content(payload))|);
  }

  lemma OneMore(n: nat)
    ensures [None] + Silence(n) == Silence(n + 1)
  {}

  lemma NothingBehind(n: nat)
    requires n % 256 == 0 || n % 256 >= 254
    ensures (n + 2) % 256 <= 2
  {
    var k := n / 256;
    assert n == 256 * k + n % 256;
    if n % 256 >= 254 {
      assert n + 2 == 256 * (k + 1) + (n % 256 - 254);
    }
  }

  lemma {:induction false} WrapsSkipped(x: seq<bv8>, rest: seq<bv8>)
    requires |x| % 256 == 0
    ensures SinceWrap(x + rest) == SinceWrap(rest)
    decreases |x|
  {
    if x == [] {
      assert x + rest == rest;
    } else {
      assert (x + rest)[256..] == x[256..] + rest;
      WrapsSkipped(x[256..], rest);
    }
  }

  lemma {:induction false} LastPart(x: seq<bv8>, y: seq<bv8>, fcs: seq<bv8>)
    requires |x| % 256 == 0 && |y| <= 253 && |fcs| == 2
    ensures SinceWrap(x + y + fcs) == y + fcs
  {
    WrapsSkipped(x, y + fcs);
    Grouped(x, y, fcs);
    NotWrapped(y + fcs);
  }

  lemma Grouped(x: seq<bv8>, y: seq<bv8>, z: seq<bv8>)
    ensures x + y + z == x + (y + z)
  {}

  lemma {:induction false} NotWrapped(content: seq<bv8>)
    requires |content| < 256
    ensures SinceWrap(content) == content
  {}

  /** A payload cut where its last wrap falls: behind it, y is delivered, if no octet reached the
      capacity and if the part in front of the wrap has the sum of no octets at all. */
  lemma {:induction false} OutcomeIs(x: seq<bv8>, y: seq<bv8>, max: nat)
    requires |x| % 256 == 0 && 1 <= |y| <= 253
    ensures Outcome(x + y, max) == if Survives(Content(x + y), max) && Crc(x) == INIT_CRC then Some(y) else None
  {
    var last := SinceWrap(Content(x + y));
    if Survives(Content(x + y), max) {
      LastPart(x, y, Fcs(x + y));
      ClosingOf(y, Fcs(x + y), max);
      SuffixChecks(x, y);
    } else {
      ClosingNothing(IDLE, max);
    }
  }

  /** With nothing of the payload behind the last wrap, nothing is delivered. */
  lemma NoOutcome(payload: seq<bv8>, max: nat)
    requires |payload| % 256 == 0 || |payload| % 256 >= 254
    ensures Outcome(payload, max) == None
  {
    SinceWrapIs(Content(payload));
    NothingBehind(|payload|);
    ClosingNothing(AtClosing(payload, max), max);
  }

  /** What a frame delivers, exactly. */
  lemma {:induction false} FrameDeliveredIff(payload: seq<bv8>, max: nat, q: seq<bv8>)
    ensures Outcome(payload, max) == Some(q) <==>
      exists x: seq<bv8> :: payload == x + q && |x| % 256 == 0 && 1 <= |q| <= 253
        && Survives(Content(payload), max) && Crc(x) == INIT_CRC
  {
    var r := |payload| % 256;
    var k := |payload| - r;
    if r == 0 || r >= 254 {
      NoOutcome(payload, max);
    } else {
      var x, y := payload[..k], payload[k..];
      assert payload == x + y;
      OutcomeIs(x, y, max);
    }
    forall x: seq<bv8> | payload == x + q && |x| % 256 == 0 && 1 <= |q| <= 253
      ensures Outcome(payload, max) == if Survives(Content(payload), max) && Crc(x) == INIT_CRC then Some(q) else None
    {
      OutcomeIs(x, q, max);
    }
  }

  /** A payload of at most 253 octets is delivered unchanged or not at all. */
  lemma {:induction false} NoMisdelivery(payload: seq<bv8>, max: nat)
    requires |payload| <= 253
    ensures Outputs(IDLE, Frame(payload), max)
      == Silence(|Frame(payload)| - 1) + [if Fits(payload, max) then Some(payload) else None]
  {
    FrameOutcome(payload, max);
    if payload == [] {
      NoOutcome(payload, max);
    } else {
      OutcomeIs([], payload, max);
      assert [] + payload == payload;
    }
  }

  /** Two octets that lead the sum back to its start, n times over. */
  function Loops(n: nat): (x: seq<bv8>)
    ensures |x| == 2 * n
  {
    if n == 0 then [] else [0xDE, 0x0C] + Loops(n - 1)
  }

  lemma {:induction false} LoopsSum(n: nat)
    ensures Crc(Loops(n)) == INIT_CRC
  {
    if n > 0 {
      LoopsSum(n - 1);
      CrcFromAppend([0xDE, 0x0C], Loops(n - 1), INIT_CRC);
      LoopOnce();
    }
  }

  lemma LoopOnce()
    ensures CrcFrom([0xDE, 0x0C], INIT_CRC) == INIT_CRC
  {
    LoopStep();
    assert [0xDE, 0x0C][1..] == [0x0C] && [0x0C][1..] == [];
    assert CrcFrom([0x0C], 0x3074) == CrcFrom([], INIT_CRC);
  }

  lemma LoopStep()
    ensures Update(0xDE, INIT_CRC) == 0x3074 && Update(0x0C, 0x3074) == INIT_CRC
  {}

  lemma {:induction false} Roomy(content: seq<bv8>, max: nat)
    requires 256 <= |content| < 512 && max > 256
    ensures Survives(content, max)
  {
    assert forall j :: 0 <= j < 255 ==> RoomFor(j, content[..255][j], max);
    assert forall j :: 0 <= j < |content[256..]| ==> RoomFor(j, content[256..][j], max);
  }

  /** A payload that is too long can be delivered as another one that was never framed: behind any 256
      octets that lead the sum back to its start, every payload that fits is. */
  lemma {:induction false} WrapMisdelivers(x: seq<bv8>, q: seq<bv8>, max: nat)
    requires |x| == 256 && Crc(x) == INIT_CRC && 1 <= |q| <= 253 && max > 256
    ensures Outputs(IDLE, Frame(x + q), max) == Silence(|Frame(x + q)| - 1) + [Some(q)]
  {
    Roomy(Content(x + q), max);
    OutcomeIs(x, q, max);
    FrameOutcome(x + q, max);
  }

  /** There are such octets. */
  lemma MisdeliveryHappens(q: seq<bv8>, max: nat) returns (payload: seq<bv8>)
    requires 1 <= |q| <= 253 && max > 256
    ensures payload != q && Outputs(IDLE, Frame(payload), max) == Silence(|Frame(payload)| - 1) + [Some(q)]
  {
    var n: nat :| n == 128;
    LoopsSum(n);
    payload := Loops(n) + q;
    WrapMisdelivers(Loops(n), q, max);
  }

  // ----- Damage on the line -----

  lemma {:induction false} QuietFrame(inner: seq<bv8>, middle: Decoder, max: nat)
    requires Quiet(Decoder([], true, false), inner, max, middle) && Closing(middle, max) == None
    ensures Outputs(IDLE, [FLAG] + inner + [FLAG], max) == Silence(|inner| + 2)
  {
    FlaggedRun(inner, max);
    assert Silence(1) == [None];
    SilenceAppend(1, |inner|);
    SilenceAppend(1 + |inner|, 1);
  }

  /** A content that does not check is not delivered. */
  lemma NotDelivered(end: Decoder, content: seq<bv8>, max: nat)
    requires end == IDLE || end == Decoder(content, true, false)
    requires Crc(content) != GOOD_CRC
    ensures Closing(end, max) == None
  {}

  lemma DamagedSum(payload: seq<bv8>, received: seq<bv8>)
    requires Crc(received) != Crc(Content(payload))
    ensures Crc(received) != GOOD_CRC
  {
    GoodContent(Content(payload), payload);
  }

  /** A content damaged by a burst of up to sixteen bits: the run over its frame delivers nothing. */
  lemma {:induction false} DamagedFrameRejected(payload: seq<bv8>, received: seq<bv8>, max: nat, from: nat, to: nat)
    requires |received| == |payload| + 2 <= 255 && received != Content(payload)
    requires from <= to <= 8 * |received| && to - from <= 16
    requires MessageBits(received)[..from] == MessageBits(Content(payload))[..from]
    requires MessageBits(received)[to..] == MessageBits(Content(payload))[to..]
    ensures Outputs(IDLE, Flagged(received), max) == Silence(|Flagged(received)|)
  {
    BurstDetected(Content(payload), received, from, to);
    DamagedSum(payload, received);
    var end := ContentQuiet([], received, max);
    assert [] + received == received;
    NotDelivered(end, received, max);
    QuietFrame(StuffAll(received), end, max);
  }

  lemma PlainStep(stored: seq<bv8>, b: bv8, max: nat)
    requires |stored| < 255 && b != FLAG && b != ESCAPE
    ensures Quiet(Decoder(stored, true, false), [b], max,
                  if |stored| + 1 < max then Decoder(stored + [b], true, false) else IDLE)
  {
    assert [b][1..] == [] && Silence(1) == [None];
  }

  lemma ContentQuiet(stored: seq<bv8>, content: seq<bv8>, max: nat) returns (end: Decoder)
    requires |stored| + |content| <= 255
    ensures end == Decoder(stored + content, true, false) || end == IDLE
    ensures Quiet(Decoder(stored, true, false), StuffAll(content), max, end)
  {
    ContentStored(stored, content, max);
    end := After(Decoder(stored, true, false), StuffAll(content), max);
  }

  /** What two octets that are neither flag nor escape do, wherever the decoder stands. */
  lemma PlainPair(s: Decoder, stored: seq<bv8>, a: bv8, b: bv8, max: nat) returns (end: Decoder)
    requires |stored| < 254 && FLAG !in [a, b] && ESCAPE !in [a, b]
    requires s == IDLE || s == Decoder(stored, true, false)
    ensures end == IDLE || end == Decoder(stored + [a, b], true, false)
    ensures Quiet(s, [a, b], max, end)
  {
    assert a == [a, b][0] && b == [a, b][1];
    assert [a] + [b] == [a, b] && stored + [a] + [b] == stored + [a, b];
    var mid := if s == IDLE || |stored| + 1 >= max then IDLE else Decoder(stored + [a], true, false);
    end := if mid == IDLE || |stored| + 2 >= max then IDLE else Decoder(stored + [a, b], true, false);
    if s == IDLE {
      NoiseQuiet([a], max);
    } else {
      PlainStep(stored, a, max);
    }
    if mid == IDLE {
      NoiseQuiet([b], max);
    } else {
      PlainStep(stored + [a], b, max);
    }
    QuietThen(s, [a], mid, [b], end, max);
  }

  lemma DamagedWireRun(x: seq<bv8>, pair: seq<bv8>, y: seq<bv8>, max: nat) returns (end: Decoder)
    requires |pair| == 2 && |x| + |y| <= 253 && FLAG !in pair && ESCAPE !in pair
    ensures end == IDLE || end == Decoder(x + pair + y, true, false)
    ensures Quiet(Decoder([], true, false), DamagedWire(x, pair, y), max, end)
  {
    var start := Decoder([], true, false);
    var mid := ContentQuiet([], x, max);
    assert [] + x == x && pair == [pair[0], pair[1]];
    var next := PlainPair(mid, x, pair[0], pair[1], max);
    QuietThen(start, StuffAll(x), mid, pair, next, max);
    end := IDLE;
    if next == IDLE {
      StuffAllSize(y);
      NoiseQuiet(StuffAll(y), max);
    } else {
      end := ContentQuiet(x + pair, y, max);
    }
    QuietThen(start, StuffAll(x) + pair, next, StuffAll(y), end, max);
  }

  /** Two octets of a content replaced on the wire by two that are neither flag nor escape, whether or
      not they were stuffed there: the run over what arrives delivers nothing. */
  lemma {:induction false} DamagedWireRejected(payload: seq<bv8>, x: seq<bv8>, a: bv8, b: bv8, y: seq<bv8>,
                                                pair: seq<bv8>, max: nat)
    requires Content(payload) == x + [a, b] + y && |payload| <= 253
    requires |pair| == 2 && pair != [a, b] && FLAG !in pair && ESCAPE !in pair
    ensures Outputs(IDLE, [FLAG] + DamagedWire(x, pair, y) + [FLAG], max) == Silence(|DamagedWire(x, pair, y)| + 2)
  {
    var end := DamagedWireRun(x, pair, y, max);
    DamagedPairSum(payload, x, a, b, y, pair);
    NotDelivered(end, x + pair + y, max);
    QuietFrame(DamagedWire(x, pair, y), end, max);
  }

  /** A stuffed content with two octets put in as they are. */
  function DamagedWire(x: seq<bv8>, pair: seq<bv8>, y: seq<bv8>): seq<bv8> { StuffAll(x) + pair + StuffAll(y) }

  lemma DamagedPairSum(payload: seq<bv8>, x: seq<bv8>, a: bv8, b: bv8, y: seq<bv8>, pair: seq<bv8>)
    requires Content(payload) == x + [a, b] + y && |pair| == 2 && pair != [a, b]
    ensures Crc(x + pair + y) != GOOD_CRC
  {
    assert pair == [pair[0], pair[1]];
    AdjacentOctetsDetected(x, a, b, pair[0], pair[1], y);
    DamagedSum(payload, x + pair + y);
  }
}
