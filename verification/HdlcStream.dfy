/** The byte-at-a-time decoder `HDLC_pack` of loggerFirmware/src/crc.cc. */
module HdlcStream {
  import opened Wrappers
  import opened Crc16
  import opened CrcRegister
  import opened Hdlc

  /** What the decoder remembers: the octets stored so far (their number is the 8-bit `frameLen`),
      and the two flags of `sFrameVar`. */
  datatype Decoder = Decoder(stored: seq<bv8>, validFrame: bool, escapeChar: bool)

  const IDLE := Decoder([], false, false)

  /** `buff[frameLen++] = b`, where `frameLen` is eight bits wide. */
  function Push(stored: seq<bv8>, b: bv8): seq<bv8> {
    if |stored| >= 255 then [] else stored + [b]
  }

  lemma PushedCells(cells: seq<bv8>, n: nat, b: bv8)
    requires n < 256 && n < |cells|
    ensures cells[n := b][..(n + 1) % 256] == Push(cells[..n], b)
  {}

  predicate AtFrameEnd(s: Decoder, b: bv8) {
    (s.validFrame || s.stored != []) && b == FLAG && |s.stored| > 2
  }

  /** Whether the decoder writes a cell of the buffer on this octet. */
  predicate Stores(s: Decoder, b: bv8) {
    (s.validFrame || s.stored != []) && !AtFrameEnd(s, b) && b != ESCAPE
  }

  /** One call: the new state, and the payload if the call returns true. */
  function Step(s: Decoder, b: bv8, max: nat): (Decoder, Option<seq<bv8>>) {
    if !s.validFrame && s.stored == [] then
      (s.(validFrame := b == FLAG), None)
    else if AtFrameEnd(s, b) then
      (Decoder([], false, s.escapeChar), if Crc(s.stored) == GOOD_CRC then Some(s.stored[..|s.stored| - 2]) else None)
    else if b == ESCAPE then
      (s.(escapeChar := true), None)
    else if s.escapeChar then
      (Decoder(Push(s.stored, b ^ 0x20), s.validFrame, false), None)
    else
      var stored := Push(s.stored, b);
      (if |stored| >= max then Decoder([], false, false) else s.(stored := stored), None)
  }

  /** `sFrameVar`. */
  class FrameVar {
    var frameLen: nat
    var validFrame: bool
    var escapeChar: bool

    constructor ()
      ensures frameLen == 0 && !validFrame && !escapeChar
    {
      frameLen, validFrame, escapeChar := 0, false, false;
    }

    ghost predicate Valid(buff: array<bv8>)
      reads this
    {
      frameLen < 256 && frameLen <= buff.Length
    }

    ghost function State(buff: array<bv8>): Decoder
      requires Valid(buff)
      reads this, buff
    {
      Decoder(buff[..frameLen], validFrame, escapeChar)
    }

    /** `buff[frameLen++] = b`. */
    method Store(b: bv8, buff: array<bv8>)
      requires Valid(buff) && frameLen < buff.Length
      modifies this`frameLen, buff
      ensures Valid(buff) && State(buff) == old(State(buff)).(stored := Push(old(State(buff)).stored, b))
      ensures forall k :: 0 <= k < buff.Length && k != old(frameLen) ==> buff[k] == old(buff[k])
    {
      PushedCells(buff[..], frameLen, b);
      buff[frameLen] := b;
      frameLen := (frameLen + 1) % 256;
    }

    /** `HDLC_pack`; `length` and `newLength` are what `*len` holds before and after. The caller's
        buffer must have room for the octet this call stores. */
    method HdlcPack(b: bv8, buff: array<bv8>, length: nat, max: nat) returns (stat: bool, newLength: nat)
      requires Valid(buff)
      requires Stores(State(buff), b) ==> frameLen < buff.Length
      modifies this, buff
      ensures Valid(buff)
      ensures State(buff) == Step(old(State(buff)), b, max).0
      ensures stat == Step(old(State(buff)), b, max).1.Some?
      ensures !stat ==> newLength == length
      ensures stat ==> newLength <= buff.Length && Some(buff[..newLength]) == Step(old(State(buff)), b, max).1
      ensures forall k :: 0 <= k < buff.Length && k != old(frameLen) ==> buff[k] == old(buff[k])
    {
      ghost var before := State(buff);
      stat, newLength := false, length;
      if !validFrame && frameLen == 0 {
        if b == FLAG {
          validFrame := true;
        }
      } else if b == FLAG && frameLen > 2 {
        var crc := CrcOfBuffer(buff, frameLen);
        if crc == GOOD_CRC {
          frameLen := frameLen - 2;
          newLength := frameLen;
          stat := true;
          assert buff[..newLength] == before.stored[..|before.stored| - 2];
        }
        frameLen := 0;
        validFrame := false;
      } else if b == ESCAPE {
        escapeChar := true;
      } else if escapeChar {
        Store(b ^ 0x20, buff);
        escapeChar := false;
      } else {
        Store(b, buff);
        if frameLen >= max {
          frameLen := 0;
          validFrame := false;
        }
      }
    }
  }

  // ----- Runs -----

  function After(s: Decoder, bytes: seq<bv8>, max: nat): Decoder
    decreases |bytes|
  {
    if bytes == [] then s else After(Step(s, bytes[0], max).0, bytes[1..], max)
  }

  /** What the successive calls return. */
  function Outputs(s: Decoder, bytes: seq<bv8>, max: nat): (out: seq<Option<seq<bv8>>>)
    ensures |out| == |bytes|
    decreases |bytes|
  {
    if bytes == [] then [] else [Step(s, bytes[0], max).1] + Outputs(Step(s, bytes[0], max).0, bytes[1..], max)
  }

  function Silence(n: nat): (out: seq<Option<seq<bv8>>>)
    ensures |out| == n
  {
    if n == 0 then [] else [None] + Silence(n - 1)
  }

  lemma {:induction false} RunAppend(s: Decoder, x: seq<bv8>, y: seq<bv8>, max: nat)
    ensures After(s, x + y, max) == After(After(s, x, max), y, max)
    ensures Outputs(s, x + y, max) == Outputs(s, x, max) + Outputs(After(s, x, max), y, max)
    decreases |x|
  {
    if x == [] {
      assert x + y == y;
    } else {
      assert (x + y)[1..] == x[1..] + y;
      RunAppend(Step(s, x[0], max).0, x[1..], y, max);
    }
  }

  lemma {:induction false} SilenceAppend(m: nat, n: nat)
    ensures Silence(m) + Silence(n) == Silence(m + n)
  {
    if m > 0 {
      SilenceAppend(m - 1, n);
    }
  }

  /** Octets between frames change nothing as long as none is a flag. */
  lemma {:induction false} NoiseIgnored(escapeChar: bool, noise: seq<bv8>, max: nat)
    requires FLAG !in noise
    ensures After(Decoder([], false, escapeChar), noise, max) == Decoder([], false, escapeChar)
    ensures Outputs(Decoder([], false, escapeChar), noise, max) == Silence(|noise|)
  {
    if noise != [] {
      NoiseIgnored(escapeChar, noise[1..], max);
    }
  }

  // ----- Inside one frame -----

  /** An unescaped octet is accepted only below the capacity given by the caller; an escaped one is
      stored without that test. */
  predicate RoomFor(length: nat, b: bv8, max: nat) {
    length + 1 < max || b in ESCAPED_CHARS
  }

  /** One content octet, stuffed, arriving inside a frame. */
  lemma {:induction false} StuffedStep(stored: seq<bv8>, b: bv8, max: nat)
    requires |stored| < 255
    ensures var s := Decoder(stored, true, false);
      && Outputs(s, Stuffed(b), max) == Silence(|Stuffed(b)|)
      && After(s, Stuffed(b), max) == (if RoomFor(|stored|, b, max) then Decoder(stored + [b], true, false) else IDLE)
  {
    var s := Decoder(stored, true, false);
    if b in ESCAPED_CHARS {
      var t := Decoder(stored, true, true);
      UnstuffEscaped(b);
      assert Step(s, ESCAPE, max) == (t, None);
      var tail := [0x20 ^ b];
      var u := Decoder(stored + [b], true, false);
      assert Step(t, 0x20 ^ b, max) == (u, None);
      assert Stuffed(b)[1..] == tail && tail[1..] == [];
      assert After(t, tail, max) == u && Outputs(t, tail, max) == [None];
      assert Silence(1) == [None] && Silence(2) == [None] + Silence(1);
    } else {
      assert b != FLAG && b != ESCAPE;
      assert [b][1..] == [];
      assert Silence(1) == [None];
    }
  }

  /** Every octet of the content finds room, starting with n octets stored. */
  predicate AllFit(n: nat, content: seq<bv8>, max: nat) {
    forall k :: 0 <= k < |content| ==> RoomFor(n + k, content[k], max)
  }

  lemma {:induction false} ContentStored(stored: seq<bv8>, content: seq<bv8>, max: nat)
    requires |stored| + |content| <= 255
    ensures var s := Decoder(stored, true, false);
      && Outputs(s, StuffAll(content), max) == Silence(|StuffAll(content)|)
      && After(s, StuffAll(content), max)
        == (if AllFit(|stored|, content, max) then Decoder(stored + content, true, false) else IDLE)
    decreases |content|
  {
    var s := Decoder(stored, true, false);
    if content == [] {
      assert stored + content == stored;
    } else {
      var b, rest := content[0], content[1..];
      StuffedStep(stored, b, max);
      RunAppend(s, Stuffed(b), StuffAll(rest), max);
      SilenceAppend(|Stuffed(b)|, |StuffAll(rest)|);
      assert AllFit(|stored|, content, max) <==> RoomFor(|stored|, b, max) && AllFit(|stored| + 1, rest, max) by {
        AllFitSplit(|stored|, content, max);
      }
      if RoomFor(|stored|, b, max) {
        ContentStored(stored + [b], rest, max);
        assert stored + [b] + rest == stored + content;
      } else {
        StuffAllSize(rest);
        NoiseIgnored(false, StuffAll(rest), max);
      }
    }
  }

  lemma AllFitSplit(n: nat, content: seq<bv8>, max: nat)
    requires content != []
    ensures AllFit(n, content, max) <==> RoomFor(n, content[0], max) && AllFit(n + 1, content[1..], max)
  {
    if RoomFor(n, content[0], max) && AllFit(n + 1, content[1..], max) {
      forall k | 0 <= k < |content|
        ensures RoomFor(n + k, content[k], max)
      {
        if k > 0 {
          assert content[k] == content[1..][k - 1];
        }
      }
    }
    if AllFit(n, content, max) {
      forall k | 0 <= k < |content| - 1
        ensures RoomFor(n + 1 + k, content[1..][k], max)
      {
        assert content[1..][k] == content[k + 1];
      }
    }
  }

  // ----- Whole frames -----

  /** The payloads that survive the decoder's limits: not empty, at most 253 octets (eight-bit
      `frameLen`), and every unescaped octet of payload and FCS within the caller's capacity. */
  predicate Fits(payload: seq<bv8>, max: nat) {
    1 <= |payload| && |payload| + 2 <= 255 && AllFit(0, Content(payload), max)
  }

  /** Below the capacity the caller states, only the length matters. */
  lemma FitsBelowCapacity(payload: seq<bv8>, max: nat)
    requires |payload| + 2 < max
    ensures Fits(payload, max) <==> 1 <= |payload| <= 253
  {
    forall k | 0 <= k < |payload| + 2
      ensures RoomFor(k, Content(payload)[k], max)
    {}
  }

  /** The run over a frame splits at its two flags. */
  lemma {:induction false} FrameRun(payload: seq<bv8>, max: nat)
    ensures var middle := After(Decoder([], true, false), StuffAll(Content(payload)), max);
      && After(IDLE, Frame(payload), max) == Step(middle, FLAG, max).0
      && Outputs(IDLE, Frame(payload), max)
        == [None] + Outputs(Decoder([], true, false), StuffAll(Content(payload)), max) + [Step(middle, FLAG, max).1]
  {
    var inner := StuffAll(Content(payload));
    FlaggedRun(inner, max);
  }

  lemma {:induction false} FlaggedRun(inner: seq<bv8>, max: nat)
    ensures var middle := After(Decoder([], true, false), inner, max);
      && After(IDLE, [FLAG] + inner + [FLAG], max) == Step(middle, FLAG, max).0
      && Outputs(IDLE, [FLAG] + inner + [FLAG], max)
        == [None] + Outputs(Decoder([], true, false), inner, max) + [Step(middle, FLAG, max).1]
  {
    var s := Decoder([], true, false);
    var middle := After(s, inner, max);
    assert [FLAG] + inner + [FLAG] == [FLAG] + (inner + [FLAG]);
    assert ([FLAG] + (inner + [FLAG]))[1..] == inner + [FLAG];
    assert Step(IDLE, FLAG, max) == (s, None);
    RunAppend(s, inner, [FLAG], max);
    assert [FLAG][1..] == [];
    assert Outputs(middle, [FLAG], max) == [Step(middle, FLAG, max).1];
    assert After(middle, [FLAG], max) == Step(middle, FLAG, max).0;
  }

  /** Round trip of one frame: the call that sees the closing flag, and no other, returns true with
      the payload, and the decoder is idle again. */
  lemma {:induction false} FrameDelivered(payload: seq<bv8>, max: nat)
    requires Fits(payload, max)
    ensures After(IDLE, Frame(payload), max) == IDLE
    ensures Outputs(IDLE, Frame(payload), max) == Silence(|Frame(payload)| - 1) + [Some(payload)]
  {
    var content := Content(payload);
    FrameRun(payload, max);
    ContentStored([], content, max);
    assert [] + content == content;
    GoodContent(content, payload);
    assert Step(Decoder(content, true, false), FLAG, max) == (IDLE, Some(payload));
    assert [None] == Silence(1);
    SilenceAppend(1, |StuffAll(content)|);
  }

  // ----- Whole streams -----

  /** What a line carries: frames, and anything without a flag in between. */
  datatype Piece = Noise(bytes: seq<bv8>) | Packet(payload: seq<bv8>)

  function Wire(pieces: seq<Piece>): seq<bv8> {
    if pieces == [] then []
    else (match pieces[0] case Noise(bytes) => bytes case Packet(payload) => Frame(payload)) + Wire(pieces[1..])
  }

  /** What the receiver should see: one delivery at the end of each frame. */
  function Deliveries(pieces: seq<Piece>): seq<Option<seq<bv8>>> {
    if pieces == [] then []
    else (match pieces[0]
          case Noise(bytes) => Silence(|bytes|)
          case Packet(payload) => Silence(|Frame(payload)| - 1) + [Some(payload)]) + Deliveries(pieces[1..])
  }

  predicate Clean(piece: Piece, max: nat) {
    match piece case Noise(bytes) => FLAG !in bytes case Packet(payload) => Fits(payload, max)
  }

  /** Round trip of a stream of frames and flag-free noise. */
  lemma {:induction false} StreamDelivered(pieces: seq<Piece>, max: nat)
    requires forall i :: 0 <= i < |pieces| ==> Clean(pieces[i], max)
    ensures Outputs(IDLE, Wire(pieces), max) == Deliveries(pieces)
    ensures After(IDLE, Wire(pieces), max) == IDLE
  {
    if pieces != [] {
      assert Clean(pieces[0], max);
      match pieces[0] {
        case Noise(bytes) =>
          NoiseIgnored(false, bytes, max);
          RunAppend(IDLE, bytes, Wire(pieces[1..]), max);
        case Packet(payload) =>
          FrameDelivered(payload, max);
          RunAppend(IDLE, Frame(payload), Wire(pieces[1..]), max);
      }
      StreamDelivered(pieces[1..], max);
    }
  }

  // ----- What is delivered is sound -----

  /** A call returns true exactly at a flag that ends a frame whose last two octets are the FCS of
      the ones before, and it delivers those. */
  lemma DeliveredIffCorrectFcs(s: Decoder, b: bv8, max: nat, payload: seq<bv8>)
    ensures Step(s, b, max).1 == Some(payload) <==> AtFrameEnd(s, b) && s.stored == Content(payload)
  {
    if AtFrameEnd(s, b) {
      GoodContent(s.stored, payload);
    }
  }
}
