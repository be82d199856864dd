/** What `HDLC_pack` (loggerFirmware/src/crc.cc) delivers from any octets at all, and what it does where the
    line breaks off a frame or doubles a flag. */
module HdlcLines {
  import opened Wrappers
  import opened Crc16
  import opened CrcRegister
  import opened Hdlc
  import opened HdlcStream
  import opened HdlcLimits
  import HdlcBatch

  // ----- Any stream -----

  /** The octets behind a flag with their escapes taken out; `escaped` is whether the first one is. */
  function Unescape(escaped: bool, raw: seq<bv8>): seq<bv8>
    decreases |raw|
  {
    if raw == [] then []
    else if raw[0] == ESCAPE then Unescape(true, raw[1..])
    else [Octet(escaped, raw[0])] + Unescape(false, raw[1..])
  }

  function Octet(escaped: bool, b: bv8): bv8 { if escaped then b ^ 0x20 else b }

  /** Whether an escape is left over at the end. */
  function EndsEscaped(escaped: bool, raw: seq<bv8>): bool {
    if raw == [] then escaped else raw[|raw| - 1] == ESCAPE
  }

  lemma {:induction false} UnescapeNext(escaped: bool, raw: seq<bv8>, b: bv8)
    ensures Unescape(escaped, raw + [b]) ==
      Unescape(escaped, raw) + if b == ESCAPE then [] else [Octet(EndsEscaped(escaped, raw), b)]
    decreases |raw|
  {
    if raw == [] {
      assert [] + [b] == [b] && [b][1..] == [];
    } else {
      assert (raw + [b])[1..] == raw[1..] + [b];
      UnescapeNext(raw[0] == ESCAPE, raw[1..], b);
    }
  }

  /** It undoes stuffing. */
  lemma {:induction false} UnescapeStuffed(content: seq<bv8>)
    ensures Unescape(false, StuffAll(content)) == content
  {
    if content != [] {
      UnescapeStuffed(content[1..]);
      UnescapeOne(content[0], StuffAll(content[1..]));
    }
  }

  lemma {:induction false} UnescapeOne(b: bv8, rest: seq<bv8>)
    ensures Unescape(false, Stuffed(b) + rest) == [b] + Unescape(false, rest)
  {
    if b in ESCAPED_CHARS {
      UnstuffEscaped(b);
      UnescapeTwo(0x20 ^ b, rest);
      assert Stuffed(b) + rest == [ESCAPE] + ([0x20 ^ b] + rest);
    } else {
      assert (Stuffed(b) + rest)[1..] == rest;
    }
  }

  lemma {:induction false} UnescapeTwo(b: bv8, rest: seq<bv8>)
    requires b != ESCAPE
    ensures Unescape(false, [ESCAPE] + ([b] + rest)) == [Octet(true, b)] + Unescape(false, rest)
  {
    assert ([ESCAPE] + ([b] + rest))[1..] == [b] + rest && ([b] + rest)[1..] == rest;
  }

  lemma {:induction false} SinceWrapNext(content: seq<bv8>, b: bv8)
    ensures SinceWrap(content + [b]) == Push(SinceWrap(content), b)
    decreases |content|
  {
    if |content| < 255 {
      assert SinceWrap(content + [b]) == content + [b];
    } else if |content| == 255 {
      assert (content + [b])[256..] == [];
    } else {
      assert (content + [b])[256..] == content[256..] + [b];
      SinceWrapNext(content[256..], b);
    }
  }

  /** A frame was broken off: an escape with a flag right behind it. */
  predicate BrokenOff(bytes: seq<bv8>) {
    exists k :: 0 <= k < |bytes| - 1 && bytes[k] == ESCAPE && bytes[k + 1] == FLAG
  }

  /** What the octets received since the flag at j have left in the buffer, if the first of them counts as
      escaped as said. That is so only if a frame was broken off before. */
  ghost predicate OpenedAt(bytes: seq<bv8>, j: nat, escaped: bool, stored: seq<bv8>) {
    && j < |bytes| && bytes[j] == FLAG && (escaped ==> BrokenOff(bytes[..j]))
    && stored == SinceWrap(Unescape(escaped, bytes[j + 1..]))
  }

  /** The state these octets lead to. */
  ghost predicate Explains(bytes: seq<bv8>, s: Decoder) {
    if s.validFrame then
      exists j, escaped :: OpenedAt(bytes, j, escaped, s.stored) && s.escapeChar == EndsEscaped(escaped, bytes[j + 1..])
    else s.stored == [] && (s.escapeChar ==> BrokenOff(bytes))
  }

  lemma BrokenOffLater(bytes: seq<bv8>, b: bv8)
    ensures BrokenOff(bytes) ==> BrokenOff(bytes + [b])
    ensures bytes != [] && bytes[|bytes| - 1] == ESCAPE && b == FLAG ==> BrokenOff(bytes + [b])
  {
    if BrokenOff(bytes) {
      var k :| 0 <= k < |bytes| - 1 && bytes[k] == ESCAPE && bytes[k + 1] == FLAG;
      assert (bytes + [b])[k] == ESCAPE && (bytes + [b])[k + 1] == FLAG;
    }
    if bytes != [] && bytes[|bytes| - 1] == ESCAPE && b == FLAG {
      var k := |bytes| - 1;
      assert (bytes + [b])[k] == ESCAPE && (bytes + [b])[k + 1] == FLAG;
    }
  }

  lemma OpenedLater(bytes: seq<bv8>, j: nat, escaped: bool, s: Decoder, b: bv8)
    requires OpenedAt(bytes, j, escaped, s.stored) && s.escapeChar == EndsEscaped(escaped, bytes[j + 1..])
    ensures OpenedAt(bytes + [b], j, escaped,
                     if b == ESCAPE then s.stored else Push(s.stored, Octet(s.escapeChar, b)))
    ensures EndsEscaped(escaped, (bytes + [b])[j + 1..]) == (b == ESCAPE)
  {
    var raw := bytes[j + 1..];
    assert (bytes + [b])[j + 1..] == raw + [b] && (bytes + [b])[..j] == bytes[..j];
    UnescapeNext(escaped, raw, b);
    assert Unescape(escaped, raw) + [] == Unescape(escaped, raw);
    SinceWrapNext(Unescape(escaped, raw), Octet(s.escapeChar, b));
  }

  lemma OpenedHere(bytes: seq<bv8>, escaped: bool)
    requires escaped ==> BrokenOff(bytes)
    ensures OpenedAt(bytes + [FLAG], |bytes|, escaped, [])
    ensures EndsEscaped(escaped, (bytes + [FLAG])[|bytes| + 1..]) == escaped
  {
    assert (bytes + [FLAG])[|bytes| + 1..] == [] && (bytes + [FLAG])[..|bytes|] == bytes;
  }

  lemma StepInFrame(s: Decoder, b: bv8, max: nat) returns (t: Decoder)
    requires s.validFrame
    ensures t == Step(s, b, max).0
    ensures !t.validFrame ==> t.stored == [] && (t.escapeChar ==> b == FLAG && s.stored != [] && s.escapeChar)
    ensures t.validFrame ==> t.escapeChar == (b == ESCAPE)
    ensures t.validFrame ==> t.stored == if b == ESCAPE then s.stored else Push(s.stored, Octet(s.escapeChar, b))
  {
    t := Step(s, b, max).0;
  }

  lemma StepExplained(bytes: seq<bv8>, s: Decoder, b: bv8, max: nat)
    requires Explains(bytes, s)
    ensures Explains(bytes + [b], Step(s, b, max).0)
  {
    BrokenOffLater(bytes, b);
    if !s.validFrame {
      if b == FLAG {
        OpenedHere(bytes, s.escapeChar);
      }
    } else {
      var j, escaped :|
        OpenedAt(bytes, j, escaped, s.stored) && s.escapeChar == EndsEscaped(escaped, bytes[j + 1..]);
      var t := StepInFrame(s, b, max);
      if t.validFrame {
        OpenedLater(bytes, j, escaped, s, b);
      } else if t.escapeChar {
        assert bytes[j + 1..] != [] by {
          assert s.stored != [];
        }
        assert bytes[|bytes| - 1] == ESCAPE;
      }
    }
  }

  lemma {:induction false} RunExplained(bytes: seq<bv8>, max: nat)
    ensures Explains(bytes, After(IDLE, bytes, max))
  {
    if bytes != [] {
      var init, b := bytes[..|bytes| - 1], bytes[|bytes| - 1];
      assert bytes == init + [b];
      RunExplained(init, max);
      StepExplained(init, After(IDLE, init, max), b, max);
      RunAppend(IDLE, init, [b], max);
      assert [b][1..] == [];
    }
  }

  lemma {:induction false} OutputAt(bytes: seq<bv8>, i: nat, max: nat)
    requires i < |bytes|
    ensures Outputs(IDLE, bytes, max)[i] == Step(After(IDLE, bytes[..i], max), bytes[i], max).1
  {
    var x, y := bytes[..i], bytes[i..];
    assert bytes == x + y;
    RunAppend(IDLE, x, y, max);
  }

  /** Whatever arrives, a payload is delivered only at a flag, and only if the octets since an earlier flag,
      their escapes taken out, end with it and its check sequence, and begin with nothing else or with a
      multiple of 256 octets. The first of them is taken for an escaped one only if a frame was broken off
      before. */
  lemma DeliveredFromFlags(bytes: seq<bv8>, i: nat, max: nat, payload: seq<bv8>) returns (j: nat, escaped: bool)
    requires i < |bytes| && Outputs(IDLE, bytes, max)[i] == Some(payload)
    ensures bytes[i] == FLAG && OpenedAt(bytes[..i], j, escaped, Content(payload))
  {
    OutputAt(bytes, i, max);
    RunExplained(bytes[..i], max);
    j, escaped := Opening(bytes[..i], After(IDLE, bytes[..i], max), bytes[i], max, payload);
  }

  lemma Opening(prefix: seq<bv8>, s: Decoder, b: bv8, max: nat, payload: seq<bv8>) returns (j: nat, escaped: bool)
    requires Explains(prefix, s) && Step(s, b, max).1 == Some(payload)
    ensures b == FLAG && OpenedAt(prefix, j, escaped, Content(payload))
  {
    DeliveredIffCorrectFcs(s, b, max, payload);
    j, escaped :| OpenedAt(prefix, j, escaped, s.stored) && s.escapeChar == EndsEscaped(escaped, prefix[j + 1..]);
  }

  // ----- The whole-buffer decoder on any octets -----

  lemma {:induction false} BatchNoFlag(s: HdlcBatch.Scan, bytes: seq<bv8>)
    requires !s.done && FLAG !in bytes
    ensures HdlcBatch.Run(s, bytes)
      == s.(out := s.out + Unescape(s.escaping, bytes), escaping := EndsEscaped(s.escaping, bytes))
    decreases |bytes|
  {
    if bytes == [] {
      assert s.out + [] == s.out;
    } else {
      var b, t := bytes[0], HdlcBatch.Step(s, bytes[0]);
      BatchNoFlag(t, bytes[1..]);
      if b != ESCAPE {
        Grouped(s.out, Octet(s.escaping, b), Unescape(false, bytes[1..]));
      }
    }
  }

  lemma Grouped(x: seq<bv8>, b: bv8, y: seq<bv8>)
    ensures (x + [b]) + y == x + ([b] + y)
  {}

  /** Without a flag everything is decoded. */
  lemma {:induction false} BatchWithoutFlag(bytes: seq<bv8>)
    requires FLAG !in bytes
    ensures HdlcBatch.Decoded(bytes) == Unescape(false, bytes)
  {
    BatchNoFlag(HdlcBatch.START, bytes);
    assert [] + Unescape(false, bytes) == Unescape(false, bytes);
  }

  /** From the first flag on only what stands behind it, up to the second if there is one; an escape that is left
      over in front of the first flag is kept. */
  lemma {:induction false} BatchBehindFlag(noise: seq<bv8>, raw: seq<bv8>, rest: seq<bv8>)
    requires FLAG !in noise && FLAG !in raw
    ensures HdlcBatch.Decoded(noise + [FLAG] + raw) == Unescape(EndsEscaped(false, noise), raw)
    ensures HdlcBatch.Decoded(noise + [FLAG] + raw + [FLAG] + rest) == Unescape(EndsEscaped(false, noise), raw)
  {
    var s := HdlcBatch.Run(HdlcBatch.START, noise);
    BatchNoFlag(HdlcBatch.START, noise);
    HdlcBatch.RunAppend(HdlcBatch.START, noise, [FLAG]);
    BatchFlag(s);
    var t := HdlcBatch.Step(s, FLAG);
    HdlcBatch.RunAppend(HdlcBatch.START, noise + [FLAG], raw);
    BatchNoFlag(t, raw);
    var u := HdlcBatch.Run(t, raw);
    assert [] + Unescape(t.escaping, raw) == Unescape(t.escaping, raw);
    HdlcBatch.RunAppend(HdlcBatch.START, noise + [FLAG] + raw, [FLAG]);
    BatchFlag(u);
    HdlcBatch.RunAppend(HdlcBatch.START, noise + [FLAG] + raw + [FLAG], rest);
    HdlcBatch.RunDone(HdlcBatch.Step(u, FLAG), rest);
  }

  lemma {:induction false} BatchFlag(s: HdlcBatch.Scan)
    ensures HdlcBatch.Run(s, [FLAG]) == HdlcBatch.Step(s, FLAG)
  {
    assert [FLAG][1..] == [];
  }

  // ----- A frame broken off -----

  /** The frame's content, then the escape and flag with which a sender breaks it off. */
  function Aborted(payload: seq<bv8>): seq<bv8> {
    [FLAG] + (StuffAll(Content(payload)) + [ESCAPE]) + [FLAG]
  }

  /** It is delivered all the same, and leaves its escape to the next frame. */
  lemma {:induction false} AbortedDelivered(payload: seq<bv8>, max: nat)
    requires Fits(payload, max)
    ensures Outputs(IDLE, Aborted(payload), max) == Silence(|Aborted(payload)| - 1) + [Some(payload)]
    ensures After(IDLE, Aborted(payload), max) == Decoder([], false, true)
  {
    AbortedRun(Content(payload), max);
    CloseEscaped(payload, max);
    ClosedRun(StuffAll(Content(payload)) + [ESCAPE], Decoder(Content(payload), true, true), payload, max);
  }

  lemma ClosedRun(inner: seq<bv8>, end: Decoder, payload: seq<bv8>, max: nat)
    requires Quiet(Decoder([], true, false), inner, max, end)
    requires Step(end, FLAG, max) == (Decoder([], false, true), Some(payload))
    ensures Outputs(IDLE, [FLAG] + inner + [FLAG], max) == Silence(|inner| + 1) + [Some(payload)]
    ensures After(IDLE, [FLAG] + inner + [FLAG], max) == Decoder([], false, true)
  {
    FlaggedRun(inner, max);
    OneMore(|inner|);
  }

  lemma CloseEscaped(payload: seq<bv8>, max: nat)
    requires payload != []
    ensures Step(Decoder(Content(payload), true, true), FLAG, max) == (Decoder([], false, true), Some(payload))
  {
    DeliveredIffCorrectFcs(Decoder(Content(payload), true, true), FLAG, max, payload);
  }

  lemma {:induction false} AbortedRun(content: seq<bv8>, max: nat)
    requires |content| <= 255 && AllFit(0, content, max)
    ensures Quiet(Decoder([], true, false), StuffAll(content) + [ESCAPE], max, Decoder(content, true, true))
  {
    AllStored(content, max);
    EscapeStep(content, max);
    QuietThen(Decoder([], true, false), StuffAll(content), Decoder(content, true, false),
              [ESCAPE], Decoder(content, true, true), max);
  }

  lemma {:induction false} AllStored(content: seq<bv8>, max: nat)
    requires |content| <= 255 && AllFit(0, content, max)
    ensures Quiet(Decoder([], true, false), StuffAll(content), max, Decoder(content, true, false))
  {
    LongContentStored(content, max);
  }

  lemma EscapeStep(stored: seq<bv8>, max: nat)
    ensures Quiet(Decoder(stored, true, false), [ESCAPE], max, Decoder(stored, true, true))
  {
    QuietStep(Decoder(stored, true, false), ESCAPE, Decoder(stored, true, true), max);
  }

  lemma QuietStep(s: Decoder, b: bv8, t: Decoder, max: nat)
    requires Step(s, b, max) == (t, None)
    ensures Quiet(s, [b], max, t)
  {
    assert [b][1..] == [] && Silence(1) == [None];
  }

  /** An escape left over meets the first octet of a frame. */
  lemma FirstEscaped(b: bv8, max: nat)
    ensures Quiet(Decoder([], true, true), Stuffed(b), max,
                  Decoder([if b in ESCAPED_CHARS then b else Octet(true, b)], true, false))
  {
    var s := Decoder([], true, true);
    if b in ESCAPED_CHARS {
      UnstuffEscaped(b);
      QuietStep(s, ESCAPE, s, max);
      LeftOverStep(0x20 ^ b, max);
      assert [ESCAPE] + [0x20 ^ b] == Stuffed(b);
      QuietThen(s, [ESCAPE], s, [0x20 ^ b], Decoder([b], true, false), max);
    } else {
      assert b != ESCAPE;
      LeftOverStep(b, max);
    }
  }

  lemma LeftOverStep(b: bv8, max: nat)
    requires b != ESCAPE
    ensures Quiet(Decoder([], true, true), [b], max, Decoder([Octet(true, b)], true, false))
  {
    assert [] + [Octet(true, b)] == [Octet(true, b)];
    QuietStep(Decoder([], true, true), b, Decoder([Octet(true, b)], true, false), max);
  }

  lemma EscapedDiffers(b: bv8)
    ensures Octet(true, b) != b
  {}

  lemma {:induction false} EscapedFrameRun(inner: seq<bv8>, end: Decoder, max: nat)
    requires Quiet(Decoder([], true, true), inner, max, end)
    ensures Outputs(Decoder([], false, true), [FLAG] + inner + [FLAG], max)
      == Silence(|inner| + 1) + [Closing(end, max)]
  {
    var s := Decoder([], true, true);
    assert [FLAG] + inner + [FLAG] == [FLAG] + (inner + [FLAG]) && ([FLAG] + (inner + [FLAG]))[1..] == inner + [FLAG];
    assert Step(Decoder([], false, true), FLAG, max) == (s, None);
    RunAppend(s, inner, [FLAG], max);
    assert [FLAG][1..] == [];
    OneMore(|inner|);
  }

  lemma FirstChangedSum(payload: seq<bv8>, b: bv8)
    requires payload != [] && b != payload[0]
    ensures Crc([b] + Content(payload)[1..]) != GOOD_CRC
  {
    var content := Content(payload);
    var rest := content[2..];
    assert content == [] + [content[0], content[1]] + rest;
    assert [b] + content[1..] == [] + [b, content[1]] + rest;
    AdjacentOctetsDetected([], content[0], content[1], b, content[1], content[2..]);
    DamagedSum(payload, [b] + content[1..]);
  }

  /** What the content of a frame is taken for then. */
  function Mangled(content: seq<bv8>): seq<bv8>
    requires content != []
  {
    [if content[0] in ESCAPED_CHARS then content[0] else Octet(true, content[0])] + content[1..]
  }

  lemma MangledRun(content: seq<bv8>, max: nat) returns (end: Decoder)
    requires 1 <= |content| <= 255
    ensures Quiet(Decoder([], true, true), StuffAll(content), max, end)
    ensures end == Decoder(Mangled(content), true, false) || end == IDLE
    ensures AllFit(0, content, max) && content[0] in ESCAPED_CHARS ==> end == Decoder(content, true, false)
  {
    var b, rest := content[0], content[1..];
    var first := Mangled(content)[..1];
    FirstEscaped(b, max);
    end := ContentQuiet(first, rest, max);
    QuietThen(Decoder([], true, true), Stuffed(b), Decoder(first, true, false), StuffAll(rest), end, max);
    if AllFit(0, content, max) && b in ESCAPED_CHARS {
      RestStored(content, max);
    }
  }

  /** The next frame is then delivered exactly if its first octet is sent escaped. */
  lemma {:induction false} NextAfterAborted(payload: seq<bv8>, max: nat)
    requires Fits(payload, max)
    ensures Outputs(Decoder([], false, true), Frame(payload), max)
      == Silence(|Frame(payload)| - 1) + [if payload[0] in ESCAPED_CHARS then Some(payload) else None]
  {
    var end := MangledRun(Content(payload), max);
    MangledClosing(payload, end, max);
    EscapedFrameRun(StuffAll(Content(payload)), end, max);
  }

  lemma MangledClosing(payload: seq<bv8>, end: Decoder, max: nat)
    requires payload != [] && (end == IDLE || end == Decoder(Mangled(Content(payload)), true, false))
    requires payload[0] in ESCAPED_CHARS ==> end == Decoder(Content(payload), true, false)
    ensures Closing(end, max) == if payload[0] in ESCAPED_CHARS then Some(payload) else None
  {
    if payload[0] in ESCAPED_CHARS {
      DeliveredIffCorrectFcs(end, FLAG, max, payload);
    } else {
      EscapedDiffers(payload[0]);
      FirstChangedSum(payload, Octet(true, payload[0]));
      NotDelivered(end, Mangled(Content(payload)), max);
    }
  }

  lemma {:induction false} RestStored(content: seq<bv8>, max: nat)
    requires 1 <= |content| <= 255 && AllFit(0, content, max)
    ensures After(Decoder([content[0]], true, false), StuffAll(content[1..]), max) == Decoder(content, true, false)
  {
    AllFitSplit(0, content, max);
    ContentStored([content[0]], content[1..], max);
    assert [content[0]] + content[1..] == content;
  }

  /** So a frame broken off is delivered and costs the next one. */
  lemma {:induction false} AbortedCostsNext(p: seq<bv8>, q: seq<bv8>, max: nat)
    requires Fits(p, max) && Fits(q, max) && q[0] !in ESCAPED_CHARS
    ensures Outputs(IDLE, Aborted(p) + Frame(q), max)
      == Silence(|Aborted(p)| - 1) + [Some(p)] + Silence(|Frame(q)|)
  {
    AbortedDelivered(p, max);
    NextAfterAborted(q, max);
    RunAppend(IDLE, Aborted(p), Frame(q), max);
    assert [None] == Silence(1);
    SilenceAppend(|Frame(q)| - 1, 1);
  }

  // ----- A flag too many -----

  lemma FlagIsNoLoop()
    ensures Crc([FLAG]) != INIT_CRC
  {
    FlagStep();
    assert CrcFrom([FLAG][1..], 0x957E) == 0x957E;
  }

  lemma FlagStep()
    ensures Update(FLAG, INIT_CRC) == 0x957E
  {}

  lemma FlagInFrontSum(payload: seq<bv8>)
    ensures Crc([FLAG] + Content(payload)) != GOOD_CRC
  {
    var all := [FLAG] + Content(payload);
    if Crc(all) == GOOD_CRC {
      GoodContent(all, [FLAG] + payload);
      assert all[|all| - 2..] == Fcs(payload) && all[..|all| - 2] == [FLAG] + payload;
      assert Content([FLAG] + payload)[|payload| + 1..] == Fcs([FLAG] + payload);
      SuffixChecks([FLAG], payload);
      FlagIsNoLoop();
    }
  }

  /** A second flag in front of a frame, with which RFC 1662, section 3.1, lets the line be filled, is stored
      as its first octet: nothing is delivered, whichever payload could be. */
  lemma {:induction false} DoubleFlagLosesFrame(payload: seq<bv8>, max: nat)
    requires |payload| <= 253
    ensures Outputs(IDLE, [FLAG] + Frame(payload), max) == Silence(|Frame(payload)| + 1)
  {
    var inner := StuffAll(Content(payload));
    var end := DoubledRun(Content(payload), max);
    if end.stored != [] {
      FlagInFrontSum(payload);
      NotDelivered(end, [FLAG] + Content(payload), max);
    } else {
      ClosingNothing(end, max);
    }
    QuietFrame([FLAG] + inner, end, max);
    assert [FLAG] + Frame(payload) == [FLAG] + ([FLAG] + inner) + [FLAG];
  }

  lemma DoubledRun(content: seq<bv8>, max: nat) returns (end: Decoder)
    requires |content| <= 255
    ensures end == Decoder([FLAG] + content, true, false) || end.stored == []
    ensures Quiet(Decoder([], true, false), [FLAG] + StuffAll(content), max, end)
  {
    var open := Decoder([], true, false);
    var mid := if max > 1 then Decoder([FLAG], true, false) else IDLE;
    assert [] + [FLAG] == [FLAG];
    QuietStep(open, FLAG, mid, max);
    if max <= 1 {
      end := IDLE;
      StuffAllSize(content);
      NoiseQuiet(StuffAll(content), max);
    } else if |content| <= 254 {
      end := ContentQuiet([FLAG], content, max);
    } else {
      end := DoubledWrap(content, max);
    }
    QuietThen(open, [FLAG], mid, StuffAll(content), end, max);
  }

  /** The longest content that can be delivered then reaches the wrap. */
  lemma DoubledWrap(content: seq<bv8>, max: nat) returns (end: Decoder)
    requires |content| == 255
    ensures end.stored == [] && Quiet(Decoder([FLAG], true, false), StuffAll(content), max, end)
  {
    var x, b := content[..254], content[254];
    assert content == x + [b];
    StuffAllAppend(x, [b]);
    assert StuffAll([b]) == Stuffed(b) by {
      assert [b][1..] == [] && Stuffed(b) + [] == Stuffed(b);
    }
    var full := ContentQuiet([FLAG], x, max);
    if full == IDLE {
      end := IDLE;
      StuffedHasNoFlag(b);
      NoiseQuiet(Stuffed(b), max);
    } else {
      end := if max > 0 || b in ESCAPED_CHARS then Decoder([], true, false) else IDLE;
      WrapStep([FLAG] + x, b, max);
    }
    QuietThen(Decoder([FLAG], true, false), StuffAll(x), full, Stuffed(b), end, max);
  }
}
