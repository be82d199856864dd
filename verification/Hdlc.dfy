/** HDLC-style framing (RFC 1662, sections 3.1 and 4.2) as loggerFirmware/src/crc.cc does it: a
    frame builder with octet stuffing, a decoder fed one byte at a time, and a batch decoder. */
module Hdlc {
  import opened Crc16
  import opened CrcRegister

  const FLAG: bv8 := 0x7E
  const ESCAPE: bv8 := 0x7D
  const ESCAPED_CHARS: seq<bv8> := [0x7E, 0x7D, 0x08, 0x7F]

  // ----- Building a frame -----

  function Stuffed(b: bv8): seq<bv8> {
    if b in ESCAPED_CHARS then [ESCAPE, 0x20 ^ b] else [b]
  }

  function StuffAll(content: seq<bv8>): seq<bv8> {
    if content == [] then [] else Stuffed(content[0]) + StuffAll(content[1..])
  }

  /** Payload and frame check sequence, before stuffing. */
  function Content(payload: seq<bv8>): (content: seq<bv8>)
    ensures |content| == |payload| + 2
  {
    payload + Fcs(payload)
  }

  function Flagged(content: seq<bv8>): seq<bv8> {
    [FLAG] + StuffAll(content) + [FLAG]
  }

  function Frame(payload: seq<bv8>): seq<bv8> {
    Flagged(Content(payload))
  }

  /** The array contents once its first cells hold `prefix`. */
  function Overlay(cells: seq<bv8>, prefix: seq<bv8>): seq<bv8>
    requires |prefix| <= |cells|
  {
    prefix + cells[|prefix|..]
  }

  /** `add_byte`: the frame array and its length are updated in place. */
  method AddByte(b: bv8, frame: array<bv8>, length: nat) returns (newLength: nat)
    requires length + |Stuffed(b)| <= frame.Length
    modifies frame
    ensures newLength == length + |Stuffed(b)|
    ensures frame[..] == Overlay(old(frame[..]), old(frame[..length]) + Stuffed(b))
  {
    var toEscape := false;
    for k := 0 to |ESCAPED_CHARS|
      invariant toEscape <==> b in ESCAPED_CHARS[..k]
    {
      if b == ESCAPED_CHARS[k] {
        toEscape := true;
      }
    }
    assert ESCAPED_CHARS[..|ESCAPED_CHARS|] == ESCAPED_CHARS;
    newLength := length;
    if toEscape {
      frame[newLength] := ESCAPE;
      newLength := newLength + 1;
      frame[newLength] := 0x20 ^ b;
      newLength := newLength + 1;
    } else {
      frame[newLength] := b;
      newLength := newLength + 1;
    }
  }

  /** `HDLC_Frame`. */
  method HdlcFrame(payload: array<bv8>, payloadLength: nat, frame: array<bv8>) returns (frameLength: nat)
    requires payloadLength <= payload.Length && payload != frame
    requires |Frame(payload[..payloadLength])| <= frame.Length
    modifies frame
    ensures frameLength == |Frame(payload[..payloadLength])|
    ensures frame[..] == Overlay(old(frame[..]), Frame(payload[..payloadLength]))
  {
    var crc := CrcOfBuffer(payload, payloadLength);
    frameLength := WriteFrame(payload, payloadLength, FcsLow(crc), FcsHigh(crc), frame);
  }

  /** The second half of `HDLC_Frame`, once the two check octets are known. */
  method WriteFrame(payload: array<bv8>, payloadLength: nat, low: bv8, high: bv8, frame: array<bv8>)
    returns (frameLength: nat)
    requires payloadLength <= payload.Length && payload != frame
    requires |Flagged(payload[..payloadLength] + [low, high])| <= frame.Length
    modifies frame
    ensures frameLength == |Flagged(payload[..payloadLength] + [low, high])|
    ensures frame[..] == Overlay(old(frame[..]), Flagged(payload[..payloadLength] + [low, high]))
  {
    ghost var cells := frame[..];
    ghost var content := payload[..payloadLength] + [low, high];
    frame[0] := FLAG;
    frameLength := 1;
    for i := 0 to payloadLength
      invariant payload[..payloadLength] == content[..payloadLength]
      invariant Building(frame[..], cells, content, i, frameLength)
    {
      BuildStep(frame[..], cells, content, i, frameLength);
      frameLength := AddByte(payload[i], frame, frameLength);
    }
    BuildStep(frame[..], cells, content, payloadLength, frameLength);
    frameLength := AddByte(low, frame, frameLength);
    BuildStep(frame[..], cells, content, payloadLength + 1, frameLength);
    frameLength := AddByte(high, frame, frameLength);
    BuildEnd(frame[..], cells, content, frameLength);
    ghost var built := frame[..];
    frame[frameLength] := FLAG;
    assert frame[..] == built[frameLength := FLAG];
    frameLength := frameLength + 1;
  }

  /** The frame under construction: opening flag and the first i content octets, stuffed. */
  ghost predicate Building(frame: seq<bv8>, cells: seq<bv8>, content: seq<bv8>, i: nat, length: nat) {
    && i <= |content|
    && length == 1 + |StuffAll(content[..i])|
    && |Flagged(content)| <= |cells|
    && |StuffAll(content[..i])| <= |StuffAll(content)|
    && frame == Overlay(cells, [FLAG] + StuffAll(content[..i]))
  }

  lemma BuildStep(frame: seq<bv8>, cells: seq<bv8>, content: seq<bv8>, i: nat, length: nat)
    requires i < |content| && Building(frame, cells, content, i, length)
    ensures var add := Stuffed(content[i]);
      && length + |add| <= |frame|
      && Building(Overlay(frame, frame[..length] + add), cells, content, i + 1, length + |add|)
  {
    var prefix := [FLAG] + StuffAll(content[..i]);
    StuffAllExtends(content, i);
    OverlayTwice(cells, prefix, Stuffed(content[i]));
    assert prefix + Stuffed(content[i]) == [FLAG] + StuffAll(content[..i + 1]);
  }

  lemma BuildEnd(frame: seq<bv8>, cells: seq<bv8>, content: seq<bv8>, length: nat)
    requires Building(frame, cells, content, |content|, length)
    ensures length + 1 == |Flagged(content)| <= |frame|
    ensures frame[length := FLAG] == Overlay(cells, Flagged(content))
  {
    assert content[..|content|] == content;
  }

  lemma OverlayTwice(cells: seq<bv8>, prefix: seq<bv8>, add: seq<bv8>)
    requires |prefix + add| <= |cells|
    ensures var once := Overlay(cells, prefix);
      once[..|prefix|] == prefix && Overlay(once, once[..|prefix|] + add) == Overlay(cells, prefix + add)
  {
    assert Overlay(cells, prefix)[..|prefix|] == prefix;
  }

  lemma {:induction false} StuffAllAppend(x: seq<bv8>, y: seq<bv8>)
    ensures StuffAll(x + y) == StuffAll(x) + StuffAll(y)
  {
    if x == [] {
      assert x + y == y;
    } else {
      assert (x + y)[1..] == x[1..] + y;
      StuffAllAppend(x[1..], y);
    }
  }

  lemma StuffAllExtends(content: seq<bv8>, i: nat)
    requires i < |content|
    ensures StuffAll(content[..i + 1]) == StuffAll(content[..i]) + Stuffed(content[i])
    ensures |StuffAll(content[..i + 1])| <= |StuffAll(content)|
  {
    assert content[..i + 1] == content[..i] + [content[i]] && [content[i]][1..] == [];
    assert Stuffed(content[i]) + [] == Stuffed(content[i]);
    StuffAllAppend(content[..i], [content[i]]);
    assert content == content[..i + 1] + content[i + 1..];
    StuffAllAppend(content[..i + 1], content[i + 1..]);
  }

  lemma {:induction false} StuffAllSize(content: seq<bv8>)
    ensures |content| <= |StuffAll(content)| <= 2 * |content|
    ensures FLAG !in StuffAll(content)
  {
    if content != [] {
      StuffedHasNoFlag(content[0]);
      StuffAllSize(content[1..]);
    }
  }

  lemma StuffedHasNoFlag(b: bv8)
    ensures FLAG !in Stuffed(b)
  {}

  /** Flags occur at the two ends of a frame and nowhere else, and a frame is at most twice its
      content long: 138 octets for the 66 the comment above `HDLC_Frame` speaks of. */
  lemma FrameShape(payload: seq<bv8>)
    ensures |payload| + 4 <= |Frame(payload)| <= 2 * |payload| + 6
    ensures forall i :: 0 <= i < |Frame(payload)| ==>
      (Frame(payload)[i] == FLAG <==> i == 0 || i == |Frame(payload)| - 1)
  {
    var stuffed := StuffAll(Content(payload));
    StuffAllSize(Content(payload));
    FlagsAtTheEnds(stuffed);
  }

  lemma FlagsAtTheEnds(inner: seq<bv8>)
    requires FLAG !in inner
    ensures var f := [FLAG] + inner + [FLAG];
      forall i :: 0 <= i < |f| ==> (f[i] == FLAG <==> i == 0 || i == |f| - 1)
  {
    var f := [FLAG] + inner + [FLAG];
    forall i | 0 < i < |f| - 1
      ensures f[i] != FLAG
    {
      assert f[i] == inner[i - 1];
    }
  }

  /** The octets that are sent escaped, and as what. */
  lemma StuffedOctets(b: bv8)
    ensures Stuffed(b) ==
      if b == 0x7E then [0x7D, 0x5E] else if b == 0x7D then [0x7D, 0x5D]
      else if b == 0x08 then [0x7D, 0x28] else if b == 0x7F then [0x7D, 0x5F] else [b]
  {}

  lemma UnstuffEscaped(b: bv8)
    ensures (0x20 ^ b) ^ 0x20 == b
    ensures b in ESCAPED_CHARS ==> 0x20 ^ b != FLAG && 0x20 ^ b != ESCAPE
  {}

  /** The check at the end of a frame accepts exactly the contents with the right FCS. */
  lemma GoodContent(stored: seq<bv8>, payload: seq<bv8>)
    requires |stored| >= 2
    ensures Crc(stored) == GOOD_CRC && payload == stored[..|stored| - 2] <==> stored == Content(payload)
  {
    var n := |stored| - 2;
    var p, tail := stored[..n], [stored[n], stored[n + 1]];
    assert stored == p + tail;
    FcsAcceptedIffCorrect(p, stored[n], stored[n + 1]);
    SplitContent(stored, p, tail, payload);
  }

  lemma SplitContent(stored: seq<bv8>, p: seq<bv8>, tail: seq<bv8>, payload: seq<bv8>)
    requires stored == p + tail && |tail| == 2
    ensures tail == Fcs(p) && payload == p <==> stored == Content(payload)
  {
    if stored == Content(payload) {
      assert p == stored[..|p|] == payload;
      assert tail == stored[|p|..] == Fcs(payload);
    }
  }
}
