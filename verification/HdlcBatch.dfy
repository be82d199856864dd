/** The batch decoder `unFrame` of loggerFirmware/src/crc.cc. */
module HdlcBatch {
  import opened Crc16
  import opened Hdlc

  /** The locals of the loop; `done` once it has returned. */
  datatype Scan = Scan(awaiting: bool, escaping: bool, out: seq<bv8>, done: bool)

  const START := Scan(true, false, [], false)

  function Step(s: Scan, b: bv8): Scan {
    if s.done then s
    else if b == FLAG then
      if s.awaiting then s.(awaiting := false, out := []) else s.(awaiting := true, done := true)
    else if b == ESCAPE then s.(escaping := true)
    else if s.escaping then s.(out := s.out + [b ^ 0x20], escaping := false)
    else s.(out := s.out + [b])
  }

  function Run(s: Scan, bytes: seq<bv8>): Scan
    decreases |bytes|
  {
    if bytes == [] then s else Run(Step(s, bytes[0]), bytes[1..])
  }

  function Decoded(bytes: seq<bv8>): seq<bv8> {
    Run(START, bytes).out
  }

  lemma {:induction false} RunAppend(s: Scan, x: seq<bv8>, y: seq<bv8>)
    ensures Run(s, x + y) == Run(Run(s, x), y)
    decreases |x|
  {
    if x == [] {
      assert x + y == y;
    } else {
      assert (x + y)[1..] == x[1..] + y;
      RunAppend(Step(s, x[0]), x[1..], y);
    }
  }

  lemma {:induction false} RunOne(s: Scan, bytes: seq<bv8>, i: nat)
    requires i < |bytes|
    ensures Run(s, bytes[..i + 1]) == Step(Run(s, bytes[..i]), bytes[i])
  {
    assert bytes[..i + 1] == bytes[..i] + [bytes[i]] && [bytes[i]][1..] == [];
    RunAppend(s, bytes[..i], [bytes[i]]);
  }

  lemma {:induction false} RunDone(s: Scan, bytes: seq<bv8>)
    requires s.done
    ensures Run(s, bytes) == s
    decreases |bytes|
  {
    if bytes != [] {
      RunDone(s, bytes[1..]);
    }
  }

  lemma {:induction false} RunDoneEarly(bytes: seq<bv8>, i: nat)
    requires i <= |bytes| && Run(START, bytes[..i]).done
    ensures Run(START, bytes) == Run(START, bytes[..i])
  {
    assert bytes == bytes[..i] + bytes[i..];
    RunAppend(START, bytes[..i], bytes[i..]);
    RunDone(Run(START, bytes[..i]), bytes[i..]);
  }

  /** `unFrame`. The output buffer must hold whatever has been decoded at each point. */
  method UnFrame(buff: array<bv8>, len: nat, returnBuff: array<bv8>) returns (n: nat)
    requires len <= buff.Length && buff != returnBuff
    requires forall i :: 0 <= i <= len ==> |Decoded(buff[..i])| <= returnBuff.Length
    modifies returnBuff
    ensures n == |Decoded(buff[..len])|
    ensures n <= returnBuff.Length && returnBuff[..n] == Decoded(buff[..len])
  {
    ghost var bytes := buff[..len];
    var awaitNewFrame, escaping := true, false;
    n := 0;
    for i := 0 to len
      invariant buff[..len] == bytes && n <= returnBuff.Length
      invariant Run(START, bytes[..i]) == Scan(awaitNewFrame, escaping, returnBuff[..n], false)
    {
      RunOne(START, bytes, i);
      assert buff[..i + 1] == bytes[..i + 1];
      var b := buff[i];
      if b == FLAG {
        if awaitNewFrame {
          awaitNewFrame := false;
          n := 0;
        } else {
          awaitNewFrame := true;
          RunDoneEarly(bytes, i + 1);
          return;
        }
      } else if b == ESCAPE {
        escaping := true;
      } else if escaping {
        StoreOne(returnBuff[..], n, b ^ 0x20);
        returnBuff[n] := b ^ 0x20;
        n := n + 1;
        escaping := false;
      } else {
        StoreOne(returnBuff[..], n, b);
        returnBuff[n] := b;
        n := n + 1;
      }
    }
    assert bytes[..len] == bytes;
  }

  lemma StoreOne(cells: seq<bv8>, n: nat, b: bv8)
    requires n < |cells|
    ensures cells[n := b][..n + 1] == cells[..n] + [b]
  {}

  // ----- It undoes the frame builder -----

  lemma StuffedRead(out: seq<bv8>, b: bv8)
    ensures Run(Scan(false, false, out, false), Stuffed(b)) == Scan(false, false, out + [b], false)
  {
    var s := Scan(false, false, out, false);
    if b in ESCAPED_CHARS {
      var tail := [0x20 ^ b];
      assert Stuffed(b)[1..] == tail && tail[1..] == [];
      UnstuffEscaped(b);
      assert Step(s, ESCAPE) == Scan(false, true, out, false);
      assert Step(Scan(false, true, out, false), 0x20 ^ b) == Scan(false, false, out + [b], false);
      assert Run(Scan(false, true, out, false), tail) == Scan(false, false, out + [b], false);
    } else {
      assert [b][1..] == [];
    }
  }

  lemma {:induction false} ContentRead(out: seq<bv8>, content: seq<bv8>)
    ensures Run(Scan(false, false, out, false), StuffAll(content)) == Scan(false, false, out + content, false)
    decreases |content|
  {
    if content == [] {
      assert out + content == out;
    } else {
      var s := Scan(false, false, out, false);
      StuffedRead(out, content[0]);
      RunAppend(s, Stuffed(content[0]), StuffAll(content[1..]));
      ContentRead(out + [content[0]], content[1..]);
      assert out + [content[0]] + content[1..] == out + content;
    }
  }

  /** Batch round trip, for every payload: what comes out is the payload and its FCS. */
  lemma UnFrameUndoesFrame(payload: seq<bv8>)
    ensures Decoded(Frame(payload)) == payload + Fcs(payload)
  {
    var inner := StuffAll(Content(payload));
    var started := Scan(false, false, [], false);
    assert Frame(payload) == [FLAG] + (inner + [FLAG]);
    assert [FLAG][1..] == [];
    RunAppend(START, [FLAG], inner + [FLAG]);
    assert Run(START, [FLAG]) == started;
    RunAppend(started, inner, [FLAG]);
    ContentRead([], Content(payload));
    assert [] + Content(payload) == Content(payload);
  }

  /** Hence no two payloads share a frame. */
  lemma FrameInjective(p: seq<bv8>, q: seq<bv8>)
    requires Frame(p) == Frame(q)
    ensures p == q
  {
    UnFrameUndoesFrame(p);
    UnFrameUndoesFrame(q);
    assert (p + Fcs(p))[..|p|] == p && (q + Fcs(q))[..|q|] == q;
  }
}
