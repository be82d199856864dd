/** Whole sessions at the server (loggerd/src/pump_client.cpp): which of the device's sessions
    (EclipseArduino/pumpLogger/event_reporter.cpp) it can take, and what it makes of them. */
module ServedSession {
  import opened CStrings
  import opened Decimal
  import opened PumpServer
  import opened PumpSession
  import opened SessionHeader

  // ----- What arrives -----

  /** What the device sends. */
  function Sent(head: seq<string>, events: seq<Sample>): string { Wire(head + EventLines(events)) }

  /** What the server should hand on of the first k characters. */
  function Got(head: seq<string>, events: seq<Sample>, k: nat): seq<Reading> {
    if k < |Wire(head)| then [] else Received(events, k - |Wire(head)|)
  }

  lemma {:induction false} WireWithout(lines: seq<string>, c: char)
    requires c != '\r' && c != '\n' && forall i :: 0 <= i < |lines| ==> c !in lines[i]
    ensures c !in Wire(lines)
  {
    if lines != [] {
      WireWithout(lines[1..], c);
    }
  }

  lemma {:induction false} WireAppend(x: seq<string>, y: seq<string>)
    ensures Wire(x + y) == Wire(x) + Wire(y)
    decreases |x|
  {
    if x == [] {
      assert x + y == y;
    } else {
      assert (x + y)[1..] == x[1..] + y;
      WireAppend(x[1..], y);
    }
  }

  lemma EventLineChars(e: Sample)
    ensures '\n' !in EventLine(e) && NUL !in EventLine(e)
  {}

  /** The lines of a session hold no newline and no terminator. */
  lemma {:induction false} SentLines(head: seq<string>, events: seq<Sample>)
    requires HeaderLines(head)
    ensures OneLiners(head + EventLines(events)) && NUL !in Sent(head, events)
  {
    var lines := head + EventLines(events);
    forall i | 0 <= i < |lines|
      ensures '\n' !in lines[i] && NUL !in lines[i]
    {
      if i < |head| {
        assert HeaderLine(head[i]);
      } else {
        EventLineChars(events[i - |head|]);
      }
    }
    WireWithout(lines, NUL);
  }

  lemma {:induction false} WholeText(b: string, p: nat)
    requires p <= |b| && NUL !in b
    ensures CString(b, p) == b[p..]
    decreases |b| - p
  {
    if p < |b| {
      WholeText(b, p + 1);
      assert b[p..] == [b[p]] + b[p + 1..];
    }
  }

  /** Of these meanings one is outside exactly if the header is broken off inside such a line, and the
      readings are those that should be handed on. */
  ghost predicate ReadRight(ms: seq<Meaning>, head: seq<string>, events: seq<Sample>, k: nat) {
    (Outside in ms <==> HeaderBroken(head, k)) && Readings(ms) == Got(head, events, k)
  }

  /** What the lines that arrive mean. */
  lemma {:induction false} LinesRead(head: seq<string>, events: seq<Sample>, k: nat) returns (ms: seq<Meaning>)
    requires HeaderLines(head) && AllValid(events)
    ensures ms == Meanings(Arrived(head + EventLines(events), k)) && ReadRight(ms, head, events, k)
    decreases |head|
  {
    ms := Meanings(Arrived(head + EventLines(events), k));
    if head == [] {
      EventsOnly(events, k);
    } else {
      assert HeaderLine(head[0]);
      Behind(head, EventLines(events));
      if k < |head[0]| + 2 {
        FirstLineOnly(head + EventLines(events), k);
      } else {
        var rest := LinesRead(head[1..], events, k - |head[0]| - 2);
        FirstLineWhole(head + EventLines(events), k, k - |head[0]| - 2, ms, rest);
        GotBehind(head, events, k);
      }
    }
  }

  lemma GotBehind(head: seq<string>, events: seq<Sample>, k: nat)
    requires head != [] && k >= |head[0]| + 2
    ensures Got(head, events, k) == Got(head[1..], events, k - |head[0]| - 2)
    ensures HeaderBroken(head, k) <==> HeaderBroken(head[1..], k - |head[0]| - 2)
  {}

  lemma {:induction false} EventsOnly(events: seq<Sample>, k: nat)
    requires AllValid(events)
    ensures ReadRight(Meanings(Arrived([] + EventLines(events), k)), [], events, k)
  {
    assert [] + EventLines(events) == EventLines(events);
    EventsMean(events, k);
    EventsRead(events, k);
  }

  lemma {:induction false} FirstLineOnly(lines: seq<string>, k: nat)
    requires lines != [] && HeaderLine(lines[0]) && k < |lines[0]| + 2
    ensures Meanings(Arrived(lines, k)) == [Means(Cut(lines[0], k))]
    ensures Readings([Means(Cut(lines[0], k))]) == []
  {
    var line := Cut(lines[0], k);
    ArrivedCut(lines, k);
    NoComma(line);
    MeansMore(line, []);
    assert [line] + [] == [line] && [Means(line)][1..] == [];
  }

  lemma {:induction false} FirstLineWhole(lines: seq<string>, k: nat, j: nat, ms: seq<Meaning>, rest: seq<Meaning>)
    requires lines != [] && HeaderLine(lines[0]) && k == |lines[0]| + 2 + j
    requires ms == Meanings(Arrived(lines, k)) && rest == Meanings(Arrived(lines[1..], j))
    ensures (Outside in ms <==> Outside in rest) && Readings(ms) == Readings(rest)
  {
    ArrivedNext(lines, k, j);
    LineInFront(lines[0] + "\r", Arrived(lines[1..], j));
  }

  lemma Behind<T>(x: seq<T>, y: seq<T>)
    requires x != []
    ensures (x + y)[0] == x[0] && (x + y)[1..] == x[1..] + y
  {}

  lemma LineInFront(line: string, lines: seq<string>)
    requires ',' !in line && Means(line) != Outside
    ensures Outside in Meanings([line] + lines) <==> Outside in Meanings(lines)
    ensures Readings(Meanings([line] + lines)) == Readings(Meanings(lines))
  {
    NoComma(line);
    MeansMore(line, lines);
    assert ([Means(line)] + Meanings(lines))[1..] == Meanings(lines);
  }

  /** A session cut anywhere: it fits the server's vectors exactly if fewer than sixteen of its lines arrive
      whole and the header is not broken off inside a line that does not. Then the server hands on exactly
      the whole event lines, and the one behind them if it reaches past its second comma, in order. */
  lemma {:induction false} SessionRead(head: seq<string>, events: seq<Sample>, k: nat)
    requires HeaderLines(head) && AllValid(events) && k <= |Sent(head, events)|
    ensures var text := Sent(head, events)[..k];
      && (Fits(text) <==> Whole(head + EventLines(events), k) < 16 && !HeaderBroken(head, k))
      && (Fits(text) ==> Readings(Handled(text)) == Got(head, events, k))
  {
    var lines := head + EventLines(events);
    var text := Sent(head, events)[..k];
    SentLines(head, events);
    CountWire(lines, k);
    InsideIff(text, '\n', LINES);
    if Whole(lines, k) < LINES {
      SplitWire(lines, k, LINES);
      var ms := LinesRead(head, events, k);
      UpToAll(ms);
    }
  }

  /** Sixteen lines arrive whole. */
  predicate TooMany(head: seq<string>, events: seq<Sample>, k: nat) {
    |head| + |events| >= 16 && k >= |Wire((head + EventLines(events))[..16])|
  }

  /** What the server makes of a session, exactly: a full buffer has no terminator; sixteen whole lines
      are too many for its vector; a header line may exceed another where it breaks off; otherwise it
      answers with the number of events it hands on. */
  lemma {:induction false} SessionServed(head: seq<string>, events: seq<Sample>, k: nat, input: string)
    requires HeaderLines(head) && AllValid(events) && k <= |Sent(head, events)| && k <= BUFFER
    requires input == Sent(head, events)[..k]
    ensures Served(input) ==
      if k == 256 then Unterminated
      else if TooMany(head, events, k) || HeaderBroken(head, k) then Overrun
      else Answered(|Got(head, events, k)|)
    ensures Served(input).Answered? ==> Readings(Taken(input)) == Got(head, events, k)
  {
    SentLines(head, events);
    assert NUL !in input;
    WholeText(input, 0);
    assert input[0..] == input;
    SessionRead(head, events, k);
    WholeBelow(head + EventLines(events), k, LINES);
  }

  lemma AnsweredReads(head: seq<string>, events: seq<Sample>, k: nat, input: string, n: nat)
    requires HeaderLines(head) && AllValid(events) && k <= |Sent(head, events)| && k <= BUFFER
    requires input == Sent(head, events)[..k] && Served(input) == Answered(n)
    ensures Readings(Taken(input)) == Got(head, events, k) && |Readings(Taken(input))| == n
    ensures n <= |events|
  {
    SessionServed(head, events, k, input);
    assert n == |Got(head, events, k)|;
    GotBound(head, events, k, n);
    AnswerCounts(input);
  }

  lemma GotBound(head: seq<string>, events: seq<Sample>, k: nat, n: nat)
    requires n == |Got(head, events, k)|
    ensures n <= |events|
  {
    if k >= |Wire(head)| {
      ReceivedBound(events, k - |Wire(head)|);
    }
  }

  /** The device's session, cut anywhere in a read that is not full: it fails on four characters, and on
      sixteen whole lines, and on nothing else. */
  lemma DeviceSession(rssi: int, octets: seq<string>, on: seq<bool>, events: seq<Sample>, k: nat)
    requires SixOctets(octets) && |on| == 3 && AllValid(events)
    requires k <= |Sent(Header(rssi, octets, on), events)| && k < 256
    ensures var head := Header(rssi, octets, on);
      Served(Sent(head, events)[..k]) ==
      if k == 4 || TooMany(head, events, k) then Overrun else Answered(|Got(head, events, k)|)
  {
    var head := Header(rssi, octets, on);
    DeviceHeader(rssi, octets, on);
    DeviceHeaderCut(rssi, octets, on, k);
    SessionServed(head, events, k, Sent(head, events)[..k]);
  }

  /** The connection itself: what the data base is handed is what `Got` says. */
  method ServeSession(client: Client, head: seq<string>, events: seq<Sample>, k: nat) returns (outcome: Outcome)
    requires HeaderLines(head) && AllValid(events) && k <= |Sent(head, events)| && k <= BUFFER
    modifies client
    ensures outcome == Served(Sent(head, events)[..k])
    ensures outcome.Answered? ==>
      client.stored == old(client.stored) + Got(head, events, k) && outcome.n == |Got(head, events, k)|
  {
    var input := Sent(head, events)[..k];
    ghost var was := client.Value();
    var reply;
    outcome, reply := client.Serve(input);
    if outcome.Answered? {
      AnsweredReads(head, events, k, input, outcome.n);
      DoAllStores(was, Taken(input));
    }
  }

  // ----- Too many events -----

  function Power(m: nat): nat { if m == 0 then 1 else 10 * Power(m - 1) }

  lemma {:induction false} DigitsLength(n: nat, m: nat)
    requires m > 0 && n < Power(m)
    ensures |Digits(n)| <= m
    decreases m
  {
    if n >= 10 {
      assert Power(m) == 10 * Power(m - 1) && Power(1) == 10 * Power(0);
      DigitsLength(n / 10, m - 1);
    }
  }

  predicate Short(e: Sample) { e.stamp < 0x1_0000_0000 && e.port < 10 && e.state < 10 }

  lemma ShortLine(e: Sample)
    requires Short(e)
    ensures |EventLine(e)| + 2 <= 16
  {
    assert Power(5) == 100000 && Power(10) == 10_000_000_000 by {
      assert Power(5) == 10 * Power(4) == 100 * Power(3);
      assert Power(10) == 10 * Power(9) == 100 * Power(8) == 1000 * Power(7) == 10000 * Power(6) == 100000 * Power(5);
    }
    DigitsLength(e.stamp, 10);
  }

  lemma {:induction false} ShortLines(events: seq<Sample>)
    requires forall i :: 0 <= i < |events| ==> Short(events[i])
    ensures |Wire(EventLines(events))| <= 16 * |events|
    decreases |events|
  {
    if events != [] {
      ShortLine(events[0]);
      ShortLines(events[1..]);
      assert EventLines(events)[1..] == EventLines(events[1..]);
    }
  }

  /** The device's header and any ten pending events, which one read takes in full, are one line too many
      for the server. */
  lemma TenEventsOverrun(rssi: int, octets: seq<string>, on: seq<bool>, events: seq<Sample>)
    requires SixOctets(octets) && |on| == 3
    requires -1000 < rssi < 1000 && |events| == 10 && forall i :: 0 <= i < |events| ==> Short(events[i])
    ensures var session := Sent(Header(rssi, octets, on), events);
      |session| < 256 && Served(session) == Overrun
  {
    var head := Header(rssi, octets, on);
    var lines := head + EventLines(events);
    DeviceHeader(rssi, octets, on);
    HeaderSize(rssi, octets, on);
    ShortLines(events);
    WireAppend(head, EventLines(events));
    var session := Sent(head, events);
    assert session[..|session|] == session && lines[..LINES] == lines;
    assert AllValid(events);
    SessionServed(head, events, |session|, session);
  }

  lemma HeaderSize(rssi: int, octets: seq<string>, on: seq<bool>)
    requires SixOctets(octets) && |on| == 3
    requires -1000 < rssi < 1000
    ensures |Wire(Header(rssi, octets, on))| <= 45
  {
    var head := Header(rssi, octets, on);
    ColonsChars(octets);
    assert Power(3) == 10 * Power(2) == 100 * Power(1) == 1000 * Power(0);
    DigitsLength(if rssi < 0 then -rssi else rssi, 3);
    assert |Wire(head)| == |head[0]| + 2 + |Wire(head[1..])|;
    assert |Wire(head[1..])| == |head[1]| + 2 + |Wire(head[2..])| by { assert head[1..][1..] == head[2..]; }
    assert |Wire(head[2..])| == |head[2]| + 2 + |Wire(head[3..])| by { assert head[2..][1..] == head[3..]; }
    assert |Wire(head[3..])| == |head[3]| + 2 + |Wire(head[4..])| by { assert head[3..][1..] == head[4..]; }
    assert |Wire(head[4..])| == |head[4]| + 2 + |Wire(head[5..])| by { assert head[4..][1..] == head[5..]; }
    assert |Wire(head[5..])| == |head[5]| + 2 + |Wire(head[6..])| by { assert head[5..][1..] == head[6..]; }
    assert head[6..] == [];
  }
}
