/** What the server makes of a session: the device's lines as they go over the wire
    (EclipseArduino/pumpLogger/event_reporter.cpp), cut off anywhere by the one read the server does
    (loggerd/src/pump_client.cpp). */
module PumpSession {
  import opened CStrings
  import opened Decimal
  import opened PumpServer

  /** A pending event, as the device prints it. */
  datatype Sample = Sample(stamp: nat, port: nat, state: nat) {
    predicate Valid() { stamp < 0x1_0000_0000 && port < 256 && state < 256 }
  }

  /** `getString`. */
  function EventLine(e: Sample): string {
    Print(e.stamp) + "," + Print(e.port) + "," + Print(e.state)
  }

  function EventLines(events: seq<Sample>): (lines: seq<string>)
    ensures |lines| == |events| && forall i :: 0 <= i < |lines| ==> lines[i] == EventLine(events[i])
  {
    if events == [] then [] else [EventLine(events[0])] + EventLines(events[1..])
  }

  /** `println`, line by line. */
  function Wire(lines: seq<string>): string {
    if lines == [] then [] else (lines[0] + "\r\n") + Wire(lines[1..])
  }

  // ----- Splitting -----

  lemma {:induction false} IndexOfFirst(a: string, c: char, rest: string)
    requires c !in a
    ensures IndexOf(a + [c] + rest, c) == |a|
    ensures IndexOf(a, c) == |a|
  {
    var s := a + [c] + rest;
    assert s[..|a|] == a && s[|a|] == c;
    FirstIndex(s, c, |a|);
  }

  lemma {:induction false} SplitFirst(a: string, c: char, rest: string, limit: nat)
    requires c !in a && limit > 0
    ensures SplitOn(a + [c] + rest, c, limit) == [a] + SplitOn(rest, c, limit - 1)
  {
    var s := a + [c] + rest;
    IndexOfFirst(a, c, rest);
    assert s[..|a|] == a && s[|a| + 1..] == rest;
  }

  lemma {:induction false} SplitNone(a: string, c: char, limit: nat)
    requires c !in a
    ensures SplitOn(a, c, limit) == [a]
  {
    IndexOfFirst(a, c, []);
  }

  // ----- One event line, cut anywhere -----

  lemma {:induction false} ReadGrows(s: string, acc: nat)
    ensures ReadDigits(s, acc) >= acc
    decreases |s|
  {
    if s != [] && IsDigit(s[0]) {
      ReadGrows(s[1..], 10 * acc + Value(s[0]));
    }
  }

  lemma {:induction false} LeadingDigit(n: nat)
    requires n > 0
    ensures Digits(n)[0] != '0'
  {
    if n >= 10 {
      LeadingDigit(n / 10);
    }
  }

  /** A beginning of a printed number is zero exactly if it is empty or the number is zero. */
  lemma {:induction false} CutNumber(n: nat, j: nat)
    requires j <= |Digits(n)| + 1
    ensures Atoi((Digits(n) + "\r")[..j]) != 0 <==> n != 0 && j > 0
  {
    var t := (Digits(n) + "\r")[..j];
    if j > 0 {
      assert t[0] == Digits(n)[0];
      AtoiDigits(t);
      ReadGrows(t[1..], Value(t[0]));
      if n > 0 {
        LeadingDigit(n);
      } else {
        assert t == "0" || t == "0\r";
        assert ReadDigits(t, 0) == ReadDigits(t[1..], 0);
      }
    }
  }

  /** Where the second comma of an event line ends. */
  function StateAt(e: Sample): nat { |Print(e.stamp)| + |Print(e.port)| + 2 }

  /** What the server reads from the first j characters of an event line. */
  function CutReading(e: Sample, j: nat): seq<Reading> {
    if j < StateAt(e) then [] else [Reading(e.stamp, e.port, e.state != 0 && j > StateAt(e))]
  }

  function CutMeaning(e: Sample, j: nat): Meaning {
    if j < StateAt(e) then Nothing else Sampled(Reading(e.stamp, e.port, e.state != 0 && j > StateAt(e)))
  }

  lemma NoColon(line: string)
    requires forall i :: 0 <= i < |line| ==> IsDigit(line[i]) || line[i] == ',' || line[i] == '\r'
    requires line != [] ==> IsDigit(line[0])
    ensures !("RSSI" <= line || Has(line, ':')) && !(line != [] && (line[0] == 'R' || line[0] == 'S'))
  {
    assert "RSSI"[0] == 'R';
  }

  /** An event line cut anywhere is counted exactly if it reaches past its second comma; time and port
      are then right, and the state is right unless it was cut off altogether. */
  lemma CutEvent(e: Sample, j: nat)
    requires e.Valid() && j <= |EventLine(e)| + 1
    ensures Means((EventLine(e) + "\r")[..j]) == CutMeaning(e, j)
  {
    var s, p, t := Print(e.stamp), Print(e.port), Print(e.state) + "\r";
    assert EventLine(e) + "\r" == s + [','] + (p + [','] + t);
    if j < StateAt(e) {
      CutBefore(s, p, t, j);
    } else {
      CutBehind(e, j);
    }
  }

  predicate Plain(s: string) { forall i :: 0 <= i < |s| ==> IsDigit(s[i]) || s[i] == '\r' }

  lemma CutBefore(s: string, p: string, t: string, j: nat)
    requires Plain(s) && Plain(p) && Plain(t) && s != [] && IsDigit(s[0])
    requires j < |s| + |p| + 2
    ensures Means((s + [','] + (p + [','] + t))[..j]) == Nothing
  {
    var line := (s + [','] + (p + [','] + t))[..j];
    NoColon(line);
    if j <= |s| {
      assert line == s[..j];
      IndexOfFirst(line, ',', []);
    } else {
      var cut := p[..j - |s| - 1];
      assert line == s + [','] + cut;
      SplitFirst(s, ',', cut, FIELDS);
      SplitNone(cut, ',', FIELDS - 1);
    }
  }

  lemma CutBehind(e: Sample, j: nat)
    requires e.Valid() && StateAt(e) <= j <= |EventLine(e)| + 1
    ensures Means((EventLine(e) + "\r")[..j]) == CutMeaning(e, j)
  {
    var s, p, t := Print(e.stamp), Print(e.port), Print(e.state) + "\r";
    var cut := t[..j - StateAt(e)];
    CutText(e, j, cut);
    ThreeFields(s, p, cut);
    CutNumber(e.state, j - StateAt(e));
    FieldsBack(e, cut);
  }

  lemma CutText(e: Sample, j: nat, cut: string)
    requires e.Valid() && StateAt(e) <= j <= |EventLine(e)| + 1
    requires cut == (Print(e.state) + "\r")[..j - StateAt(e)]
    ensures (EventLine(e) + "\r")[..j] == Print(e.stamp) + [','] + (Print(e.port) + [','] + cut)
  {}

  lemma ThreeFields(s: string, p: string, cut: string)
    requires Plain(s) && Plain(p) && Plain(cut) && s != [] && IsDigit(s[0])
    ensures Means(s + [','] + (p + [','] + cut)) == Sampled(Event([s, p, cut]))
  {
    NoColon(s + [','] + (p + [','] + cut));
    TwoCommas(s, p, cut);
  }

  lemma {:induction false} TwoCommas(s: string, p: string, cut: string)
    requires ',' !in s && ',' !in p && ',' !in cut
    ensures Has(s + [','] + (p + [','] + cut), ',')
    ensures SplitOn(s + [','] + (p + [','] + cut), ',', FIELDS) == [s, p, cut]
  {
    IndexOfFirst(s, ',', p + [','] + cut);
    SplitFirst(s, ',', p + [','] + cut, FIELDS);
    SplitFirst(p, ',', cut, FIELDS - 1);
    SplitNone(cut, ',', FIELDS - 2);
  }

  lemma {:induction false} FieldsBack(e: Sample, cut: string)
    requires e.Valid()
    ensures Event([Print(e.stamp), Print(e.port), cut]) == Reading(e.stamp, e.port, Atoi(cut) != 0)
  {
    PrintedAlone(e.stamp);
    PrintedAlone(e.port);
  }

  lemma PrintedAlone(n: int)
    ensures Atoi(Print(n)) == n
  {
    AtoiPrint(n, []);
    assert Print(n) + [] == Print(n);
  }

  // ----- A whole session, cut anywhere -----

  /** The lines the server finds in the first k characters: the whole lines, each with its carriage
      return, and what arrives of the one behind them. */
  function Arrived(lines: seq<string>, k: nat): seq<string> {
    if lines == [] then [[]]
    else if k < |lines[0]| + 2 then [(lines[0] + "\r")[..k]]
    else [lines[0] + "\r"] + Arrived(lines[1..], k - |lines[0]| - 2)
  }

  lemma {:induction false} ArrivedNext(lines: seq<string>, k: nat, j: nat)
    requires lines != [] && k == |lines[0]| + 2 + j
    ensures Arrived(lines, k) == [lines[0] + "\r"] + Arrived(lines[1..], j)
  {}

  lemma {:induction false} ArrivedCut(lines: seq<string>, k: nat)
    requires lines != [] && k < |lines[0]| + 2
    ensures Arrived(lines, k) == [(lines[0] + "\r")[..k]]
  {}

  predicate OneLiners(lines: seq<string>) { forall i :: 0 <= i < |lines| ==> '\n' !in lines[i] }

  lemma {:induction false} WireNext(lines: seq<string>, k: nat)
    requires lines != [] && k <= |Wire(lines)|
    ensures var line := lines[0] + "\r";
      Wire(lines)[..k] == if k <= |line| then line[..k] else line + ['\n'] + Wire(lines[1..])[..k - |line| - 1]
  {
    var line := lines[0] + "\r";
    assert lines[0] + "\r\n" == line + ['\n'];
    FrontOf(line, '\n', Wire(lines[1..]), k);
  }

  lemma FrontOf(line: string, c: char, rest: string, k: nat)
    requires k <= |line| + 1 + |rest|
    ensures (line + [c] + rest)[..k] == if k <= |line| then line[..k] else line + [c] + rest[..k - |line| - 1]
  {}

  /** The number of lines that arrive whole in the first k characters. */
  function Whole(lines: seq<string>, k: nat): (n: nat)
    ensures n <= |lines|
  {
    if lines == [] || k < |lines[0]| + 2 then 0 else 1 + Whole(lines[1..], k - |lines[0]| - 2)
  }

  lemma {:induction false} SplitWire(lines: seq<string>, k: nat, limit: nat)
    requires OneLiners(lines) && k <= |Wire(lines)| && Whole(lines, k) <= limit
    ensures SplitOn(Wire(lines)[..k], '\n', limit) == Arrived(lines, k)
    decreases |lines|
  {
    if lines == [] {
      SplitNone([], '\n', limit);
    } else {
      var line := lines[0] + "\r";
      WireNext(lines, k);
      if k <= |line| {
        SplitNone(line[..k], '\n', limit);
        ArrivedCut(lines, k);
      } else {
        var j := k - |line| - 1;
        ArrivedNext(lines, k, j);
        SplitFirst(line, '\n', Wire(lines[1..])[..j], limit);
        SplitWire(lines[1..], j, limit - 1);
      }
    }
  }

  lemma {:induction false} CountNone(s: string, c: char)
    requires c !in s
    ensures Count(s, c) == 0
  {
    if s != [] {
      CountNone(s[1..], c);
    }
  }

  lemma {:induction false} CountAppend(s: string, t: string, c: char)
    ensures Count(s + t, c) == Count(s, c) + Count(t, c)
    decreases |s|
  {
    if s == [] {
      assert s + t == t;
    } else {
      assert (s + t)[1..] == s[1..] + t;
      CountAppend(s[1..], t, c);
    }
  }

  /** A session has as many newlines as lines that arrive whole. */
  lemma {:induction false} CountWire(lines: seq<string>, k: nat)
    requires OneLiners(lines) && k <= |Wire(lines)|
    ensures Count(Wire(lines)[..k], '\n') == Whole(lines, k)
    decreases |lines|
  {
    if lines != [] {
      var line := lines[0] + "\r";
      WireNext(lines, k);
      if k <= |line| {
        CountNone(line[..k], '\n');
      } else {
        var j := k - |line| - 1;
        CountAppend(line + ['\n'], Wire(lines[1..])[..j], '\n');
        CountAppend(line, ['\n'], '\n');
        CountNone(line, '\n');
        CountWire(lines[1..], j);
      }
    }
  }

  lemma {:induction false} WholeBelow(lines: seq<string>, k: nat, n: nat)
    requires k <= |Wire(lines)|
    ensures Whole(lines, k) < n <==> |lines| < n || (n > 0 && k < |Wire(lines[..n])|)
    decreases |lines|
  {
    if lines != [] && n > 0 && k >= |lines[0]| + 2 {
      WholeBelow(lines[1..], k - |lines[0]| - 2, n - 1);
      if n <= |lines| {
        assert lines[..n][1..] == lines[1..][..n - 1];
      }
    }
  }

  /** What the server takes from a session of events of which k characters arrive. */
  function Received(events: seq<Sample>, k: nat): seq<Reading> {
    if events == [] then []
    else if k < |EventLine(events[0])| + 2 then CutReading(events[0], k)
    else
      [Reading(events[0].stamp, events[0].port, events[0].state != 0)]
      + Received(events[1..], k - |EventLine(events[0])| - 2)
  }

  predicate AllValid(events: seq<Sample>) { forall i :: 0 <= i < |events| ==> events[i].Valid() }

  /** What the lines of such a session mean. */
  function ReceivedMeanings(events: seq<Sample>, k: nat): seq<Meaning> {
    if events == [] then [Nothing]
    else if k < |EventLine(events[0])| + 2 then [CutMeaning(events[0], k)]
    else
      [CutMeaning(events[0], |EventLine(events[0])| + 1)]
      + ReceivedMeanings(events[1..], k - |EventLine(events[0])| - 2)
  }

  lemma {:induction false} EventsMean(events: seq<Sample>, k: nat)
    requires AllValid(events)
    ensures Meanings(Arrived(EventLines(events), k)) == ReceivedMeanings(events, k)
    decreases |events|
  {
    if events == [] {
      MeansMore("", []);
      assert [""] == [""] + [] && Meanings([]) == [];
      NothingMeant();
    } else {
      var lines := EventLines(events);
      var line := lines[0] + "\r";
      assert events[0].Valid();
      if k < |lines[0]| + 2 {
        ArrivedCut(lines, k);
        CutEvent(events[0], k);
        MeansMore(line[..k], []);
        assert [line[..k]] == [line[..k]] + [];
      } else {
        var j := k - |lines[0]| - 2;
        ArrivedNext(lines, k, j);
        CutEvent(events[0], |line|);
        assert line[..|line|] == line;
        assert lines[1..] == EventLines(events[1..]);
        EventsMean(events[1..], j);
        MeansMore(line, Arrived(lines[1..], j));
      }
    }
  }

  lemma NothingMeant()
    ensures Means("") == Nothing
  {}

  lemma {:induction false} EventsRead(events: seq<Sample>, k: nat)
    ensures Readings(ReceivedMeanings(events, k)) == Received(events, k) && Outside !in ReceivedMeanings(events, k)
    decreases |events|
  {
    if events != [] {
      var size := |EventLine(events[0])| + 2;
      if k >= size {
        WholeMeaning(events[0]);
        var m, rest := CutMeaning(events[0], size - 1), ReceivedMeanings(events[1..], k - size);
        assert ReceivedMeanings(events, k) == [m] + rest && ([m] + rest)[1..] == rest;
        EventsRead(events[1..], k - size);
      } else {
        assert ReceivedMeanings(events, k)[1..] == [];
      }
    }
  }

  lemma WholeMeaning(e: Sample)
    ensures CutMeaning(e, |EventLine(e)| + 1) == Sampled(Reading(e.stamp, e.port, e.state != 0))
  {}

  /** Every event counted is the one sent in its place; only the state of the last can be missing, and
      only when the cut falls right behind the second comma of an event whose state is not zero. */
  lemma {:induction false} ReceivedMatches(events: seq<Sample>, k: nat, i: nat)
    requires i < |Received(events, k)|
    ensures |Received(events, k)| <= |events|
    ensures var r := Received(events, k)[i];
      && r.stamp == events[i].stamp && r.port == events[i].port
      && (r.state == (events[i].state != 0)
          <==> !(k == |Wire(EventLines(events[..i]))| + StateAt(events[i]) && events[i].state != 0))
    decreases |events|
  {
    var size := |EventLine(events[0])| + 2;
    if i > 0 {
      ReceivedMatches(events[1..], k - size, i - 1);
      assert events[..i][1..] == events[1..][..i - 1];
    } else if k >= size {
      ReceivedBound(events[1..], k - size);
    }
  }

  lemma {:induction false} ReceivedBound(events: seq<Sample>, k: nat)
    ensures |Received(events, k)| <= |events|
    decreases |events|
  {
    if events != [] && k >= |EventLine(events[0])| + 2 {
      ReceivedBound(events[1..], k - |EventLine(events[0])| - 2);
    }
  }
}
