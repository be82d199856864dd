/** The server side of the delivery protocol (loggerd/src/pump_client.cpp): the receive buffer is cut
    into lines in place, each line is classified, and event lines are stored and counted. */
module PumpServer {
  import opened Decimal
  import opened Hexadecimal
  import opened CStrings

  // ----- Lines -----

  /** What the server hands to the data base: `time_t` cut to 32 bits, an eight-bit port, a flag. */
  datatype Reading = Reading(stamp: nat, port: nat, state: bool)

  /** What a line makes the server do. Outside: it has more fields than the vector for them, or fewer than
      are looked at, or fields longer than the strings they are printed to. */
  datatype Meaning = Signal(rssi: int) | Address(mac: string) | Sampled(reading: Reading) | Nothing | Outside

  const LINES: nat := 16
  const FIELDS: nat := 6
  const SIGNALS: nat := 2

  /** `hex` and `mMACstring`, with their terminators. */
  const HEX_SIZE: nat := 4
  const MAC_SIZE: nat := 23

  /** One field of a hardware address, read as a number and printed. */
  function Printed(field: string): string { Hex2(Shown(field)) }

  function Mac(fields: seq<string>): string {
    if fields == [] then "" else Printed(fields[0]) + (if |fields| > 1 then ":" else "") + Mac(fields[1..])
  }

  predicate Narrow(fields: seq<string>) { forall k :: 0 <= k < |fields| ==> |Printed(fields[k])| < HEX_SIZE }

  /** Neither of the two strings is exceeded. */
  predicate AddressFits(fields: seq<string>) { Narrow(fields) && |Mac(fields)| < MAC_SIZE }

  /** Six fields fit exactly if none is above 0xFFF and not all are above 0xFF. */
  lemma AddressFitsIff(fields: seq<string>)
    requires |fields| == FIELDS
    ensures AddressFits(fields) <==> SixFit(fields)
  {
    forall k | 0 <= k < FIELDS
      ensures |Printed(fields[k])| < HEX_SIZE <==> Shown(fields[k]) <= 0xFFF
      ensures |Printed(fields[k])| == 2 <==> Shown(fields[k]) <= 0xFF
    {
      Hex2Length(Shown(fields[k]));
    }
    if Narrow(fields) {
      MacLength(fields);
    }
  }

  function Wide(fields: seq<string>): nat {
    if fields == [] then 0 else (if |Printed(fields[0])| > 2 then 1 else 0) + Wide(fields[1..])
  }

  /** The length of what is printed, in fields that are wider than two digits. */
  lemma {:induction false} MacLength(fields: seq<string>)
    requires Narrow(fields) && fields != []
    ensures |Mac(fields)| == 3 * |fields| - 1 + Wide(fields)
    ensures Wide(fields) <= |fields|
    ensures Wide(fields) == |fields| <==> forall k :: 0 <= k < |fields| ==> |Printed(fields[k])| != 2
  {
    Hex2Length(Shown(fields[0]));
    if |fields| > 1 {
      var rest := fields[1..];
      assert forall k :: 0 <= k < |rest| ==> rest[k] == fields[k + 1];
      MacLength(rest);
      if forall k :: 0 <= k < |rest| ==> |Printed(rest[k])| != 2 {
        assert forall k :: 0 < k < |fields| ==> fields[k] == rest[k - 1];
      }
    }
  }

  /** `handleLine`. */
  function Means(line: string): Meaning {
    if "RSSI" <= line then
      var fields := SplitOn(line, ':', SIGNALS);
      if |fields| == SIGNALS then Signal(Atoi(fields[1])) else Outside
    else if Has(line, ':') then
      var fields := SplitOn(line, ':', FIELDS);
      if |fields| > FIELDS then Outside
      else if |fields| <= 5 then Nothing
      else if AddressFits(fields) then Address(Mac(fields)) else Outside
    else if line != [] && (line[0] == 'R' || line[0] == 'S') then Nothing
    else if Has(line, ',') then
      var fields := SplitOn(line, ',', FIELDS);
      if |fields| > FIELDS then Outside else if |fields| > 2 then Sampled(Event(fields)) else Nothing
    else Nothing
  }

  function Event(fields: seq<string>): Reading
    requires |fields| > 2
  {
    Reading(Atoi(fields[0]) % 0x1_0000_0000, Atoi(fields[1]) % 256, Atoi(fields[2]) != 0)
  }

  /** The lines that stay inside, in numbers of separators, and for a hardware address in the values of its
      fields. */
  lemma {:induction false} MeansInsideIff(line: string)
    ensures Means(line) != Outside <==>
      if "RSSI" <= line then Count(line, ':') == 1
      else if Count(line, ':') > 0 then
        Count(line, ':') < 5 || (Count(line, ':') == 5 && SixFit(SplitOn(line, ':', FIELDS)))
      else (line != [] && (line[0] == 'R' || line[0] == 'S')) || Count(line, ',') < 6
  {
    PieceCount(line, ':', SIGNALS);
    PieceCount(line, ':', FIELDS);
    PieceCount(line, ',', FIELDS);
    CountFrom(line, ':');
    CountFrom(line, ',');
    if |SplitOn(line, ':', FIELDS)| == FIELDS {
      AddressFitsIff(SplitOn(line, ':', FIELDS));
    }
  }

  /** None of these numbers has more than three hexadecimal digits, and not all have three. */
  predicate SixFit(fields: seq<string>) {
    && (forall k :: 0 <= k < |fields| ==> Shown(fields[k]) <= 0xFFF)
    && (exists k :: 0 <= k < |fields| && Shown(fields[k]) <= 0xFF)
  }

  function Map<A, B>(f: A -> B, s: seq<A>): (t: seq<B>)
    ensures |t| == |s|
  {
    if s == [] then [] else [f(s[0])] + Map(f, s[1..])
  }

  lemma {:induction false} MapAt<A, B>(f: A -> B, s: seq<A>, k: nat)
    requires k < |s|
    ensures Map(f, s)[k] == f(s[k])
    decreases k
  {
    if k > 0 {
      MapAt(f, s[1..], k - 1);
    }
  }

  lemma {:induction false} MapAppend<A, B>(f: A -> B, x: seq<A>, y: seq<A>)
    ensures Map(f, x + y) == Map(f, x) + Map(f, y)
    decreases |x|
  {
    if x == [] {
      assert x + y == y;
    } else {
      assert (x + y)[1..] == x[1..] + y;
      MapAppend(f, x[1..], y);
    }
  }

  function Meanings(lines: seq<string>): (ms: seq<Meaning>)
    ensures |ms| == |lines|
  {
    Map(Means, lines)
  }

  lemma MeansMore(line: string, rest: seq<string>)
    ensures Meanings([line] + rest) == [Means(line)] + Meanings(rest)
  {
    assert ([line] + rest)[1..] == rest;
  }

  lemma MeansAt(lines: seq<string>, k: nat)
    requires k < |lines|
    ensures Meanings(lines)[k] == Means(lines[k])
  {
    MapAt(Means, lines, k);
  }

  function Readings(ms: seq<Meaning>): seq<Reading> {
    if ms == [] then [] else (if ms[0].Sampled? then [ms[0].reading] else []) + Readings(ms[1..])
  }

  /** What is handled before a line that is not inside. */
  function UpTo(ms: seq<Meaning>): seq<Meaning> {
    if ms == [] || ms[0] == Outside then [] else [ms[0]] + UpTo(ms[1..])
  }

  /** `handleClient`: the lines it handles, by what they mean. */
  function Handled(text: string): seq<Meaning> {
    var lines := SplitOn(text, '\n', LINES);
    if |lines| <= LINES then UpTo(Meanings(lines)) else []
  }

  /** No vector of `handleClient` and `handleLine` is exceeded. */
  predicate Fits(text: string) {
    var lines := SplitOn(text, '\n', LINES);
    |lines| <= LINES && Outside !in Meanings(lines)
  }

  lemma {:induction false} UpToAll(ms: seq<Meaning>)
    ensures Outside !in ms <==> UpTo(ms) == ms
    decreases |ms|
  {
    if ms != [] && ms[0] != Outside {
      var up, rest := UpTo(ms[1..]), ms[1..];
      UpToAll(rest);
      assert ms == [ms[0]] + rest;
      assert ([ms[0]] + up)[1..] == up;
    }
  }

  /** Which texts the server can take: fewer than sixteen newlines, and no line outside. */
  lemma {:induction false} FitsIff(text: string)
    ensures Fits(text) <==>
      Count(text, '\n') < 16
      && forall i :: 0 <= i < |SplitOn(text, '\n', LINES)| ==> Means(SplitOn(text, '\n', LINES)[i]) != Outside
  {
    var lines := SplitOn(text, '\n', LINES);
    InsideIff(text, '\n', LINES);
    forall i | 0 <= i < |lines|
      ensures Meanings(lines)[i] == Means(lines[i])
    {
      MeansAt(lines, i);
    }
  }

  // ----- The buffer -----

  method StartsWith(buf: array<char>, p: nat, word: string) returns (yes: bool)
    requires Ended(buf[..], p) && NUL !in word
    ensures yes == (word <= CString(buf[..], p))
  {
    ghost var s := CString(buf[..], p);
    CStringEnd(buf[..], p);
    for i := 0 to |word|
      invariant i <= |s| && word[..i] == s[..i]
    {
      if i < |s| {
        CStringAt(buf[..], p, i);
      }
      if buf[p + i] != word[i] {
        return false;
      }
    }
    assert word[..|word|] == word;
    return true;
  }

  method ReadNumber(buf: array<char>, p: nat, ghost text: string) returns (n: int)
    requires Reads(buf[..], p, text)
    ensures n == Atoi(text)
  {
    return Atoi(CString(buf[..], p));
  }

  /** The first branch of `handleLine`: a signal strength. */
  method ReadSignal(buf: array<char>, line: nat) returns (m: Meaning)
    requires Ended(buf[..], line) && "RSSI" <= CString(buf[..], line)
    modifies buf
    ensures var text := old(CString(buf[..], line));
      m == Means(text) && Untouched(old(buf[..]), buf[..], line, line + |text|)
  {
    ghost var fields := SplitOn(CString(buf[..], line), ':', SIGNALS);
    var argv := new nat[SIGNALS];
    var argc, inside := ParseArgs(buf, line, SIGNALS, argv, ':');
    if !inside || argc < SIGNALS {
      return Outside;
    }
    var rssi := ReadNumber(buf, argv[1], fields[1]);
    return Signal(rssi);
  }

  method ReadText(buf: array<char>, p: nat, ghost text: string) returns (s: string)
    requires Reads(buf[..], p, text)
    ensures s == text
  {
    return CString(buf[..], p);
  }

  /** The second branch: a hardware address, each field read and printed again. */
  method ReadAddress(buf: array<char>, line: nat) returns (m: Meaning)
    requires Ended(buf[..], line) && !("RSSI" <= CString(buf[..], line)) && Has(CString(buf[..], line), ':')
    modifies buf
    ensures var text := old(CString(buf[..], line));
      m == Means(text) && Untouched(old(buf[..]), buf[..], line, line + |text|)
  {
    ghost var all := SplitOn(CString(buf[..], line), ':', FIELDS);
    var argv := new nat[FIELDS];
    var argc, inside := ParseArgs(buf, line, FIELDS, argv, ':');
    if !inside {
      return Outside;
    }
    if argc <= 5 {
      return Nothing;
    }
    var fits, mac := PrintAddress(buf, argv, all);
    m := if fits then Address(mac) else Outside;
  }

  /** Its loop. */
  method PrintAddress(buf: array<char>, argv: array<nat>, ghost all: seq<string>) returns (fits: bool, mac: string)
    requires argv.Length == FIELDS && PointsAt(buf[..], argv[..FIELDS], all)
    ensures fits == AddressFits(all) && (fits ==> mac == Mac(all))
  {
    ghost var at := argv[..FIELDS];
    mac := "";
    assert all[0..] == all;
    for k := 0 to FIELDS
      invariant mac + Mac(all[k..]) == Mac(all) && |mac| < MAC_SIZE && Narrow(all[..k])
    {
      assert Reads(buf[..], at[k], all[k]) && at[k] == argv[k];
      MacNext(mac, all, k);
      var field := ReadText(buf, argv[k], all[k]);
      var hex := Hex2(Shown(field));
      if |hex| >= HEX_SIZE {
        assert !Narrow(all);
        return false, "";
      }
      mac := mac + hex + if k < 5 then ":" else "";
      if |mac| >= MAC_SIZE {
        return false, "";
      }
    }
    assert all[FIELDS..] == [] && all[..FIELDS] == all;
    fits := true;
  }

  lemma MacNext(mac: string, all: seq<string>, k: nat)
    requires k < |all| == FIELDS
    ensures mac + Mac(all[k..]) == (mac + Printed(all[k]) + if k < 5 then ":" else "") + Mac(all[k + 1..])
    ensures Narrow(all[..k]) && |Printed(all[k])| < HEX_SIZE ==> Narrow(all[..k + 1])
  {
    assert all[k..][1..] == all[k + 1..];
  }

  /** The last branch: an event. */
  method ReadEvent(buf: array<char>, line: nat) returns (m: Meaning)
    requires Ended(buf[..], line)
    modifies buf
    ensures var text := old(CString(buf[..], line));
      var fields := SplitOn(text, ',', FIELDS);
      && m == (if |fields| > FIELDS then Outside else if |fields| > 2 then Sampled(Event(fields)) else Nothing)
      && Untouched(old(buf[..]), buf[..], line, line + |text|)
  {
    ghost var fields := SplitOn(CString(buf[..], line), ',', FIELDS);
    var argv := new nat[FIELDS];
    var argc, inside := ParseArgs(buf, line, FIELDS, argv, ',');
    if !inside {
      return Outside;
    }
    if argc > 2 {
      var stamp := ReadNumber(buf, argv[0], fields[0]);
      var port := ReadNumber(buf, argv[1], fields[1]);
      var state := ReadNumber(buf, argv[2], fields[2]);
      return Sampled(Reading(stamp % 0x1_0000_0000, port % 256, state != 0));
    }
    return Nothing;
  }

  // ----- The client -----

  /** What a connection leaves: the readings handed to `insertEvent`, whose result is ignored, the
      signal strength, and the hardware address. */
  datatype Session = Session(stored: seq<Reading>, rssi: int, address: string)

  function Do(s: Session, m: Meaning): Session {
    match m
    case Signal(rssi) => s.(rssi := rssi)
    case Address(mac) => s.(address := mac)
    case Sampled(reading) => s.(stored := s.stored + [reading])
    case Nothing => s
    case Outside => s
  }

  function DoAll(s: Session, ms: seq<Meaning>): Session
    decreases |ms|
  {
    if ms == [] then s else DoAll(Do(s, ms[0]), ms[1..])
  }

  lemma {:induction false} DoAllStores(s: Session, ms: seq<Meaning>)
    ensures DoAll(s, ms).stored == s.stored + Readings(ms)
    decreases |ms|
  {
    if ms != [] {
      DoAllStores(Do(s, ms[0]), ms[1..]);
      if ms[0].Sampled? {
        assert (s.stored + [ms[0].reading]) + Readings(ms[1..]) == s.stored + ([ms[0].reading] + Readings(ms[1..]));
      } else {
        assert Readings(ms) == Readings(ms[1..]);
      }
    }
  }

  // ----- A connection -----

  const BUFFER: nat := 256

  /** What becomes of a connection: no terminator follows what was read; more pieces are found than a
      vector holds; or an answer with the number of events. In the first two cases the source leaves its
      arrays, and the model stops. */
  datatype Outcome = Unterminated | Overrun | Answered(n: nat)

  function Text(input: string): string { CString(input, 0) }

  predicate Terminated(input: string) { |input| < BUFFER || NUL in input }

  function Served(input: string): Outcome {
    if !Terminated(input) then Unterminated
    else if Fits(Text(input)) then Answered(|Readings(Handled(Text(input)))|)
    else Overrun
  }

  /** The lines handled. */
  function Taken(input: string): seq<Meaning> { if Terminated(input) then Handled(Text(input)) else [] }

  /** What is written back; the settings, which follow it, are not part of the model. */
  function Reply(outcome: Outcome): string {
    if outcome.Answered? && outcome.n > 0 then "A" + Print(outcome.n) + "\r\n" else ""
  }

  /** What was read, in a buffer of zeros. */
  lemma {:induction false} InBuffer(input: string, cells: seq<char>)
    requires |input| <= |cells| == BUFFER && cells[..|input|] == input && Terminated(input)
    requires forall j :: |input| <= j < BUFFER ==> cells[j] == NUL
    ensures Ended(cells, 0) && CString(cells, 0) == Text(input)
  {
    var s := Text(input);
    TextEnds(input, 0);
    forall k | 0 <= k < |s|
      ensures cells[0 + k] == s[k] != NUL
    {
      CStringAt(input, 0, k);
      assert cells[..|input|][k] == cells[k];
    }
    if |s| < |input| {
      assert cells[..|input|][|s|] == cells[|s|];
    }
    CStringIs(cells, 0, s);
  }

  lemma {:induction false} TextEnds(b: string, p: nat)
    requires p <= |b|
    ensures p + |CString(b, p)| <= |b|
    ensures p + |CString(b, p)| < |b| ==> b[p + |CString(b, p)|] == NUL
    ensures NUL in b[p..] ==> p + |CString(b, p)| < |b|
    decreases |b| - p
  {
    if p < |b| && b[p] != NUL {
      assert b[p..][1..] == b[p + 1..];
      TextEnds(b, p + 1);
    }
  }

  /** `bzero` and `read`. */
  method Fill(input: string) returns (buf: array<char>)
    requires |input| <= BUFFER && Terminated(input)
    ensures fresh(buf) && Ended(buf[..], 0) && CString(buf[..], 0) == Text(input)
  {
    buf := new char[BUFFER](_ => NUL);
    for k := 0 to |input|
      invariant buf[..k] == input[..k] && forall j :: k <= j < BUFFER ==> buf[j] == NUL
    {
      buf[k] := input[k];
    }
    InBuffer(input, buf[..]);
  }

  /** A connection never has more events counted than lines taken. */
  lemma {:induction false} FewReadings(ms: seq<Meaning>)
    ensures |Readings(UpTo(ms))| <= |ms|
    decreases |ms|
  {
    if ms != [] && ms[0] != Outside {
      assert ([ms[0]] + UpTo(ms[1..]))[1..] == UpTo(ms[1..]);
      FewReadings(ms[1..]);
    }
  }

  /** An answer counts what is handed on, and is never more than sixteen. */
  lemma AnswerCounts(input: string)
    ensures Served(input).Answered? ==> Served(input).n == |Readings(Taken(input))| <= LINES
  {
    FewReadings(Meanings(SplitOn(Text(input), '\n', LINES)));
  }

  class Client {
    var stored: seq<Reading>
    var mRSSI: int
    var address: string

    ghost function Value(): Session
      reads this
    {
      Session(stored, mRSSI, address)
    }

    constructor ()
      ensures Value() == Session([], 0, "")
    {
      stored, mRSSI, address := [], 0, "";
    }

    /** The constructor, from the one read on: what it read, at most a buffer full, is handled, and the
        events are acknowledged. */
    method Serve(input: string) returns (outcome: Outcome, reply: string)
      requires |input| <= BUFFER
      modifies this
      ensures outcome == Served(input) && reply == Reply(outcome)
      ensures Value() == DoAll(old(Value()), Taken(input))
    {
      if !Terminated(input) {
        return Unterminated, "";
      }
      var buf := Fill(input);
      var ackEvents, inside := HandleClient(buf);
      if !inside {
        return Overrun, "";
      }
      outcome := Answered(ackEvents);
      reply := if ackEvents > 0 then "A" + Print(ackEvents) + "\r\n" else "";
    }

    /** What the line says; the buffer is cut on the way. */
    method Understand(buf: array<char>, line: nat) returns (m: Meaning)
      requires Ended(buf[..], line)
      modifies buf
      ensures var text := old(CString(buf[..], line));
        m == Means(text) && Untouched(old(buf[..]), buf[..], line, line + |text|)
    {
      var rssi := StartsWith(buf, line, "RSSI");
      if rssi {
        m := ReadSignal(buf, line);
        return;
      }
      var colon, _ := FindChar(buf, line, ':');
      if colon {
        m := ReadAddress(buf, line);
        return;
      }
      CStringHead(buf[..], line);
      if buf[line] == 'R' || buf[line] == 'S' {
        return Nothing;
      }
      var comma, _ := FindChar(buf, line, ',');
      if !comma {
        return Nothing;
      }
      m := ReadEvent(buf, line);
    }

    /** `handleLine`: whether the line is counted, and whether it stays inside its vectors. */
    method HandleLine(buf: array<char>, line: nat) returns (counted: bool, inside: bool)
      requires Ended(buf[..], line)
      modifies this, buf
      ensures var text := old(CString(buf[..], line));
        && counted == Means(text).Sampled? && inside == (Means(text) != Outside)
        && Value() == Do(old(Value()), Means(text))
        && Untouched(old(buf[..]), buf[..], line, line + |text|)
    {
      var m := Understand(buf, line);
      counted, inside := false, true;
      match m
      case Signal(rssi) => mRSSI := rssi;
      case Address(mac) => address := mac;
      case Sampled(reading) =>
        stored := stored + [reading];
        counted := true;
      case Nothing =>
      case Outside => inside := false;
    }

    /** `handleClient`: the number of events the server will acknowledge, and whether it stays inside. */
    method HandleClient(buf: array<char>) returns (ackEvents: nat, inside: bool)
      requires Ended(buf[..], 0)
      modifies this, buf
      ensures var text := old(CString(buf[..], 0));
        && inside == Fits(text) && Value() == DoAll(old(Value()), Handled(text))
        && ackEvents == |Readings(Handled(text))|
    {
      ghost var lines := SplitOn(CString(buf[..], 0), '\n', LINES);
      var argv := new nat[LINES];
      var argc;
      argc, inside := ParseArgs(buf, 0, LINES, argv, '\n');
      ackEvents := 0;
      if !inside {
        return;
      }
      UpToAll(Meanings(lines));
      ackEvents, inside := HandleLines(buf, argv, argc, lines);
    }

    /** Its loop. */
    method HandleLines(buf: array<char>, argv: array<nat>, argc: nat, ghost lines: seq<string>)
      returns (ackEvents: nat, inside: bool)
      requires argc <= argv.Length && PointsAt(buf[..], argv[..argc], lines)
      modifies this, buf
      ensures var ms := Meanings(lines);
        && inside == (UpTo(ms) == ms) && Value() == DoAll(old(Value()), UpTo(ms))
        && ackEvents == |Readings(UpTo(ms))|
    {
      ghost var now, at := Value(), argv[..argc];
      ghost var ms := Meanings(lines);
      ghost var end := Outlook(now, 0, ms);
      ackEvents, inside := 0, true;
      assert ms[0..] == ms;
      for k := 0 to argc
        invariant at == argv[..argc] && StillAt(buf[..], at, lines, k)
        invariant Value() == now && Outlook(now, ackEvents, ms[k..]) == end
      {
        ghost var cells := buf[..];
        assert argv[k] == at[k];
        MeansAt(lines, k);
        OutlookNext(now, ackEvents, ms, k);
        var counted;
        counted, inside := HandleLine(buf, argv[k]);
        if !inside {
          return;
        }
        now := Do(now, ms[k]);
        LinesBehind(cells, buf[..], at, lines, k);
        ackEvents := ackEvents + if counted then 1 else 0;
      }
      inside := true;
    }
  }

  /** What handling the rest will lead to: the session, the count, and whether it stays inside. */
  ghost function Outlook(now: Session, n: nat, rest: seq<Meaning>): (Session, nat, bool) {
    (DoAll(now, UpTo(rest)), n + |Readings(UpTo(rest))|, UpTo(rest) == rest)
  }

  lemma OutlookNext(now: Session, n: nat, ms: seq<Meaning>, k: nat)
    requires k < |ms|
    ensures Outlook(now, n, ms[k..]) ==
      if ms[k] == Outside then (now, n, false)
      else Outlook(Do(now, ms[k]), n + if ms[k].Sampled? then 1 else 0, ms[k + 1..])
  {
    var m, more := ms[k], ms[k + 1..];
    var up := UpTo(more);
    assert ms[k..] == [m] + more && ([m] + more)[1..] == more && ([m] + up)[1..] == up;
  }

  lemma {:induction false} CStringHead(b: seq<char>, p: nat)
    requires Ended(b, p)
    ensures b[p] == if CString(b, p) == [] then NUL else CString(b, p)[0]
  {}

  /** The lines not handled yet are where the vector points. */
  ghost predicate StillAt(b: seq<char>, argv: seq<nat>, lines: seq<string>, from: nat) {
    && |argv| == |lines|
    && (forall k :: from <= k < |argv| ==> Reads(b, argv[k], lines[k]))
    && (forall j, k :: 0 <= j < k < |argv| ==> argv[j] + |lines[j]| < argv[k])
  }

  /** Handling a line leaves the lines behind it alone. */
  lemma LinesBehind(before: seq<char>, after: seq<char>, argv: seq<nat>, lines: seq<string>, k: nat)
    requires k < |argv| && StillAt(before, argv, lines, k)
    requires Untouched(before, after, argv[k], argv[k] + |lines[k]|)
    ensures StillAt(after, argv, lines, k + 1)
  {
    forall j | k + 1 <= j < |argv|
      ensures Reads(after, argv[j], lines[j])
    {
      CStringFrame(before, after, argv[j]);
    }
  }
}
