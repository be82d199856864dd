/** What the server (loggerd/src/pump_client.cpp) learns from the lines it understands: numbers, addresses and
    signal strengths come through as they were sent. */
module ServerLearns {
  import opened CStrings
  import opened Decimal
  import opened Hexadecimal
  import opened PumpServer
  import opened PumpSession
  import opened SessionHeader
  import opened ServedSession

  // ----- Numbers -----

  lemma {:induction false} PrintReads(spaces: string, n: int, rest: string)
    requires (forall i :: 0 <= i < |spaces| ==> IsSpace(spaces[i])) && Ends(rest)
    ensures Atoi(spaces + (Print(n) + rest)) == n
  {
    var sign, digits := if n < 0 then "-" else "", Digits(if n < 0 then -n else n);
    ReadBack(if n < 0 then -n else n, []);
    assert digits + [] == digits;
    AtoiReads(spaces, sign, digits, rest);
    assert sign + (digits + rest) == Print(n) + rest;
  }

  /** An event line of any numbers: the time keeps its lowest 32 bits, the port its lowest eight, and the state
      whether it is zero. */
  lemma EventRead(stamp: int, port: int, state: int)
    ensures Means(Print(stamp) + [','] + (Print(port) + [','] + (Print(state) + "\r")))
      == Sampled(Reading(stamp % 0x1_0000_0000, port % 256, state != 0))
  {
    var s, p, t := Print(stamp), Print(port), Print(state) + "\r";
    PlainNumber(stamp);
    PlainNumber(port);
    PlainNumber(state);
    PrintReads([], stamp, []);
    PrintReads([], port, []);
    PrintReads([], state, "\r");
    assert [] + (s + []) == s && [] + (p + []) == p && [] + (Print(state) + "\r") == t;
    LineOfThree(s, p, t);
  }

  lemma PlainNumber(n: int)
    ensures ',' !in Print(n) && ':' !in Print(n) && Print(n) != "" && (IsDigit(Print(n)[0]) || Print(n)[0] == '-')
  {}

  lemma LineOfThree(s: string, p: string, t: string)
    requires ',' !in s && ':' !in s && s != "" && (IsDigit(s[0]) || s[0] == '-')
    requires ',' !in p && ':' !in p && ',' !in t && ':' !in t
    ensures Means(s + [','] + (p + [','] + t)) == Sampled(Event([s, p, t]))
  {
    var line := s + [','] + (p + [','] + t);
    TwoCommas(s, p, t);
    assert "RSSI"[0] == 'R' && line[0] == s[0];
    CountNone(line, ':');
    CountFrom(line, ':');
  }

  /** The signal strength of a header is the one that was printed. */
  lemma SignalRead(rssi: int)
    ensures Means(SignalLine(Print(rssi)) + "\r") == Signal(rssi)
  {
    var line, rest := SignalLine(Print(rssi)) + "\r", " " + (Print(rssi) + "\r");
    PrintChars(rssi);
    assert line == "RSSI" + [':'] + rest && line[..4] == "RSSI";
    SplitFirst("RSSI", ':', rest, SIGNALS);
    SplitNone(rest, ':', SIGNALS - 1);
    PrintReads(" ", rssi, "\r");
  }

  // ----- Addresses -----

  lemma PrintedField(field: string)
    ensures ReadHex(Printed(field), 0) == Shown(field) && ':' !in Printed(field)
    ensures forall i :: 0 <= i < |Printed(field)| ==> Printed(field)[i] in "0123456789ABCDEF"
  {
    Hex2ReadBack(Shown(field));
  }

  predicate NoColons(pieces: seq<string>) { forall k :: 0 <= k < |pieces| ==> ':' !in pieces[k] }

  lemma {:induction false} ColonsFirst(first: string, rest: seq<string>, end: string)
    requires rest != []
    ensures Colons([first] + rest) + end == first + [':'] + (Colons(rest) + end)
  {
    assert ([first] + rest)[1..] == rest;
  }

  /** Pieces with colons between them, and what ends the line. */
  lemma {:induction false} ColonsSplit(pieces: seq<string>, end: string, limit: nat)
    requires 0 < |pieces| <= limit && NoColons(pieces) && ':' !in end
    ensures SplitOn(Colons(pieces) + end, ':', limit) == pieces[..|pieces| - 1] + [pieces[|pieces| - 1] + end]
    decreases |pieces|
  {
    var first, rest := pieces[0], pieces[1..];
    assert ':' !in first && pieces == [first] + rest;
    if rest == [] {
      SplitNone(first + end, ':', limit);
    } else {
      ColonsSplit(rest, end, limit - 1);
      ColonsFirst(first, rest, end);
      SplitFirst(first, ':', Colons(rest) + end, limit);
      LastOf(first, rest, end);
    }
  }

  lemma LastOf(first: string, rest: seq<string>, end: string)
    requires rest != []
    ensures var pieces := [first] + rest;
      [first] + (rest[..|rest| - 1] + [rest[|rest| - 1] + end]) == pieces[..|pieces| - 1] + [pieces[|pieces| - 1] + end]
  {}

  lemma {:induction false} MacIsColons(fields: seq<string>)
    requires fields != []
    ensures Mac(fields) == Colons(Map(Printed, fields)) && NoColons(Map(Printed, fields))
    decreases |fields|
  {
    PrintedField(fields[0]);
    if |fields| > 1 {
      MacIsColons(fields[1..]);
    }
  }

  lemma {:induction false} PlainSplit(pieces: seq<string>, limit: nat)
    requires 0 < |pieces| <= limit && NoColons(pieces)
    ensures SplitOn(Colons(pieces), ':', limit) == pieces
  {
    var last := |pieces| - 1;
    ColonsSplit(pieces, "", limit);
    assert Colons(pieces) + "" == Colons(pieces) && pieces[last] + "" == pieces[last];
    assert pieces[..last] + [pieces[last]] == pieces;
  }

  lemma {:induction false} MacSplit(fields: seq<string>, limit: nat)
    requires 0 < |fields| <= limit
    ensures SplitOn(Mac(fields), ':', limit) == Map(Printed, fields)
  {
    MacIsColons(fields);
    PlainSplit(Map(Printed, fields), limit);
  }

  /** The address kept is six numbers with colons between them, each the number its field was read as, printed
      in at least two digits. */
  lemma {:induction false} AddressKept(fields: seq<string>, k: nat)
    requires |fields| == 6 && k < 6
    ensures |SplitOn(Mac(fields), ':', 6)| == 6
    ensures var field := SplitOn(Mac(fields), ':', 6)[k];
      && ReadHex(field, 0) == Shown(fields[k]) && |field| >= 2
      && (forall i :: 0 <= i < |field| ==> field[i] in "0123456789ABCDEF")
  {
    MacSplit(fields, 6);
    MapAt(Printed, fields, k);
    PrintedField(fields[k]);
    Hex2Length(Shown(fields[k]));
  }

  /** And the device's octets are read as what they say. */
  lemma {:induction false} OctetRead(octet: string, rest: string)
    requires Octet(octet) && (rest == "" || rest == "\r")
    ensures Shown(octet + rest) == ReadHex(octet, 0)
  {
    StrToUlReads("", "", "", octet, rest);
    assert "" + ("" + ("" + (octet + rest))) == octet + rest;
    assert octet + [] == octet;
    TwoDigits(octet, 0);
  }

  /** The fields of the address line, as they arrive. */
  function Fields(octets: seq<string>): seq<string>
    requires |octets| == 6
  {
    octets[..5] + [octets[5] + "\r"]
  }

  lemma {:induction false} AddressMeaning(line: string, fields: seq<string>)
    requires !("RSSI" <= line) && Has(line, ':') && fields == SplitOn(line, ':', FIELDS)
    requires |fields| == FIELDS && AddressFits(fields)
    ensures Means(line) == Address(Mac(fields))
  {}

  lemma {:induction false} AddressStart(octets: seq<string>)
    requires SixOctets(octets)
    ensures !("RSSI" <= Colons(octets) + "\r")
  {
    ColonsChars(octets);
    assert "RSSI"[0] == 'R' && (Colons(octets) + "\r")[0] == Colons(octets)[0];
  }

  lemma {:induction false} AddressRead(octets: seq<string>)
    requires SixOctets(octets)
    ensures Means(Colons(octets) + "\r") == Address(Mac(Fields(octets)))
  {
    var line := Colons(octets) + "\r";
    AddressStart(octets);
    OctetsPlain(octets);
    ColonsSplit(octets, "\r", FIELDS);
    FieldsFit(octets);
    PieceCount(line, ':', FIELDS);
    CountFrom(line, ':');
    AddressMeaning(line, Fields(octets));
  }

  lemma OctetsPlain(octets: seq<string>)
    requires SixOctets(octets)
    ensures NoColons(octets)
  {
    forall k | 0 <= k < 6
      ensures ':' !in octets[k]
    {
      assert Octet(octets[k]);
    }
  }

  lemma FieldsFit(octets: seq<string>)
    requires SixOctets(octets)
    ensures AddressFits(Fields(octets))
  {
    var fields := Fields(octets);
    forall k | 0 <= k < 6
      ensures OctetField(fields[k])
    {
      assert Octet(octets[k]);
    }
    OctetsFit(fields);
  }

  /** So the address of a header comes through octet by octet. */
  lemma DeviceAddress(octets: seq<string>, k: nat)
    requires SixOctets(octets) && k < 6
    ensures |SplitOn(Mac(Fields(octets)), ':', 6)| == 6
    ensures ReadHex(SplitOn(Mac(Fields(octets)), ':', 6)[k], 0) == ReadHex(octets[k], 0)
  {
    AddressKept(Fields(octets), k);
    assert Octet(octets[k]);
    assert Fields(octets)[k] == octets[k] + if k == 5 then "\r" else "";
    OctetRead(octets[k], if k == 5 then "\r" else "");
  }

  // ----- A session -----

  lemma {:induction false} ReceivedKeep(s: Session, events: seq<Sample>, k: nat)
    ensures DoAll(s, ReceivedMeanings(events, k)).rssi == s.rssi
    ensures DoAll(s, ReceivedMeanings(events, k)).address == s.address
    decreases |events|
  {
    if events == [] {
      DoFirst(s, Nothing, []);
    } else {
      var size := |EventLine(events[0])| + 2;
      if k < size {
        DoFirst(s, CutMeaning(events[0], k), []);
      } else {
        var m := CutMeaning(events[0], size - 1);
        DoFirst(s, m, ReceivedMeanings(events[1..], k - size));
        ReceivedKeep(Do(s, m), events[1..], k - size);
      }
    }
  }

  lemma {:induction false} DoFirst(s: Session, m: Meaning, rest: seq<Meaning>)
    ensures DoAll(s, [m] + rest) == DoAll(Do(s, m), rest)
  {
    assert ([m] + rest)[1..] == rest;
  }

  /** The first line of what arrives, and the others. */
  lemma {:induction false} FirstArrived(s: Session, line: string, lines: seq<string>, k: nat, m: Meaning)
    requires k >= |line| + 2 && m == Means(line + "\r")
    ensures DoAll(s, Meanings(Arrived([line] + lines, k))) == DoAll(Do(s, m), Meanings(Arrived(lines, k - |line| - 2)))
  {
    assert ([line] + lines)[1..] == lines;
    ArrivedNext([line] + lines, k, k - |line| - 2);
    MeansMore(line + "\r", Arrived(lines, k - |line| - 2));
    DoFirst(s, m, Meanings(Arrived(lines, k - |line| - 2)));
  }

  lemma {:induction false} WireFirst(line: string, lines: seq<string>)
    ensures |Wire([line] + lines)| == |line| + 2 + |Wire(lines)|
  {
    assert ([line] + lines)[1..] == lines;
  }

  lemma {:induction false} InputsKeep(s: Session, a: string, b: string, c: string, lines: seq<string>, k: nat)
    requires |a| == |b| == |c| == 2 && k >= 14
    requires Means(a + "\r") == Means(b + "\r") == Means(c + "\r") == Means("" + "\r") == Nothing
    ensures DoAll(s, Meanings(Arrived([a] + ([b] + ([c] + ([""] + lines))), k)))
      == DoAll(s, Meanings(Arrived(lines, k - 14)))
  {
    FirstArrived(s, "", lines, k - 12, Nothing);
    FirstArrived(s, c, [""] + lines, k - 8, Nothing);
    FirstArrived(s, b, [c] + ([""] + lines), k - 4, Nothing);
    FirstArrived(s, a, [b] + ([c] + ([""] + lines)), k, Nothing);
  }

  lemma InputNothing(port: char, on: bool)
    requires IsDigit(port)
    ensures Means(StateLine(port, on) + "\r") == Nothing && |StateLine(port, on)| == 2
  {
    var line := StateLine(port, on) + "\r";
    assert "RSSI"[1] == 'S' && line[1] == port;
    CountNone(line, ':');
    CountFrom(line, ':');
  }

  lemma EmptyNothing()
    ensures Means("" + "\r") == Nothing
  {
    assert "RSSI"[0] == 'R' && "" + "\r" == "\r";
  }

  lemma HeadInFront(a: string, b: string, c: string, d: string, e: string, f: string, lines: seq<string>)
    ensures [a, b, c, d, e, f] + lines == [a] + ([b] + ([c] + ([d] + ([e] + ([f] + lines)))))
    ensures |Wire([a, b, c, d, e, f])| == |a| + |b| + |c| + |d| + |e| + |f| + 12
  {
    WireFirst(a, [b, c, d, e, f]);
    WireFirst(b, [c, d, e, f]);
    WireFirst(c, [d, e, f]);
    WireFirst(d, [e, f]);
    WireFirst(e, [f]);
    WireFirst(f, []);
    assert [a, b, c, d, e, f] == [a] + [b, c, d, e, f] && [b, c, d, e, f] == [b] + [c, d, e, f];
    assert [c, d, e, f] == [c] + [d, e, f] && [d, e, f] == [d] + [e, f] && [e, f] == [e] + [f] && [f] == [f] + [];
  }

  /** Whatever part of a device's session arrives behind its header, if it is answered, the server has its signal
      strength and its address. */
  lemma {:induction false} DeviceLearned(s: Session, rssi: int, octets: seq<string>, on: seq<bool>,
                                          events: seq<Sample>, k: nat)
    requires SixOctets(octets) && |on| == 3 && AllValid(events)
    requires |Wire(Header(rssi, octets, on))| <= k <= |Sent(Header(rssi, octets, on), events)| && k < 256
    requires Served(Sent(Header(rssi, octets, on), events)[..k]).Answered?
    ensures var after := DoAll(s, Taken(Sent(Header(rssi, octets, on), events)[..k]));
      after.rssi == rssi && after.address == Mac(Fields(octets))
  {
    var head := Header(rssi, octets, on);
    DeviceHeader(rssi, octets, on);
    TakenIs(head, events, k);
    HeaderDone(s, rssi, octets, on, events, k);
  }

  /** An answered session is taken as far as it has arrived. */
  lemma {:induction false} TakenIs(head: seq<string>, events: seq<Sample>, k: nat)
    requires HeaderLines(head) && AllValid(events) && k <= |Sent(head, events)| && k < BUFFER
    requires Served(Sent(head, events)[..k]).Answered?
    ensures Taken(Sent(head, events)[..k]) == Meanings(Arrived(head + EventLines(events), k))
  {
    var lines := head + EventLines(events);
    var input := Sent(head, events)[..k];
    SentLines(head, events);
    assert NUL !in input;
    WholeText(input, 0);
    assert input[0..] == input;
    SessionRead(head, events, k);
    CountWire(lines, k);
    SplitWire(lines, k, LINES);
    UpToAll(Meanings(Arrived(lines, k)));
  }

  lemma {:induction false} HeaderDone(s: Session, rssi: int, octets: seq<string>, on: seq<bool>,
                                       events: seq<Sample>, k: nat)
    requires SixOctets(octets) && |on| == 3 && AllValid(events) && k >= |Wire(Header(rssi, octets, on))|
    ensures var after := DoAll(s, Meanings(Arrived(Header(rssi, octets, on) + EventLines(events), k)));
      after.rssi == rssi && after.address == Mac(Fields(octets))
  {
    var a, b := SignalLine(Print(rssi)), Colons(octets);
    var c, d, e := StateLine('3', on[0]), StateLine('5', on[1]), StateLine('6', on[2]);
    var lines := EventLines(events);
    var inputs := [c] + ([d] + ([e] + ([""] + lines)));
    var j := k - |a| - |b| - 4;
    HeadInFront(a, b, c, d, e, "", lines);
    SignalRead(rssi);
    AddressRead(octets);
    InputNothing('3', on[0]);
    InputNothing('5', on[1]);
    InputNothing('6', on[2]);
    EmptyNothing();
    FirstArrived(s, a, [b] + inputs, k, Signal(rssi));
    FirstArrived(Do(s, Signal(rssi)), b, inputs, k - |a| - 2, Address(Mac(Fields(octets))));
    var now := Do(Do(s, Signal(rssi)), Address(Mac(Fields(octets))));
    InputsKeep(now, c, d, e, lines, j);
    EventsMean(events, j - 14);
    ReceivedKeep(now, events, j - 14);
  }
}
