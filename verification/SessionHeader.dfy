/** The lines a device sends before its events (EclipseArduino/pumpLogger/event_reporter.cpp), and what the
    server makes of them when the session is cut inside one (loggerd/src/pump_client.cpp). */
module SessionHeader {
  import opened CStrings
  import opened Decimal
  import opened Hexadecimal
  import opened PumpServer
  import opened PumpSession

  // ----- Any header -----

  /** A line of a header: no event, and nothing the server's vectors are too short for. */
  predicate HeaderLine(line: string) {
    Bare(line) && Means(line + "\r") != Outside
  }

  predicate HeaderLines(head: seq<string>) { forall i :: 0 <= i < |head| ==> HeaderLine(head[i]) }

  /** What arrives of a line of which j characters do. */
  function Cut(line: string, j: nat): string
    requires j <= |line| + 1
  {
    (line + "\r")[..j]
  }

  lemma NoComma(line: string)
    requires ',' !in line
    ensures !Means(line).Sampled?
  {}

  predicate Bare(line: string) { '\n' !in line && NUL !in line && ',' !in line }

  /** A line that exceeds no vector, wherever it breaks off. */
  predicate Lasting(line: string) {
    Bare(line) && forall j: nat :: j <= |line| + 1 ==> Means(Cut(line, j)) != Outside
  }

  lemma LastingIsHeaderLine(line: string)
    requires Lasting(line)
    ensures HeaderLine(line)
  {
    assert Cut(line, |line| + 1) == line + "\r";
  }

  /** Of k characters the last stand in a line of the header, and what arrives of it exceeds a vector. */
  predicate HeaderBroken(head: seq<string>, k: nat) {
    head != [] &&
    if k < |head[0]| + 2 then Means(Cut(head[0], k)) == Outside else HeaderBroken(head[1..], k - |head[0]| - 2)
  }

  lemma {:induction false} LastingHeader(head: seq<string>, k: nat)
    requires forall i :: 0 <= i < |head| ==> Lasting(head[i])
    ensures !HeaderBroken(head, k)
    decreases |head|
  {
    if head != [] {
      assert Lasting(head[0]);
      if k >= |head[0]| + 2 {
        LastingHeader(head[1..], k - |head[0]| - 2);
      }
    }
  }

  // ----- The device's header -----

  /** An octet of the hardware address, as the device prints it. */
  predicate Octet(s: string) { 1 <= |s| <= 2 && forall i :: 0 <= i < |s| ==> IsHex(s[i]) }

  predicate SixOctets(octets: seq<string>) { |octets| == 6 && forall i :: 0 <= i < |octets| ==> Octet(octets[i]) }

  function Colons(octets: seq<string>): string
    requires octets != []
  {
    if |octets| == 1 then octets[0] else octets[0] + ":" + Colons(octets[1..])
  }

  function SignalLine(number: string): string { "RSSI: " + number }

  function StateLine(port: char, on: bool): string { (if on then "S" else "R") + [port] }

  /** The six lines before the events: signal strength, hardware address, three inputs and an empty
      line, which `println` adds behind the inputs. */
  function Header(rssi: int, octets: seq<string>, on: seq<bool>): (head: seq<string>)
    requires |octets| == 6 && |on| == 3
    ensures |head| == 6
  {
    [SignalLine(Print(rssi)), Colons(octets), StateLine('3', on[0]), StateLine('5', on[1]), StateLine('6', on[2]), ""]
  }

  lemma PrintChars(n: int)
    ensures ':' !in Print(n) && Bare(Print(n))
  {}

  /** A signal line is understood unless it breaks off right before its colon. */
  lemma SignalCut(number: string, j: nat)
    requires ':' !in number && j <= |SignalLine(number)| + 1
    ensures Means(Cut(SignalLine(number), j)) == Outside <==> j == 4
  {
    var line := Cut(SignalLine(number), j);
    if j < 4 {
      assert line == "RSSI"[..j];
      Unfinished(line);
    } else if j == 4 {
      assert line == "RSSI";
      NoColonYet();
    } else {
      SignalBehind(number, j);
    }
  }

  lemma NoColonYet()
    ensures Means("RSSI") == Outside
  {
    SplitNone("RSSI", ':', SIGNALS);
  }

  lemma SignalBehind(number: string, j: nat)
    requires ':' !in number && 4 < j <= |SignalLine(number)| + 1
    ensures Means(Cut(SignalLine(number), j)).Signal?
  {
    var rest := (" " + number + "\r")[..j - 5];
    assert Cut(SignalLine(number), j) == "RSSI" + ([':'] + rest);
    OneColon(rest);
  }

  lemma SignalHeaderLine(number: string)
    requires ':' !in number && Bare(number)
    ensures HeaderLine(SignalLine(number))
  {
    SignalBehind(number, |SignalLine(number)| + 1);
    assert Cut(SignalLine(number), |SignalLine(number)| + 1) == SignalLine(number) + "\r";
  }

  lemma Unfinished(line: string)
    requires |line| < 4 && line <= "RSSI"
    ensures Means(line) == Nothing
  {}

  lemma OneColon(rest: string)
    requires ':' !in rest
    ensures Means("RSSI" + ([':'] + rest)).Signal?
  {
    var line := "RSSI" + ([':'] + rest);
    assert line[..4] == "RSSI" && "RSSI" <= line;
    CountNone(rest, ':');
    CountNone("RSSI", ':');
    CountAppend("RSSI", [':'] + rest, ':');
    CountAppend([':'], rest, ':');
    PieceCount(line, ':', SIGNALS);
  }

  lemma {:induction false} ColonsChars(octets: seq<string>)
    requires octets != [] && forall i :: 0 <= i < |octets| ==> Octet(octets[i])
    ensures forall i :: 0 <= i < |Colons(octets)| ==> IsHex(Colons(octets)[i]) || Colons(octets)[i] == ':'
    ensures Colons(octets) != [] && IsHex(Colons(octets)[0])
    ensures |Colons(octets)| <= 3 * |octets| - 1
    decreases |octets|
  {
    assert Octet(octets[0]);
    if |octets| > 1 {
      ColonsChars(octets[1..]);
    }
  }

  predicate OctetFields(fields: seq<string>) { forall k :: 0 <= k < |fields| ==> OctetField(fields[k]) }

  /** The fields of a hardware address that breaks off anywhere. */
  lemma {:induction false} CutFields(octets: seq<string>, j: nat, limit: nat) returns (fields: seq<string>)
    requires 0 < |octets| <= limit && forall i :: 0 <= i < |octets| ==> Octet(octets[i])
    requires j <= |Colons(octets)| + 1
    ensures fields == SplitOn(Cut(Colons(octets), j), ':', limit) && |fields| <= |octets| && OctetFields(fields)
    decreases |octets|
  {
    assert Octet(octets[0]);
    fields := SplitOn(Cut(Colons(octets), j), ':', limit);
    if |octets| == 1 || j <= |octets[0]| {
      FirstField(octets, j, limit);
    } else {
      var i := j - |octets[0]| - 1;
      CutColons(octets, j);
      var rest := CutFields(octets[1..], i, limit - 1);
      OneMoreField(octets[0], Cut(Colons(octets[1..]), i), limit, fields, rest);
    }
  }

  lemma {:induction false} OneMoreField(first: string, text: string, limit: nat, fields: seq<string>, rest: seq<string>)
    requires limit > 0 && Octet(first) && OctetFields(rest)
    requires rest == SplitOn(text, ':', limit - 1) && fields == SplitOn(first + [':'] + text, ':', limit)
    ensures OctetFields(fields) && |fields| == 1 + |rest|
  {
    SplitFirst(first, ':', text, limit);
  }

  lemma {:induction false} FirstField(octets: seq<string>, j: nat, limit: nat)
    requires octets != [] && Octet(octets[0]) && j <= |Colons(octets)| + 1 && (|octets| == 1 || j <= |octets[0]|)
    ensures SplitOn(Cut(Colons(octets), j), ':', limit) == [Cut(octets[0], j)] && OctetField(Cut(octets[0], j))
  {
    assert Cut(Colons(octets), j) == Cut(octets[0], j);
    SplitNone(Cut(octets[0], j), ':', limit);
  }

  lemma {:induction false} CutColons(octets: seq<string>, j: nat)
    requires |octets| > 1 && |octets[0]| < j <= |Colons(octets)| + 1
    ensures Cut(Colons(octets), j) == octets[0] + [':'] + Cut(Colons(octets[1..]), j - |octets[0]| - 1)
  {
    var rest := Colons(octets[1..]) + "\r";
    assert Colons(octets) + "\r" == octets[0] + [':'] + rest;
    FrontOf(octets[0], ':', rest, j);
  }

  lemma OctetsFit(fields: seq<string>)
    requires |fields| == FIELDS && OctetFields(fields)
    ensures AddressFits(fields)
  {
    forall k | 0 <= k < FIELDS
      ensures Shown(fields[k]) <= 0xFF
    {
      OctetShown(fields[k]);
    }
    assert Shown(fields[0]) <= 0xFF && SixFit(fields);
    AddressFitsIff(fields);
  }

  lemma {:induction false} AddressLike(line: string)
    requires forall i :: 0 <= i < |line| ==> IsHex(line[i]) || line[i] == ':' || line[i] == '\r'
    requires |SplitOn(line, ':', FIELDS)| <= FIELDS && OctetFields(SplitOn(line, ':', FIELDS))
    ensures Means(line) != Outside
  {
    assert !("RSSI" <= line) by {
      assert "RSSI"[0] == 'R';
    }
    if Has(line, ':') {
      FewFields(line);
    } else {
      NoSeparator(line);
    }
  }

  lemma {:induction false} FewFields(line: string)
    requires !("RSSI" <= line) && Has(line, ':')
    requires |SplitOn(line, ':', FIELDS)| <= FIELDS && OctetFields(SplitOn(line, ':', FIELDS))
    ensures Means(line) != Outside
  {
    if |SplitOn(line, ':', FIELDS)| == FIELDS {
      OctetsFit(SplitOn(line, ':', FIELDS));
    }
  }

  lemma NoSeparator(line: string)
    requires !("RSSI" <= line) && !Has(line, ':') && ',' !in line
    ensures Means(line) == Nothing
  {}

  /** A hardware address is taken, wherever it breaks off. */
  lemma {:induction false} AddressCut(octets: seq<string>)
    requires SixOctets(octets)
    ensures Lasting(Colons(octets))
  {
    ColonsChars(octets);
    forall j: nat | j <= |Colons(octets)| + 1
      ensures Means(Cut(Colons(octets), j)) != Outside
    {
      var _ := CutFields(octets, j, FIELDS);
      AddressLike(Cut(Colons(octets), j));
    }
  }

  lemma InputCut(port: char, on: bool)
    requires IsDigit(port)
    ensures Lasting(StateLine(port, on))
  {
    forall j: nat | j <= |StateLine(port, on)| + 1
      ensures Means(Cut(StateLine(port, on), j)) != Outside
    {
      var line := Cut(StateLine(port, on), j);
      assert "RSSI"[1] == 'S' && (j > 1 ==> line[1] == port);
    }
  }

  lemma EmptyCut()
    ensures Lasting("")
  {
    forall j: nat | j <= 1
      ensures Means(Cut("", j)) != Outside
    {
      assert "RSSI"[0] == 'R' && "" + "\r" == "\r";
    }
  }

  lemma HeaderOf(first: string, more: seq<string>)
    requires HeaderLine(first) && forall i :: 0 <= i < |more| ==> Lasting(more[i])
    ensures HeaderLines([first] + more) && ([first] + more)[1..] == more
  {
    forall i | 0 <= i < |more|
      ensures HeaderLine(more[i])
    {
      LastingIsHeaderLine(more[i]);
    }
  }

  lemma FiveLasting(b: string, c: string, d: string, e: string, f: string)
    requires Lasting(b) && Lasting(c) && Lasting(d) && Lasting(e) && Lasting(f)
    ensures forall i :: 0 <= i < 5 ==> Lasting([b, c, d, e, f][i])
  {
    var more := [b, c, d, e, f];
    assert Lasting(more[0]) && Lasting(more[1]) && Lasting(more[2]) && Lasting(more[3]) && Lasting(more[4]);
  }

  /** The device's header is one. Behind its first line it exceeds no vector, wherever it breaks off. */
  lemma DeviceHeader(rssi: int, octets: seq<string>, on: seq<bool>)
    requires SixOctets(octets) && |on| == 3
    ensures HeaderLines(Header(rssi, octets, on))
    ensures forall i :: 0 <= i < 5 ==> Lasting(Header(rssi, octets, on)[1..][i])
  {
    PrintChars(rssi);
    SignalHeaderLine(Print(rssi));
    AddressCut(octets);
    InputCut('3', on[0]);
    InputCut('5', on[1]);
    InputCut('6', on[2]);
    EmptyCut();
    var more := [Colons(octets), StateLine('3', on[0]), StateLine('5', on[1]), StateLine('6', on[2]), ""];
    FiveLasting(Colons(octets), StateLine('3', on[0]), StateLine('5', on[1]), StateLine('6', on[2]), "");
    HeaderOf(SignalLine(Print(rssi)), more);
    assert Header(rssi, octets, on) == [SignalLine(Print(rssi))] + more;
  }

  /** Cut inside the device's header, a session exceeds a vector exactly if only "RSSI" arrives. */
  lemma {:induction false} DeviceHeaderCut(rssi: int, octets: seq<string>, on: seq<bool>, k: nat)
    requires SixOctets(octets) && |on| == 3
    ensures HeaderBroken(Header(rssi, octets, on), k) <==> k == 4
  {
    PrintChars(rssi);
    DeviceHeader(rssi, octets, on);
    FirstLineCut(Header(rssi, octets, on), Print(rssi), k);
  }

  lemma {:induction false} FirstLineCut(head: seq<string>, number: string, k: nat)
    requires head != [] && head[0] == SignalLine(number) && ':' !in number
    requires forall i :: 0 <= i < |head[1..]| ==> Lasting(head[1..][i])
    ensures HeaderBroken(head, k) <==> k == 4
  {
    if k < |head[0]| + 2 {
      SignalCut(number, k);
    } else {
      LastingHeader(head[1..], k - |head[0]| - 2);
    }
  }
}
