/** How the device reads the server's replies (EclipseArduino/pumpLogger/event_reporter.cpp,
    `serviceServerData`): characters gather in a static string until a line ends. */
module DeviceReply {
  import opened Decimal
  import opened PumpSession

  /** What a reply line makes the device do. */
  datatype Command = SetTime(t: int) | Ack(n: int) | Setting(key: char, value: int) | Nothing

  predicate EndsLine(c: char) { c == '\n' || c == '\r' }

  function TrimLeft(s: string): string
    decreases |s|
  {
    if s != [] && IsSpace(s[0]) then TrimLeft(s[1..]) else s
  }

  function TrimRight(s: string): string
    decreases |s|
  {
    if s != [] && IsSpace(s[|s| - 1]) then TrimRight(s[..|s| - 1]) else s
  }

  function Trim(s: string): string { TrimRight(TrimLeft(s)) }

  /** One character: the string kept for the next one, and the line it completes. A line of fewer than
      two characters is no line, and stays. */
  function Take(rx: string, c: char): (string, seq<string>) {
    var all := rx + [c];
    if !EndsLine(c) then (all, [])
    else if |Trim(all)| < 2 then (Trim(all), [])
    else ("", [Trim(all)])
  }

  function Kept(rx: string, text: string): string
    decreases |text|
  {
    if text == [] then rx else Kept(Take(rx, text[0]).0, text[1..])
  }

  /** The lines completed by a text. */
  function Lines(rx: string, text: string): (lines: seq<string>)
    ensures forall i :: 0 <= i < |lines| ==> |lines[i]| >= 2
    decreases |text|
  {
    if text == [] then [] else Take(rx, text[0]).1 + Lines(Take(rx, text[0]).0, text[1..])
  }

  function Execute(line: string): Command
    requires |line| >= 2
  {
    if line[0] == 'T' then SetTime(Atoi(line[1..]))
    else if line[0] == 'A' then Ack(Atoi(line[1..]))
    else if line[0] == 'F' && line[1] in "pseur" then Setting(line[1], Atoi(line[2..]))
    else Nothing
  }

  // ----- Whole replies -----

  /** A line as the server writes them: at least two characters and no blanks. */
  predicate Reply(line: string) {
    |line| >= 2 && forall i :: 0 <= i < |line| ==> !IsSpace(line[i])
  }

  predicate NoSpace(s: string) { forall i :: 0 <= i < |s| ==> !IsSpace(s[i]) }

  lemma TrimEnd(s: string, c: char)
    requires NoSpace(s) && EndsLine(c)
    ensures Trim(s + [c]) == s
  {
    if s == [] {
      assert (s + [c])[1..] == [] && TrimLeft([c]) == TrimLeft([]);
    } else {
      var t := s + [c];
      assert !IsSpace(t[0]) && TrimLeft(t) == t;
      assert t[..|t| - 1] == s && TrimRight(t) == TrimRight(s);
      assert !IsSpace(s[|s| - 1]) && TrimRight(s) == s;
    }
  }

  /** Characters of a line gather. */
  lemma {:induction false} Gather(rx: string, s: string, rest: string)
    requires NoSpace(s)
    ensures Kept(rx, s + rest) == Kept(rx + s, rest) && Lines(rx, s + rest) == Lines(rx + s, rest)
    decreases |s|
  {
    if s == [] {
      assert s + rest == rest && rx + s == rx;
    } else {
      assert (s + rest)[1..] == s[1..] + rest;
      assert rx + s == (rx + [s[0]]) + s[1..];
      Gather(rx + [s[0]], s[1..], rest);
    }
  }

  /** The end of a line hands it on and leaves nothing behind. */
  lemma {:induction false} Complete(line: string, rest: string)
    requires Reply(line)
    ensures Kept(line, "\r\n" + rest) == Kept("", rest)
    ensures Lines(line, "\r\n" + rest) == [line] + Lines("", rest)
  {
    var text := "\r\n" + rest;
    TrimEnd(line, '\r');
    TrimEnd([], '\n');
    assert text[1..][1..] == rest;
    assert Take(line, '\r') == ("", [line]) && Take("", '\n') == ("", []);
    assert Kept(line, text) == Kept("", text[1..]) == Kept("", rest);
    assert Lines(line, text) == [line] + Lines("", text[1..]);
    assert Lines("", text[1..]) == Lines("", rest);
  }

  lemma {:induction false} OneHeard(rx: string, line: string, more: string)
    requires NoSpace(line) && Reply(rx + line)
    ensures Kept(rx, line + ("\r\n" + more)) == Kept("", more)
    ensures Lines(rx, line + ("\r\n" + more)) == [rx + line] + Lines("", more)
  {
    Gather(rx, line, "\r\n" + more);
    Complete(rx + line, more);
  }

  lemma Regroup(a: seq<string>, b: seq<string>, c: seq<string>)
    ensures (a + b) + c == a + (b + c)
  {}

  lemma {:induction false} WireFirst(replies: seq<string>, rest: string)
    requires replies != []
    ensures Wire(replies) + rest == replies[0] + ("\r\n" + (Wire(replies[1..]) + rest))
  {}

  /** Replies written one after the other arrive as they were written, and the string ends up empty. */
  lemma {:induction false} RepliesHeard(replies: seq<string>, rest: string)
    requires forall i :: 0 <= i < |replies| ==> Reply(replies[i])
    ensures Kept("", Wire(replies) + rest) == Kept("", rest)
    ensures Lines("", Wire(replies) + rest) == replies + Lines("", rest)
    decreases |replies|
  {
    if replies == [] {
      assert Wire(replies) == "" && "" + rest == rest;
      assert replies == [] && [] + Lines("", rest) == Lines("", rest);
    } else {
      WireFirst(replies, rest);
      assert "" + replies[0] == replies[0];
      OneHeard("", replies[0], Wire(replies[1..]) + rest);
      RepliesHeard(replies[1..], rest);
      assert replies == [replies[0]] + replies[1..];
      Regroup([replies[0]], replies[1..], Lines("", rest));
    }
  }

  /** And nothing but them. */
  lemma {:induction false} AllHeard(replies: seq<string>)
    requires forall i :: 0 <= i < |replies| ==> Reply(replies[i])
    ensures Kept("", Wire(replies)) == "" && Lines("", Wire(replies)) == replies
  {
    RepliesHeard(replies, "");
    assert Wire(replies) + "" == Wire(replies) && replies + [] == replies;
  }

  // ----- The acknowledgement -----

  function AckLine(n: nat): string { "A" + Print(n) }

  lemma AckHeard(n: nat)
    ensures Reply(AckLine(n)) && Execute(AckLine(n)) == Ack(n)
  {
    assert AckLine(n)[1..] == Print(n);
    PrintedAlone(n);
  }

  /** A time and the five settings are read as printed, and no other letter is one. */
  lemma TimeHeard(t: int)
    ensures Reply("T" + Print(t)) && Execute("T" + Print(t)) == SetTime(t)
  {
    assert ("T" + Print(t))[1..] == Print(t);
    PrintedAlone(t);
  }

  lemma SettingHeard(key: char, value: int)
    requires !IsSpace(key)
    ensures Reply("F" + [key] + Print(value))
    ensures Execute("F" + [key] + Print(value))
      == if key == 'p' || key == 's' || key == 'e' || key == 'u' || key == 'r' then Setting(key, value) else Nothing
  {
    var line := "F" + [key] + Print(value);
    assert line[2..] == Print(value) && line[1] == key;
    PrintedAlone(value);
  }

  /** Lines that begin otherwise do nothing. */
  lemma OthersIgnored(line: string)
    requires |line| >= 2 && line[0] != 'T' && line[0] != 'A' && line[0] != 'F'
    ensures Execute(line) == Nothing
  {}

  // ----- A reply cut short -----

  /** The value of the first j digits of a printed number. */
  function Leading(n: nat, j: nat): nat
    requires j <= |Digits(n)|
  {
    ReadDigits(Digits(n)[..j], 0)
  }

  lemma {:induction false} LeadingBelow(n: nat, j: nat)
    requires j <= |Digits(n)|
    ensures Leading(n, j) <= n
    decreases n
  {
    if j == |Digits(n)| {
      assert Digits(n)[..j] == Digits(n) + [];
      assert Digits(n) + [] == Digits(n);
      ReadBack(n, []);
    } else if n >= 10 {
      assert Digits(n)[..j] == Digits(n / 10)[..j];
      LeadingBelow(n / 10, j);
    }
  }

  /** The string is static: what is left of a reply whose session broke off is still there when the
      next session's first line arrives, and the line is appended to it. */
  lemma {:induction false} CutReplyGlued(rx: string, replies: seq<string>)
    requires NoSpace(rx) && replies != [] && forall i :: 0 <= i < |replies| ==> Reply(replies[i])
    ensures Lines(rx, Wire(replies)) == [rx + replies[0]] + replies[1..]
    ensures Kept(rx, Wire(replies)) == ""
  {
    var line, more := replies[0], Wire(replies[1..]);
    assert Wire(replies) == line + ("\r\n" + more);
    OneHeard(rx, line, more);
    assert more + "" == more;
    RepliesHeard(replies[1..], "");
  }

  /** If an acknowledgement of n was cut behind its letter, the next session begins by acknowledging
      again, with the digits that had arrived: never more than n. */
  lemma CutAckGlued(n: nat, j: nat, next: string)
    requires 1 <= j <= |AckLine(n)| && next != [] && !IsDigit(next[0])
    requires j > 1 || (!IsSpace(next[0]) && next[0] != '-' && next[0] != '+')
    ensures |AckLine(n)[..j] + next| >= 2
    ensures Execute(AckLine(n)[..j] + next) == Ack(Leading(n, j - 1)) && Leading(n, j - 1) <= n
  {
    var digits := Digits(n)[..j - 1];
    var line := AckLine(n)[..j] + next;
    assert line[1..] == digits + next;
    LeadingBelow(n, j - 1);
    ReadPrefix(digits, next, 0);
    assert ReadDigits(next, ReadDigits(digits, 0)) == ReadDigits(digits, 0);
    AtoiOf(digits, next);
  }

  lemma {:induction false} AtoiOf(digits: string, next: string)
    requires forall i :: 0 <= i < |digits| ==> IsDigit(digits[i])
    requires next != [] && !IsDigit(next[0])
    requires digits != [] || (!IsSpace(next[0]) && next[0] != '-' && next[0] != '+')
    ensures Atoi(digits + next) == ReadDigits(digits + next, 0)
  {}
}
