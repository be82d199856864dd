/** Decimal numbers as text: what `String(n)` and `%d` print, and what `atoi` and `toInt` read. */
module Decimal {

  function Digit(d: nat): char
    requires d < 10
  {
    '0' + d as char
  }

  predicate IsDigit(c: char) { '0' <= c <= '9' }

  function Value(c: char): nat
    requires IsDigit(c)
  {
    (c - '0') as nat
  }

  function Digits(n: nat): (s: string)
    ensures s != [] && forall i :: 0 <= i < |s| ==> IsDigit(s[i])
  {
    if n < 10 then [Digit(n)] else Digits(n / 10) + [Digit(n % 10)]
  }

  function Print(n: int): (s: string)
    ensures s != []
  {
    if n < 0 then "-" + Digits(-n) else Digits(n)
  }

  /** The digits at the front of s, read on top of a value so far. */
  function ReadDigits(s: string, acc: nat): nat
    decreases |s|
  {
    if s == [] || !IsDigit(s[0]) then acc else ReadDigits(s[1..], 10 * acc + Value(s[0]))
  }

  predicate IsSpace(c: char) { c == ' ' || '\t' <= c <= '\r' }

  /** `atoi`: leading white space, a sign, then as many digits as there are. */
  function Atoi(s: string): int
    decreases |s|
  {
    if s == [] then 0
    else if IsSpace(s[0]) then Atoi(s[1..])
    else if s[0] == '-' then -(ReadDigits(s[1..], 0) as int)
    else if s[0] == '+' then ReadDigits(s[1..], 0)
    else ReadDigits(s, 0)
  }

  /** What follows a number must not look like more of it. */
  predicate Ends(rest: string) { rest == [] || !IsDigit(rest[0]) }

  lemma {:induction false} ReadBack(n: nat, rest: string)
    requires Ends(rest)
    ensures ReadDigits(Digits(n) + rest, 0) == n
    decreases n
  {
    if n < 10 {
      var s := [Digit(n)] + rest;
      assert s[1..] == rest;
      DigitValue(n);
      assert ReadDigits(s, 0) == ReadDigits(rest, n);
    } else {
      var s := Digits(n / 10);
      var tail := [Digit(n % 10)] + rest;
      assert Digits(n) + rest == s + tail;
      ReadPrefix(s, tail, 0);
      ReadPrefix(s, [], 0);
      ReadBack(n / 10, []);
      assert s + [] == s;
      DigitValue(n % 10);
      assert tail[1..] == rest;
      assert ReadDigits(tail, n / 10) == ReadDigits(rest, 10 * (n / 10) + n % 10);
    }
  }

  lemma DigitValue(d: nat)
    requires d < 10
    ensures IsDigit(Digit(d)) && Value(Digit(d)) == d
  {}

  /** Reading digits goes through an all-digit prefix. */
  lemma {:induction false} ReadPrefix(s: string, rest: string, acc: nat)
    requires forall i :: 0 <= i < |s| ==> IsDigit(s[i])
    ensures ReadDigits(s + rest, acc) == ReadDigits(rest, ReadDigits(s, acc))
    decreases |s|
  {
    if s == [] {
      assert s + rest == rest;
    } else {
      assert (s + rest)[1..] == s[1..] + rest;
      ReadPrefix(s[1..], rest, 10 * acc + Value(s[0]));
    }
  }

  /** A printed number, with anything after it that is not a digit, reads back as that number. */
  lemma {:induction false} AtoiPrint(n: int, rest: string)
    requires Ends(rest)
    ensures Atoi(Print(n) + rest) == n
  {
    if n < 0 {
      var digits := Digits(-n) + rest;
      assert (Print(n) + rest)[1..] == digits;
      ReadBack(-n, rest);
    } else {
      var digits := Digits(n) + rest;
      assert IsDigit(digits[0]);
      ReadBack(n, rest);
      AtoiDigits(digits);
    }
  }

  lemma {:induction false} AtoiDigits(s: string)
    requires s != [] && IsDigit(s[0])
    ensures Atoi(s) == ReadDigits(s, 0)
  {}

  lemma DecimalCharacters(d: nat, c: char)
    requires d < 10
    ensures Digit(d) == "0123456789"[d] && (IsDigit(c) <==> c in "0123456789")
    ensures IsSpace(c) <==> c in " \t\n\U{0B}\U{0C}\r"
  {}

  predicate Sign(s: string) { s == "" || s == "-" || s == "+" }

  /** `atoi`, in full: white space is passed over, a sign is taken, and without a digit behind them the number
      is zero. */
  lemma {:induction false} AtoiReads(spaces: string, sign: string, digits: string, rest: string)
    requires (forall i :: 0 <= i < |spaces| ==> IsSpace(spaces[i])) && Sign(sign) && Ends(rest)
    requires forall i :: 0 <= i < |digits| ==> IsDigit(digits[i])
    requires sign == "" && digits == "" ==> rest == "" || !(IsSpace(rest[0]) || rest[0] == '-' || rest[0] == '+')
    ensures var n: int := ReadDigits(digits, 0);
      Atoi(spaces + (sign + (digits + rest))) == if sign == "-" then -n else n
    decreases |spaces|
  {
    if spaces == [] {
      assert spaces + (sign + (digits + rest)) == sign + (digits + rest);
      ReadPrefix(digits, rest, 0);
      if sign == "" {
        assert sign + (digits + rest) == digits + rest;
      } else {
        assert (sign + (digits + rest))[1..] == digits + rest;
      }
    } else {
      assert (spaces + (sign + (digits + rest)))[1..] == spaces[1..] + (sign + (digits + rest));
      AtoiReads(spaces[1..], sign, digits, rest);
    }
  }
}
