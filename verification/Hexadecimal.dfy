/** Hexadecimal numbers as text: what `strtoul` reads in base 16 and what `%02X` prints of it
    (loggerd/src/pump_client.cpp). */
module Hexadecimal {
  import opened Decimal

  predicate IsHex(c: char) { IsDigit(c) || 'a' <= c <= 'f' || 'A' <= c <= 'F' }

  function HexValue(c: char): (v: nat)
    requires IsHex(c)
    ensures v < 16
  {
    if IsDigit(c) then (c - '0') as nat
    else if 'a' <= c then 10 + (c - 'a') as nat
    else 10 + (c - 'A') as nat
  }

  /** The hexadecimal digits at the front of s, read on top of a value so far. */
  function ReadHex(s: string, acc: nat): nat
    decreases |s|
  {
    if s == [] || !IsHex(s[0]) then acc else ReadHex(s[1..], 16 * acc + HexValue(s[0]))
  }

  /** A prefix that is passed over. */
  predicate HasPrefix(s: string) { |s| > 2 && s[0] == '0' && (s[1] == 'x' || s[1] == 'X') && IsHex(s[2]) }

  function Magnitude(s: string): nat { ReadHex(if HasPrefix(s) then s[2..] else s, 0) }

  /** `unsigned long` has 64 bits; a number that does not fit reads as the largest one. */
  const ULONG: nat := 0x1_0000_0000_0000_0000

  function StrToUl(s: string): (n: nat)
    ensures n < ULONG
    decreases |s|
  {
    if s == [] then 0
    else if IsSpace(s[0]) then StrToUl(s[1..])
    else
      var m := Magnitude(if s[0] == '-' || s[0] == '+' then s[1..] else s);
      if m >= ULONG then ULONG - 1 else if s[0] == '-' && m > 0 then ULONG - m else m
  }

  /** What is left of it in an `int`, taken as unsigned by the format. */
  function Shown(s: string): (n: nat)
    ensures n < 0x1_0000_0000
  {
    StrToUl(s) % 0x1_0000_0000
  }

  function HexChar(d: nat): char
    requires d < 16
  {
    if d < 10 then '0' + d as char else 'A' + (d - 10) as char
  }

  function HexDigits(n: nat): (s: string)
    ensures s != []
  {
    if n < 16 then [HexChar(n)] else HexDigits(n / 16) + [HexChar(n % 16)]
  }

  /** `%02X`. */
  function Hex2(n: nat): string { if n < 16 then "0" + HexDigits(n) else HexDigits(n) }

  /** The digits, in order of their values. */
  lemma HexCharacters(d: nat)
    requires d < 16
    ensures HexChar(d) == "0123456789ABCDEF"[d]
    ensures IsHex("0123456789ABCDEF"[d]) && HexValue("0123456789ABCDEF"[d]) == d
    ensures IsHex("0123456789abcdef"[d]) && HexValue("0123456789abcdef"[d]) == d
  {}

  lemma HexOnly(c: char)
    ensures IsHex(c) <==> c in "0123456789ABCDEFabcdef"
  {}

  /** What follows a number must not look like more of it. */
  predicate EndsHex(rest: string) { rest == [] || !(IsHex(rest[0]) || rest[0] == 'x' || rest[0] == 'X') }

  lemma {:induction false} ReadOn(s: string, t: string, acc: nat)
    requires forall i :: 0 <= i < |s| ==> IsHex(s[i])
    ensures ReadHex(s + t, acc) == ReadHex(t, ReadHex(s, acc))
    decreases |s|
  {
    if s == [] {
      assert s + t == t;
    } else {
      assert (s + t)[1..] == s[1..] + t;
      ReadOn(s[1..], t, 16 * acc + HexValue(s[0]));
    }
  }

  lemma {:induction false} OneDigit(d: nat, rest: string, acc: nat)
    requires d < 16 && EndsHex(rest)
    ensures ReadHex([HexChar(d)] + rest, acc) == 16 * acc + d
  {
    HexCharacters(d);
    assert ([HexChar(d)] + rest)[1..] == rest;
  }

  lemma {:induction false} HexDigitsAre(n: nat)
    ensures forall i :: 0 <= i < |HexDigits(n)| ==> HexDigits(n)[i] in "0123456789ABCDEF" && IsHex(HexDigits(n)[i])
  {
    HexCharacters(n % 16);
    if n >= 16 {
      HexDigitsAre(n / 16);
    }
  }

  lemma {:induction false} OneMoreDigit(front: string, q: nat, d: nat, rest: string)
    requires d < 16 && EndsHex(rest) && ReadHex(front, 0) == q && forall i :: 0 <= i < |front| ==> IsHex(front[i])
    ensures ReadHex(front + [HexChar(d)] + rest, 0) == 16 * q + d
  {
    OneDigit(d, rest, q);
    ReadOn(front, [HexChar(d)] + rest, 0);
    assert front + [HexChar(d)] + rest == front + ([HexChar(d)] + rest);
  }

  /** Printed digits read back. */
  lemma {:induction false} HexReadBack(n: nat, rest: string)
    requires EndsHex(rest)
    ensures ReadHex(HexDigits(n) + rest, 0) == n
  {
    if n < 16 {
      OneDigit(n, rest, 0);
    } else {
      HexReadBack(n / 16, []);
      HexDigitsAre(n / 16);
      assert HexDigits(n / 16) + [] == HexDigits(n / 16);
      OneMoreDigit(HexDigits(n / 16), n / 16, n % 16, rest);
    }
  }

  /** The number that `%02X` prints reads back. */
  lemma Hex2ReadBack(n: nat)
    ensures ReadHex(Hex2(n), 0) == n && forall i :: 0 <= i < |Hex2(n)| ==> Hex2(n)[i] in "0123456789ABCDEF"
  {
    HexReadBack(n, []);
    HexDigitsAre(n);
    assert HexDigits(n) + [] == HexDigits(n);
    assert ("0" + HexDigits(n))[1..] == HexDigits(n);
  }

  predicate Prefix(s: string) { s == "" || s == "0x" || s == "0X" }

  /** A number may be missing only where what follows is none of its parts. */
  predicate NotMissing(sign: string, prefix: string, digits: string, rest: string) {
    sign == "" && prefix == "" && digits == "" ==> rest == "" || !(IsSpace(rest[0]) || rest[0] == '-' || rest[0] == '+')
  }

  /** `strtoul` in base 16, in full: white space, a sign, a prefix, digits, each of which may be missing; the
      value is cut at the largest number of 64 bits, and a negative one counts down from 2^64. */
  lemma {:induction false} StrToUlReads(spaces: string, sign: string, prefix: string, digits: string, rest: string)
    requires (forall i :: 0 <= i < |spaces| ==> IsSpace(spaces[i])) && Sign(sign) && Prefix(prefix) && EndsHex(rest)
    requires (forall i :: 0 <= i < |digits| ==> IsHex(digits[i])) && NotMissing(sign, prefix, digits, rest)
    ensures var n := ReadHex(digits, 0);
      StrToUl(spaces + (sign + (prefix + (digits + rest)))) ==
      if n > 0xFFFF_FFFF_FFFF_FFFF then 0xFFFF_FFFF_FFFF_FFFF
      else if sign == "-" && n > 0 then 0x1_0000_0000_0000_0000 - n else n
    decreases |spaces|
  {
    var number := prefix + (digits + rest);
    if spaces == [] {
      assert spaces + (sign + number) == sign + number;
      SignedReads(sign, prefix, digits, rest);
    } else {
      assert (spaces + (sign + number))[1..] == spaces[1..] + (sign + number);
      StrToUlReads(spaces[1..], sign, prefix, digits, rest);
    }
  }

  lemma {:induction false} SignedReads(sign: string, prefix: string, digits: string, rest: string)
    requires Sign(sign) && Prefix(prefix) && EndsHex(rest)
    requires (forall i :: 0 <= i < |digits| ==> IsHex(digits[i])) && NotMissing(sign, prefix, digits, rest)
    ensures var n := ReadHex(digits, 0);
      StrToUl(sign + (prefix + (digits + rest))) ==
      if n > 0xFFFF_FFFF_FFFF_FFFF then 0xFFFF_FFFF_FFFF_FFFF
      else if sign == "-" && n > 0 then 0x1_0000_0000_0000_0000 - n else n
  {
    var number := prefix + (digits + rest);
    PrefixReads(prefix, digits, rest);
    if sign == "" {
      assert sign + number == number;
      FirstOfNumber(prefix, digits, rest);
    } else {
      assert (sign + number)[1..] == number;
    }
  }

  lemma FirstOfNumber(prefix: string, digits: string, rest: string)
    requires Prefix(prefix) && NotMissing("", prefix, digits, rest)
    requires forall i :: 0 <= i < |digits| ==> IsHex(digits[i])
    ensures var number := prefix + (digits + rest);
      number == "" || !(IsSpace(number[0]) || number[0] == '-' || number[0] == '+')
  {}

  lemma {:induction false} PrefixReads(prefix: string, digits: string, rest: string)
    requires Prefix(prefix) && EndsHex(rest) && forall i :: 0 <= i < |digits| ==> IsHex(digits[i])
    ensures Magnitude(prefix + (digits + rest)) == ReadHex(digits, 0)
  {
    ReadOn(digits, rest, 0);
    if prefix == "" {
      assert prefix + (digits + rest) == digits + rest;
      assert !HasPrefix(digits + rest);
    } else {
      assert prefix == ['0', prefix[1]];
      assert digits == "" ==> digits + rest == rest;
      assert digits != "" ==> (digits + rest)[0] == digits[0];
      BehindPrefix(prefix[1], digits + rest, digits != "");
    }
  }

  lemma {:induction false} BehindPrefix(x: char, number: string, some: bool)
    requires (x == 'x' || x == 'X') && (some <==> number != "" && IsHex(number[0]))
    ensures Magnitude(['0', x] + number) == if some then ReadHex(number, 0) else 0
  {
    var s := ['0', x] + number;
    if some {
      assert s[2..] == number && s[2] == number[0];
    } else {
      assert !HasPrefix(s);
      assert s[1..][0] == x && !IsHex(x);
      assert s[0] == '0' && IsHex('0') && 16 * 0 + HexValue('0') == 0;
      assert ReadHex(s, 0) == ReadHex(s[1..], 0) == 0;
    }
  }

  /** How long that is. */
  lemma Hex2Length(n: nat)
    ensures n <= 0xFF <==> |Hex2(n)| == 2
    ensures 0xFF < n <= 0xFFF <==> |Hex2(n)| == 3
    ensures n > 0xFFF <==> |Hex2(n)| >= 4
  {
    if n >= 16 {
      assert |HexDigits(n)| == |HexDigits(n / 16)| + 1;
      if n >= 256 {
        assert |HexDigits(n / 16)| == |HexDigits(n / 16 / 16)| + 1;
      }
    }
  }

  /** A field of at most two hexadecimal digits, with or without what ends the line, is at most 255. */
  predicate OctetField(s: string) {
    |s| <= 3 && forall i :: 0 <= i < |s| ==> (i < 2 && IsHex(s[i])) || s[i] == '\r'
  }

  lemma OctetShown(s: string)
    requires OctetField(s)
    ensures Shown(s) <= 0xFF
  {
    if s != [] {
      if IsSpace(s[0]) {
        FieldBehind(s);
        OctetShown(s[1..]);
      } else {
        assert s[0] != '-' && s[0] != '+' && !HasPrefix(s);
        TwoDigits(s, 0);
      }
    }
  }

  lemma FieldBehind(s: string)
    requires OctetField(s) && s != []
    ensures OctetField(s[1..])
  {}

  lemma {:induction false} TwoDigits(s: string, acc: nat)
    requires |s| <= 2 || !IsHex(s[2])
    ensures ReadHex(s, acc) <= 256 * acc + 255
  {
    if s != [] && IsHex(s[0]) {
      var next := 16 * acc + HexValue(s[0]);
      if |s| > 1 && IsHex(s[1]) {
        assert s[1..][1..] == s[2..];
        assert ReadHex(s[1..], next) == ReadHex(s[2..], 16 * next + HexValue(s[1]));
      }
    }
  }
}
