/** Strings in a receive buffer, cut in place as `parseArgs` does it (loggerd/src/pump_client.cpp). */
module CStrings {

  const NUL: char := '\0'

  // ----- C strings in a buffer -----

  function CString(b: seq<char>, p: nat): string
    requires p <= |b|
    decreases |b| - p
  {
    if p == |b| || b[p] == NUL then [] else [b[p]] + CString(b, p + 1)
  }

  /** The string at p ends inside the buffer. */
  predicate Ended(b: seq<char>, p: nat) { p <= |b| && p + |CString(b, p)| < |b| }

  lemma {:induction false} CStringAt(b: seq<char>, p: nat, k: nat)
    requires p <= |b| && k < |CString(b, p)|
    ensures p + k < |b| && CString(b, p)[k] == b[p + k] != NUL
    ensures CString(b, p + k) == CString(b, p)[k..]
    decreases k
  {
    if k > 0 {
      CStringAt(b, p + 1, k - 1);
    }
  }

  lemma {:induction false} CStringEnd(b: seq<char>, p: nat)
    requires Ended(b, p)
    ensures b[p + |CString(b, p)|] == NUL
    decreases |b| - p
  {
    if b[p] != NUL {
      CStringEnd(b, p + 1);
    }
  }

  /** A string is determined by the cells up to its end. */
  lemma {:induction false} CStringIs(b: seq<char>, p: nat, s: string)
    requires p + |s| < |b| && b[p + |s|] == NUL
    requires forall k :: 0 <= k < |s| ==> b[p + k] == s[k] != NUL
    ensures CString(b, p) == s
    decreases |s|
  {
    if s != [] {
      assert b[p + 0] == s[0];
      forall k | 0 <= k < |s| - 1
        ensures b[p + 1 + k] == s[1..][k] != NUL
      {
        assert b[p + (k + 1)] == s[k + 1];
      }
      CStringIs(b, p + 1, s[1..]);
    }
  }

  // ----- Cutting -----

  function IndexOf(s: string, c: char): (i: nat)
    ensures i <= |s| && c !in s[..i] && (i < |s| ==> s[i] == c)
  {
    if s == [] || s[0] == c then 0 else IndexOf(s[1..], c) + 1
  }

  /** The pieces of s between at most `limit` separators. */
  function SplitOn(s: string, c: char, limit: nat): (pieces: seq<string>)
    ensures 1 <= |pieces| <= limit + 1
    decreases limit
  {
    var i := IndexOf(s, c);
    if limit == 0 || i == |s| then [s] else [s[..i]] + SplitOn(s[i + 1..], c, limit - 1)
  }

  /** Writing a terminator over the first separator cuts the string in two. */
  lemma {:induction false} CutString(b: seq<char>, p: nat, c: char, i: nat)
    requires Ended(b, p) && i == IndexOf(CString(b, p), c) < |CString(b, p)|
    ensures p + i + 1 < |b|
    ensures var after := b[p + i := NUL];
      && Ended(after, p) && CString(after, p) == CString(b, p)[..i]
      && Ended(after, p + i + 1) && CString(after, p + i + 1) == CString(b, p)[i + 1..]
  {
    var s := CString(b, p);
    var after := b[p + i := NUL];
    CStringEnd(b, p);
    forall k | 0 <= k < |s|
      ensures b[p + k] == s[k] != NUL
    {
      CStringAt(b, p, k);
    }
    CStringIs(after, p, s[..i]);
    var tail := s[i + 1..];
    forall k | 0 <= k < |tail|
      ensures after[p + i + 1 + k] == tail[k] != NUL
    {
      assert b[p + (i + 1 + k)] == s[i + 1 + k];
    }
    CStringIs(after, p + i + 1, tail);
  }

  /** A change behind the end of a string does not touch it. */
  lemma {:induction false} CStringFrame(b: seq<char>, after: seq<char>, p: nat)
    requires Ended(b, p) && |after| == |b|
    requires forall j :: p <= j <= p + |CString(b, p)| ==> after[j] == b[j]
    ensures Ended(after, p) && CString(after, p) == CString(b, p)
  {
    var s := CString(b, p);
    CStringEnd(b, p);
    forall k | 0 <= k < |s|
      ensures after[p + k] == s[k] != NUL
    {
      CStringAt(b, p, k);
    }
    CStringIs(after, p, s);
  }

  /** The string at p, which ends inside the buffer, is s. */
  predicate Reads(b: seq<char>, p: nat, s: string) { Ended(b, p) && CString(b, p) == s }

  /** The argument vector points at these pieces, one behind the other. */
  ghost predicate PointsAt(b: seq<char>, argv: seq<nat>, pieces: seq<string>) {
    && |argv| == |pieces|
    && (forall k :: 0 <= k < |argv| ==> Reads(b, argv[k], pieces[k]))
    && (forall j, k :: 0 <= j < k < |argv| ==> argv[j] + |pieces[j]| < argv[k])
  }

  /** Cutting the last piece keeps the others and adds one. */
  lemma CutLast(b: seq<char>, argv: seq<nat>, pieces: seq<string>, c: char, i: nat)
    returns (after: seq<char>, args: seq<nat>, now: seq<string>)
    requires PointsAt(b, argv, pieces) && |argv| > 0
    requires i == IndexOf(pieces[|pieces| - 1], c) < |pieces[|pieces| - 1]|
    ensures argv[|argv| - 1] + i + 1 < |b|
    ensures after == b[argv[|argv| - 1] + i := NUL]
    ensures args == argv + [argv[|argv| - 1] + i + 1]
    ensures now == CutAt(pieces, c)
    ensures PointsAt(after, args, now)
  {
    var n := |argv|;
    var p, last := argv[n - 1], pieces[n - 1];
    CutString(b, p, c, i);
    after := b[p + i := NUL];
    args := argv + [p + i + 1];
    now := CutAt(pieces, c);
    forall k | 0 <= k < n - 1
      ensures Reads(after, argv[k], now[k])
    {
      ReadBefore(b, after, argv[k], p, pieces[k]);
    }
  }

  lemma ReadBefore(b: seq<char>, after: seq<char>, at: nat, p: nat, s: string)
    requires Reads(b, at, s) && at + |s| < p && |after| == |b| && forall j :: 0 <= j < p && j < |b| ==> after[j] == b[j]
    ensures Reads(after, at, s)
  {
    CStringEnd(b, at);
    CStringFrame(b, after, at);
  }

  /** `strchr`. */
  method FindChar(buf: array<char>, p: nat, c: char) returns (found: bool, q: nat)
    requires c != NUL && Ended(buf[..], p)
    ensures var s := CString(buf[..], p);
      found == (IndexOf(s, c) < |s|) && (found ==> q == p + IndexOf(s, c))
  {
    ghost var s := CString(buf[..], p);
    CStringEnd(buf[..], p);
    q := p;
    while buf[q] != NUL
      invariant p <= q <= p + |s| && c !in s[..q - p]
      decreases p + |s| - q
    {
      CStringAt(buf[..], p, q - p);
      if buf[q] == c {
        FirstIndex(s, c, q - p);
        return true, q;
      }
      q := q + 1;
    }
    if q < p + |s| {
      CStringAt(buf[..], p, q - p);
    }
    assert s[..|s|] == s;
    return false, q;
  }

  lemma {:induction false} FirstIndex(s: string, c: char, i: nat)
    requires i < |s| && s[i] == c && c !in s[..i]
    ensures IndexOf(s, c) == i
  {
  }

  /** Nothing outside [from..to] has changed. */
  ghost predicate Untouched(before: seq<char>, after: seq<char>, from: nat, to: nat) {
    |before| == |after| && forall j :: 0 <= j < |before| && (j < from || j > to) ==> after[j] == before[j]
  }

  /** A call of `parseArgs` on the string `text` at `start`, which is to become the pieces `all`. */
  datatype Parse = Parse(before: seq<char>, start: nat, text: string, all: seq<string>)

  /** The state of its loop: only that string has been cut, and the last piece still reaches to its end. */
  ghost predicate Parsing(run: Parse, cells: seq<char>, argv: seq<nat>, pieces: seq<string>) {
    && |argv| > 0 && PointsAt(cells, argv, pieces)
    && run.start <= argv[|argv| - 1] && argv[|argv| - 1] + |pieces[|pieces| - 1]| == run.start + |run.text|
    && Untouched(run.before, cells, run.start, run.start + |run.text|)
  }

  /** Cutting the last piece at its separator keeps to the string. */
  lemma ParsingNext(run: Parse, cells: seq<char>, argv: seq<nat>, pieces: seq<string>, c: char, q: nat)
    returns (after: seq<char>, args: seq<nat>)
    requires Parsing(run, cells, argv, pieces) && CanCut(pieces, c)
    requires q == argv[|argv| - 1] + IndexOf(pieces[|pieces| - 1], c)
    ensures q < |cells| && after == cells[q := NUL] && args == argv + [q + 1]
    ensures Parsing(run, after, args, CutAt(pieces, c))
  {
    ghost var now;
    after, args, now := CutLast(cells, argv, pieces, c, IndexOf(pieces[|pieces| - 1], c));
  }

  /** A terminator over the separator, and the next piece behind it. */
  method EndPiece(buf: array<char>, argv: array<nat>, i: nat, found: nat)
    requires i < buf.Length && found < argv.Length
    modifies buf, argv
    ensures buf[..] == old(buf[..])[i := NUL] && argv[..found + 1] == old(argv[..found]) + [i + 1]
  {
    buf[i] := NUL;
    argv[found] := i + 1;
  }

  lemma ParsingStart(before: seq<char>, start: nat, c: char, argc: nat) returns (run: Parse, pieces: seq<string>)
    requires Ended(before, start)
    ensures run == Parse(before, start, CString(before, start), SplitOn(CString(before, start), c, argc))
    ensures |pieces| == 1 && Parsing(run, before, [start], pieces) && Cutting(run.all, pieces, c, argc, true)
  {
    run := Parse(before, start, CString(before, start), SplitOn(CString(before, start), c, argc));
    pieces := [run.text];
  }

  method AddPiece(buf: array<char>, argv: array<nat>, found: nat, c: char, i: nat,
                  ghost run: Parse, ghost pieces: seq<string>)
    requires 0 < found == |pieces| < argv.Length && CanCut(pieces, c)
    requires Parsing(run, buf[..], argv[..found], pieces)
    requires i == argv[found - 1] + IndexOf(pieces[found - 1], c)
    modifies buf, argv
    ensures Parsing(run, buf[..], argv[..found + 1], CutAt(pieces, c))
  {
    ghost var cells, args := ParsingNext(run, buf[..], argv[..found], pieces, c, i);
    EndPiece(buf, argv, i, found);
  }

  /** One turn of the loop of `parseArgs`: the last piece is cut at its first separator, if it has
      one, and the vector points at the new piece, if it has an entry for it. */
  method CutPiece(buf: array<char>, argv: array<nat>, found: nat, c: char,
                  ghost run: Parse, ghost left: nat, ghost pieces: seq<string>)
    returns (hit: bool, have: nat, inside: bool, ghost now: seq<string>)
    requires c != NUL && 0 < found == |pieces| <= argv.Length
    requires Cutting(run.all, pieces, c, left + 1, true)
    requires Parsing(run, buf[..], argv[..found], pieces)
    modifies buf, argv
    ensures have == |now| <= argv.Length && Parsing(run, buf[..], argv[..have], now)
    ensures if inside then Cutting(run.all, now, c, left, hit) else |run.all| > argv.Length
  {
    have, inside := found, true;
    now := CuttingNext(run.all, pieces, c, left + 1);
    var i;
    hit, i := FindChar(buf, argv[found - 1], c);
    if hit {
      if found == argv.Length {
        return hit, found, false, pieces;
      }
      AddPiece(buf, argv, found, c, i, run, pieces);
      have := found + 1;
    }
  }

  /** `parseArgs`, without its last loop, which never runs: the cell it looks at has just been
      overwritten with the terminator. It writes one entry more than it is given if it finds that many
      separators; the model stops there and says so. */
  method ParseArgs(buf: array<char>, start: nat, argc: nat, argv: array<nat>, c: char)
    returns (found: nat, inside: bool)
    requires c != NUL && Ended(buf[..], start) && argv.Length > 0
    modifies buf, argv
    ensures var text := old(CString(buf[..], start));
      && inside == (|SplitOn(text, c, argc)| <= argv.Length)
      && (inside ==> found == |SplitOn(text, c, argc)| && PointsAt(buf[..], argv[..found], SplitOn(text, c, argc)))
      && Untouched(old(buf[..]), buf[..], start, start + |text|)
  {
    ghost var run, pieces := ParsingStart(buf[..], start, c, argc);
    var left: nat := argc;
    var hit := true;
    argv[0] := start;
    found, inside := 1, true;
    assert argv[..found] == [start];
    while hit && left > 0
      invariant found == |pieces| <= argv.Length && Parsing(run, buf[..], argv[..found], pieces)
      invariant Cutting(run.all, pieces, c, left, hit)
      decreases hit, left
    {
      left := left - 1;
      hit, found, inside, pieces := CutPiece(buf, argv, found, c, run, left, pieces);
      if !inside {
        return;
      }
    }
    CuttingEnd(run.all, pieces, c, left, hit);
  }

  ghost predicate CanCut(pieces: seq<string>, c: char) {
    pieces != [] && IndexOf(pieces[|pieces| - 1], c) < |pieces[|pieces| - 1]|
  }

  /** The pieces with the last of them cut at its first separator. */
  ghost function CutAt(pieces: seq<string>, c: char): (now: seq<string>)
    requires CanCut(pieces, c)
  {
    var last := pieces[|pieces| - 1];
    var i := IndexOf(last, c);
    pieces[..|pieces| - 1] + [last[..i], last[i + 1..]]
  }

  /** What these pieces become if the last of them is cut up to `left` times more. */
  ghost function CutUp(pieces: seq<string>, c: char, left: nat): seq<string>
    requires pieces != []
  {
    pieces[..|pieces| - 1] + SplitOn(pieces[|pieces| - 1], c, left)
  }

  /** The pieces so far, still to be cut up to `left` times, if there is more. */
  ghost predicate Cutting(all: seq<string>, pieces: seq<string>, c: char, left: nat, more: bool) {
    0 < |pieces| <= |all| && all == if more then CutUp(pieces, c, left) else pieces
  }

  lemma CuttingNext(all: seq<string>, pieces: seq<string>, c: char, left: nat) returns (now: seq<string>)
    requires left > 0 && Cutting(all, pieces, c, left, true)
    ensures now == (if CanCut(pieces, c) then CutAt(pieces, c) else pieces) && |now| <= |all|
    ensures Cutting(all, now, c, left - 1, CanCut(pieces, c))
  {
    var last := pieces[|pieces| - 1];
    var i := IndexOf(last, c);
    if CanCut(pieces, c) {
      now := CutAt(pieces, c);
      assert now[..|now| - 1] == pieces[..|pieces| - 1] + [last[..i]];
    } else {
      now := pieces;
      assert pieces == pieces[..|pieces| - 1] + [last];
    }
  }

  lemma CuttingEnd(all: seq<string>, pieces: seq<string>, c: char, left: nat, more: bool)
    requires Cutting(all, pieces, c, left, more) && (more ==> left == 0)
    ensures all == pieces
  {
    assert pieces == pieces[..|pieces| - 1] + [pieces[|pieces| - 1]];
  }

  // ----- How many pieces -----

  predicate Has(s: string, c: char) { IndexOf(s, c) < |s| }

  function Count(s: string, c: char): nat {
    if s == [] then 0 else (if s[0] == c then 1 else 0) + Count(s[1..], c)
  }

  lemma {:induction false} CountFrom(s: string, c: char)
    ensures Has(s, c) ==> Count(s, c) == 1 + Count(s[IndexOf(s, c) + 1..], c)
    ensures !Has(s, c) ==> Count(s, c) == 0
    decreases |s|
  {
    if s != [] && s[0] != c {
      CountFrom(s[1..], c);
      if Has(s, c) {
        assert s[1..][IndexOf(s[1..], c) + 1..] == s[IndexOf(s, c) + 1..];
      }
    }
  }

  /** One piece more than separators, or than the limit if that is less. */
  lemma {:induction false} PieceCount(s: string, c: char, limit: nat)
    ensures |SplitOn(s, c, limit)| == 1 + if Count(s, c) < limit then Count(s, c) else limit
    decreases limit
  {
    CountFrom(s, c);
    if limit > 0 && Has(s, c) {
      PieceCount(s[IndexOf(s, c) + 1..], c, limit - 1);
    }
  }

  /** `parseArgs` stays inside a vector of as many entries as it is told exactly if there are fewer
      separators than that. */
  lemma {:induction false} InsideIff(s: string, c: char, limit: nat)
    ensures |SplitOn(s, c, limit)| <= limit <==> Count(s, c) < limit
  {
    PieceCount(s, c, limit);
  }
}
