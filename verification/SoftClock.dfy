/** The software clock (EclipseArduino/pumpLogger/Time.cpp): `now` and `setTime` count seconds from a
    millisecond counter that wraps around at 32 bits. No external time source is set. */
module SoftClock {

  const WORD: nat := 0x1_0000_0000

  /** The hardware's millisecond counter. `elapsed` is what it would show if it did not wrap. */
  class Timer {
    ghost var elapsed: nat
    var shown: nat

    ghost predicate Valid()
      reads this
    {
      shown == elapsed % WORD
    }

    constructor ()
      ensures Valid()
    {
      elapsed, shown := 0, 0;
    }

    /** `millis`: some time passes from one reading to the next, less than a second of it. */
    method Millis() returns (m: nat)
      requires Valid()
      modifies this
      ensures Valid() && m == elapsed % WORD
      ensures old(elapsed) <= elapsed < old(elapsed) + 1000
    {
      var passed: nat :| passed < 1000;
      Later(elapsed, passed);
      elapsed := elapsed + passed;
      shown := (shown + passed) % WORD;
      m := shown;
    }
  }

  lemma Later(n: nat, d: nat)
    ensures (n % WORD + d) % WORD == (n + d) % WORD
  {}

  // ----- Specification -----

  datatype State = State(sysTime: nat, prevMillis: nat)

  /** A call of `now`: the true time of its first and its last look at the counter. */
  datatype Call = Call(first: nat, last: nat)

  /** The 32-bit difference of the loop test. */
  function Behind(prev: nat, millis: nat): nat { (millis - prev) % WORD }

  /** n turns of the loop. */
  function Advance(s: State, n: nat): State {
    State((s.sysTime + n) % WORD, (s.prevMillis + 1000 * n) % WORD)
  }

  /** The seconds a call counts. */
  function Counts(s: State, c: Call): nat
    requires c.first <= c.last
  {
    (Behind(s.prevMillis, c.first % WORD) + c.last - c.first) / 1000
  }

  function NowOn(s: State, c: Call): State
    requires c.first <= c.last
  {
    Advance(s, Counts(s, c))
  }

  function SetOn(t: nat, at: nat): State { State(t % WORD, at % WORD) }

  // ----- The clock -----

  lemma Wrapped(a: int, b: int)
    ensures (a % WORD + b) % WORD == (a + b) % WORD
    ensures (a - b % WORD) % WORD == (a - b) % WORD
  {
    Turns(a + b, a % WORD + b, a / WORD);
    Turns(a - b % WORD, a - b, b / WORD);
  }

  lemma Turns(x: int, y: int, k: int)
    requires x == y + WORD * k
    ensures x % WORD == y % WORD
  {}

  /** The 32-bit difference is the true difference, wrapped. */
  lemma BehindIs(prev: int, elapsed: nat)
    ensures Behind(prev % WORD, elapsed % WORD) == (elapsed - prev) % WORD
  {
    Wrapped(elapsed, -(prev % WORD));
    Wrapped(elapsed, prev);
  }

  lemma Turn(s: State, n: nat, elapsed: nat, left: nat)
    requires left == Behind((s.prevMillis + 1000 * n) % WORD, elapsed % WORD)
    ensures left >= 1000 ==> Behind((s.prevMillis + 1000 * (n + 1)) % WORD, elapsed % WORD) == left - 1000
    ensures Advance(Advance(s, n), 1) == Advance(s, n + 1)
  {
    BehindIs(s.prevMillis + 1000 * n, elapsed);
    BehindIs(s.prevMillis + 1000 * (n + 1), elapsed);
    Less(elapsed - (s.prevMillis + 1000 * n));
    Wrapped(s.sysTime + n, 1);
    Wrapped(s.prevMillis + 1000 * n, 1000);
  }

  lemma Less(x: int)
    ensures x % WORD >= 1000 ==> (x - 1000) % WORD == x % WORD - 1000
  {}

  lemma Wait(prev: nat, elapsed: nat, passed: nat)
    requires Behind(prev, elapsed % WORD) + passed < WORD
    ensures Behind(prev, (elapsed + passed) % WORD) == Behind(prev, elapsed % WORD) + passed
  {}

  lemma Quotient(x: int, n: nat, r: nat)
    requires x == 1000 * n + r && r < 1000
    ensures x / 1000 == n
  {}

  class Clock {
    var sysTime: nat
    var prevMillis: nat

    ghost function Value(): State
      reads this
    {
      State(sysTime, prevMillis)
    }

    constructor ()
      ensures Value() == State(0, 0)
    {
      sysTime, prevMillis := 0, 0;
    }

    /** `now`. */
    method Now(timer: Timer) returns (t: nat, ghost call: Call)
      requires timer.Valid() && sysTime < WORD && prevMillis < WORD
      modifies this, timer
      ensures timer.Valid() && old(timer.elapsed) <= call.first <= call.last == timer.elapsed
      ensures Value() == NowOn(old(Value()), call) && t == sysTime
    {
      ghost var s := Value();
      ghost var n := 0;
      var millis := timer.Millis();
      ghost var first := timer.elapsed;
      ghost var behind := Behind(prevMillis, millis);
      while (millis - prevMillis) % WORD >= 1000
        invariant timer.Valid() && first <= timer.elapsed && millis == timer.elapsed % WORD
        invariant Value() == Advance(s, n)
        invariant behind + timer.elapsed - first == 1000 * n + Behind(prevMillis, millis)
        decreases Behind(prevMillis, millis)
      {
        Turn(s, n, timer.elapsed, Behind(prevMillis, millis));
        sysTime := (sysTime + 1) % WORD;
        prevMillis := (prevMillis + 1000) % WORD;
        n := n + 1;
        ghost var was := timer.elapsed;
        millis := timer.Millis();
        Wait(prevMillis, was, timer.elapsed - was);
      }
      Quotient(behind + timer.elapsed - first, n, Behind(prevMillis, millis));
      call := Call(first, timer.elapsed);
      t := sysTime;
    }

    /** `setTime`. */
    method SetTime(timer: Timer, t: nat)
      requires timer.Valid()
      modifies this, timer
      ensures timer.Valid() && old(timer.elapsed) <= timer.elapsed
      ensures Value() == SetOn(t, timer.elapsed)
    {
      sysTime := t % WORD;
      prevMillis := timer.Millis();
    }
  }

  // ----- No drift -----

  /** The clock has counted `n` seconds since it was set to t0 at true time e0. */
  predicate Counted(s: State, t0: nat, e0: nat, n: int) {
    s.sysTime == (t0 + n) % WORD && s.prevMillis == (e0 + 1000 * n) % WORD
  }

  lemma NowCounted(s: State, t0: nat, e0: nat, n: nat, c: Call)
    requires Counted(s, t0, e0, n) && e0 + 1000 * n <= c.first <= c.last
    ensures Counted(NowOn(s, c), t0, e0, n + Counts(s, c))
    ensures Counts(s, c) == ((c.first - (e0 + 1000 * n)) % WORD + c.last - c.first) / 1000
  {
    var k := Counts(s, c);
    BehindIs(e0 + 1000 * n, c.first);
    Wrapped(t0 + n, k);
    Wrapped(e0 + 1000 * n, 1000 * k);
  }

  /** A call brings the clock up to date exactly if the time not counted yet has not wrapped the
      counter when it first looks. */
  lemma ExactIff(s: State, t0: nat, e0: nat, n: nat, c: Call)
    requires Counted(s, t0, e0, n) && e0 + 1000 * n <= c.first <= c.last
    ensures n + Counts(s, c) == (c.last - e0) / 1000 <==> c.first - (e0 + 1000 * n) < WORD
  {
    NowCounted(s, t0, e0, n, c);
    var b, d := c.first - (e0 + 1000 * n), c.last - c.first;
    assert (c.last - e0) / 1000 == n + (b + d) / 1000;
    Unwrapped(b, d);
  }

  lemma Unwrapped(b: nat, d: nat)
    ensures (b % WORD + d) / 1000 == (b + d) / 1000 <==> b < WORD
  {
    if b >= WORD {
      assert b % WORD <= b - WORD;
      assert (b % WORD + d) / 1000 <= (b + d - WORD) / 1000 < (b + d) / 1000;
    }
  }

  /** The next call comes soon enough. */
  predicate Soon(calls: seq<Call>, since: nat)
    decreases |calls|
  {
    calls == []
    || (since <= calls[0].first <= calls[0].last && calls[0].first - since <= WORD - 1000
        && Soon(calls[1..], calls[0].last))
  }

  function Calls(s: State, calls: seq<Call>, since: nat): State
    requires Soon(calls, since)
    decreases |calls|
  {
    if calls == [] then s else Calls(NowOn(s, calls[0]), calls[1..], calls[0].last)
  }

  function LastLook(calls: seq<Call>, since: nat): nat {
    if calls == [] then since else calls[|calls| - 1].last
  }

  /** No drift: after any number of calls, none of them more than 2^32 - 1000 ms after the one before,
      the clock shows the time set plus the whole seconds passed since, modulo 2^32. */
  lemma {:induction false} NoDrift(s: State, t0: nat, e0: nat, since: nat, calls: seq<Call>)
    requires e0 <= since && Counted(s, t0, e0, (since - e0) / 1000) && Soon(calls, since)
    ensures Counted(Calls(s, calls, since), t0, e0, (LastLook(calls, since) - e0) / 1000)
    decreases |calls|
  {
    if calls != [] {
      var n := (since - e0) / 1000;
      ExactIff(s, t0, e0, n, calls[0]);
      NowCounted(s, t0, e0, n, calls[0]);
      NoDrift(NowOn(s, calls[0]), t0, e0, calls[0].last, calls[1..]);
    }
  }

  /** The same from `setTime` on, read off the clock. */
  lemma {:induction false} ShowsTime(t0: nat, e0: nat, calls: seq<Call>)
    requires Soon(calls, e0) && calls != []
    ensures Calls(SetOn(t0, e0), calls, e0).sysTime == (t0 + (calls[|calls| - 1].last - e0) / 1000) % WORD
  {
    NoDrift(SetOn(t0, e0), t0, e0, e0, calls);
  }
}
