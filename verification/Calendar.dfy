/** Calendar arithmetic (EclipseArduino/pumpLogger/Time.cpp): seconds since 1970 to date and time
    fields and back, by loops over Gregorian years and months. */
module Calendar {

  const DAY: nat := 86400
  const WORD: nat := 0x1_0000_0000   // uint32_t and unsigned long
  const UINT: nat := 0x1_0000        // unsigned is 16 bits wide on the AVR

  // ----- The Gregorian calendar -----

  /** The Gregorian rule. */
  predicate LeapNumber(n: nat) { n % 4 == 0 && (n % 100 != 0 || n % 400 == 0) }

  /** Years count from 1970. */
  predicate Leap(y: nat) {
    LeapNumber(1970 + y)
  }

  function YearLength(y: nat): nat { if Leap(y) then 366 else 365 }

  function MonthDays(m: nat): nat
    requires m < 12
  {
    [31, 28, 31, 30, 31, 30, 31, 31, 30, 31, 30, 31][m]
  }

  /** Months count from 1. */
  function MonthLength(y: nat, m: nat): nat
    requires 1 <= m <= 12
  {
    if m == 2 && Leap(y) then 29 else MonthDays(m - 1)
  }

  /** Days from the start of 1970 to the start of year y. */
  function DaysBefore(y: nat): nat {
    if y == 0 then 0 else DaysBefore(y - 1) + YearLength(y - 1)
  }

  /** Days from the start of year y to the start of its month m. */
  function DaysBeforeMonth(y: nat, m: nat): nat
    requires m <= 13
  {
    if m <= 1 then 0 else DaysBeforeMonth(y, m - 1) + MonthLength(y, m - 1)
  }

  datatype Tm = Tm(second: nat, minute: nat, hour: nat, wday: nat, day: nat, month: nat, year: nat) {
    /** A date and time of day that exist. */
    predicate Valid() {
      second < 60 && minute < 60 && hour < 24 && 1 <= month <= 12 && 1 <= day <= MonthLength(year, month)
    }

    function Days(): int
      requires month <= 13
    {
      DaysBefore(year) + DaysBeforeMonth(year, month) + day - 1
    }

    /** Seconds since 1970, without wrap-around. */
    function Seconds(): int
      requires month <= 13
    {
      Days() * DAY + hour * 3600 + minute * 60 + second
    }

    /** Date order: year, month, day, hour, minute, second. */
    predicate Before(other: Tm) {
      if year != other.year then year < other.year
      else if month != other.month then month < other.month
      else if day != other.day then day < other.day
      else if hour != other.hour then hour < other.hour
      else if minute != other.minute then minute < other.minute
      else second < other.second
    }

    predicate SameTime(other: Tm) { this == other.(wday := wday) }
  }

  /** The rule of leap years, added up: every fourth year, less every hundredth, plus every 400th. */
  lemma {:induction false} LeapRule(y: nat)
    ensures DaysBefore(y) == 365 * y + Leaps(1969 + y) - 477
  {
    if y > 0 {
      LeapRule(y - 1);
      LeapCount(1969 + y);
      assert Leap(y - 1) == LeapNumber(1969 + y);
    }
  }

  function Leaps(n: nat): int { n / 4 - n / 100 + n / 400 }

  lemma LeapCount(n: nat)
    requires n > 0
    ensures Leaps(n) == Leaps(n - 1) + if LeapNumber(n) then 1 else 0
  {
    Quotient(n, 4);
    Quotient(n, 100);
    Quotient(n, 400);
    Nested(n);
  }

  lemma Nested(n: nat)
    ensures (n % 400 == 0 ==> n % 100 == 0) && (n % 100 == 0 ==> n % 4 == 0)
  {
    if n % 400 == 0 {
      Multiple(n, n / 400, 100);
    }
    if n % 100 == 0 {
      Multiple(n, n / 100, 4);
    }
  }

  lemma Multiple(n: nat, q: nat, d: nat)
    requires (d == 100 && n == 400 * q) || (d == 4 && n == 100 * q)
    ensures n % d == 0
  {
    if d == 100 {
      assert n == 100 * (n / 100) + n % 100;
      assert n / 100 == 4 * q;
    } else {
      assert n == 4 * (n / 4) + n % 4;
      assert n / 4 == 25 * q;
    }
  }

  lemma Quotient(n: nat, d: nat)
    requires n > 0 && (d == 4 || d == 100 || d == 400)
    ensures n / d == (n - 1) / d + if n % d == 0 then 1 else 0
  {
    if d == 4 {
      assert n / 4 == (n - 1) / 4 + if n % 4 == 0 then 1 else 0;
    } else if d == 100 {
      assert n / 100 == (n - 1) / 100 + if n % 100 == 0 then 1 else 0;
    } else {
      assert n / 400 == (n - 1) / 400 + if n % 400 == 0 then 1 else 0;
    }
  }

  lemma {:induction false} YearsGrow(y: nat, z: nat)
    requires y < z
    ensures DaysBefore(y) + YearLength(y) <= DaysBefore(z)
  {
    if y + 1 < z {
      YearsGrow(y, z - 1);
    }
  }

  lemma {:induction false} MonthsGrow(y: nat, m: nat, n: nat)
    requires 1 <= m < n <= 13
    ensures DaysBeforeMonth(y, m) + MonthLength(y, m) <= DaysBeforeMonth(y, n)
  {
    if m + 1 < n {
      MonthsGrow(y, m, n - 1);
    }
  }

  /** Where the months begin, without the table: from March on, five months have 153 days. */
  lemma {:induction false} MonthLaw(y: nat, m: nat)
    requires 1 <= m <= 13
    ensures DaysBeforeMonth(y, m) ==
      if m == 1 then 0 else if m == 2 then 31 else 59 + (if Leap(y) then 1 else 0) + (153 * (m - 3) + 2) / 5
  {
    if m >= 3 {
      FromMarch(y, m);
    }
  }

  lemma {:induction false} FromMarch(y: nat, m: nat)
    requires 3 <= m <= 13
    ensures DaysBeforeMonth(y, m) == 59 + (if Leap(y) then 1 else 0) + (153 * (m - 3) + 2) / 5
  {
    if m == 3 {
      assert DaysBeforeMonth(y, 2) == 31;
    } else {
      FromMarch(y, m - 1);
    }
  }

  lemma {:induction false} MonthsFillYear(y: nat)
    ensures DaysBeforeMonth(y, 13) == YearLength(y)
  {
    MonthLaw(y, 13);
  }

  lemma DayOfYear(d: Tm)
    requires d.Valid()
    ensures 0 <= d.Days() - DaysBefore(d.year) < YearLength(d.year)
  {
    MonthsFillYear(d.year);
    MonthsGrow(d.year, d.month, 13);
  }

  lemma DaysMonotone(a: Tm, b: Tm)
    requires a.Valid() && b.Valid()
    requires a.year < b.year || (a.year == b.year && (a.month < b.month || (a.month == b.month && a.day < b.day)))
    ensures a.Days() < b.Days()
  {
    if a.year < b.year {
      DayOfYear(a);
      DayOfYear(b);
      YearsGrow(a.year, b.year);
    } else if a.month < b.month {
      MonthsGrow(a.year, a.month, b.month);
    }
  }

  /** Later dates have larger second counts, strictly. */
  lemma Monotone(a: Tm, b: Tm)
    requires a.Valid() && b.Valid()
    ensures a.Before(b) <==> a.Seconds() < b.Seconds()
  {
    if a.Before(b) {
      if a.year != b.year || a.month != b.month || a.day != b.day {
        DaysMonotone(a, b);
      }
    } else if b.Before(a) {
      if a.year != b.year || a.month != b.month || a.day != b.day {
        DaysMonotone(b, a);
      }
    }
  }

  lemma Unique(a: Tm, b: Tm)
    requires a.Valid() && b.Valid() && a.Seconds() == b.Seconds()
    ensures a.SameTime(b)
  {
    Monotone(a, b);
    Monotone(b, a);
  }

  // ----- breakTime -----

  /** The fields that `breakTime` owes for t: an existing date, t seconds after the start of 1970, and
      its weekday, counted from Sunday; 1 January 1970 was a Thursday. */
  predicate Breaks(t: nat, tm: Tm) {
    tm.Valid() && tm.Seconds() == t && tm.wday == (t / DAY + 4) % 7 + 1
  }

  lemma SplitTime(t: nat)
    ensures t / 60 / 60 / 24 == t / DAY
    ensures t == (t / 60 / 60 / 24) * DAY + (t / 60 / 60 % 24) * 3600 + (t / 60 % 60) * 60 + t % 60
  {}

  lemma Assemble(t: nat, year: nat, month: nat, rest: nat)
    requires month < 12 && rest < MonthLength(year, month + 1)
    requires t / 60 / 60 / 24 == DaysBefore(year) + DaysBeforeMonth(year, month + 1) + rest
    ensures Breaks(t, Tm(t % 60, t / 60 % 60, t / 60 / 60 % 24, (t / 60 / 60 / 24 + 4) % 7 + 1,
                         rest + 1, month + 1, year))
  {
    SplitTime(t);
  }

  lemma {:induction false} YearBound(y: nat)
    ensures 365 * y <= DaysBefore(y) <= 366 * y
  {
    if y > 0 {
      YearBound(y - 1);
    }
  }

  lemma YearStep(year: nat, time: nat)
    requires DaysBefore(year + 1) <= time < 50000
    ensures (year + 1) % 256 == year + 1
    ensures DaysBefore(year + 2) % UINT == DaysBefore(year + 2) == DaysBefore(year + 1) + YearLength(year + 1)
  {
    YearBound(year + 1);
  }

  /** The year loop of `breakTime`. Its counter is 8 bits wide and its test looks at 16 bits of the day
      count; neither is exceeded. */
  method YearOf(time: nat) returns (year: nat, rest: nat)
    requires time < 50000
    ensures time == DaysBefore(year) + rest && rest < YearLength(year) && year <= 136
  {
    year := 0;
    var days: nat := YearLength(year);
    while days % UINT <= time
      invariant days == DaysBefore(year + 1) == days % UINT && DaysBefore(year) <= time
      decreases time - DaysBefore(year)
    {
      YearStep(year, time);
      year := (year + 1) % 256;
      days := days + YearLength(year);
    }
    YearBound(year);
    days := days - YearLength(year);
    rest := time - days;
  }

  /** The month loop of `breakTime`, which always ends by its `break`. */
  method MonthOf(year: nat, dayOfYear: nat) returns (month: nat, rest: nat)
    requires dayOfYear < YearLength(year)
    ensures month < 12 && rest < MonthLength(year, month + 1)
    ensures dayOfYear == DaysBeforeMonth(year, month + 1) + rest
  {
    MonthsFillYear(year);
    month, rest := 0, dayOfYear;
    while month < 12
      invariant month <= 12 && dayOfYear == DaysBeforeMonth(year, month + 1) + rest
    {
      var monthLength := if month == 1 then (if Leap(year) then 29 else 28) else MonthDays(month);
      if rest >= monthLength {
        rest := rest - monthLength;
      } else {
        break;
      }
      month := month + 1;
    }
  }

  /** `breakTime`. */
  method BreakTime(timeInput: nat) returns (tm: Tm)
    requires timeInput < WORD
    ensures Breaks(timeInput, tm) && tm.year <= 136
  {
    var time: nat := timeInput;
    var second := time % 60;
    time := time / 60;
    var minute := time % 60;
    time := time / 60;
    var hour := time % 24;
    time := time / 24;
    var wday := (time + 4) % 7 + 1;
    SplitTime(timeInput);
    var year, dayOfYear := YearOf(time);
    var month, rest := MonthOf(year, dayOfYear);
    Assemble(timeInput, year, month, rest);
    tm := Tm(second, minute, hour, wday, rest + 1, month + 1, year);
  }

  // ----- makeTime -----

  /** What `makeTime` returns: the second count in 32 bits. */
  function Made(tm: Tm): nat
    requires tm.month <= 13
  {
    tm.Seconds() % WORD
  }

  /** An unsigned 32-bit sum. */
  function Add(a: nat, b: int): nat { (a + b) % WORD }

  lemma AddTo(a: nat, sum: int, b: int)
    requires a == sum % WORD
    ensures Add(a, b) == (sum + b) % WORD
  {}

  /** `makeTime`. It also takes fields that name no date: a day 0, an hour 30, a month up to 13. */
  method MakeTime(tm: Tm) returns (t: nat)
    requires tm.month <= 13
    ensures t == Made(tm)
  {
    var seconds := tm.year * (DAY * 365) % WORD;
    ghost var sum: int := tm.year * (DAY * 365);
    var i: nat := 0;
    while i < tm.year
      invariant i <= tm.year && seconds == sum % WORD
      invariant sum == (DaysBefore(i) + 365 * (tm.year - i)) * DAY
    {
      if Leap(i) {
        AddTo(seconds, sum, DAY);
        seconds, sum := Add(seconds, DAY), sum + DAY;
      }
      i := i + 1;
    }
    i := 1;
    while i < tm.month
      invariant 1 <= i <= 13 && (i <= tm.month || i == 1) && seconds == sum % WORD
      invariant sum == (DaysBefore(tm.year) + DaysBeforeMonth(tm.year, i)) * DAY
    {
      var length := if i == 2 && Leap(tm.year) then 29 else MonthDays(i - 1);
      AddTo(seconds, sum, DAY * length);
      seconds, sum := Add(seconds, DAY * length), sum + DAY * length;
      i := i + 1;
    }
    AddTo(seconds, sum, (tm.day - 1) * DAY);
    seconds, sum := Add(seconds, (tm.day - 1) * DAY), sum + (tm.day - 1) * DAY;
    AddTo(seconds, sum, tm.hour * 3600);
    seconds, sum := Add(seconds, tm.hour * 3600), sum + tm.hour * 3600;
    AddTo(seconds, sum, tm.minute * 60);
    seconds, sum := Add(seconds, tm.minute * 60), sum + tm.minute * 60;
    AddTo(seconds, sum, tm.second);
    seconds, sum := Add(seconds, tm.second), sum + tm.second;
    t := seconds;
  }

  // ----- The weekday -----

  /** The count of days begins on a Thursday. */
  lemma FirstDay(tm: Tm)
    requires Breaks(0, tm)
    ensures tm == Tm(0, 0, 0, 5, 1, 1, 0)
  {
    EpochIsZero();
    Unique(tm, Tm(0, 0, 0, 5, 1, 1, 0));
  }

  lemma EpochIsZero()
    ensures var epoch := Tm(0, 0, 0, 5, 1, 1, 0); epoch.Valid() && epoch.Seconds() == 0
  {
    assert DaysBefore(0) == 0 && DaysBeforeMonth(0, 1) == 0 && MonthLength(0, 1) == 31;
  }

  /** And the weekday goes round, a day at a time. */
  lemma NextDay(t: nat, a: Tm, b: Tm)
    requires Breaks(t, a) && Breaks(t + 86400, b)
    ensures 1 <= a.wday <= 7 && b.wday == a.wday % 7 + 1
  {
    assert (t + 86400) / DAY == t / DAY + 1;
  }

  // ----- They are inverses -----

  lemma BreakThenMake(t: nat, tm: Tm)
    requires t < WORD && Breaks(t, tm)
    ensures Made(tm) == t
  {}

  /** The last second that fits: 7 February 2106, 06:28:15. */
  const LAST := Tm(15, 28, 6, 1, 7, 2, 136)

  lemma LastIsWord()
    ensures LAST.Valid() && LAST.Seconds() == WORD - 1
  {
    LeapRule(136);
    assert DaysBeforeMonth(136, 2) == 31;
  }

  lemma FitsIff(d: Tm)
    requires d.Valid()
    ensures d.Seconds() < WORD <==> !LAST.Before(d)
  {
    LastIsWord();
    Monotone(LAST, d);
  }

  /** An existing date survives the way to seconds and back, except for the weekday, exactly if it is
      not after the last second that fits. */
  lemma MakeThenBreak(d: Tm, tm: Tm)
    requires d.Valid() && Breaks(Made(d), tm)
    ensures tm.SameTime(d) <==> !LAST.Before(d)
  {
    FitsIff(d);
    if d.Seconds() < WORD {
      Unique(tm, d);
    } else {
      SameSeconds(tm, d);
    }
  }

  lemma SameSeconds(a: Tm, b: Tm)
    requires a.month <= 13
    ensures a.SameTime(b) ==> b.month <= 13 && a.Seconds() == b.Seconds()
  {}

  /** Breaking is a function of the time: two broken-down times of the same t agree in every field. */
  lemma BreaksOnce(t: nat, a: Tm, b: Tm)
    requires Breaks(t, a) && Breaks(t, b)
    ensures a == b
  {
    Unique(a, b);
  }
}
