/**
 * Civil dates and day numbers (src/base/time.cpp, daysFromCivil, civilFromDays,
 * utcTime; src/ui/datetime.cpp, daysIn): proleptic Gregorian, negative years
 * included. Division truncates as in C++; fixed widths are not modelled.
 */
module Calendar {
  datatype Date = Date(year: int, month: int, day: int)

  datatype CivilTime = CivilTime(year: int, month: int, day: int, hour: int, minute: int, second: int, weekday: int)

  function TruncDiv(a: int, b: int): int
    requires b > 0
  {
    if a >= 0 then a / b else -((-a) / b)
  }

  function TruncMod(a: int, b: int): int
    requires b > 0
  {
    a - TruncDiv(a, b) * b
  }

  predicate Leap(y: int) { (y % 4 == 0 && y % 100 != 0) || y % 400 == 0 }

  function DaysIn(y: int, m: int): int
  {
    if m == 2 then if Leap(y) then 29 else 28 else if m == 4 || m == 6 || m == 9 || m == 11 then 30 else 31
  }

  predicate Valid(d: Date) { 1 <= d.month <= 12 && 1 <= d.day <= DaysIn(d.year, d.month) }

  // ---- The code's arithmetic ----

  /** The era of 400 years a number falls in; rounds down for negative ones too. */
  function EraOf(n: int, size: int): int
    requires size > 0
  {
    TruncDiv(if n >= 0 then n else n - (size - 1), size)
  }

  function DayOfYear(m: int, d: int): int { (153 * (m + if m > 2 then -3 else 9) + 2) / 5 + d - 1 }

  function DaysFromCivil(y0: int, m: int, d: int): int
  {
    var y := if m <= 2 then y0 - 1 else y0;
    var era := EraOf(y, 400);
    var yoe := y - era * 400;
    era * 146097 + (yoe * 365 + yoe / 4 - yoe / 100 + DayOfYear(m, d)) - 719468
  }

  function YearOfEra(doe: int): int { (doe - doe / 1460 + doe / 36524 - doe / 146096) / 365 }

  function MonthAndDay(doy: int): (int, int)
  {
    var mp := (5 * doy + 2) / 153;
    (if mp < 10 then mp + 3 else mp - 9, doy - (153 * mp + 2) / 5 + 1)
  }

  function CivilFromDays(z0: int): Date
  {
    var z := z0 + 719468;
    var era := EraOf(z, 146097);
    var doe := z - era * 146097;
    var yoe := YearOfEra(doe);
    var (m, d) := MonthAndDay(doe - (365 * yoe + yoe / 4 - yoe / 100));
    Date(yoe + era * 400 + (if m <= 2 then 1 else 0), m, d)
  }

  // ---- Pieces ----

  lemma EraRoundsDown(n: int, size: int)
    requires size == 400 || size == 146097
    ensures EraOf(n, size) * size <= n < EraOf(n, size) * size + size
  {
  }

  lemma EraIs(n: int, size: int, era: int)
    requires size == 400 || size == 146097
    requires era * size <= n < era * size + size
    ensures EraOf(n, size) == era
  {
    EraRoundsDown(n, size);
  }

  /** A day of a March-based year, by centuries, four-year cycles, years and days. */
  predicate Counted(c: int, q: int, a: int, r: int)
  {
    && 0 <= c <= 3 && 0 <= q <= 24 && 0 <= a <= 3 && 0 <= r <= 365
    && (r == 365 ==> a == 3 && (q == 24 ==> c == 3))
  }

  function Day(c: int, q: int, a: int, r: int): int { 36524 * c + 1461 * q + 365 * a + r }

  lemma Quotient(n: int, size: int, k: int)
    requires size > 0 && size * k <= n < size * k + size
    ensures n / size == k
  {
    var m := n / size;
    assert n == m * size + n % size;
    assert m < k ==> (m + 1) * size <= k * size;
    assert m > k ==> m * size >= (k + 1) * size;
  }

  lemma YearOfEraIs(c: int, q: int, a: int, r: int)
    requires Counted(c, q, a, r)
    ensures 0 <= Day(c, q, a, r) <= 146096 && YearOfEra(Day(c, q, a, r)) == 100 * c + 4 * q + a
    ensures var y := 100 * c + 4 * q + a; 0 <= y <= 399 && 365 * y + y / 4 - y / 100 == Day(c, q, a, 0)
  {
    var n, y := Day(c, q, a, r), 100 * c + 4 * q + a;
    var e := if 24 * c + q + 365 * a + r >= 1460 then 1 else 0;
    Quotient(n, 1460, 25 * c + q + e);
    var f := if n == 146096 then 1 else 0;
    Quotient(n, 146096, f);
    Quotient(n, 36524, c + f);
    Quotient(36500 * c + 1460 * q + 365 * a + r - e, 365, y);
    Quotient(y, 4, 25 * c + q);
    Quotient(y, 100, c);
  }

  /** Every day of an era is counted so. */
  lemma Count(n: int) returns (c: int, q: int, a: int, r: int)
    requires 0 <= n <= 146096
    ensures Counted(c, q, a, r) && Day(c, q, a, r) == n
  {
    c := if n / 36524 > 3 then 3 else n / 36524;
    var r1 := n - 36524 * c;
    q := r1 / 1461;
    var r2 := r1 - 1461 * q;
    a := if r2 / 365 > 3 then 3 else r2 / 365;
    r := r2 - 365 * a;
  }

  /** The months of a March-based year: where each begins and how long it may be. */
  lemma MonthRoundTrip(m: int, d: int)
    requires 1 <= m <= 12 && 1 <= d <= (if m == 2 then 29 else DaysIn(1, m))
    ensures 0 <= DayOfYear(m, d) <= (if m == 2 && d == 29 then 365 else 364)
    ensures m == 2 && d == 29 ==> DayOfYear(m, d) == 365
    ensures MonthAndDay(DayOfYear(m, d)) == (m, d)
  {
    var mp := m + if m > 2 then -3 else 9;
    var start := MonthStart(mp);
    assert DayOfYear(m, d) == start + d - 1;
    Quotient(5 * (start + d - 1) + 2, 153, mp);
  }

  /** The day of the year on which a March-based month begins; 153 days in five months. */
  lemma MonthStart(mp: int) returns (start: int)
    requires 0 <= mp <= 11
    ensures start == (153 * mp + 2) / 5
    ensures 153 * mp - 2 <= 5 * start <= 153 * mp + 2
    ensures start == [0, 31, 61, 92, 122, 153, 184, 214, 245, 275, 306, 337][mp]
  {
    start := [0, 31, 61, 92, 122, 153, 184, 214, 245, 275, 306, 337][mp];
    Quotient(153 * mp + 2, 5, start);
  }

  lemma DayRoundTrip(doy: int)
    requires 0 <= doy <= 365
    ensures var (m, d) := MonthAndDay(doy);
            1 <= m <= 12 && 1 <= d <= (if m == 2 then 29 else DaysIn(1, m)) && DayOfYear(m, d) == doy
            && (m == 2 && d == 29 <==> doy == 365)
  {
    var mp := (5 * doy + 2) / 153;
    assert 0 <= mp <= 11;
  }

  /** The last day of a March-based year exists exactly when the year it ends in is a leap year. */
  lemma LeapDay(era: int, c: int, q: int, a: int)
    requires 0 <= c <= 3 && 0 <= q <= 24 && 0 <= a <= 3
    ensures Leap(400 * era + 100 * c + 4 * q + a + 1) <==> a == 3 && (q == 24 ==> c == 3)
  {
    var y := 400 * era + 100 * c + 4 * q + a + 1;
    Remainder(y, 4, 100 * era + 25 * c + q + (if a == 3 then 1 else 0), if a == 3 then 0 else a + 1);
    if a == 3 {
      if q == 24 {
        Remainder(y, 100, 4 * era + c + 1, 0);
        Remainder(y, 400, era + (if c == 3 then 1 else 0), if c == 3 then 0 else 100 * c + 100);
      } else {
        Remainder(y, 100, 4 * era + c, 4 * q + 4);
      }
    } else {
      MultipleOf4(y);
    }
  }

  lemma MultipleOf4(y: int)
    ensures y % 400 == 0 ==> y % 4 == 0
  {
    var k := y / 400;
    assert y == 4 * (100 * k) + y % 400;
  }

  lemma Remainder(n: int, size: int, k: int, r: int)
    requires size > 0 && n == size * k + r && 0 <= r < size
    ensures n % size == r
  {
    Quotient(n, size, k);
  }

  // ---- The conversions are inverse ----

  lemma CivilInEra(z: int, era: int, doe: int)
    requires z + 719468 == 146097 * era + doe && 0 <= doe < 146097
    ensures var yoe := YearOfEra(doe);
            var (m, d) := MonthAndDay(doe - (365 * yoe + yoe / 4 - yoe / 100));
            CivilFromDays(z) == Date(yoe + 400 * era + (if m <= 2 then 1 else 0), m, d)
  {
    hide MonthAndDay, EraOf, YearOfEra;
    EraIs(z + 719468, 146097, era);
  }

  lemma CivilFromCounted(era: int, c: int, q: int, a: int, r: int)
    requires Counted(c, q, a, r)
    ensures var y := 400 * era + 100 * c + 4 * q + a;
            var (m, d) := MonthAndDay(r);
            CivilFromDays(146097 * era + Day(c, q, a, r) - 719468) == Date(if m <= 2 then y + 1 else y, m, d)
  {
    hide MonthAndDay, EraOf, YearOfEra, CivilFromDays;
    YearOfEraIs(c, q, a, r);
    CivilInEra(146097 * era + Day(c, q, a, r) - 719468, era, Day(c, q, a, r));
  }

  lemma DaysInEra(year: int, m: int, d: int, era: int, k: int)
    requires (if m <= 2 then year - 1 else year) == 400 * era + k && 0 <= k < 400
    ensures DaysFromCivil(year, m, d) == 146097 * era + (365 * k + k / 4 - k / 100) + DayOfYear(m, d) - 719468
  {
    hide DayOfYear, EraOf;
    EraIs(400 * era + k, 400, era);
  }

  lemma DaysFromCounted(era: int, c: int, q: int, a: int, year: int, m: int, d: int)
    requires Counted(c, q, a, 0) && (if m <= 2 then year - 1 else year) == 400 * era + 100 * c + 4 * q + a
    ensures DaysFromCivil(year, m, d) == 146097 * era + Day(c, q, a, 0) + DayOfYear(m, d) - 719468
  {
    hide DayOfYear, EraOf, YearOfEra, DaysFromCivil;
    YearOfEraIs(c, q, a, 0);
    DaysInEra(year, m, d, era, 100 * c + 4 * q + a);
  }

  /** Both conversions, in terms of the counted day of the era. */
  lemma FromCounted(era: int, c: int, q: int, a: int, r: int)
    requires Counted(c, q, a, r)
    ensures var y := 400 * era + 100 * c + 4 * q + a;
            var (m, d) := MonthAndDay(r);
            var date := Date(if m <= 2 then y + 1 else y, m, d);
            && CivilFromDays(146097 * era + Day(c, q, a, r) - 719468) == date
            && DaysFromCivil(date.year, m, d) == 146097 * era + Day(c, q, a, r) - 719468
            && Valid(date)
  {
    hide CivilFromDays, DaysFromCivil, MonthAndDay, DayOfYear, Leap;
    var y := 400 * era + 100 * c + 4 * q + a;
    DayRoundTrip(r);
    CivilFromCounted(era, c, q, a, r);
    var md := MonthAndDay(r);
    DaysFromCounted(era, c, q, a, if md.0 <= 2 then y + 1 else y, md.0, md.1);
    LeapDay(era, c, q, a);
    OtherMonths(y + 1);
    OtherMonths(y);
  }

  lemma OtherMonths(y: int)
    ensures forall m :: m != 2 ==> DaysIn(y, m) == DaysIn(1, m)
  {
  }

  /** Day numbers to dates and back: every number is a valid date's, and its own. */
  lemma DaysRoundTrip(z: int)
    ensures var date := CivilFromDays(z);
            Valid(date) && DaysFromCivil(date.year, date.month, date.day) == z
  {
    hide CivilFromDays, DaysFromCivil, Valid, MonthAndDay;
    var era := EraOf(z + 719468, 146097);
    EraRoundsDown(z + 719468, 146097);
    var c, q, a, r := Count(z + 719468 - era * 146097);
    FromCounted(era, c, q, a, r);
    assert 146097 * era + Day(c, q, a, r) - 719468 == z;
  }

  /** Dates to day numbers and back, for every valid date. */
  lemma DateRoundTrip(date: Date)
    requires Valid(date)
    ensures CivilFromDays(DaysFromCivil(date.year, date.month, date.day)) == date
  {
    hide CivilFromDays, DaysFromCivil, MonthAndDay, DayOfYear, Leap;
    var y := if date.month <= 2 then date.year - 1 else date.year;
    var era, c, q, a := PlaceOfYear(y);
    LeapDay(era, c, q, a);
    OtherMonths(date.year);
    MonthRoundTrip(date.month, date.day);
    FromCounted(era, c, q, a, DayOfYear(date.month, date.day));
  }

  lemma YearParts(k: int)
    requires 0 <= k < 400
    ensures k == 100 * (k / 100) + 4 * (k % 100 / 4) + k % 4
  {
  }

  // ---- What day numbers mean ----

  function NextDay(d: Date): Date
  {
    if d.day < DaysIn(d.year, d.month) then Date(d.year, d.month, d.day + 1)
    else if d.month < 12 then Date(d.year, d.month + 1, 1)
    else Date(d.year + 1, 1, 1)
  }

  /** A month and a day further in the March-based year. */
  lemma NextMonthStart(m: int)
    requires 1 <= m <= 12 && m != 2
    ensures DayOfYear(if m < 12 then m + 1 else 1, 1) == DayOfYear(m, DaysIn(1, m)) + 1
  {
  }

  /** Days are numbered in calendar order from 1970-01-01, months as long as DaysIn says. */
  lemma DaysCount(d: Date)
    requires Valid(d)
    ensures Valid(NextDay(d))
    ensures var n := NextDay(d); DaysFromCivil(n.year, n.month, n.day) == DaysFromCivil(d.year, d.month, d.day) + 1
    ensures DaysFromCivil(1970, 1, 1) == 0
  {
    EpochIsZero();
    var n := NextDay(d);
    OtherMonths(d.year);
    if d.day < DaysIn(d.year, d.month) {
      LaterInMonth(d);
    } else if d.month != 2 {
      NextMonthStart(d.month);
      SameMarchYear(d, n);
    } else {
      MarchBegins(d.year, d.day);
    }
  }

  lemma LaterInMonth(d: Date)
    ensures DaysFromCivil(d.year, d.month, d.day + 1) == DaysFromCivil(d.year, d.month, d.day) + 1
  {
  }

  lemma EpochIsZero()
    ensures DaysFromCivil(1970, 1, 1) == 0
  {
    EraIs(1969, 400, 4);
  }

  lemma SameMarchYear(d: Date, n: Date)
    requires (if d.month <= 2 then d.year - 1 else d.year) == (if n.month <= 2 then n.year - 1 else n.year)
    ensures DaysFromCivil(n.year, n.month, n.day) - DaysFromCivil(d.year, d.month, d.day)
            == DayOfYear(n.month, n.day) - DayOfYear(d.month, d.day)
  {
  }

  /** A year's place in its era. */
  lemma PlaceOfYear(y: int) returns (era: int, c: int, q: int, a: int)
    ensures Counted(c, q, a, 0) && y == 400 * era + 100 * c + 4 * q + a
  {
    era := EraOf(y, 400);
    EraRoundsDown(y, 400);
    var k := y - 400 * era;
    c, q, a := k / 100, k % 100 / 4, k % 4;
    YearParts(k);
  }

  /** From the end of February to the first of March a new March-based year begins. */
  lemma MarchBegins(year: int, day: int)
    requires day == DaysIn(year, 2)
    ensures DaysFromCivil(year, 3, 1) == DaysFromCivil(year, 2, day) + 1
  {
    hide DaysFromCivil, EraOf, Leap;
    var era, c, q, a := PlaceOfYear(year - 1);
    var era1, c1, q1, a1 := PlaceOfYear(year);
    LeapDay(era, c, q, a);
    DaysFromCounted(era, c, q, a, year, 2, day);
    DaysFromCounted(era1, c1, q1, a1, year, 3, 1);
    NextYearStart(era, c, q, a, era1, c1, q1, a1);
  }

  lemma OnePlace(era: int, c: int, q: int, a: int, era1: int, c1: int, q1: int, a1: int)
    requires Counted(c, q, a, 0) && Counted(c1, q1, a1, 0)
    requires 400 * era1 + 100 * c1 + 4 * q1 + a1 == 400 * era + 100 * c + 4 * q + a
    ensures era1 == era && c1 == c && q1 == q && a1 == a
  {
    assert -400 < 400 * (era1 - era) < 400;
    assert -100 < 100 * (c1 - c) < 100;
    assert -4 < 4 * (q1 - q) < 4;
  }

  lemma NextYearStart(era: int, c: int, q: int, a: int, era1: int, c1: int, q1: int, a1: int)
    requires Counted(c, q, a, 0) && Counted(c1, q1, a1, 0)
    requires 400 * era1 + 100 * c1 + 4 * q1 + a1 == 400 * era + 100 * c + 4 * q + a + 1
    ensures 146097 * era1 + Day(c1, q1, a1, 0) == 146097 * era + Day(c, q, a, 0)
            + if a == 3 && (q == 24 ==> c == 3) then 366 else 365
  {
    hide Day;
    DayCarries(c, q, a);
    if a < 3 {
      OnePlace(era, c, q, a + 1, era1, c1, q1, a1);
    } else if q < 24 {
      OnePlace(era, c, q + 1, 0, era1, c1, q1, a1);
    } else if c < 3 {
      OnePlace(era, c + 1, 0, 0, era1, c1, q1, a1);
    } else {
      OnePlace(era + 1, 0, 0, 0, era1, c1, q1, a1);
    }
  }

  lemma DayCarries(c: int, q: int, a: int)
    ensures Day(c, q, a + 1, 0) == Day(c, q, a, 0) + 365 && Day(c, q + 1, 0, 0) == Day(c, q, 3, 0) + 366
    ensures Day(c + 1, 0, 0, 0) == Day(c, 24, 3, 0) + 365
    ensures c == 3 && q == 24 && a == 3 ==> Day(c, q, a, 0) + 366 == 146097
    ensures Day(0, 0, 0, 0) == 0
  {
  }

  // ---- Times of day ----

  function UtcTime(secs: int): CivilTime
  {
    var days0, rem0 := TruncDiv(secs, 86400), TruncMod(secs, 86400);
    var (days, rem) := if rem0 < 0 then (days0 - 1, rem0 + 86400) else (days0, rem0);
    var d := CivilFromDays(days);
    CivilTime(d.year, d.month, d.day, rem / 3600, rem / 60 % 60, rem % 60, (TruncMod(days, 7) + 11) % 7)
  }

  /** The weekday of a day number: Thursday for 0, and one further each day. */
  function Weekday(days: int): (w: int)
    ensures 0 <= w <= 6
  {
    (days + 4) % 7
  }

  /** 1970-01-01 was a Thursday, and the days of the week follow each other: 0 is Sunday, 6 Saturday. */
  lemma WeekdaysFollow(days: int)
    ensures Weekday(0) == 4
    ensures Weekday(days + 1) == if Weekday(days) == 6 then 0 else Weekday(days) + 1
  {
  }

  lemma SplitSeconds(secs: int) returns (days: int, rem: int)
    ensures secs == days * 86400 + rem && 0 <= rem < 86400
    ensures UtcTime(secs) == var d := CivilFromDays(days);
      CivilTime(d.year, d.month, d.day, rem / 3600, rem / 60 % 60, rem % 60, (TruncMod(days, 7) + 11) % 7)
  {
    hide CivilFromDays;
    var days0, rem0 := TruncDiv(secs, 86400), TruncMod(secs, 86400);
    days, rem := if rem0 < 0 then days0 - 1 else days0, if rem0 < 0 then rem0 + 86400 else rem0;
    TruncWithin(secs, 86400);
  }

  lemma TruncWithin(a: int, b: int)
    requires b > 0
    ensures -b < TruncMod(a, b) < b
  {
  }

  lemma WeekdayIs(days: int)
    ensures (TruncMod(days, 7) + 11) % 7 == Weekday(days)
  {
    var k, m := TruncDiv(days, 7), TruncMod(days, 7);
    assert m + 11 == days + 4 + 7 * (1 - k);
    hide TruncDiv, TruncMod;
    WeeksAway(days + 4, 1 - k);
  }

  lemma WeeksAway(days: int, weeks: int)
    ensures (days + 7 * weeks) % 7 == days % 7
  {
    var q := days / 7;
    assert days + 7 * weeks == (q + weeks) * 7 + days % 7;
    Quotient(days + 7 * weeks, 7, q + weeks);
  }

  lemma HoursMinutesSeconds(rem: int)
    requires 0 <= rem < 86400
    ensures 0 <= rem / 3600 < 24 && 0 <= rem / 60 % 60 < 60 && 0 <= rem % 60 < 60
    ensures rem / 3600 * 3600 + rem / 60 % 60 * 60 + rem % 60 == rem
  {
    assert rem / 60 / 60 == rem / 3600;
  }

  /** A UTC time names its instant: fields in range that add up, on the right day of the week. */
  lemma UtcTimeRecomposes(secs: int)
    ensures var t := UtcTime(secs);
            && Valid(Date(t.year, t.month, t.day))
            && 0 <= t.hour < 24 && 0 <= t.minute < 60 && 0 <= t.second < 60
            && DaysFromCivil(t.year, t.month, t.day) * 86400 + t.hour * 3600 + t.minute * 60 + t.second == secs
            && t.weekday == Weekday(DaysFromCivil(t.year, t.month, t.day))
  {
    hide CivilFromDays, DaysFromCivil, UtcTime;
    var days, rem := SplitSeconds(secs);
    DaysRoundTrip(days);
    WeekdayIs(days);
    HoursMinutesSeconds(rem);
  }
}
