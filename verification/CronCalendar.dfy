/** The cron search in UTC: the proleptic Gregorian calendar, the horizon four years on, and exactly when the search
    succeeds. */
module CronCalendar {
  import opened Wrappers
  import opened CronSchedule

  datatype Date = Date(year: int, month: int, day: int)

  predicate IsLeap(y: int) { y % 4 == 0 && (y % 100 != 0 || y % 400 == 0) }

  function LengthOf(y: int, month: int): int {
    if month == 2 && !IsLeap(y) then 28 else MonthLength(month)
  }

  predicate ValidDate(d: Date) { 1 <= d.month <= 12 && 1 <= d.day <= LengthOf(d.year, d.month) }

  // Day numbers, 0 being 1 January of year 1.

  function DaysBefore(y: int): int { 365 * (y - 1) + (y - 1) / 4 - (y - 1) / 100 + (y - 1) / 400 }

  const CUMULATIVE: seq<int> := [0, 31, 59, 90, 120, 151, 181, 212, 243, 273, 304, 334, 365]

  /** Days of the year before a month; the thirteenth is the next January. */
  function DaysToMonth(y: int, month: int): int
    requires 1 <= month <= 13
  {
    CUMULATIVE[month - 1] + if month > 2 && IsLeap(y) then 1 else 0
  }

  /** The day of a date; one past the end of its month is the first of the next. */
  function DayNumber(y: int, month: int, day: int): int
    requires 1 <= month <= 12
  {
    DaysBefore(y) + DaysToMonth(y, month) + day - 1
  }

  lemma QuotientIs(x: int, k: int, q: int, floor: int)
    requires k > 0 && floor == k * q && floor <= x < floor + k
    ensures x / k == q
  {
    var p := x / k;
    assert x == k * p + x % k;
    assert k * (p - q) == k * p - floor;
    MulAtLeast(p - q, k);
  }

  /** The quotient steps up at the multiples. */
  lemma QuotientAdds(y: int, k: int)
    requires k > 0
    ensures y / k == (y - 1) / k + if y % k == 0 then 1 else 0
  {
    var q := y / k;
    assert y == k * q + y % k;
    if y % k == 0 {
      assert k * (q - 1) == k * q - k;
      QuotientIs(y - 1, k, q - 1, k * (q - 1));
    } else {
      QuotientIs(y - 1, k, q, k * q);
    }
  }

  lemma MultiplesNest(y: int)
    ensures (y % 400 == 0 ==> y % 100 == 0) && (y % 100 == 0 ==> y % 4 == 0)
  {
  }

  lemma YearAdds(y: int)
    ensures DaysBefore(y + 1) == DaysBefore(y) + DaysToMonth(y, 13)
  {
    var a, b, c := y / 4, y / 100, y / 400;
    QuotientAdds(y, 4);
    QuotientAdds(y, 100);
    QuotientAdds(y, 400);
    MultiplesNest(y);
    YearAddsByQuotients(y, a, (y - 1) / 4, b, (y - 1) / 100, c, (y - 1) / 400, y % 4 == 0, y % 100 == 0, y % 400 == 0);
  }

  lemma YearAddsByQuotients(y: int, a: int, a0: int, b: int, b0: int, c: int, c0: int, by4: bool, by100: bool,
                            by400: bool)
    requires a == y / 4 && b == y / 100 && c == y / 400 && a0 == (y - 1) / 4 && b0 == (y - 1) / 100
    requires c0 == (y - 1) / 400 && by4 == (y % 4 == 0) && by100 == (y % 100 == 0) && by400 == (y % 400 == 0)
    requires a == a0 + (if by4 then 1 else 0) && b == b0 + (if by100 then 1 else 0) && c == c0 + if by400 then 1 else 0
    requires (by400 ==> by100) && (by100 ==> by4)
    ensures DaysBefore(y + 1) == DaysBefore(y) + DaysToMonth(y, 13)
  {
    assert DaysBefore(y + 1) == 365 * y + a - b + c;
    assert DaysBefore(y) == 365 * (y - 1) + a0 - b0 + c0;
  }

  lemma {:induction false} YearsOrdered(y: int, z: int)
    requires y < z
    ensures DaysBefore(y + 1) <= DaysBefore(z)
    decreases z - y
  {
    if y + 1 < z {
      YearAdds(z - 1);
      YearsOrdered(y, z - 1);
    }
  }

  lemma MonthsOrdered(y: int, month: int, next: int)
    requires 1 <= month < next <= 13
    ensures DaysToMonth(y, month) + LengthOf(y, month) <= DaysToMonth(y, next)
  {
  }

  /** Days are numbered in the order of their dates. */
  lemma DatesOrdered(a: Date, b: Date)
    requires ValidDate(a) && ValidDate(b)
    requires a.year < b.year || (a.year == b.year && (a.month < b.month || (a.month == b.month && a.day < b.day)))
    ensures DayNumber(a.year, a.month, a.day) < DayNumber(b.year, b.month, b.day)
  {
    if a.year < b.year {
      WithinYear(a);
      WithinYear(b);
      YearsOrdered(a.year, b.year);
    } else if a.month < b.month {
      MonthsOrdered(a.year, a.month, b.month);
    }
  }

  lemma WithinYear(d: Date)
    requires ValidDate(d)
    ensures DaysBefore(d.year) <= DayNumber(d.year, d.month, d.day) < DaysBefore(d.year + 1)
  {
    YearAdds(d.year);
    MonthsOrdered(d.year, d.month, 13);
  }

  /** The year of a day, through cycles of 400, 100, 4 and 1 years. */
  function YearOf(n: int): int {
    var q, r := n / 146_097, n % 146_097;
    var c := if r / 36_524 > 3 then 3 else r / 36_524;
    var f, rest := (r - 36_524 * c) / 1461, (r - 36_524 * c) % 1461;
    400 * q + 100 * c + 4 * f + (if rest / 365 > 3 then 3 else rest / 365) + 1
  }

  lemma YearOfContains(n: int)
    ensures DaysBefore(YearOf(n)) <= n < DaysBefore(YearOf(n) + 1)
  {
    var q, r := n / 146_097, n % 146_097;
    var c := if r / 36_524 > 3 then 3 else r / 36_524;
    var f, rest := (r - 36_524 * c) / 1461, (r - 36_524 * c) % 1461;
    var e := if rest / 365 > 3 then 3 else rest / 365;
    Remainders(r, r - 36_524 * c, r / 36_524, c, f, rest, rest / 365, e);
    assert n == 146_097 * q + r && r - 36_524 * c == 1461 * f + rest;
    CyclesContain(n, YearOf(n), q, c, f, rest, e);
  }

  lemma CyclesContain(n: int, y: int, q: int, c: int, f: int, rest: int, e: int)
    requires y == 400 * q + 100 * c + 4 * f + e + 1 && n == 146_097 * q + 36_524 * c + 1461 * f + rest
    requires 0 <= c <= 3 && 0 <= f <= 24 && 0 <= e <= 3
    requires 0 <= rest - 365 * e < 365 + if e == 3 && (f < 24 || c == 3) then 1 else 0
    ensures DaysBefore(y) <= n < DaysBefore(y + 1)
  {
    CyclesCount(q, c, f, e);
    CyclesLeap(q, c, f, e);
    YearAdds(y);
    YearSpans(n, y, DaysBefore(y), rest - 365 * e);
  }

  lemma YearSpans(n: int, y: int, start: int, yearDay: int)
    requires start == DaysBefore(y) && n == start + yearDay && DaysBefore(y + 1) == start + DaysToMonth(y, 13)
    requires 0 <= yearDay < 365 + if IsLeap(y) then 1 else 0
    ensures DaysBefore(y) <= n < DaysBefore(y + 1)
  {
  }

  lemma Remainders(r: int, s: int, centuries: int, c: int, f: int, rest: int, years: int, e: int)
    requires 0 <= r < 146_097 && centuries == r / 36_524 && c == (if centuries > 3 then 3 else centuries)
    requires s == r - 36_524 * c && f == s / 1461 && rest == s % 1461
    requires years == rest / 365 && e == if years > 3 then 3 else years
    ensures 0 <= c <= 3 && 0 <= f <= 24 && 0 <= e <= 3
    ensures 0 <= rest - 365 * e < 365 + if e == 3 && (f < 24 || c == 3) then 1 else 0
  {
    assert 0 <= centuries <= 4 && 0 <= s <= 36_524;
    assert s == 1461 * f + rest;
    assert 0 <= years <= 4;
  }

  lemma CyclesCount(q: int, c: int, f: int, e: int)
    requires 0 <= c <= 3 && 0 <= f <= 24 && 0 <= e <= 3
    ensures DaysBefore(400 * q + 100 * c + 4 * f + e + 1) == 146_097 * q + 36_524 * c + 1461 * f + 365 * e
  {
    var x := 400 * q + 100 * c + 4 * f + e;
    QuotientIs(x, 400, q, 400 * q);
    QuotientIs(x, 100, 4 * q + c, 100 * (4 * q + c));
    QuotientIs(x, 4, 100 * q + 25 * c + f, 4 * (100 * q + 25 * c + f));
  }

  lemma CyclesLeap(q: int, c: int, f: int, e: int)
    requires 0 <= c <= 3 && 0 <= f <= 24 && 0 <= e <= 3
    ensures IsLeap(400 * q + 100 * c + 4 * f + e + 1) <==> e == 3 && (f < 24 || c == 3)
  {
    var y := 400 * q + 100 * c + 4 * f + e + 1;
    QuotientIs(y - 1, 400, q, 400 * q);
    QuotientIs(y - 1, 100, 4 * q + c, 100 * (4 * q + c));
    QuotientIs(y - 1, 4, 100 * q + 25 * c + f, 4 * (100 * q + 25 * c + f));
  }

  function MonthFrom(y: int, yearDay: int, month: int): (m: int)
    requires 1 <= month <= 12 && DaysToMonth(y, month) <= yearDay < DaysToMonth(y, 13)
    ensures month <= m <= 12 && DaysToMonth(y, m) <= yearDay < DaysToMonth(y, m + 1)
    decreases 12 - month
  {
    if yearDay < DaysToMonth(y, month + 1) then month else MonthFrom(y, yearDay, month + 1)
  }

  function DateOf(n: int): (d: Date)
    ensures ValidDate(d) && DayNumber(d.year, d.month, d.day) == n
  {
    YearOfContains(n);
    YearAdds(YearOf(n));
    DateIn(YearOf(n), n - DaysBefore(YearOf(n)))
  }

  function DateIn(y: int, yearDay: int): (d: Date)
    requires 0 <= yearDay < DaysToMonth(y, 13)
    ensures ValidDate(d) && d.year == y && DaysToMonth(y, d.month) + d.day - 1 == yearDay
  {
    var month := MonthFrom(y, yearDay, 1);
    Date(y, month, yearDay - DaysToMonth(y, month) + 1)
  }

  /** Days and dates correspond one to one. */
  lemma DateOfDayNumber(d: Date)
    requires ValidDate(d)
    ensures DateOf(DayNumber(d.year, d.month, d.day)) == d
  {
    var e := DateOf(DayNumber(d.year, d.month, d.day));
    if e != d {
      if e.year < d.year || (e.year == d.year && (e.month < d.month || (e.month == d.month && e.day < d.day))) {
        DatesOrdered(e, d);
      } else {
        DatesOrdered(d, e);
      }
    }
  }

  // Instants.

  const DAY: int := 86_400 * SECOND

  /** The clock fields of a day and a time in UTC; 1 January of year 1 was a Monday. */
  function ClockAt(n: int, time: int): Clock {
    var d, second := DateOf(n), time / SECOND;
    Clock(second % 60, second / 60 % 60, second / 3600, d.day, d.month, (n + 1) % 7)
  }

  function UtcClock(t: int): Clock { ClockAt(t / DAY, t % DAY) }

  /** The day four years on; 29 February of a common year is 1 March. */
  function HorizonDay(n: int): int {
    var d := DateOf(n);
    DayNumber(d.year + 4, d.month, d.day)
  }

  function FourYearsOn(t: int): int { HorizonDay(t / DAY) * DAY + t % DAY }

  function TimeOf(k: Clock): int { (3600 * k.hour + 60 * k.minute + k.second) * SECOND }

  lemma InstantSplits(n: int, time: int)
    requires 0 <= time < DAY
    ensures (n * DAY + time) / DAY == n && (n * DAY + time) % DAY == time
  {
    QuotientIs(n * DAY + time, DAY, n, DAY * n);
  }

  lemma TimeDecodes(k: Clock)
    requires ValidClock(k)
    ensures 0 <= TimeOf(k) < DAY && TimeOf(k) / SECOND == 3600 * k.hour + 60 * k.minute + k.second
    ensures var second := TimeOf(k) / SECOND;
      second % 60 == k.second && second / 60 % 60 == k.minute && second / 3600 == k.hour
  {
    var second := 3600 * k.hour + 60 * k.minute + k.second;
    QuotientIs(TimeOf(k), SECOND, second, SECOND * second);
    QuotientIs(second, 60, 60 * k.hour + k.minute, 60 * (60 * k.hour + k.minute));
    QuotientIs(second, 3600, k.hour, 3600 * k.hour);
    QuotientIs(60 * k.hour + k.minute, 60, k.hour, 60 * k.hour);
  }

  lemma ClockAtShows(n: int, k: Clock)
    requires ValidClock(k)
    ensures ClockAt(n, TimeOf(k)) == k.(day := DateOf(n).day, month := DateOf(n).month, weekday := (n + 1) % 7)
  {
    TimeDecodes(k);
  }

  /** A day's instant at a reachable time shows that time. */
  lemma ShowsTime(s: Schedule, n: int, k: Clock, t: int)
    requires Reachable(s, k) && t == n * DAY + TimeOf(k)
    ensures Aligned(s, t)
    ensures UtcClock(t) == k.(day := DateOf(n).day, month := DateOf(n).month, weekday := (n + 1) % 7)
  {
    TimeDecodes(k);
    InstantSplits(n, TimeOf(k));
    ClockAtShows(n, k);
    InstantAligned(s, n, k);
  }

  lemma InstantAligned(s: Schedule, n: int, k: Clock)
    requires Reachable(s, k)
    ensures Aligned(s, n * DAY + TimeOf(k))
  {
    ModOfMultiple(86_400 * n + 3600 * k.hour + 60 * k.minute + k.second, SECOND);
    ModOfMultiple(1440 * n + 60 * k.hour + k.minute, 60 * SECOND);
  }

  lemma EarlierDay(a: int, b: int)
    requires a / DAY < b / DAY
    ensures a < b
  {
    assert a == a / DAY * DAY + a % DAY && b == b / DAY * DAY + b % DAY;
  }

  lemma HorizonSplits(t: int)
    ensures FourYearsOn(t) / DAY == HorizonDay(t / DAY) && FourYearsOn(t) % DAY == t % DAY
  {
    hide HorizonDay;
    InstantSplits(HorizonDay(t / DAY), t % DAY);
  }

  /** The horizon of a day lies in the fourth year on. */
  lemma HorizonYear(n: int)
    ensures var y := DateOf(n).year; DaysBefore(y + 4) <= HorizonDay(n) && n < DaysBefore(y + 1)
  {
    hide DaysBefore;
    WithinYear(DateOf(n));
  }

  /** The year after the start lies wholly in the window. */
  lemma NextYearInWindow(s: Schedule, from: int, n: int, time: int)
    requires 0 <= time < DAY
    requires var y := DateOf(Start(s, from) / DAY).year; DaysBefore(y + 1) <= n < DaysBefore(y + 2)
    ensures from < n * DAY + time < FourYearsOn(Start(s, from))
  {
    StartIsNext(s, from);
    YearInside(Start(s, from), n, time, DateOf(Start(s, from) / DAY).year);
  }

  lemma YearInside(start: int, n: int, time: int, y: int)
    requires 0 <= time < DAY && y == DateOf(start / DAY).year && DaysBefore(y + 1) <= n < DaysBefore(y + 2)
    ensures start < n * DAY + time < FourYearsOn(start)
  {
    hide DaysBefore;
    HorizonYear(start / DAY);
    YearsOrdered(y + 1, y + 4);
    InstantSplits(n, time);
    EarlierDay(start, n * DAY + time);
    HorizonSplits(start);
    EarlierDay(n * DAY + time, FourYearsOn(start));
  }

  /** Every real clock. */
  lemma UtcValid(t: int)
    ensures ValidClock(UtcClock(t))
  {
    var second := t % DAY / SECOND;
    QuotientBelow(t % DAY, SECOND, 86_400, DAY);
    QuotientBelow(second, 3600, 24, 86_400);
  }

  lemma QuotientBelow(x: int, k: int, m: int, bound: int)
    requires k > 0 && bound == m * k && 0 <= x < bound
    ensures 0 <= x / k < m
  {
    var p := x / k;
    assert x == k * p + x % k;
    assert k * (p - m) == k * p - bound;
    MulAtLeast(p - m, k);
  }

  // The window of a UTC search.

  lemma UtcCovers(s: Schedule, from: int)
    ensures Covers(s, from, UtcClock, FourYearsOn(Start(s, from)))
  {
    var horizon := FourYearsOn(Start(s, from));
    forall t
      ensures ValidClock(UtcClock(t))
    {
      UtcValid(t);
    }
    forall k | Reachable(s, k) && !LeapDay(k)
      ensures ShowsDate(s, from, UtcClock, horizon, k)
    {
      DateShown(s, from, k);
    }
    forall k | Reachable(s, k)
      ensures ShowsWeekday(s, from, UtcClock, horizon, k)
    {
      WeekdayShown(s, from, k);
    }
  }

  /** Every time of every date of the year after the start. */
  lemma DayShown(s: Schedule, from: int, d: Date, n: int, k: Clock) returns (t: int)
    requires Reachable(s, k) && ValidDate(d) && d.year == DateOf(Start(s, from) / DAY).year + 1
    requires n == DayNumber(d.year, d.month, d.day)
    ensures InWindow(s, from, FourYearsOn(Start(s, from)), t)
    ensures UtcClock(t) == k.(day := d.day, month := d.month, weekday := (n + 1) % 7)
  {
    hide DaysBefore;
    t := n * DAY + TimeOf(k);
    WithinYear(d);
    DateOfDayNumber(d);
    TimeDecodes(k);
    NextYearInWindow(s, from, n, TimeOf(k));
    ShowsTime(s, n, k, t);
  }

  lemma DateShown(s: Schedule, from: int, k: Clock)
    requires Reachable(s, k) && !LeapDay(k)
    ensures ShowsDate(s, from, UtcClock, FourYearsOn(Start(s, from)), k)
  {
    var y := DateOf(Start(s, from) / DAY).year + 1;
    var t := DayShown(s, from, Date(y, k.month, k.day), DayNumber(y, k.month, k.day), k);
  }

  lemma WeekdayShown(s: Schedule, from: int, k: Clock)
    requires Reachable(s, k)
    ensures ShowsWeekday(s, from, UtcClock, FourYearsOn(Start(s, from)), k)
  {
    hide DaysBefore;
    var y := DateOf(Start(s, from) / DAY).year + 1;
    var first := DayNumber(y, k.month, 1);
    var day := 1 + (k.weekday - first - 1) % 7;
    WeekdayReached(first, k.weekday, day);
    var t := DayShown(s, from, Date(y, k.month, day), first + day - 1, k);
  }

  lemma WeekdayReached(first: int, weekday: int, day: int)
    requires 0 <= weekday <= 6 && day == 1 + (weekday - first - 1) % 7
    ensures 1 <= day <= 7 && (first + day - 1 + 1) % 7 == weekday
  {
  }

  // 29 February.

  /** A time of day the schedule selects. */
  predicate SelectsTime(s: Schedule, time: int) {
    && 0 <= time < DAY && time % Unit(s) == 0
    && MatchesField(s.seconds, time / SECOND % 60) && MatchesField(s.minutes, time / SECOND / 60 % 60)
    && MatchesField(s.hours, time / SECOND / 3600)
  }

  function LeapInstant(y: int, time: int): int { DayNumber(y, 2, 29) * DAY + time }

  predicate LeapBetween(s: Schedule, start: int, horizon: int, y: int, time: int) {
    IsLeap(y) && SelectsTime(s, time) && start <= LeapInstant(y, time) < horizon
  }

  /** Every selected instant of 29 February lies before the start. */
  ghost predicate LeapDayPassed(s: Schedule, y: int, start: int) {
    forall time :: SelectsTime(s, time) ==> LeapInstant(y, time) < start
  }

  /** The start lies after the last selected instant of a leap day whose next is eight years off, and before March of
      the common century year between them. */
  ghost predicate InGap(s: Schedule, century: int, start: int) {
    && century % 100 == 0 && century % 400 != 0
    && start / DAY < DayNumber(century, 3, 1)
    && LeapDayPassed(s, century - 4, start)
  }

  /** Within a year, the days before a month are those of an earlier month. */
  lemma MonthIff(d: Date, month: int, start: int)
    requires ValidDate(d) && 1 <= month <= 12
    ensures start + DaysToMonth(d.year, d.month) + d.day - 1 < start + DaysToMonth(d.year, month) <==> d.month < month
  {
    if d.month < month { MonthsOrdered(d.year, d.month, month); } else { MonthsNotBefore(d.year, month, d.month); }
  }

  lemma MonthsNotBefore(y: int, month: int, next: int)
    requires 1 <= month <= next <= 12
    ensures DaysToMonth(y, month) <= DaysToMonth(y, next)
  {
  }

  /** A horizon before the leap day after a common century year. */
  lemma HorizonBefore(n: int, y: int)
    requires n < DayNumber(y, 3, 1) && !IsLeap(y)
    ensures HorizonDay(n) < DayNumber(y + 4, 2, 29)
  {
    hide DaysBefore;
    var d := DateOf(n);
    if d.year > y {
      WithinYear(Date(y, 3, 1));
      WithinYear(d);
      YearsOrdered(y, d.year);
    } else if d.year == y {
      MonthIff(d, 3, DaysBefore(y));
      BeforeLeapDay(d, DaysBefore(y + 4));
    } else {
      HorizonAtMost(n, d);
      YearsOrdered(d.year + 4, y + 4);
    }
  }

  lemma BeforeLeapDay(d: Date, start: int)
    requires ValidDate(d) && d.month < 3 && !IsLeap(d.year)
    ensures start + DaysToMonth(d.year + 4, d.month) + d.day - 1 < start + DaysToMonth(d.year + 4, 2) + 28
  {
  }

  lemma HorizonAtMost(n: int, d: Date)
    requires d == DateOf(n)
    ensures HorizonDay(n) < DaysBefore(d.year + 5)
  {
    hide DaysBefore;
    YearAdds(d.year + 4);
    MonthsOrdered(d.year + 4, d.month, 13);
  }

  /** A day in March or later has its horizon in March or later. */
  lemma HorizonAfter(n: int, y: int)
    requires n >= DayNumber(y, 3, 1) && y == DateOf(n).year
    ensures HorizonDay(n) >= DayNumber(y + 4, 3, 1)
  {
    hide DaysBefore;
    var d := DateOf(n);
    MonthIff(d, 3, DaysBefore(y));
    MonthsNotBefore(y + 4, 3, d.month);
  }

  lemma LeapInstantDay(y: int, time: int)
    requires 0 <= time < DAY
    ensures LeapInstant(y, time) / DAY == DayNumber(y, 2, 29) && LeapInstant(y, time) % DAY == time
  {
    InstantSplits(DayNumber(y, 2, 29), time);
  }

  /** 29 February comes after the days of earlier years and before those of later ones. */
  lemma LeapDayWithin(y: int)
    ensures DaysBefore(y) <= DayNumber(y, 2, 29) < DaysBefore(y + 1)
  {
    YearAdds(y);
  }

  lemma LeapAfter(n: int, y: int)
    requires DateOf(n).year < y
    ensures n < DayNumber(y, 2, 29)
  {
    WithinYear(DateOf(n));
    LeapDayWithin(y);
    YearsOrdered(DateOf(n).year, y);
  }

  lemma LeapBefore(n: int, y: int)
    requires y < DateOf(n).year
    ensures DayNumber(y, 2, 29) < n
  {
    WithinYear(DateOf(n));
    LeapDayWithin(y);
    YearsOrdered(y, DateOf(n).year);
  }

  /** Leap days up to three years on precede the horizon. */
  lemma LeapBeforeHorizon(n: int, y: int)
    requires y < DateOf(n).year + 4
    ensures DayNumber(y, 2, 29) < HorizonDay(n)
  {
    LeapDayWithin(y);
    HorizonYear(n);
    YearsOrdered(y, DateOf(n).year + 4);
  }

  /** So does that of the fourth year, after a start in March or later. */
  lemma FourthLeapBeforeHorizon(n: int, y: int)
    requires n >= DayNumber(y, 3, 1) && y == DateOf(n).year && IsLeap(y + 4)
    ensures DayNumber(y + 4, 2, 29) < HorizonDay(n)
  {
    HorizonAfter(n, y);
    MarchFollows(y + 4);
  }

  lemma MarchFollows(y: int)
    ensures DayNumber(y, 3, 1) == DayNumber(y, 2, 29) + if IsLeap(y) then 1 else 0
  {
  }

  /** No selected leap day lies in the window of a gap. */
  lemma GapBlocks(s: Schedule, century: int, start: int, y: int, time: int)
    requires InGap(s, century, start)
    ensures !LeapBetween(s, start, FourYearsOn(start), y, time)
  {
    hide DaysBefore;
    if LeapBetween(s, start, FourYearsOn(start), y, time) {
      LeapYearsApart(century, y);
      LeapInstantDay(y, time);
      if y <= century - 4 {
        LeapsOrdered(y, century - 4, time);
        assert false;
      } else {
        HorizonBefore(start / DAY, century);
        HorizonSplits(start);
        LeapInstantDay(century + 4, time);
        EarlierDay(FourYearsOn(start), LeapInstant(century + 4, time));
        LeapsOrdered(century + 4, y, time);
        assert false;
      }
    }
  }

  lemma LeapYearsApart(century: int, y: int)
    requires century % 100 == 0 && century % 400 != 0 && IsLeap(y)
    ensures y <= century - 4 || y >= century + 4
    ensures !IsLeap(century)
  {
    var h := century / 100;
    assert century == 4 * (25 * h) && y == 4 * (y / 4);
  }

  lemma LeapsOrdered(y: int, z: int, time: int)
    requires y <= z
    ensures LeapInstant(y, time) <= LeapInstant(z, time)
  {
    if y < z {
      LeapDayWithin(y);
      LeapDayWithin(z);
      YearsOrdered(y, z);
    }
  }

  lemma LeapInstantAfter(start: int, y: int, time: int)
    requires 0 <= time < DAY && DateOf(start / DAY).year < y
    ensures start < LeapInstant(y, time)
  {
    LeapAfter(start / DAY, y);
    LeapInstantDay(y, time);
    EarlierDay(start, LeapInstant(y, time));
  }

  lemma LeapInstantBefore(start: int, y: int, time: int)
    requires 0 <= time < DAY && y < DateOf(start / DAY).year
    ensures LeapInstant(y, time) < start
  {
    LeapBefore(start / DAY, y);
    LeapInstantDay(y, time);
    EarlierDay(LeapInstant(y, time), start);
  }

  lemma LeapInstantInside(start: int, y: int, time: int)
    requires 0 <= time < DAY && DayNumber(y, 2, 29) < HorizonDay(start / DAY)
    ensures LeapInstant(y, time) < FourYearsOn(start)
  {
    LeapInstantDay(y, time);
    HorizonSplits(start);
    EarlierDay(LeapInstant(y, time), FourYearsOn(start));
  }

  /** After a leap day's instant, that of the next comes before the horizon. */
  lemma NextLeapInside(start: int, y: int, time: int)
    requires 0 <= time < DAY && y == DateOf(start / DAY).year && IsLeap(y) && IsLeap(y + 4)
    requires LeapInstant(y, time) < start
    ensures LeapInstant(y + 4, time) < FourYearsOn(start)
  {
    hide DaysBefore;
    var n := start / DAY;
    LeapInstantDay(y, time);
    if n == DayNumber(y, 2, 29) {
      HorizonOfLeapDay(start, y, time);
    } else {
      if n < DayNumber(y, 2, 29) { EarlierDay(start, LeapInstant(y, time)); }
      MarchFollows(y);
      FourthLeapBeforeHorizon(n, y);
      LeapInstantInside(start, y + 4, time);
    }
  }

  lemma HorizonOfLeapDay(start: int, y: int, time: int)
    requires start / DAY == DayNumber(y, 2, 29) && IsLeap(y) && LeapInstant(y, time) < start
    ensures LeapInstant(y + 4, time) < FourYearsOn(start)
  {
    hide DaysBefore;
    DateOfDayNumber(Date(y, 2, 29));
    assert start == start / DAY * DAY + start % DAY;
  }

  ghost predicate NoneDue(s: Schedule, start: int) {
    forall y, time :: !LeapBetween(s, start, FourYearsOn(start), y, time)
  }

  /** The common century year whose gap the start must lie in. */
  lemma GapYear(s: Schedule, start: int, time: int) returns (century: int)
    requires SelectsTime(s, time) && NoneDue(s, start)
    ensures InGap(s, century, start)
  {
    var y := DateOf(start / DAY).year;
    if IsLeap(y) {
      century := y + 4;
      LeapYearGap(s, start, y, time);
    } else if y % 4 == 0 {
      century := y;
      CommonCenturyGap(s, start, y, time);
    } else {
      century := 4 * (y / 4) + 4;
      RoundUp(y, y / 4, century);
      OtherYearGap(s, start, y, century, time);
    }
  }

  lemma RoundUp(y: int, q: int, up: int)
    requires q == y / 4 && up == 4 * q + 4
    ensures up % 4 == 0 && y < up <= y + 4 && (y % 4 != 0 ==> up < y + 4)
  {
  }

  lemma FourAfterLeap(y: int)
    requires IsLeap(y)
    ensures (y + 4) % 4 == 0
  {
  }

  lemma OtherYearGap(s: Schedule, start: int, y: int, century: int, time: int)
    requires SelectsTime(s, time) && NoneDue(s, start) && y == DateOf(start / DAY).year && y < century < y + 4
    requires century % 4 == 0
    ensures InGap(s, century, start)
  {
    hide DaysBefore;
    LeapInstantAfter(start, century, time);
    LeapBeforeHorizon(start / DAY, century);
    LeapInstantInside(start, century, time);
    assert !LeapBetween(s, start, FourYearsOn(start), century, time);
    LeapAfter(start / DAY, century);
    MarchFollows(century);
    EarlierLeapPassed(s, start, century - 4);
  }

  lemma EarlierLeapPassed(s: Schedule, start: int, y: int)
    requires y < DateOf(start / DAY).year
    ensures LeapDayPassed(s, y, start)
  {
    forall time | SelectsTime(s, time)
      ensures LeapInstant(y, time) < start
    {
      LeapInstantBefore(start, y, time);
    }
  }

  lemma LeapYearBefore(s: Schedule, start: int, y: int, time: int)
    requires SelectsTime(s, time) && NoneDue(s, start) && y == DateOf(start / DAY).year && IsLeap(y)
    ensures LeapInstant(y, time) < start
  {
    LeapBeforeHorizon(start / DAY, y);
    LeapInstantInside(start, y, time);
    assert !LeapBetween(s, start, FourYearsOn(start), y, time);
  }

  lemma LeapYearGap(s: Schedule, start: int, y: int, time: int)
    requires SelectsTime(s, time) && NoneDue(s, start) && y == DateOf(start / DAY).year && IsLeap(y)
    ensures InGap(s, y + 4, start)
  {
    FourAfterLeap(y);
    ThisLeapPassed(s, start, y);
    NoLeapFourOn(s, start, y, time);
    LeapAfter(start / DAY, y + 4);
    MarchFollows(y + 4);
  }

  lemma ThisLeapPassed(s: Schedule, start: int, y: int)
    requires NoneDue(s, start) && y == DateOf(start / DAY).year && IsLeap(y)
    ensures LeapDayPassed(s, y, start)
  {
    forall time | SelectsTime(s, time)
      ensures LeapInstant(y, time) < start
    {
      LeapYearBefore(s, start, y, time);
    }
  }

  lemma NoLeapFourOn(s: Schedule, start: int, y: int, time: int)
    requires SelectsTime(s, time) && NoneDue(s, start) && y == DateOf(start / DAY).year && IsLeap(y)
    ensures !IsLeap(y + 4)
  {
    LeapYearBefore(s, start, y, time);
    LeapInstantAfter(start, y + 4, time);
    assert !LeapBetween(s, start, FourYearsOn(start), y + 4, time);
    if IsLeap(y + 4) { NextLeapInside(start, y, time); }
  }

  lemma CommonCenturyGap(s: Schedule, start: int, y: int, time: int)
    requires SelectsTime(s, time) && NoneDue(s, start) && y == DateOf(start / DAY).year && !IsLeap(y) && y % 4 == 0
    ensures InGap(s, y, start)
  {
    FourAfterCentury(y);
    EarlierLeapPassed(s, start, y - 4);
    LeapInstantAfter(start, y + 4, time);
    assert !LeapBetween(s, start, FourYearsOn(start), y + 4, time);
    if start / DAY >= DayNumber(y, 3, 1) {
      FourthLeapBeforeHorizon(start / DAY, y);
      LeapInstantInside(start, y + 4, time);
    }
  }

  lemma FourAfterCentury(y: int)
    requires y % 4 == 0 && !IsLeap(y)
    ensures IsLeap(y + 4)
  {
  }

  /** When the schedule selects some time, none of its leap days is due exactly in a gap. */
  lemma NoneDueIff(s: Schedule, start: int, time: int)
    requires SelectsTime(s, time)
    ensures NoneDue(s, start) <==> exists century :: InGap(s, century, start)
  {
    if NoneDue(s, start) {
      var century := GapYear(s, start, time);
    }
    if century :| InGap(s, century, start) {
      forall y, time'
        ensures !LeapBetween(s, start, FourYearsOn(start), y, time')
      {
        GapBlocks(s, century, start, y, time');
      }
    }
  }

  // When a UTC search succeeds.

  lemma DayAligned(s: Schedule, n: int, time: int)
    ensures (n * DAY + time) % Unit(s) == 0 <==> time % Unit(s) == 0
  {
    var u := Unit(s);
    var m := if s.hasSeconds then 86_400 else 1440;
    assert n * DAY == (n * m) * u;
    SameRemainder(n * m, u, time, n * DAY + time);
  }

  lemma SameRemainder(k: int, u: int, x: int, y: int)
    requires u > 0 && y == k * u + x
    ensures y % u == 0 <==> x % u == 0
  {
    var p := x / u;
    assert x == u * p + x % u;
    assert u * (p + k) == u * p + k * u;
    QuotientIs(y, u, p + k, u * (p + k));
    assert y == u * (y / u) + y % u;
  }

  /** An accepted expression selects some time of day. */
  lemma SomeTime(c: CronText, s: Schedule) returns (time: int)
    requires ParseCronExpression(c) == Some(s) && AllowsDate(c, 2, 29)
    ensures SelectsTime(s, time)
  {
    var k := ClockWith(c, 2, 29, 0);
    ExpressionSelects(c, k);
    time := TimeOf(k);
    TimeDecodes(k);
    InstantAligned(s, 0, k);
  }

  lemma LeapSelected(c: CronText, s: Schedule, y: int, time: int)
    requires ParseCronExpression(c) == Some(s) && AllowsDate(c, 2, 29) && IsLeap(y) && SelectsTime(s, time)
    ensures var t := LeapInstant(y, time);
      Aligned(s, t) && LeapDay(UtcClock(t)) && Matches(s, UtcClock(t))
  {
    LeapInstantDay(y, time);
    DayAligned(s, DayNumber(y, 2, 29), time);
    DateOfDayNumber(Date(y, 2, 29));
    ParsedFieldCorrect(c.months, 1, 12, 2);
    ParsedFieldCorrect(c.days, 1, 31, 29);
  }

  lemma LeapDecodes(s: Schedule, t: int) returns (y: int, time: int)
    requires Aligned(s, t) && LeapDay(UtcClock(t)) && Matches(s, UtcClock(t))
    ensures t == LeapInstant(y, time) && IsLeap(y) && SelectsTime(s, time)
  {
    y, time := DateOf(t / DAY).year, t % DAY;
    assert t == t / DAY * DAY + time;
    DayAligned(s, t / DAY, time);
  }

  lemma LeapDueIff(c: CronText, s: Schedule, from: int)
    requires ParseCronExpression(c) == Some(s) && AllowsDate(c, 2, 29)
    ensures var start := Start(s, from);
      LeapDayDue(s, from, UtcClock, FourYearsOn(start)) <==> !NoneDue(s, start)
  {
    var start := Start(s, from);
    var horizon := FourYearsOn(start);
    StartIsNext(s, from);
    if t :| InWindow(s, from, horizon, t) && LeapDay(UtcClock(t)) && Matches(s, UtcClock(t)) {
      var y, time := LeapDecodes(s, t);
      assert LeapBetween(s, start, horizon, y, time);
    }
    if y, time :| LeapBetween(s, start, horizon, y, time) {
      LeapSelected(c, s, y, time);
      assert InWindow(s, from, horizon, LeapInstant(y, time));
    }
  }

  ghost predicate SomeGap(s: Schedule, start: int) { exists century :: InGap(s, century, start) }

  /** The search from an instant succeeds in UTC exactly when the expression names a weekday up to 6, or allows a date
      other than 29 February, or allows that one and the search does not start in the gap around a common century
      year. */
  lemma UtcSearchFindsIff(c: CronText, s: Schedule, from: int)
    requires ParseCronExpression(c) == Some(s)
    ensures Found(s, from, UtcClock, FourYearsOn(Start(s, from)))
       <==> || NamesSomeWeekday(c) || AllowsCommonDate(c)
            || (AllowsDate(c, 2, 29) && !SomeGap(s, Start(s, from)))
  {
    var horizon := FourYearsOn(Start(s, from));
    UtcCovers(s, from);
    SearchFindsIff(c, s, from, UtcClock, horizon);
    if AllowsDate(c, 2, 29) {
      var time := SomeTime(c, s);
      LeapDueIff(c, s, from);
      NoneDueIff(s, Start(s, from), time);
    } else if !NamesSomeWeekday(c) {
      NoLeapDay(c, s, from, horizon);
    }
  }

  lemma NoLeapDay(c: CronText, s: Schedule, from: int, horizon: int)
    requires ParseCronExpression(c) == Some(s) && !AllowsDate(c, 2, 29) && !NamesSomeWeekday(c)
    ensures !LeapDayDue(s, from, UtcClock, horizon)
  {
    forall t | LeapDay(UtcClock(t))
      ensures !Matches(s, UtcClock(t))
    {
      UtcValid(t);
      ExpressionSelects(c, UtcClock(t));
    }
  }

  /** The next run of an accepted expression in UTC. */
  method NextUtc(c: CronText, s: Schedule, from: int) returns (r: Option<int>)
    requires ParseCronExpression(c) == Some(s)
    ensures r.Some? <==> || NamesSomeWeekday(c) || AllowsCommonDate(c)
                         || (AllowsDate(c, 2, 29) && !SomeGap(s, Start(s, from)))
    ensures r.Some? ==> Aligned(s, r.value) && r.value > from && Matches(s, UtcClock(r.value))
    ensures r.Some? ==> forall t :: Aligned(s, t) && from < t < r.value ==> !Matches(s, UtcClock(t))
  {
    r := Next(s, from, UtcClock, FourYearsOn);
    UtcSearchFindsIff(c, s, from);
  }

  const LEAP_DAY_TEXT: CronText := CronText(None, Single(0), Single(0), Single(29), Single(2), Single(7))

  const LEAP_DAY_SCHEDULE: Schedule :=
    Schedule(Exact(0), Exact(0), Exact(0), Exact(29), Exact(2), Exact(7), false)

  /** `0 0 29 2 7` is accepted and runs in every leap year, yet no search from March 2096 until the last minute of
      February 2100 finds it. */
  lemma LeapDayNotFound(from: int)
    requires DayNumber(2096, 3, 1) * DAY <= from < DayNumber(2100, 3, 1) * DAY - 60 * SECOND
    ensures ParseCronExpression(LEAP_DAY_TEXT) == Some(LEAP_DAY_SCHEDULE) && Satisfiable(LEAP_DAY_TEXT)
    ensures !Found(LEAP_DAY_SCHEDULE, from, UtcClock, FourYearsOn(Start(LEAP_DAY_SCHEDULE, from)))
  {
    var start := Start(LEAP_DAY_SCHEDULE, from);
    assert AllowsDate(LEAP_DAY_TEXT, 2, 29);
    StartIsNext(LEAP_DAY_SCHEDULE, from);
    QuotientBelow(start, DAY, DayNumber(2100, 3, 1), DayNumber(2100, 3, 1) * DAY);
    assert InGap(LEAP_DAY_SCHEDULE, 2100, start);
    UtcSearchFindsIff(LEAP_DAY_TEXT, LEAP_DAY_SCHEDULE, from);
  }
}
