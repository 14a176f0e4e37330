/** Cron schedules: parsed field matchers and the bounded search for the next instant. */
module CronSchedule {
  import opened Wrappers

  // Field matchers.

  datatype Matcher =
    | Wildcard
    | Exact(value: int)
    | Between(start: int, end: int)
    | OneOf(values: seq<int>)
    | Every(step: int, min: int, max: int)

  predicate MatchesField(m: Matcher, value: int) {
    match m
    case Wildcard => true
    case Exact(v) => value == v
    case Between(start, end) => start <= value <= end
    case OneOf(values) => value in values
    case Every(step, min, max) => step != 0 && min <= value <= max && (value - min) % step == 0
  }

  /** A field as written, its numbers already read. A list has a first value. */
  datatype FieldText =
    | Star
    | StarStep(n: int)
    | Listed(first: int, rest: seq<int>)
    | Ranged(from: int, to: int)
    | Single(value: int)

  function ParseField(f: FieldText, min: int, max: int): Option<Matcher> {
    match f
    case Star => Some(Wildcard)
    case StarStep(n) => if n < 1 || n > max then None else Some(Every(n, min, max))
    case Listed(first, rest) =>
      var values := [first] + rest;
      if exists v :: v in values && (v < min || v > max) then None else Some(OneOf(values))
    case Ranged(from, to) => if from < min || to > max || from > to then None else Some(Between(from, to))
    case Single(v) => if v < min || v > max then None else Some(Exact(v))
  }

  /** `value` is the `k`-th step from `min`. */
  predicate StepReaches(min: int, step: int, k: int, value: int) { value == min + k * step }

  /** What a cron field denotes: a step field counts up from the smallest value of its field. */
  ghost predicate Denotes(f: FieldText, min: int, max: int, value: int) {
    match f
    case Star => true
    case StarStep(n) => value <= max && exists k :: k >= 0 && StepReaches(min, n, k, value)
    case Listed(first, rest) => value == first || value in rest
    case Ranged(from, to) => from <= value <= to
    case Single(v) => value == v
  }

  /** An accepted field matches exactly the values it denotes, and all it can name lie within its bounds. */
  lemma ParsedFieldCorrect(f: FieldText, min: int, max: int, value: int)
    requires ParseField(f, min, max).Some?
    ensures MatchesField(ParseField(f, min, max).value, value) <==> Denotes(f, min, max, value)
    ensures Denotes(f, min, max, value) && !f.Star? ==> min <= value <= max
  {
    match f
    case StarStep(n) => StepMatches(n, min, max, value);
    case Listed(first, rest) => assert value in [first] + rest <==> value == first || value in rest;
    case _ =>
  }

  /** A wildcard is always accepted, a step when it lies between 1 and the greatest value, and numbers when they name
      some value and only values within the bounds. */
  ghost predicate Acceptable(f: FieldText, min: int, max: int) {
    match f
    case Star => true
    case StarStep(n) => 1 <= n <= max
    case _ =>
      && (exists value :: Denotes(f, min, max, value))
      && forall value :: Denotes(f, min, max, value) ==> min <= value <= max
  }

  lemma FieldAcceptedIff(f: FieldText, min: int, max: int)
    ensures ParseField(f, min, max).Some? <==> Acceptable(f, min, max)
  {
    match f
    case Listed(first, rest) =>
      assert Denotes(f, min, max, first);
      assert forall v :: v in [first] + rest <==> Denotes(f, min, max, v);
    case Ranged(from, to) =>
      if from <= to { assert Denotes(f, min, max, from) && Denotes(f, min, max, to); }
    case Single(v) => assert Denotes(f, min, max, v);
    case _ =>
  }

  /** Every accepted field names a value within its bounds. */
  lemma FieldInhabited(f: FieldText, min: int, max: int) returns (value: int)
    requires ParseField(f, min, max).Some? && min <= max
    ensures min <= value <= max && Denotes(f, min, max, value)
  {
    value := match f
      case Listed(first, _) => first
      case Ranged(from, _) => from
      case Single(v) => v
      case _ => min;
    if f.StarStep? { assert StepReaches(min, f.n, 0, min); }
    ParsedFieldCorrect(f, min, max, value);
  }

  lemma StepMatches(step: int, min: int, max: int, value: int)
    requires step >= 1
    ensures MatchesField(Every(step, min, max), value) <==> Denotes(StarStep(step), min, max, value)
    ensures Denotes(StarStep(step), min, max, value) ==> min <= value
  {
    var gap := value - min;
    var q := gap / step;
    assert gap == q * step + gap % step;
    if min <= value && gap % step == 0 {
      MulAtLeast(q, step);
      assert q >= 0 && StepReaches(min, step, q, value);
    }
    forall k | k >= 0 && StepReaches(min, step, k, value)
      ensures value >= min && gap % step == 0
    {
      MulAtLeast(k, step);
      ModOfMultiple(k, step);
    }
  }

  lemma MulAtLeast(k: int, u: int)
    requires u > 0
    ensures k >= 1 ==> k * u >= u
    ensures k <= -1 ==> k * u <= -u
  {
  }

  lemma ModOfMultiple(q: int, u: int)
    requires u > 0
    ensures (q * u) % u == 0
  {
    var r := (q * u) % u;
    var k := (q * u) / u;
    assert q * u == k * u + r;
    assert (q - k) * u == r;
    MulAtLeast(q - k, u);
  }

  // Schedules.

  /** Decoded clock fields of an instant; Sunday is weekday 0. */
  datatype Clock = Clock(second: int, minute: int, hour: int, day: int, month: int, weekday: int)

  datatype Schedule = Schedule(seconds: Matcher, minutes: Matcher, hours: Matcher, days: Matcher, months: Matcher,
                               weekdays: Matcher, hasSeconds: bool)

  /** Day of month and day of week are alternatives, whatever the fields are. */
  predicate Matches(s: Schedule, c: Clock) {
    && MatchesField(s.seconds, c.second)
    && MatchesField(s.minutes, c.minute)
    && MatchesField(s.hours, c.hour)
    && MatchesField(s.months, c.month)
    && (MatchesField(s.days, c.day) || MatchesField(s.weekdays, c.weekday))
  }

  // Instants, in nanoseconds since the zero time.

  const SECOND: int := 1_000_000_000

  function Unit(s: Schedule): (u: int)
    ensures u > 0
  {
    if s.hasSeconds then SECOND else 60 * SECOND
  }

  predicate Aligned(s: Schedule, t: int) { t % Unit(s) == 0 }

  function TruncateTo(t: int, unit: int): int
    requires unit > 0
  {
    t - t % unit
  }

  /** Where the search starts: one unit on, rounded down to the unit. */
  function Start(s: Schedule, from: int): int { TruncateTo(from + Unit(s), Unit(s)) }

  lemma MultiplesApart(unit: int, a: int, b: int)
    requires unit > 0 && a % unit == 0 && b % unit == 0 && a < b
    ensures b - a >= unit
  {
    var p, q := a / unit, b / unit;
    assert a == p * unit && b == q * unit;
    assert b - a == (q - p) * unit;
    MulAtLeast(q - p, unit);
  }

  /** The search starts at the first aligned instant strictly after the input. */
  lemma StartIsNext(s: Schedule, from: int)
    ensures Aligned(s, Start(s, from)) && Start(s, from) > from
    ensures forall t :: Aligned(s, t) && t > from ==> t >= Start(s, from)
  {
    var u := Unit(s);
    var x := from + u;
    assert x == (x / u) * u + x % u;
    var start := Start(s, from);
    assert start == (x / u) * u;
    ModOfMultiple(x / u, u);
    assert start > from;
    forall t | Aligned(s, t) && t > from
      ensures t >= start
    {
      AlignedWithin(u, start, t);
    }
  }

  /** A multiple of the unit above `start - unit` is not below `start`. */
  lemma AlignedWithin(unit: int, start: int, t: int)
    requires unit > 0 && start % unit == 0 && t % unit == 0 && t > start - unit
    ensures t >= start
  {
    if t < start {
      MultiplesApart(unit, t, start);
      assert false;
    }
  }

  predicate InWindow(s: Schedule, from: int, horizon: int, t: int) { Aligned(s, t) && from < t < horizon }

  /** Some aligned instant of the window satisfies the schedule. */
  ghost predicate Found(s: Schedule, from: int, calendar: int -> Clock, horizon: int) {
    exists t :: InWindow(s, from, horizon, t) && Matches(s, calendar(t))
  }

  /** The least aligned instant strictly after `from` that satisfies the schedule, or none exactly when no aligned
      instant before the horizon does. The calendar maps instants to clock fields; `fourYearsOn` is the horizon of
      a start instant. */
  method Next(s: Schedule, from: int, calendar: int -> Clock, fourYearsOn: int -> int) returns (r: Option<int>)
    ensures r.Some? ==> Aligned(s, r.value) && r.value > from && Matches(s, calendar(r.value))
    ensures r.Some? ==> r.value < fourYearsOn(Start(s, from))
    ensures r.Some? ==> forall t :: Aligned(s, t) && from < t < r.value ==> !Matches(s, calendar(t))
    ensures r.Some? <==> Found(s, from, calendar, fourYearsOn(Start(s, from)))
  {
    StartIsNext(s, from);
    var unit := Unit(s);
    var at := TruncateTo(from + unit, unit);
    var maxTime := fourYearsOn(at);
    while at < maxTime
      invariant Aligned(s, at) && at > from
      invariant forall t :: Aligned(s, t) && from < t < at ==> !Matches(s, calendar(t))
      decreases maxTime - at
    {
      if Matches(s, calendar(at)) {
        assert InWindow(s, from, maxTime, at);
        return Some(at);
      }
      ghost var before := at;
      at := at + unit;
      NextAligned(s, before);
      forall t | Aligned(s, t) && before < t
        ensures t >= at
      {
        MultiplesApart(unit, before, t);
      }
    }
    r := None;
  }

  lemma NextAligned(s: Schedule, t: int)
    requires Aligned(s, t)
    ensures Aligned(s, t + Unit(s))
  {
  }

  // Expressions.

  /** An expression's fields: five, or six with seconds in front. */
  datatype CronText = CronText(seconds: Option<FieldText>, minutes: FieldText, hours: FieldText, days: FieldText,
                               months: FieldText, weekdays: FieldText)

  function ParseCronExpression(c: CronText): Option<Schedule> {
    var seconds := if c.seconds.Some? then ParseField(c.seconds.value, 0, 59) else Some(Exact(0));
    var minutes, hours := ParseField(c.minutes, 0, 59), ParseField(c.hours, 0, 23);
    var days, months := ParseField(c.days, 1, 31), ParseField(c.months, 1, 12);
    var weekdays := ParseField(c.weekdays, 0, 7);
    if seconds.Some? && minutes.Some? && hours.Some? && days.Some? && months.Some? && weekdays.Some? then
      Some(Schedule(seconds.value, minutes.value, hours.value, days.value, months.value, weekdays.value,
                    c.seconds.Some?))
    else
      None
  }

  /** The instants an accepted expression selects: its fields' denotations, day of month or day of week sufficing. */
  lemma ExpressionSelects(c: CronText, k: Clock)
    requires ParseCronExpression(c).Some?
    ensures Matches(ParseCronExpression(c).value, k) <==>
            && (if c.seconds.Some? then Denotes(c.seconds.value, 0, 59, k.second) else k.second == 0)
            && Denotes(c.minutes, 0, 59, k.minute)
            && Denotes(c.hours, 0, 23, k.hour)
            && Denotes(c.months, 1, 12, k.month)
            && (Denotes(c.days, 1, 31, k.day) || Denotes(c.weekdays, 0, 7, k.weekday))
  {
    if c.seconds.Some? {
      ParsedFieldCorrect(c.seconds.value, 0, 59, k.second);
    }
    ParsedFieldCorrect(c.minutes, 0, 59, k.minute);
    ParsedFieldCorrect(c.hours, 0, 23, k.hour);
    ParsedFieldCorrect(c.months, 1, 12, k.month);
    ParsedFieldCorrect(c.days, 1, 31, k.day);
    ParsedFieldCorrect(c.weekdays, 0, 7, k.weekday);
  }

  /** An expression is accepted exactly when each field is acceptable within its own bounds; weekdays run to 7. */
  lemma ExpressionAcceptedIff(c: CronText)
    ensures ParseCronExpression(c).Some? <==>
            && (c.seconds.Some? ==> Acceptable(c.seconds.value, 0, 59))
            && Acceptable(c.minutes, 0, 59) && Acceptable(c.hours, 0, 23) && Acceptable(c.days, 1, 31)
            && Acceptable(c.months, 1, 12) && Acceptable(c.weekdays, 0, 7)
    ensures ParseCronExpression(c).Some? ==> ParseCronExpression(c).value.hasSeconds == c.seconds.Some?
  {
    if c.seconds.Some? { FieldAcceptedIff(c.seconds.value, 0, 59); }
    FieldAcceptedIff(c.minutes, 0, 59);
    FieldAcceptedIff(c.hours, 0, 23);
    FieldAcceptedIff(c.days, 1, 31);
    FieldAcceptedIff(c.months, 1, 12);
    FieldAcceptedIff(c.weekdays, 0, 7);
  }

  /** It runs on whole minutes, or on whole seconds when it has a seconds field. */
  lemma RunsOnWholeUnits(c: CronText, t: int)
    requires ParseCronExpression(c).Some?
    ensures Aligned(ParseCronExpression(c).value, t)
       <==> t % (if c.seconds.Some? then 1_000_000_000 else 60_000_000_000) == 0
  {
  }

  // Which expressions ever run.

  function MonthLength(month: int): int {
    if month == 2 then 29 else if month in {4, 6, 9, 11} then 30 else 31
  }

  /** The clock fields some instant of some year has. */
  predicate ValidClock(k: Clock) {
    && 0 <= k.second <= 59 && 0 <= k.minute <= 59 && 0 <= k.hour <= 23
    && 1 <= k.month <= 12 && 1 <= k.day <= MonthLength(k.month)
    && 0 <= k.weekday <= 6
  }

  /** The expression's month and day fields allow the date. */
  ghost predicate AllowsDate(c: CronText, month: int, day: int) {
    1 <= month <= 12 && 1 <= day <= MonthLength(month) && Denotes(c.months, 1, 12, month) && Denotes(c.days, 1, 31, day)
  }

  /** A weekday other than 7 is named. */
  ghost predicate NamesSomeWeekday(c: CronText) { exists w :: 0 <= w <= 6 && Denotes(c.weekdays, 0, 7, w) }

  /** A weekday other than 7 is named, or some date is allowed. */
  ghost predicate Satisfiable(c: CronText) {
    NamesSomeWeekday(c) || exists month, day :: AllowsDate(c, month, day)
  }

  ghost predicate SelectsClock(c: CronText, k: Clock)
    requires ParseCronExpression(c).Some?
  {
    ValidClock(k) && Matches(ParseCronExpression(c).value, k)
  }

  /** A clock with the given date and weekday that the time fields select. */
  lemma ClockWith(c: CronText, month: int, day: int, weekday: int) returns (k: Clock)
    requires ParseCronExpression(c).Some?
    requires 1 <= month <= 12 && 1 <= day <= MonthLength(month) && 0 <= weekday <= 6 && Denotes(c.months, 1, 12, month)
    requires Denotes(c.days, 1, 31, day) || Denotes(c.weekdays, 0, 7, weekday)
    ensures SelectsClock(c, k) && k.month == month && k.day == day && k.weekday == weekday
  {
    var second := 0;
    if c.seconds.Some? {
      second := FieldInhabited(c.seconds.value, 0, 59);
    }
    var minute := FieldInhabited(c.minutes, 0, 59);
    var hour := FieldInhabited(c.hours, 0, 23);
    k := Clock(second, minute, hour, day, month, weekday);
    ExpressionSelects(c, k);
  }

  /** An accepted expression selects some clock exactly when it names a weekday up to 6 or allows some date. */
  lemma RunsIff(c: CronText)
    requires ParseCronExpression(c).Some?
    ensures (exists k :: SelectsClock(c, k)) <==> Satisfiable(c)
  {
    if k :| SelectsClock(c, k) {
      ExpressionSelects(c, k);
      assert AllowsDate(c, k.month, k.day) || Denotes(c.weekdays, 0, 7, k.weekday);
    }
    if NamesSomeWeekday(c) {
      var w :| 0 <= w <= 6 && Denotes(c.weekdays, 0, 7, w);
      var month := FieldInhabited(c.months, 1, 12);
      var k := ClockWith(c, month, 1, w);
    }
    if month, day :| AllowsDate(c, month, day) {
      var k := ClockWith(c, month, day, 0);
    }
  }

  /** If it does neither, every search over real clocks returns the zero time. */
  lemma UnsatisfiableNeverRuns(c: CronText, from: int, calendar: int -> Clock, horizon: int)
    requires ParseCronExpression(c).Some? && !Satisfiable(c)
    requires forall t :: InWindow(ParseCronExpression(c).value, from, horizon, t) ==> ValidClock(calendar(t))
    ensures !Found(ParseCronExpression(c).value, from, calendar, horizon)
  {
    var s := ParseCronExpression(c).value;
    RunsIff(c);
    forall t | InWindow(s, from, horizon, t)
      ensures !Matches(s, calendar(t))
    {
      assert !SelectsClock(c, calendar(t));
    }
  }

  /** Such an expression is accepted: 30 February with weekday 7. */
  lemma FebruaryThirtiethNeverRuns()
    ensures var c := CronText(None, Single(0), Single(0), Single(30), Single(2), Single(7));
      ParseCronExpression(c).Some? && !Satisfiable(c)
  {
  }

  // When the search succeeds.

  predicate LeapDay(k: Clock) { k.month == 2 && k.day == 29 }

  /** A valid clock an aligned instant can show. */
  predicate Reachable(s: Schedule, k: Clock) { ValidClock(k) && (!s.hasSeconds ==> k.second == 0) }

  /** The window shows the clock's time on its date, whatever weekday that is. */
  ghost predicate ShowsDate(s: Schedule, from: int, calendar: int -> Clock, horizon: int, k: Clock) {
    exists t :: InWindow(s, from, horizon, t) && calendar(t).(weekday := k.weekday) == k
  }

  /** The window shows the clock's time on its weekday in its month. */
  ghost predicate ShowsWeekday(s: Schedule, from: int, calendar: int -> Clock, horizon: int, k: Clock) {
    exists t :: InWindow(s, from, horizon, t) && calendar(t).(day := k.day) == k
  }

  /** The window shows valid clocks alone, every date but 29 February, and every weekday in every month, each at every
      time of day. */
  ghost predicate Covers(s: Schedule, from: int, calendar: int -> Clock, horizon: int) {
    && (forall t :: InWindow(s, from, horizon, t) ==> ValidClock(calendar(t)))
    && (forall k :: Reachable(s, k) && !LeapDay(k) ==> ShowsDate(s, from, calendar, horizon, k))
    && (forall k :: Reachable(s, k) ==> ShowsWeekday(s, from, calendar, horizon, k))
  }

  /** A date other than 29 February is allowed. */
  ghost predicate AllowsCommonDate(c: CronText) {
    exists month, day :: AllowsDate(c, month, day) && !(month == 2 && day == 29)
  }

  /** A selected instant of a 29 February lies in the window. */
  ghost predicate LeapDayDue(s: Schedule, from: int, calendar: int -> Clock, horizon: int) {
    exists t :: InWindow(s, from, horizon, t) && LeapDay(calendar(t)) && Matches(s, calendar(t))
  }

  /** The search over such a window succeeds exactly when the expression names a weekday up to 6, or allows a date other
      than 29 February, or a selected 29 February lies in the window. */
  lemma SearchFindsIff(c: CronText, s: Schedule, from: int, calendar: int -> Clock, horizon: int)
    requires ParseCronExpression(c) == Some(s) && Covers(s, from, calendar, horizon)
    ensures Found(s, from, calendar, horizon)
       <==> NamesSomeWeekday(c) || AllowsCommonDate(c) || LeapDayDue(s, from, calendar, horizon)
  {
    if NamesSomeWeekday(c) {
      WeekdayFound(c, s, from, calendar, horizon);
    } else if AllowsCommonDate(c) {
      DateFound(c, s, from, calendar, horizon);
    } else if t :| InWindow(s, from, horizon, t) && Matches(s, calendar(t)) {
      ExpressionSelects(c, calendar(t));
      assert AllowsDate(c, calendar(t).month, calendar(t).day);
      assert LeapDay(calendar(t));
    }
  }

  lemma WeekdayFound(c: CronText, s: Schedule, from: int, calendar: int -> Clock, horizon: int)
    requires ParseCronExpression(c) == Some(s) && Covers(s, from, calendar, horizon) && NamesSomeWeekday(c)
    ensures Found(s, from, calendar, horizon)
  {
    var w :| 0 <= w <= 6 && Denotes(c.weekdays, 0, 7, w);
    var month := FieldInhabited(c.months, 1, 12);
    var k := ClockWith(c, month, 1, w);
    ExpressionSelects(c, k);
    assert Reachable(s, k) && ShowsWeekday(s, from, calendar, horizon, k);
    var t :| InWindow(s, from, horizon, t) && calendar(t).(day := k.day) == k;
    ExpressionSelects(c, calendar(t));
  }

  lemma DateFound(c: CronText, s: Schedule, from: int, calendar: int -> Clock, horizon: int)
    requires ParseCronExpression(c) == Some(s) && Covers(s, from, calendar, horizon) && AllowsCommonDate(c)
    ensures Found(s, from, calendar, horizon)
  {
    var month, day :| AllowsDate(c, month, day) && !(month == 2 && day == 29);
    var k := ClockWith(c, month, day, 0);
    ExpressionSelects(c, k);
    assert Reachable(s, k) && ShowsDate(s, from, calendar, horizon, k);
    var t :| InWindow(s, from, horizon, t) && calendar(t).(weekday := k.weekday) == k;
    ExpressionSelects(c, calendar(t));
  }

  // The weekday field.

  /** The documented reading of a weekday field: 0 and 7 are both Sunday. */
  ghost predicate NamesWeekday(f: FieldText, weekday: int) {
    Denotes(f, 0, 7, weekday) || (weekday == 0 && Denotes(f, 0, 7, 7))
  }

  ghost predicate ReadsWeekday(f: FieldText, weekday: int)
    requires ParseField(f, 0, 7).Some?
  {
    MatchesField(ParseField(f, 0, 7).value, weekday) <==> NamesWeekday(f, weekday)
  }

  /** The weekday field follows that reading on every day of the week exactly when it does not name 7 or names 0 too. */
  lemma SundayReadingIff(f: FieldText)
    requires ParseField(f, 0, 7).Some?
    ensures (forall w :: 0 <= w <= 6 ==> ReadsWeekday(f, w)) <==> !Denotes(f, 0, 7, 7) || Denotes(f, 0, 7, 0)
  {
    forall w | 0 <= w <= 6
      ensures ReadsWeekday(f, w) <==> !(w == 0 && Denotes(f, 0, 7, 7) && !Denotes(f, 0, 7, 0))
    {
      ParsedFieldCorrect(f, 0, 7, w);
    }
    assert ReadsWeekday(f, 0) <==> !(Denotes(f, 0, 7, 7) && !Denotes(f, 0, 7, 0));
  }

  predicate MatchesOn(s: Schedule, weekdays: Matcher, k: Clock) { Matches(s.(weekdays := weekdays), k) }

  /** Everything but day and weekday. */
  predicate TimeAndMonthMatch(s: Schedule, k: Clock) {
    && MatchesField(s.seconds, k.second) && MatchesField(s.minutes, k.minute)
    && MatchesField(s.hours, k.hour) && MatchesField(s.months, k.month)
  }

  /** Whatever the weekday field says makes no difference at a clock exactly when another field fails there or the day
      of month already matches; in particular `0 9 * * 1` runs daily. */
  lemma WeekdayIrrelevantIff(s: Schedule, k: Clock)
    ensures (forall m :: MatchesOn(s, m, k) == Matches(s, k))
       <==> !TimeAndMonthMatch(s, k) || MatchesField(s.days, k.day)
  {
    assert MatchesOn(s, Wildcard, k) <==> TimeAndMonthMatch(s, k);
    assert MatchesOn(s, Between(1, 0), k) <==> TimeAndMonthMatch(s, k) && MatchesField(s.days, k.day);
  }
}
