/**
 * Broken-down times, `timegm` and the date-math operations. Years and counts are unbounded integers,
 * `gmtime_r` is the inverse of `timegm`, and fractional seconds are reals that order the instants
 * within one second.
 */
module DateMath {
  import opened Wrappers
  import opened Calendar

  const DATETIME_EPOCH_ORD := 719163
  const DATETIME_MAX_FSEC := 0.999999
  const DAY := 86400

  datatype DateTime = DateTime(year: int, mon: int, day: int, hour: int, min: int, sec: int, fsec: real)

  datatype Unit = Year | Month | Week | Day | Hour | Minute | Second

  /** `+n`, `-n`, `/` (to the end of the unit) and `//` (to its beginning). */
  datatype Op = Plus(n: nat) | Minus(n: nat) | Up | Down

  function DateOfTime(dt: DateTime): Date {
    Date(dt.year, dt.mon, dt.day)
  }

  /** A normalised date-time, in any year. */
  predicate Proper(dt: DateTime) {
    && OnCalendar(DateOfTime(dt))
    && 0 <= dt.hour < 24 && 0 <= dt.min < 60 && 0 <= dt.sec < 60
    && 0.0 <= dt.fsec <= DATETIME_MAX_FSEC
  }

  // ----- seconds since the epoch

  function DayNumber(dt: DateTime): int
    requires 1 <= dt.mon <= 12
  {
    Ordinal(dt.year, dt.mon, 1) + dt.day - 1
  }

  function Clock(dt: DateTime): int {
    dt.hour * 3600 + dt.min * 60 + dt.sec
  }

  function Seconds(dt: DateTime): int
    requires 1 <= dt.mon <= 12
  {
    (DayNumber(dt) - DATETIME_EPOCH_ORD) * DAY + Clock(dt)
  }

  function DayAt(t: int): int {
    t / DAY + DATETIME_EPOCH_ORD
  }

  function WeekDay(t: int): (r: int)
    ensures 0 <= r < 7
  {
    DayAt(t) % 7
  }

  /** `gmtime_r`, with the fraction kept beside it. */
  function FromSeconds(t: int, fsec: real): DateTime {
    var d, s := DateOf(DayAt(t)), t % DAY;
    DateTime(d.year, d.month, d.day, s / 3600, s % 3600 / 60, s % 60, fsec)
  }

  lemma ClockParts(s: int)
    requires 0 <= s < DAY
    ensures 0 <= s / 3600 < 24 && 0 <= s % 3600 / 60 < 60 && 0 <= s % 60 < 60
    ensures s / 3600 * 3600 + s % 3600 / 60 * 60 + s % 60 == s
  {
  }

  lemma FromSecondsProper(t: int, fsec: real)
    requires 0.0 <= fsec <= DATETIME_MAX_FSEC
    ensures Proper(FromSeconds(t, fsec)) && Seconds(FromSeconds(t, fsec)) == t
    ensures DayNumber(FromSeconds(t, fsec)) == DayAt(t)
  {
    hide DateOf, Ordinal;
    ClockParts(t % DAY);
    DateOfNumber(DayAt(t));
    SameNumber(FromSeconds(t, fsec));
  }

  lemma SameNumber(dt: DateTime)
    requires OnCalendar(DateOfTime(dt))
    ensures DayNumber(dt) == Number(DateOfTime(dt))
  {
  }

  lemma ClockUnique(h: int, m: int, s: int)
    requires 0 <= h < 24 && 0 <= m < 60 && 0 <= s < 60
    ensures var c := h * 3600 + m * 60 + s; 0 <= c < DAY && c / 3600 == h && c % 3600 / 60 == m && c % 60 == s
  {
  }

  lemma DayOfSeconds(day: int, c: int)
    requires 0 <= c < DAY
    ensures var t := (day - DATETIME_EPOCH_ORD) * DAY + c; DayAt(t) == day && t % DAY == c
  {
  }

  /** `timegm` and `gmtime_r` undo each other; so `timegm` is injective on normalised date-times. */
  lemma SecondsRoundTrip(dt: DateTime)
    requires Proper(dt)
    ensures FromSeconds(Seconds(dt), dt.fsec) == dt
    ensures DayAt(Seconds(dt)) == Number(DateOfTime(dt)) && Seconds(dt) % DAY == Clock(dt)
  {
    hide DateOf, Ordinal, Number;
    SameNumber(dt);
    ClockUnique(dt.hour, dt.min, dt.sec);
    DayOfSeconds(DayNumber(dt), Clock(dt));
    DateOfUnique(DateOfTime(dt));
  }

  lemma TimegmInjective(a: DateTime, b: DateTime)
    requires Proper(a) && Proper(b) && Seconds(a) == Seconds(b) && a.fsec == b.fsec
    ensures a == b
  {
    hide Proper, Seconds, FromSeconds;
    SecondsRoundTrip(a);
    SecondsRoundTrip(b);
  }

  // ----- months

  function Normalized(year: int, mon: int): (int, int) {
    if mon > 12 then (year + mon / 12, mon % 12) else (year + (mon - 1) / 12, (mon - 1) % 12 + 1)
  }

  /**
   * Normalising keeps 12 * year + month. The month it leaves is a month of the calendar unless it
   * was a multiple of 12 beyond 12: those come out as month 0, which every later step rejects.
   */
  lemma NormalizedMonths(year: int, mon: int)
    ensures var (y, m) := Normalized(year, mon); 12 * y + m == 12 * year + mon && 0 <= m <= 12
    ensures Normalized(year, mon).1 == 0 <==> mon > 12 && mon % 12 == 0
    ensures 1 <= mon <= 12 ==> Normalized(year, mon) == (year, mon)
  {
  }

  /** `timegm(tm_t&)`: None where it throws. */
  function Timegm(dt: DateTime): Option<int> {
    var (y, m) := Normalized(dt.year, dt.mon);
    if y < 1 || m < 1 || m > 12 then None else Some(Seconds(dt.(year := y, mon := m)))
  }

  lemma TimegmProper(dt: DateTime)
    requires 1 <= dt.mon <= 12
    ensures Timegm(dt) == if dt.year < 1 then None else Some(Seconds(dt))
  {
    hide Seconds;
    NormalizedMonths(dt.year, dt.mon);
  }

  // ----- the zero of the count

  lemma EpochNumber(year: int)
    requires year == 1970
    ensures OnCalendar(Date(year, 1, 1)) && Number(Date(year, 1, 1)) == DATETIME_EPOCH_ORD
  {
  }

  /**
   * `timegm` counts from the beginning of January 1, 1970: a date reached by walking `n` days from there,
   * forwards or backwards, has 86400 seconds for each of them and those of its time of day.
   */
  lemma TimegmCounts(dt: DateTime, n: int)
    requires Proper(dt) && dt.year >= 1
    requires OnCalendar(Date(1970, 1, 1)) && DateOfTime(dt) == Walked(Date(1970, 1, 1), n)
    ensures Timegm(dt) == Some(n * 86400 + dt.hour * 3600 + dt.min * 60 + dt.sec)
  {
    hide Walked, Ordinal, Number, OnCalendar, DaysInMonth;
    EpochNumber(1970);
    WalkedNumber(Date(1970, 1, 1), n);
    SameNumber(dt);
    ProperMonth(dt);
    TimegmProper(dt);
  }

  lemma ProperMonth(dt: DateTime)
    requires Proper(dt)
    ensures 1 <= dt.mon <= 12
  {
  }

  /** Every date is reached by such a walk, of as many days as `timegm` says. */
  lemma EpochWalk(dt: DateTime)
    requires Proper(dt)
    ensures OnCalendar(Date(1970, 1, 1)) && Walked(Date(1970, 1, 1), Seconds(dt) / DAY) == DateOfTime(dt)
  {
    hide Walked, Ordinal, Number, OnCalendar, DaysInMonth;
    EpochNumber(1970);
    ProperMonth(dt);
    SecondsRoundTrip(dt);
    WalkedNumber(Date(1970, 1, 1), Seconds(dt) / DAY);
    NumberInjective(Walked(Date(1970, 1, 1), Seconds(dt) / DAY), DateOfTime(dt));
  }

  /** Days of the week follow one another, and the first day is a Thursday. */
  lemma WeekDays(t: int)
    ensures WeekDay(t + DAY) == (WeekDay(t) + 1) % 7
    ensures 0 <= t < DAY ==> WeekDay(t) == 4
  {
    hide DayAt;
    NextDayAt(t);
    var d := DayAt(t);
    assert (d + 1) % 7 == (d % 7 + 1) % 7;
  }

  lemma NextDayAt(t: int)
    ensures DayAt(t + DAY) == DayAt(t) + 1
    ensures 0 <= t < DAY ==> DayAt(t) == DATETIME_EPOCH_ORD
  {
  }

  // ----- the operations

  function Clamp(dt: DateTime): Option<DateTime> {
    var (y, m) := Normalized(dt.year, dt.mon);
    if m < 1 || m > 12 then None else
      var max := DaysInMonth(y, m);
      Some(dt.(year := y, mon := m, day := if dt.day > max then max else dt.day))
  }

  function Moved(dt: DateTime, unit: Unit, n: int): Option<DateTime> {
    match unit
    case Year => Some(dt.(year := dt.year + n))
    case Month => Clamp(dt.(mon := dt.mon + n))
    case Week => Some(dt.(day := dt.day + 7 * n))
    case Day => Some(dt.(day := dt.day + n))
    case Hour => Some(dt.(hour := dt.hour + n))
    case Minute => Some(dt.(min := dt.min + n))
    case Second => Some(dt.(sec := dt.sec + n))
  }

  function DayEnd(dt: DateTime): DateTime {
    dt.(hour := 23, min := 59, sec := 59, fsec := DATETIME_MAX_FSEC)
  }

  function DayBegin(dt: DateTime): DateTime {
    dt.(hour := 0, min := 0, sec := 0, fsec := 0.0)
  }

  function RoundedUp(dt: DateTime, unit: Unit): Option<DateTime> {
    match unit
    case Year => Some(DayEnd(dt.(mon := 12, day := DaysInMonth(dt.year, 12))))
    case Month => if dt.mon < 1 || dt.mon > 12 then None else Some(DayEnd(dt.(day := DaysInMonth(dt.year, dt.mon))))
    case Week =>
      var t := Timegm(dt);
      if t.None? then None else
        var (y, m) := Normalized(dt.year, dt.mon);
        Some(DayEnd(dt.(year := y, mon := m, day := dt.day + 6 - WeekDay(t.value))))
    case Day => Some(DayEnd(dt))
    case Hour => Some(dt.(min := 59, sec := 59, fsec := DATETIME_MAX_FSEC))
    case Minute => Some(dt.(sec := 59, fsec := DATETIME_MAX_FSEC))
    case Second => Some(dt.(fsec := DATETIME_MAX_FSEC))
  }

  function RoundedDown(dt: DateTime, unit: Unit): Option<DateTime> {
    match unit
    case Year => Some(DayBegin(dt.(mon := 1, day := 1)))
    case Month => Some(DayBegin(dt.(day := 1)))
    case Week =>
      var t := Timegm(dt);
      if t.None? then None else
        var (y, m) := Normalized(dt.year, dt.mon);
        Some(DayBegin(dt.(year := y, mon := m, day := dt.day - WeekDay(t.value))))
    case Day => Some(DayBegin(dt))
    case Hour => Some(dt.(min := 0, sec := 0, fsec := 0.0))
    case Minute => Some(dt.(sec := 0, fsec := 0.0))
    case Second => Some(dt.(fsec := 0.0))
  }

  function Adjusted(dt: DateTime, op: Op, unit: Unit): Option<DateTime> {
    match op
    case Plus(n) => Moved(dt, unit, n)
    case Minus(n) => Moved(dt, unit, 0 - n)
    case Up => RoundedUp(dt, unit)
    case Down => RoundedDown(dt, unit)
  }

  /** The last step of every operation: to seconds and back. */
  function Settled(dt: DateTime): Option<DateTime> {
    var t := Timegm(dt);
    if t.None? then None else Some(FromSeconds(t.value, dt.fsec))
  }

  /** `computeDateMath`: None where it throws. */
  function Compute(dt: DateTime, op: Op, unit: Unit): Option<DateTime> {
    var r := Adjusted(dt, op, unit);
    if r.None? then None else Settled(r.value)
  }

  lemma SettledIs(dt: DateTime)
    requires 1 <= dt.mon <= 12
    ensures Settled(dt) == if dt.year < 1 then None else Some(FromSeconds(Seconds(dt), dt.fsec))
  {
    hide Seconds, FromSeconds;
    TimegmProper(dt);
  }

  // ----- shifts

  function Size(unit: Unit): int
    requires !unit.Year? && !unit.Month?
  {
    match unit
    case Week => 7 * DAY
    case Day => DAY
    case Hour => 3600
    case Minute => 60
    case Second => 1
  }

  lemma MovedSeconds(dt: DateTime, unit: Unit, n: int)
    requires 1 <= dt.mon <= 12 && !unit.Year? && !unit.Month?
    ensures Moved(dt, unit, n).Some? && Moved(dt, unit, n).value.mon == dt.mon
    ensures Seconds(Moved(dt, unit, n).value) == Seconds(dt) + n * Size(unit)
  {
    hide Ordinal;
  }

  function Signed(n: int): Op {
    if n >= 0 then Plus(n) else Minus(-n)
  }

  /** `+n` and `-n` shift the instant by exactly n units. */
  lemma Shifts(dt: DateTime, unit: Unit, n: int)
    requires Proper(dt) && dt.year >= 1 && !unit.Year? && !unit.Month?
    ensures Compute(dt, Signed(n), unit) == Some(FromSeconds(Seconds(dt) + n * Size(unit), dt.fsec))
    ensures var r := Compute(dt, Signed(n), unit).value; Proper(r) && Seconds(r) == Seconds(dt) + n * Size(unit)
  {
    hide Ordinal, Seconds, FromSeconds, Settled, Size;
    MovedSeconds(dt, unit, n);
    SettledIs(Moved(dt, unit, n).value);
    FromSecondsProper(Seconds(dt) + n * Size(unit), dt.fsec);
  }

  /** The first second of year 1. */
  const FIRST_SECOND := (1 - DATETIME_EPOCH_ORD) * DAY

  lemma SecondsYear(t: int, fsec: real)
    ensures FromSeconds(t, fsec).year >= 1 <==> t >= FIRST_SECOND
  {
    hide DateOf, Number;
    DateOfNumber(DayAt(t));
    YearIsPositive(DateOf(DayAt(t)));
  }

  /**
   * A shift is undone by the opposite shift if and only if the instant it leads to is not before
   * year 1; otherwise the opposite shift throws.
   */
  lemma ShiftUndone(dt: DateTime, unit: Unit, n: int)
    requires Proper(dt) && dt.year >= 1 && !unit.Year? && !unit.Month?
    ensures var r := Compute(dt, Signed(n), unit);
            && r.Some?
            && Compute(r.value, Signed(-n), unit) ==
               if Seconds(dt) + n * Size(unit) >= FIRST_SECOND then Some(dt) else None
  {
    hide Ordinal, Seconds, FromSeconds, Settled, Size, Compute;
    Shifts(dt, unit, n);
    var r := Compute(dt, Signed(n), unit).value;
    SecondsYear(Seconds(dt) + n * Size(unit), dt.fsec);
    if r.year >= 1 {
      Shifts(r, unit, -n);
      Negated(n, Size(unit));
      SecondsRoundTrip(dt);
      FromSecondsKeeps(Seconds(dt) + n * Size(unit), dt.fsec);
    } else {
      ShiftRejected(r, unit, -n);
    }
  }

  lemma Negated(n: int, k: int)
    ensures -n * k == -(n * k)
  {
  }

  lemma FromSecondsKeeps(t: int, fsec: real)
    ensures FromSeconds(t, fsec).fsec == fsec
  {
  }

  lemma ShiftRejected(dt: DateTime, unit: Unit, n: int)
    requires 1 <= dt.mon <= 12 && dt.year < 1 && !unit.Year? && !unit.Month?
    ensures Compute(dt, Signed(n), unit) == None
  {
    hide Seconds, FromSeconds;
    TimegmProper(Moved(dt, unit, n).value);
  }

  /**
   * Shifting by months moves the month count by exactly n and clamps the day to the month. It throws
   * exactly when the sum is a multiple of 12 beyond 12 (December of a later year), or before year 1.
   */
  lemma MonthShift(dt: DateTime, n: int)
    requires Proper(dt) && dt.year >= 1
    ensures var r, mon := Compute(dt, Signed(n), Month), dt.mon + n;
            && (r.None? <==> (mon > 12 && mon % 12 == 0) || 12 * dt.year + mon < 13)
            && (r.Some? ==>
                  && Proper(r.value)
                  && 12 * r.value.year + r.value.mon == 12 * dt.year + mon
                  && r.value.day == (if dt.day <= DaysInMonth(r.value.year, r.value.mon) then dt.day
                                     else DaysInMonth(r.value.year, r.value.mon))
                  && Clock(r.value) == Clock(dt) && r.value.fsec == dt.fsec)
  {
    hide DaysInMonth, Seconds, FromSeconds, Settled;
    NormalizedMonths(dt.year, dt.mon + n);
    var c := Clamp(dt.(mon := dt.mon + n));
    if c.Some? {
      SettledIs(c.value);
      SecondsRoundTrip(c.value);
    }
  }

  /** January and 23 months should be December of the next year, and throws, in every year. */
  lemma DecemberThrows(dt: DateTime)
    requires Proper(dt) && dt.year >= 1 && dt.mon == 1
    ensures Compute(dt, Plus(23), Month) == None
  {
    hide Compute, Seconds, Proper, Clock;
    MonthShift(dt, 23);
  }

  /**
   * A shift by years keeps everything else, except that February 29 becomes March 1 in a year that has
   * none; it throws exactly before year 1.
   */
  lemma YearShift(dt: DateTime, n: int)
    requires Proper(dt) && dt.year >= 1
    ensures Compute(dt, Signed(n), Year) ==
            if dt.year + n < 1 then None
            else if dt.mon == 2 && dt.day == 29 && !IsLeapYear(dt.year + n) then
              Some(dt.(year := dt.year + n, mon := 3, day := 1))
            else Some(dt.(year := dt.year + n))
  {
    hide Seconds, FromSeconds, Settled;
    var r := dt.(year := dt.year + n);
    SettledIs(r);
    if Proper(r) {
      SecondsRoundTrip(r);
    } else {
      var s := r.(mon := 3, day := 1);
      LeapDay(r, s);
      SecondsRoundTrip(s);
    }
  }

  lemma LeapDay(r: DateTime, s: DateTime)
    requires r.mon == 2 && r.day == 29 && !IsLeapYear(r.year) && s == r.(mon := 3, day := 1)
    ensures Seconds(r) == Seconds(s)
  {
    hide YearStart;
  }

  // ----- rounding

  predicate NotAfter(a: DateTime, b: DateTime)
    requires Proper(a) && Proper(b)
  {
    Seconds(a) < Seconds(b) || (Seconds(a) == Seconds(b) && a.fsec <= b.fsec)
  }

  /** Weeks begin on Sunday, the weekday whose day numbers are multiples of 7. */
  predicate SameUnit(unit: Unit, a: DateTime, b: DateTime)
    requires Proper(a) && Proper(b)
  {
    match unit
    case Year => a.year == b.year
    case Month => a.year == b.year && a.mon == b.mon
    case Week => DayNumber(a) / 7 == DayNumber(b) / 7
    case Day => DateOfTime(a) == DateOfTime(b)
    case Hour => DateOfTime(a) == DateOfTime(b) && a.hour == b.hour
    case Minute => DateOfTime(a) == DateOfTime(b) && a.hour == b.hour && a.min == b.min
    case Second => DateOfTime(a) == DateOfTime(b) && Clock(a) == Clock(b)
  }

  // The first and the last day of the unit.

  function FirstDay(dt: DateTime, unit: Unit): int
    requires Proper(dt)
  {
    match unit
    case Year => YearStart(dt.year) + 1
    case Month => Ordinal(dt.year, dt.mon, 1)
    case Week => DayNumber(dt) - DayNumber(dt) % 7
    case _ => DayNumber(dt)
  }

  function LastDay(dt: DateTime, unit: Unit): int
    requires Proper(dt)
  {
    match unit
    case Year => YearStart(dt.year + 1)
    case Month => Ordinal(dt.year, dt.mon, 1) + DaysInMonth(dt.year, dt.mon) - 1
    case Week => DayNumber(dt) - DayNumber(dt) % 7 + 6
    case _ => DayNumber(dt)
  }

  // The first and the last second of those days.

  function FirstClock(dt: DateTime, unit: Unit): int {
    match unit
    case Hour => dt.hour * 3600
    case Minute => dt.hour * 3600 + dt.min * 60
    case Second => Clock(dt)
    case _ => 0
  }

  function LastClock(dt: DateTime, unit: Unit): int {
    match unit
    case Hour => dt.hour * 3600 + 3599
    case Minute => dt.hour * 3600 + dt.min * 60 + 59
    case Second => Clock(dt)
    case _ => DAY - 1
  }

  function At(day: int, clock: int): int {
    (day - DATETIME_EPOCH_ORD) * DAY + clock
  }

  lemma YearDays(year: int)
    ensures Ordinal(year, 1, 1) == YearStart(year) + 1
    ensures Ordinal(year, 12, 1) + DaysInMonth(year, 12) - 1 == YearStart(year + 1)
  {
    hide YearStart, DaysInMonth;
    MonthStep(year, 12);
    YearStep(year);
  }

  lemma WeekDayIs(dt: DateTime)
    requires Proper(dt)
    ensures WeekDay(Seconds(dt)) == DayNumber(dt) % 7
  {
    hide DayNumber, Clock, Seconds;
    SecondsRoundTrip(dt);
    SameNumber(dt);
  }

  lemma DownSeconds(dt: DateTime, unit: Unit)
    requires Proper(dt) && dt.year >= 1
    ensures RoundedDown(dt, unit).Some?
    ensures var r := RoundedDown(dt, unit).value;
            r.year == dt.year && 1 <= r.mon <= 12 && r.fsec == 0.0 && Seconds(r) == At(FirstDay(dt, unit), FirstClock(dt, unit))
  {
    hide Ordinal, DaysInMonth, WeekDay, YearStart;
    YearDays(dt.year);
    WeekDayIs(dt);
    TimegmProper(dt);
    NormalizedMonths(dt.year, dt.mon);
  }

  lemma UpSeconds(dt: DateTime, unit: Unit)
    requires Proper(dt) && dt.year >= 1
    ensures RoundedUp(dt, unit).Some?
    ensures var r := RoundedUp(dt, unit).value;
            && r.year == dt.year && 1 <= r.mon <= 12 && r.fsec == DATETIME_MAX_FSEC
            && Seconds(r) == At(LastDay(dt, unit), LastClock(dt, unit))
  {
    hide Ordinal, DaysInMonth, WeekDay, YearStart;
    YearDays(dt.year);
    WeekDayIs(dt);
    TimegmProper(dt);
    NormalizedMonths(dt.year, dt.mon);
  }

  lemma DownIs(dt: DateTime, unit: Unit)
    requires Proper(dt) && dt.year >= 1
    ensures var r := Compute(dt, Down, unit);
            r.Some? && Proper(r.value) && r.value.fsec == 0.0 && Seconds(r.value) == At(FirstDay(dt, unit), FirstClock(dt, unit))
  {
    hide Proper, Seconds, FromSeconds, Settled, FirstDay, FirstClock, At, RoundedDown;
    DownSeconds(dt, unit);
    var r := RoundedDown(dt, unit).value;
    SettledIs(r);
    FromSecondsProper(Seconds(r), 0.0);
    FromSecondsKeeps(Seconds(r), 0.0);
  }

  lemma UpIs(dt: DateTime, unit: Unit)
    requires Proper(dt) && dt.year >= 1
    ensures var r := Compute(dt, Up, unit);
            && r.Some? && Proper(r.value) && r.value.fsec == DATETIME_MAX_FSEC
            && Seconds(r.value) == At(LastDay(dt, unit), LastClock(dt, unit))
  {
    hide Proper, Seconds, FromSeconds, Settled, LastDay, LastClock, At, RoundedUp;
    UpSeconds(dt, unit);
    var r := RoundedUp(dt, unit).value;
    SettledIs(r);
    FromSecondsProper(Seconds(r), DATETIME_MAX_FSEC);
    FromSecondsKeeps(Seconds(r), DATETIME_MAX_FSEC);
  }

  lemma YearSpan(dt: DateTime, e: DateTime)
    requires Proper(dt) && Proper(e)
    ensures dt.year == e.year <==> YearStart(dt.year) + 1 <= DayNumber(e) <= YearStart(dt.year + 1)
  {
    hide YearStart, Number;
    InYear(DateOfTime(e));
    SameNumber(e);
    if e.year < dt.year {
      YearGrows(e.year + 1, dt.year);
    } else if dt.year < e.year {
      YearGrows(dt.year + 1, e.year);
    }
  }

  lemma MonthSpan(dt: DateTime, e: DateTime)
    requires Proper(dt) && Proper(e)
    ensures dt.year == e.year && dt.mon == e.mon <==>
            Ordinal(dt.year, dt.mon, 1) <= DayNumber(e) < Ordinal(dt.year, dt.mon, 1) + DaysInMonth(dt.year, dt.mon)
  {
    hide YearStart, DaysBefore, DaysInMonth;
    var first, d := Date(dt.year, dt.mon, 1), DateOfTime(e);
    var last := first.(day := DaysInMonth(dt.year, dt.mon));
    if Earlier(d, first) {
      Increasing(d, first);
    } else if Earlier(last, d) {
      Increasing(last, d);
    }
  }

  lemma SameDate(dt: DateTime, e: DateTime)
    requires Proper(dt) && Proper(e)
    ensures DateOfTime(dt) == DateOfTime(e) <==> DayNumber(dt) == DayNumber(e)
  {
    hide Number, DayNumber;
    SameNumber(dt);
    SameNumber(e);
    if DayNumber(dt) == DayNumber(e) {
      NumberInjective(DateOfTime(dt), DateOfTime(e));
    }
  }

  lemma InUnit(dt: DateTime, e: DateTime, unit: Unit)
    requires Proper(dt) && Proper(e)
    ensures SameUnit(unit, dt, e) <==>
            && FirstDay(dt, unit) <= DayNumber(e) <= LastDay(dt, unit)
            && FirstClock(dt, unit) <= Clock(e) <= LastClock(dt, unit)
  {
    hide DayNumber, YearStart, Ordinal, DaysInMonth, OnCalendar;
    match unit
    case Year => YearSpan(dt, e);
    case Month => MonthSpan(dt, e);
    case Week =>
    case _ => SameDate(dt, e);
  }

  lemma Between(d0: int, c0: int, d: int, c: int, d1: int, c1: int)
    requires 0 <= c0 <= c1 < DAY && 0 <= c < DAY
    requires d0 == d1 || (c0 == 0 && c1 == DAY - 1)
    ensures At(d0, c0) <= At(d, c) <= At(d1, c1) <==> d0 <= d <= d1 && c0 <= c <= c1
  {
  }

  lemma UnitSeconds(dt: DateTime, e: DateTime, unit: Unit)
    requires Proper(dt) && Proper(e)
    ensures SameUnit(unit, dt, e) <==>
            At(FirstDay(dt, unit), FirstClock(dt, unit)) <= Seconds(e) <= At(LastDay(dt, unit), LastClock(dt, unit))
  {
    hide DayNumber, YearStart, Ordinal, DaysInMonth, SameUnit, At;
    InUnit(dt, e, unit);
    assert Seconds(e) == At(DayNumber(e), Clock(e)) by { SecondsAt(e); }
    Between(FirstDay(dt, unit), FirstClock(dt, unit), DayNumber(e), Clock(e), LastDay(dt, unit), LastClock(dt, unit));
  }

  lemma SecondsAt(dt: DateTime)
    requires 1 <= dt.mon <= 12
    ensures Seconds(dt) == At(DayNumber(dt), Clock(dt))
  {
  }

  /**
   * `//u` and `/u` give the first and the last instant of the unit: an instant lies between the two
   * if and only if it falls in the same year, month, week, day, hour, minute or second.
   */
  lemma RoundingBounds(dt: DateTime, e: DateTime, unit: Unit)
    requires Proper(dt) && dt.year >= 1 && Proper(e)
    ensures var lo, hi := Compute(dt, Down, unit), Compute(dt, Up, unit);
            && lo.Some? && Proper(lo.value) && hi.Some? && Proper(hi.value)
            && (SameUnit(unit, dt, e) <==> NotAfter(lo.value, e) && NotAfter(e, hi.value))
  {
    hide Compute, Seconds, FirstDay, LastDay, FirstClock, LastClock, At, SameUnit, OnCalendar;
    DownIs(dt, unit);
    UpIs(dt, unit);
    UnitSeconds(dt, e, unit);
  }

  lemma SameUnitItself(dt: DateTime, unit: Unit)
    requires Proper(dt)
    ensures SameUnit(unit, dt, dt)
  {
  }

  lemma SameUnitTrans(a: DateTime, b: DateTime, e: DateTime, unit: Unit)
    requires Proper(a) && Proper(b) && Proper(e) && SameUnit(unit, a, b)
    ensures SameUnit(unit, a, e) <==> SameUnit(unit, b, e)
  {
    hide DayNumber, OnCalendar;
    if unit.Second? {
      ClockUnique(a.hour, a.min, a.sec);
    }
  }

  /** The instant lies between its two roundings. */
  lemma RoundingEncloses(dt: DateTime, unit: Unit)
    requires Proper(dt) && dt.year >= 1
    ensures var lo, hi := Compute(dt, Down, unit), Compute(dt, Up, unit);
            && lo.Some? && Proper(lo.value) && hi.Some? && Proper(hi.value)
            && NotAfter(lo.value, dt) && NotAfter(dt, hi.value)
            && SameUnit(unit, dt, lo.value) && SameUnit(unit, dt, hi.value)
  {
    hide Compute, SameUnit, Proper, Seconds;
    SameUnitItself(dt, unit);
    RoundingBounds(dt, dt, unit);
    RoundingBounds(dt, Compute(dt, Down, unit).value, unit);
    RoundingBounds(dt, Compute(dt, Up, unit).value, unit);
  }

  /** Every instant of the unit rounds to the same two instants; so rounding is idempotent. */
  lemma RoundingAgrees(dt: DateTime, e: DateTime, unit: Unit)
    requires Proper(dt) && dt.year >= 1 && Proper(e) && e.year >= 1 && SameUnit(unit, dt, e)
    ensures Compute(e, Down, unit) == Compute(dt, Down, unit)
    ensures Compute(e, Up, unit) == Compute(dt, Up, unit)
  {
    hide Compute, SameUnit, Proper, Seconds;
    RoundingEncloses(dt, unit);
    RoundingEncloses(e, unit);
    var lo, hi := Compute(dt, Down, unit).value, Compute(dt, Up, unit).value;
    var lo', hi' := Compute(e, Down, unit).value, Compute(e, Up, unit).value;
    SameUnitTrans(dt, e, lo, unit);
    SameUnitTrans(dt, e, lo', unit);
    SameUnitTrans(dt, e, hi, unit);
    SameUnitTrans(dt, e, hi', unit);
    RoundingBounds(dt, lo', unit);
    RoundingBounds(dt, hi', unit);
    RoundingBounds(e, lo, unit);
    RoundingBounds(e, hi, unit);
    TimegmInjective(lo, lo');
    TimegmInjective(hi, hi');
  }

  /** The six days of year 1 before its first Sunday. */
  predicate BeforeFirstSunday(dt: DateTime) {
    dt.year == 1 && dt.mon == 1 && dt.day < 7
  }

  /** `//u` leaves year 1 exactly for a week that began before it. */
  lemma DownYear(dt: DateTime, unit: Unit)
    requires Proper(dt) && dt.year >= 1
    ensures Compute(dt, Down, unit).Some?
    ensures Compute(dt, Down, unit).value.year >= 1 <==> !(unit == Week && BeforeFirstSunday(dt))
  {
    hide Compute, Seconds, YearStart, DaysBefore, DaysInMonth;
    DownIs(dt, unit);
    var r := Compute(dt, Down, unit).value;
    DayOfSeconds(FirstDay(dt, unit), FirstClock(dt, unit));
    SecondsRoundTrip(r);
    YearIsPositive(DateOfTime(r));
    FirstDayPositive(dt, unit);
  }

  lemma FirstDayPositive(dt: DateTime, unit: Unit)
    requires Proper(dt) && dt.year >= 1
    ensures FirstDay(dt, unit) >= 1 <==> !(unit == Week && BeforeFirstSunday(dt))
  {
    hide Number, Ordinal, YearStart, DaysInMonth, DayNumber;
    SameNumber(dt);
    YearIsPositive(DateOfTime(dt));
    match unit
    case Year =>
      YearDays(dt.year);
      FirstOfMonth(dt.year, 1);
    case Month => FirstOfMonth(dt.year, dt.mon);
    case Week => SeventhDay(DateOfTime(dt));
    case _ =>
  }

  lemma FirstOfMonth(year: int, month: int)
    requires year >= 1 && 1 <= month <= 12
    ensures Ordinal(year, month, 1) >= 1
  {
    hide YearStart, DaysBefore, DaysInMonth;
    YearIsPositive(Date(year, month, 1));
  }

  lemma SeventhDay(d: Date)
    requires IsValidDate(d)
    ensures Number(d) < 7 <==> d.year == 1 && d.month == 1 && d.day < 7
  {
    hide YearStart, DaysBefore, DaysInMonth, Leap;
    var seventh := Date(1, 1, 7);
    assert OnCalendar(seventh) && Number(seventh) == 7 by { Seventh(); }
    if Earlier(d, seventh) {
      Increasing(d, seventh);
    } else if Earlier(seventh, d) {
      Increasing(seventh, d);
    }
  }

  lemma Seventh()
    ensures OnCalendar(Date(1, 1, 7)) && Number(Date(1, 1, 7)) == 7
  {
  }

  /**
   * Rounding twice is rounding once, whichever way each goes. The one exception is a week rounded down
   * in the six days of year 1 before its first Sunday: that leads to year 0, where the second operation
   * throws.
   */
  lemma RoundingIdempotent(dt: DateTime, unit: Unit)
    requires Proper(dt) && dt.year >= 1
    ensures var lo, hi := Compute(dt, Down, unit), Compute(dt, Up, unit);
            && lo.Some? && hi.Some? && hi.value.year >= 1
            && Compute(hi.value, Down, unit) == lo && Compute(hi.value, Up, unit) == hi
            && (if unit == Week && BeforeFirstSunday(dt)
                then Compute(lo.value, Down, unit) == None && Compute(lo.value, Up, unit) == None
                else Compute(lo.value, Down, unit) == lo && Compute(lo.value, Up, unit) == hi)
  {
    hide Compute, SameUnit, Proper, Seconds;
    RoundingEncloses(dt, unit);
    var lo, hi := Compute(dt, Down, unit).value, Compute(dt, Up, unit).value;
    LaterYear(dt, hi);
    RoundingAgrees(dt, hi, unit);
    DownYear(dt, unit);
    if lo.year >= 1 {
      RoundingAgrees(dt, lo, unit);
    } else {
      RoundingRejected(dt, lo, unit);
    }
  }

  /** On January 1 of year 1 both go wrong: the week rounded down, and a day subtracted. */
  lemma FirstOfJanuary(dt: DateTime)
    requires dt == DateTime(1, 1, 1, 0, 0, 0, 0.0)
    ensures Proper(dt)
    ensures var w := Compute(dt, Down, Week); w.Some? && Compute(w.value, Down, Week) == None
    ensures var d := Compute(dt, Minus(1), Day); d.Some? && Compute(d.value, Plus(1), Day) == None
  {
    hide Compute, Seconds;
    RoundingIdempotent(dt, Week);
    ShiftUndone(dt, Day, -1);
    FirstSecond(dt);
  }

  lemma FirstSecond(dt: DateTime)
    requires dt == DateTime(1, 1, 1, 0, 0, 0, 0.0)
    ensures Proper(dt) && Seconds(dt) == FIRST_SECOND
  {
    hide Seconds, Number;
    DayOne();
    SecondsRoundTrip(dt);
  }

  lemma LaterYear(a: DateTime, b: DateTime)
    requires Proper(a) && Proper(b) && a.year >= 1 && NotAfter(a, b)
    ensures b.year >= 1
  {
    hide DayNumber, Clock, OnCalendar, Number;
    SecondsRoundTrip(a);
    SecondsRoundTrip(b);
    YearIsPositive(DateOfTime(a));
    YearIsPositive(DateOfTime(b));
  }

  lemma RoundingRejected(dt: DateTime, lo: DateTime, unit: Unit)
    requires Proper(dt) && dt.year >= 1 && Proper(lo) && lo.year < 1 && SameUnit(unit, dt, lo)
    ensures unit == Week && Compute(lo, Down, unit) == None && Compute(lo, Up, unit) == None
  {
    hide Seconds, FromSeconds, DayNumber;
    TimegmProper(lo);
  }

  // ----- the operations on a broken-down time in place

  class Tm {
    var year: int
    var mon: int
    var day: int
    var hour: int
    var min: int
    var sec: int
    var fsec: real

    ghost function Value(): DateTime
      reads this
    {
      DateTime(year, mon, day, hour, min, sec, fsec)
    }

    method NormalizeMonths()
      modifies this`year, this`mon
      ensures (year, mon) == Normalized(old(year), old(mon))
    {
      if mon > 12 {
        year := year + mon / 12;
        mon := mon % 12;
      } else {
        while mon < 1
          invariant 12 * year + mon == old(12 * year + mon) && mon <= 12
        {
          mon := mon + 12;
          year := year - 1;
        }
      }
    }

    /** None where the source throws; the months are normalised by then. */
    method ToSeconds() returns (r: Option<int>)
      modifies this`year, this`mon
      ensures (year, mon) == Normalized(old(year), old(mon)) && r == Timegm(old(Value()))
    {
      NormalizeMonths();
      if year < 1 || mon < 1 || mon > 12 {
        return None;
      }
      var result := Ordinal(year, mon, 1) - DATETIME_EPOCH_ORD + day - 1;
      result := result * 24;
      result := result + hour;
      result := result * 60;
      result := result + min;
      result := result * 60;
      result := result + sec;
      return Some(result);
    }

    method SetTime(h: int, m: int, s: int, f: real)
      modifies this`hour, this`min, this`sec, this`fsec
      ensures hour == h && min == m && sec == s && fsec == f
    {
      hour, min, sec, fsec := h, m, s, f;
    }

    method Move(unit: Unit, n: int) returns (ok: bool)
      modifies this
      ensures ok == Moved(old(Value()), unit, n).Some?
      ensures ok ==> Value() == Moved(old(Value()), unit, n).value
    {
      ok := true;
      match unit {
        case Year => year := year + n;
        case Month =>
          mon := mon + n;
          NormalizeMonths();
          if mon < 1 || mon > 12 {
            return false;
          }
          var max := DaysInMonth(year, mon);
          if day > max {
            day := max;
          }
        case Week => day := day + 7 * n;
        case Day => day := day + n;
        case Hour => hour := hour + n;
        case Minute => min := min + n;
        case Second => sec := sec + n;
      }
    }

    method Round(up: bool, unit: Unit) returns (ok: bool)
      modifies this
      ensures var r := if up then RoundedUp(old(Value()), unit) else RoundedDown(old(Value()), unit);
              ok == r.Some? && (ok ==> Value() == r.value)
    {
      hide Timegm, WeekDay, DaysInMonth;
      ok := true;
      match unit {
        case Year =>
          mon, day := if up then 12 else 1, if up then DaysInMonth(year, 12) else 1;
          RoundTime(up);
        case Month =>
          if up {
            if mon < 1 || mon > 12 {
              return false;
            }
            day := DaysInMonth(year, mon);
          } else {
            day := 1;
          }
          RoundTime(up);
        case Week =>
          var t := ToSeconds();
          if t.None? {
            return false;
          }
          day := if up then day + 6 - WeekDay(t.value) else day - WeekDay(t.value);
          RoundTime(up);
        case Day => RoundTime(up);
        case Hour => min, sec, fsec := if up then 59 else 0, if up then 59 else 0, if up then DATETIME_MAX_FSEC else 0.0;
        case Minute => sec, fsec := if up then 59 else 0, if up then DATETIME_MAX_FSEC else 0.0;
        case Second => fsec := if up then DATETIME_MAX_FSEC else 0.0;
      }
    }

    method RoundTime(up: bool)
      modifies this`hour, this`min, this`sec, this`fsec
      ensures Value() == if up then DayEnd(old(Value())) else DayBegin(old(Value()))
    {
      if up {
        SetTime(23, 59, 59, DATETIME_MAX_FSEC);
      } else {
        SetTime(0, 0, 0, 0.0);
      }
    }

    /** False where the source throws. */
    method ComputeDateMath(op: Op, unit: Unit) returns (ok: bool)
      modifies this
      ensures ok == Compute(old(Value()), op, unit).Some?
      ensures ok ==> Value() == Compute(old(Value()), op, unit).value
    {
      hide Moved, RoundedUp, RoundedDown, Timegm, FromSeconds;
      match op {
        case Plus(n) => ok := Move(unit, n);
        case Minus(n) => ok := Move(unit, 0 - n);
        case Up => ok := Round(true, unit);
        case Down => ok := Round(false, unit);
      }
      if !ok {
        return;
      }
      var t := ToSeconds();
      if t.None? {
        return false;
      }
      Set(t.value);
    }

    method Set(t: int)
      modifies this`year, this`mon, this`day, this`hour, this`min, this`sec
      ensures Value() == FromSeconds(t, old(fsec))
    {
      var r := FromSeconds(t, fsec);
      year, mon, day, hour, min, sec := r.year, r.mon, r.day, r.hour, r.min, r.sec;
    }
  }
}
