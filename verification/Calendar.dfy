/**
 * The proleptic Gregorian calendar behind `toordinal`. The day count is defined here for every
 * year, as `gmtime_r` needs it before year 1; `ToOrdinal` has the range checks of the code.
 */
module Calendar {
  import opened Wrappers

  datatype Date = Date(year: int, month: int, day: int)

  predicate IsLeapYear(year: int) {
    year % 400 == 0 || (year % 4 == 0 && year % 100 != 0)
  }

  const DAYS := [[31, 28, 31, 30, 31, 30, 31, 31, 30, 31, 30, 31], [31, 29, 31, 30, 31, 30, 31, 31, 30, 31, 30, 31]]
  const CUMDAYS :=
    [[0, 31, 59, 90, 120, 151, 181, 212, 243, 273, 304, 334], [0, 31, 60, 91, 121, 152, 182, 213, 244, 274, 305, 335]]

  function Leap(year: int): (r: nat)
    ensures r <= 1
  {
    if IsLeapYear(year) then 1 else 0
  }

  function DaysInMonth(year: int, month: int): (r: int)
    requires 1 <= month <= 12
    ensures 28 <= r <= 31
  {
    DAYS[Leap(year)][month - 1]
  }

  function DaysBefore(year: int, month: int): (r: int)
    requires 1 <= month <= 12
    ensures 0 <= r <= 335
  {
    CUMDAYS[Leap(year)][month - 1]
  }

  /** The days before January 1 of the year. */
  function YearStart(year: int): int {
    365 * (year - 1) + (year - 1) / 4 - (year - 1) / 100 + (year - 1) / 400
  }

  function Ordinal(year: int, month: int, day: int): int
    requires 1 <= month <= 12
  {
    YearStart(year) + DaysBefore(year, month) + day
  }

  /** A day of the calendar, in any year. */
  predicate OnCalendar(d: Date) {
    1 <= d.month <= 12 && 1 <= d.day <= DaysInMonth(d.year, d.month)
  }

  predicate IsValidDate(d: Date) {
    d.year >= 1 && OnCalendar(d)
  }

  function ToOrdinal(d: Date): (r: Option<int>)
    ensures r.Some? <==> IsValidDate(d)
    ensures r.Some? ==> r.value >= 1
  {
    if d.year < 1 || d.month < 1 || d.month > 12 || d.day < 1 || d.day > DaysInMonth(d.year, d.month) then None
    else YearGrows(1, d.year); Some(Ordinal(d.year, d.month, d.day))
  }

  // ----- years and months add up

  lemma YearStep(year: int)
    ensures YearStart(year + 1) == YearStart(year) + 365 + Leap(year)
  {
    var n := year - 1;
    assert (n + 1) / 4 == n / 4 + if year % 4 == 0 then 1 else 0;
    assert (n + 1) / 100 == n / 100 + if year % 100 == 0 then 1 else 0;
    assert (n + 1) / 400 == n / 400 + if year % 400 == 0 then 1 else 0;
  }

  lemma {:induction false} YearGrows(a: int, b: int)
    requires a <= b
    ensures YearStart(b) >= YearStart(a) + 365 * (b - a)
    decreases b - a
  {
    hide YearStart, Leap;
    if a < b {
      YearGrows(a, b - 1);
      YearStep(b - 1);
    }
  }

  lemma MonthStep(year: int, month: int)
    requires 1 <= month <= 12
    ensures DaysBefore(year, month) + DaysInMonth(year, month) ==
            if month == 12 then 365 + Leap(year) else DaysBefore(year, month + 1)
  {
  }

  /** April, June, September and November have 30 days, February 28 or 29, and the others 31. */
  lemma MonthLengths(year: int, month: int)
    requires 1 <= month <= 12
    ensures DaysInMonth(year, month) ==
            if month == 2 then (if IsLeapYear(year) then 29 else 28) else if month in {4, 6, 9, 11} then 30 else 31
  {
  }

  lemma {:induction false} MonthGrows(year: int, a: int, b: int)
    requires 1 <= a < b <= 12
    ensures DaysBefore(year, a) + DaysInMonth(year, a) <= DaysBefore(year, b)
    decreases b - a
  {
    hide DaysBefore, DaysInMonth, Leap;
    MonthStep(year, a);
    if a + 1 < b {
      MonthGrows(year, a + 1, b);
      MonthStep(year, a + 1);
    }
  }

  lemma MonthInYear(year: int, month: int)
    requires 1 <= month <= 12
    ensures DaysBefore(year, month) + DaysInMonth(year, month) <= 365 + Leap(year)
  {
    hide DaysBefore, DaysInMonth, Leap;
    if month < 12 {
      MonthGrows(year, month, 12);
    }
    MonthStep(year, 12);
  }

  // ----- ordinals are strictly increasing, and leave no gap

  predicate Earlier(a: Date, b: Date) {
    a.year < b.year || (a.year == b.year && (a.month < b.month || (a.month == b.month && a.day < b.day)))
  }

  function Number(d: Date): int
    requires OnCalendar(d)
  {
    Ordinal(d.year, d.month, d.day)
  }

  lemma InYear(d: Date)
    requires OnCalendar(d)
    ensures YearStart(d.year) < Number(d) <= YearStart(d.year + 1)
  {
    hide YearStart, DaysBefore, DaysInMonth, Leap;
    MonthInYear(d.year, d.month);
    YearStep(d.year);
  }

  lemma Increasing(a: Date, b: Date)
    requires OnCalendar(a) && OnCalendar(b) && Earlier(a, b)
    ensures Number(a) < Number(b)
  {
    hide YearStart, DaysBefore, DaysInMonth, Leap;
    if a.year < b.year {
      InYear(a);
      InYear(b);
      YearGrows(a.year + 1, b.year);
    } else if a.month < b.month {
      MonthGrows(a.year, a.month, b.month);
    }
  }

  function NextDay(d: Date): (r: Date)
    requires OnCalendar(d)
    ensures OnCalendar(r) && Earlier(d, r)
  {
    if d.day < DaysInMonth(d.year, d.month) then d.(day := d.day + 1)
    else if d.month < 12 then Date(d.year, d.month + 1, 1)
    else Date(d.year + 1, 1, 1)
  }

  function PreviousDay(d: Date): (r: Date)
    requires OnCalendar(d)
    ensures OnCalendar(r) && Earlier(r, d)
  {
    if d.day > 1 then d.(day := d.day - 1)
    else if d.month > 1 then Date(d.year, d.month - 1, DaysInMonth(d.year, d.month - 1))
    else Date(d.year - 1, 12, 31)
  }

  lemma NextDayNumber(d: Date)
    requires OnCalendar(d)
    ensures Number(NextDay(d)) == Number(d) + 1
  {
    hide YearStart;
    YearStep(d.year);
  }

  lemma PreviousDayNumber(d: Date)
    requires OnCalendar(d)
    ensures NextDay(PreviousDay(d)) == d && Number(PreviousDay(d)) == Number(d) - 1
  {
    hide YearStart;
    NextDayNumber(PreviousDay(d));
  }

  /** The day `n` days after `d`, or before it if `n` is negative, found by walking day by day. */
  function Walked(d: Date, n: int): (r: Date)
    requires OnCalendar(d)
    ensures OnCalendar(r)
    decreases if n >= 0 then n else -n
  {
    if n == 0 then d
    else if n > 0 then NextDay(Walked(d, n - 1))
    else PreviousDay(Walked(d, n + 1))
  }

  lemma {:induction false} WalkedNumber(d: Date, n: int)
    requires OnCalendar(d)
    ensures Number(Walked(d, n)) == Number(d) + n
    decreases if n >= 0 then n else -n
  {
    hide Number, NextDay, PreviousDay;
    if n > 0 {
      WalkedNumber(d, n - 1);
      NextDayNumber(Walked(d, n - 1));
    } else if n < 0 {
      WalkedNumber(d, n + 1);
      PreviousDayNumber(Walked(d, n + 1));
    }
  }

  /** The day with a given number, found by walking from January 1 of year 1. */
  function DateOf(n: int): (d: Date)
    ensures OnCalendar(d)
  {
    Walked(Date(1, 1, 1), n - 1)
  }

  lemma DateOfNumber(n: int)
    ensures Number(DateOf(n)) == n
  {
    hide Number, Walked;
    DayOne();
    WalkedNumber(Date(1, 1, 1), n - 1);
  }

  lemma DayOne()
    ensures OnCalendar(Date(1, 1, 1)) && Number(Date(1, 1, 1)) == 1
  {
  }

  lemma NumberInjective(a: Date, b: Date)
    requires OnCalendar(a) && OnCalendar(b) && Number(a) == Number(b)
    ensures a == b
  {
    hide Number, OnCalendar;
    if Earlier(a, b) {
      Increasing(a, b);
    } else if Earlier(b, a) {
      Increasing(b, a);
    }
  }

  lemma DateOfUnique(d: Date)
    requires OnCalendar(d)
    ensures DateOf(Number(d)) == d
  {
    hide DateOf, Number;
    DateOfNumber(Number(d));
    NumberInjective(DateOf(Number(d)), d);
  }

  lemma YearIsPositive(d: Date)
    requires OnCalendar(d)
    ensures d.year >= 1 <==> Number(d) >= 1
  {
    hide Number;
    DayOne();
    var one := Date(1, 1, 1);
    if d == one {
    } else if d.year >= 1 {
      Increasing(one, d);
    } else {
      Increasing(d, one);
    }
  }

  /**
   * `toordinal` is a strictly increasing bijection from the valid dates onto the positive integers,
   * and the ordinal of the next calendar day is the next ordinal.
   */
  lemma OrdinalBijection()
    ensures forall a, b :: IsValidDate(a) && IsValidDate(b) && Earlier(a, b) ==> ToOrdinal(a).value < ToOrdinal(b).value
    ensures forall a, b :: IsValidDate(a) && IsValidDate(b) && ToOrdinal(a) == ToOrdinal(b) ==> a == b
    ensures forall n | n >= 1 :: IsValidDate(DateOf(n)) && ToOrdinal(DateOf(n)) == Some(n)
    ensures forall a | IsValidDate(a) :: IsValidDate(NextDay(a)) && ToOrdinal(NextDay(a)) == Some(ToOrdinal(a).value + 1)
  {
    forall a, b | IsValidDate(a) && IsValidDate(b) && Earlier(a, b) ensures ToOrdinal(a).value < ToOrdinal(b).value {
      hide DaysInMonth, YearStart, DaysBefore;
      Increasing(a, b);
    }
    forall a, b | IsValidDate(a) && IsValidDate(b) && ToOrdinal(a) == ToOrdinal(b) ensures a == b {
      hide DaysInMonth, YearStart, DaysBefore;
      NumberInjective(a, b);
    }
    forall n | n >= 1 ensures IsValidDate(DateOf(n)) && ToOrdinal(DateOf(n)) == Some(n) {
      hide DaysInMonth, YearStart, DaysBefore, DateOf;
      DateOfNumber(n);
      YearIsPositive(DateOf(n));
    }
    forall a | IsValidDate(a) ensures IsValidDate(NextDay(a)) && ToOrdinal(NextDay(a)) == Some(ToOrdinal(a).value + 1) {
      hide DaysInMonth, YearStart, DaysBefore;
      NextDayNumber(a);
    }
  }
}
