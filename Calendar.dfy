/** The proleptic Gregorian calendar as Python's `datetime` module implements it:
    leap years, month lengths, the day ordinal (1 January of year 1 is day 1),
    `weekday()` with Monday = 0, and stepping a date forward by whole days. */
module Calendar {

  /** A timestamp at minute precision, the precision of the "%Y-%m-%d %H:%M" format. */
  datatype DateTime = DateTime(year: int, month: int, day: int, hour: int, minute: int)

  const MinYear := 1
  const MaxYear := 9999

  predicate IsLeapYear(y: int)
  {
    y % 4 == 0 && (y % 100 != 0 || y % 400 == 0)
  }

  function DaysInMonth(y: int, m: int): (n: int)
    requires 1 <= m <= 12
    ensures 28 <= n <= 31
    ensures n == 29 <==> m == 2 && IsLeapYear(y)
  {
    if m == 2 then (if IsLeapYear(y) then 29 else 28)
    else if m == 4 || m == 6 || m == 9 || m == 11 then 30
    else 31
  }

  function DaysInYear(y: int): (n: int)
  {
    if IsLeapYear(y) then 366 else 365
  }

  /** A real calendar date in the range `datetime.date` accepts. */
  predicate ValidDate(y: int, m: int, d: int)
  {
    MinYear <= y <= MaxYear && 1 <= m <= 12 && 1 <= d <= DaysInMonth(y, m)
  }

  /** A real date together with a real time of day. */
  predicate ValidDateTime(t: DateTime)
  {
    ValidDate(t.year, t.month, t.day) && 0 <= t.hour < 24 && 0 <= t.minute < 60
  }

  /** Number of days in the years 1 .. y - 1 (Python's `_days_before_year`). */
  function DaysBeforeYear(y: int): (n: int)
    requires y >= 1
    ensures n >= 0
  {
    var p := y - 1;
    365 * p + p / 4 - p / 100 + p / 400
  }

  /** Number of days in year y before the first of month m
      (Python's `_days_before_month`: a table plus one after February in leap years). */
  function DaysBeforeMonth(y: int, m: int): (n: int)
    requires 1 <= m <= 12
    ensures 0 <= n <= 335
  {
    var table :=
      if m == 1 then 0 else if m == 2 then 31 else if m == 3 then 59
      else if m == 4 then 90 else if m == 5 then 120 else if m == 6 then 151
      else if m == 7 then 181 else if m == 8 then 212 else if m == 9 then 243
      else if m == 10 then 273 else if m == 11 then 304 else 334;
    table + (if m > 2 && IsLeapYear(y) then 1 else 0)
  }

  /** Day number of a date, counting 1 January of year 1 as day 1 (`date.toordinal()`). */
  function Ordinal(t: DateTime): (n: int)
    requires ValidDate(t.year, t.month, t.day)
    ensures n >= 1
  {
    DaysBeforeYear(t.year) + DaysBeforeMonth(t.year, t.month) + t.day
  }

  /** `date.weekday()`: Monday is 0 and Sunday is 6. */
  function Weekday(t: DateTime): (w: int)
    requires ValidDate(t.year, t.month, t.day)
    ensures 0 <= w < 7
  {
    (Ordinal(t) + 6) % 7
  }

  /** 31 December 9999, the last date Python's calendar can represent. */
  predicate IsLastDate(t: DateTime)
  {
    t.year == MaxYear && t.month == 12 && t.day == 31
  }

  /** The same time of day on the following calendar date. */
  function NextDay(t: DateTime): (r: DateTime)
    requires ValidDateTime(t) && !IsLastDate(t)
    ensures ValidDateTime(r)
    ensures r.hour == t.hour && r.minute == t.minute
  {
    if t.day < DaysInMonth(t.year, t.month) then t.(day := t.day + 1)
    else if t.month < 12 then t.(month := t.month + 1, day := 1)
    else t.(year := t.year + 1, month := 1, day := 1)
  }

  /** Day ordinal of 31 December 9999. */
  const LastOrdinal := 3652059

  /** The same time of day n calendar dates later. */
  function AddDays(t: DateTime, n: nat): (r: DateTime)
    requires ValidDateTime(t) && Ordinal(t) + n <= LastOrdinal
    ensures ValidDateTime(r)
    ensures r.hour == t.hour && r.minute == t.minute
    decreases n
  {
    if n == 0 then t
    else
      LastDateHasLastOrdinal(t);
      OrdinalNextDay(t);
      AddDays(NextDay(t), n - 1)
  }

  lemma LastDateHasLastOrdinal(t: DateTime)
    requires ValidDate(t.year, t.month, t.day)
    ensures IsLastDate(t) ==> Ordinal(t) == LastOrdinal
  {
  }

  /** `y / k` steps up by one exactly at the multiples of k, for the three
      divisors of the Gregorian leap-year rule. */
  lemma DivStep(y: int)
    requires y >= 1
    ensures y / 4 == (y - 1) / 4 + (if y % 4 == 0 then 1 else 0)
    ensures y / 100 == (y - 1) / 100 + (if y % 100 == 0 then 1 else 0)
    ensures y / 400 == (y - 1) / 400 + (if y % 400 == 0 then 1 else 0)
  {
  }

  /** A year contributes its own length to the days before the next one. */
  lemma DaysBeforeNextYear(y: int)
    requires y >= 1
    ensures DaysBeforeYear(y + 1) == DaysBeforeYear(y) + DaysInYear(y)
  {
    DivStep(y);
  }

  /** The day ordinal counts every calendar date exactly once: the next date is the next number. */
  lemma OrdinalNextDay(t: DateTime)
    requires ValidDateTime(t) && !IsLastDate(t)
    ensures Ordinal(NextDay(t)) == Ordinal(t) + 1
  {
    if t.day == DaysInMonth(t.year, t.month) && t.month == 12 {
      DaysBeforeNextYear(t.year);
    }
  }

  /** The weekday advances by one, modulo seven, from one date to the next. */
  lemma WeekdayNextDay(t: DateTime)
    requires ValidDateTime(t) && !IsLastDate(t)
    ensures Weekday(NextDay(t)) == (Weekday(t) + 1) % 7
  {
    OrdinalNextDay(t);
    ModNext(Ordinal(t) + 6);
  }

  lemma ModNext(x: int)
    ensures (x + 1) % 7 == (x % 7 + 1) % 7
  {
  }

  /** Moving n dates forward moves the ordinal by n. */
  lemma {:induction false} OrdinalAddDays(t: DateTime, n: nat)
    requires ValidDateTime(t) && Ordinal(t) + n <= LastOrdinal
    ensures Ordinal(AddDays(t, n)) == Ordinal(t) + n
    decreases n
  {
    if n > 0 {
      LastDateHasLastOrdinal(t);
      OrdinalNextDay(t);
      OrdinalAddDays(NextDay(t), n - 1);
    }
  }

  /** A whole number of weeks later it is the same weekday again. */
  lemma WeekdayWeeksLater(t: DateTime, n: nat)
    requires ValidDateTime(t) && Ordinal(t) + n <= LastOrdinal && n % 7 == 0
    ensures Weekday(AddDays(t, n)) == Weekday(t)
  {
    OrdinalAddDays(t, n);
    ModWeeks(Ordinal(t) + 6, n);
  }

  lemma ModWeeks(x: int, n: int)
    requires n % 7 == 0
    ensures (x + n) % 7 == x % 7
  {
  }

  /** 1 January of year 1 is day 1. */
  lemma FirstDateIsDayOne()
    ensures Ordinal(DateTime(1, 1, 1, 0, 0)) == 1
  {
  }

  /** 1 January of year 1 is a Monday. */
  lemma FirstDateIsMonday()
    ensures Weekday(DateTime(1, 1, 1, 0, 0)) == 0
  {
  }

  /** 3 June 2024 is a Monday. */
  lemma ThirdOfJune2024IsMonday()
    ensures Weekday(DateTime(2024, 6, 3, 0, 0)) == 0
  {
  }
}
