/** Compiling a (frequency, anchor) pair to a recurring cron-like rule, as
    `schedule_task` builds its `CronTrigger`, and when such a rule fires. */
module Trigger {
  import opened Wrappers
  import opened Calendar

  /** A recurring rule: the fields of the anchor that survive, compared at minute
      precision. Unnamed cron fields are wildcards, so a daily rule fires on every
      date, a weekly one on every date with its weekday, a monthly one on every
      date with its day of the month. */
  datatype Rule =
    | Daily(hour: int, minute: int)
    | Weekly(weekday: int, hour: int, minute: int)
    | Monthly(day: int, hour: int, minute: int)

  /** The three frequency tags the scheduler understands. */
  predicate IsFrequency(freq: string)
  {
    freq == "Daily" || freq == "Weekly" || freq == "Monthly"
  }

  /** The frequency tag a rule was compiled from. */
  function Tag(r: Rule): (freq: string)
    ensures IsFrequency(freq)
  {
    match r
    case Daily(_, _) => "Daily"
    case Weekly(_, _, _) => "Weekly"
    case Monthly(_, _, _) => "Monthly"
  }

  /** The trigger `schedule_task` builds; None for an unknown tag, where it returns
      without registering anything. */
  function Compile(freq: string, anchor: DateTime): (r: Option<Rule>)
    requires ValidDateTime(anchor)
    ensures r.Some? <==> IsFrequency(freq)
    ensures r.Some? ==> Tag(r.value) == freq
    ensures r.Some? ==> r.value.hour == anchor.hour && r.value.minute == anchor.minute
  {
    if freq == "Daily" then Some(Daily(anchor.hour, anchor.minute))
    else if freq == "Weekly" then Some(Weekly(Weekday(anchor), anchor.hour, anchor.minute))
    else if freq == "Monthly" then Some(Monthly(anchor.day, anchor.hour, anchor.minute))
    else None
  }

  /** The rule fires at minute t: `CronTrigger` with the named fields fixed and the
      others left as wildcards. */
  predicate Matches(r: Rule, t: DateTime)
    requires ValidDateTime(t)
    ensures Matches(r, t) ==> t.hour == r.hour && t.minute == r.minute
    ensures Matches(r, t) && r.Weekly? ==> Weekday(t) == r.weekday
    ensures Matches(r, t) && r.Monthly? ==> t.day == r.day
  {
    match r
    case Daily(h, m) => t.hour == h && t.minute == m
    case Weekly(w, h, m) => Weekday(t) == w && t.hour == h && t.minute == m
    case Monthly(d, h, m) => t.day == d && t.hour == h && t.minute == m
  }

  /** Each compiled rule fires at its own anchor. */
  lemma CompiledRuleFiresAtAnchor(freq: string, anchor: DateTime)
    requires ValidDateTime(anchor) && IsFrequency(freq)
    ensures Matches(Compile(freq, anchor).value, anchor)
  {
  }

  /** Exactly when a compiled rule fires: at the anchor's hour and minute, and in
      addition on the anchor's weekday (weekly) or day of the month (monthly). The
      anchor's year, and for daily and weekly rules its date, play no part. */
  lemma CompiledRuleFiresWhen(freq: string, anchor: DateTime, t: DateTime)
    requires ValidDateTime(anchor) && ValidDateTime(t) && IsFrequency(freq)
    ensures Matches(Compile(freq, anchor).value, t) <==>
      && t.hour == anchor.hour && t.minute == anchor.minute
      && (freq == "Weekly" ==> Weekday(t) == Weekday(anchor))
      && (freq == "Monthly" ==> t.day == anchor.day)
  {
  }

  /** A daily rule that fires at some minute fires at the same minute the next day. */
  lemma DailyFiresEveryDay(r: Rule, t: DateTime)
    requires r.Daily? && ValidDateTime(t) && !IsLastDate(t) && Matches(r, t)
    ensures Matches(r, NextDay(t))
  {
  }

  /** A weekly rule fires again a whole number of weeks later ... */
  lemma WeeklyFiresEveryWeek(r: Rule, t: DateTime, n: nat)
    requires r.Weekly? && ValidDateTime(t) && Matches(r, t)
    requires n % 7 == 0 && Ordinal(t) + n <= LastOrdinal
    ensures Matches(r, AddDays(t, n))
  {
    WeekdayWeeksLater(t, n);
  }

  /** ... but not on the following day. */
  lemma WeeklySkipsNextDay(r: Rule, t: DateTime)
    requires r.Weekly? && ValidDateTime(t) && !IsLastDate(t) && Matches(r, t)
    ensures !Matches(r, NextDay(t))
  {
    WeekdayNextDay(t);
  }

  /** No clamping or rollover: a monthly rule for a day the month lacks never fires in it. */
  lemma MonthlyNeverFiresInShortMonth(r: Rule, t: DateTime)
    requires r.Monthly? && ValidDateTime(t) && DaysInMonth(t.year, t.month) < r.day
    ensures !Matches(r, t)
  {
  }

  /** Daily at "2024-06-01 09:30" compiles to 09:30 on every date. */
  lemma DailyExample()
    ensures Compile("Daily", DateTime(2024, 6, 1, 9, 30)) == Some(Daily(9, 30))
  {
  }

  /** Weekly at "2024-06-03 09:30", a Monday, compiles to Mondays at 09:30. */
  lemma WeeklyExample()
    ensures Compile("Weekly", DateTime(2024, 6, 3, 9, 30)) == Some(Weekly(0, 9, 30))
  {
  }

  /** Monthly at "2024-01-31 09:30" never fires in April. */
  lemma MonthlyExampleSkipsApril(t: DateTime)
    requires ValidDateTime(t) && t.month == 4
    ensures !Matches(Compile("Monthly", DateTime(2024, 1, 31, 9, 30)).value, t)
  {
  }
}
