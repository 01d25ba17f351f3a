# Simple Script Scheduler — a verified model of its scheduling core

Simple Script Scheduler lets a user pick a script, a frequency (Daily, Weekly or
Monthly) and an anchor date and time, and then runs the script on that recurring
schedule. The schedule is kept in `schedules.json` and re-registered at every
start-up; every execution, failure and skipped entry goes to `log.txt`.

This project models the part of `Simple_Script_Scheduler.py` that decides what
happens, without the window, the tray icon or the background timer thread:

- **Calendar** and **DateText**: the anchor text `"%Y-%m-%d %H:%M"`, accepted only
  when it names a real proleptic Gregorian date and time (years 1 to 9999, leap
  years, month lengths, hour 0–23, minute 0–59), and Python's `weekday()`
  (Monday = 0) computed from the day ordinal exactly as the `datetime` module does.
- **Trigger**: `schedule_task`'s reduction of an anchor to a cron rule (hour and
  minute; plus the weekday for Weekly; plus the day of the month for Monthly) and a
  `Matches` predicate saying at which minutes the rule fires. Monthly rules are not
  clamped: day 31 never fires in a 30-day month.
- **Registry**: job ids `path + "_" + frequency`, registration with
  `replace_existing=True` (last write wins), and a `JobRegistry` class holding the
  `map` of live jobs.
- **Store**: the stored list as a sequence of elements (records; strings and
  lists, told apart by whether they contain all three key names; and numbers,
  booleans and null) and `save_schedule_to_file`, which appends one record after
  everything already there (no de-duplication), starting from an empty list when
  the file is absent, and fails when the file holds anything but a list.
- **AuditLog** and **Executor**: the append-only log as a sequence of records and
  `run_script`, which logs "Executed" before it starts the script (bash for `.sh`,
  a detached shell otherwise) and turns a failure to start into one "ERROR" record.
- **Reload**: `load_and_reschedule` as a loop over the stored elements, proved
  equal to a step-by-step specification (`Step`, `Fold`, `ReloadEffect`), which in
  turn is proved against reference definitions of the registrations alone
  (`RegisterAll`) and of the skip records alone (`Skips`).
- **Submit**: `on_run`: strip all three inputs, reject blanks and unparseable
  datetimes before changing anything, register, then save.

I/O is replaced by state: the store file is a `StoreFile` value held by a
`ScheduleStore` object (absent, unreadable, a list of elements, or a top-level
object or string, whose keys or characters are walked as string elements), the log is a
`seq<LogRecord>` held by a `Logger`, and whether starting a script raised is a
parameter of `RunScript`.

Points where the code does less than one might expect; the model follows the
code:

- An unknown frequency is not rejected by `on_run`: `schedule_task` returns
  without registering, and the entry is still saved.
- A stored record that lacks one of the three keys is passed over without a log
  line; only a record whose datetime does not parse is logged as skipped.
- A stored string or list is tested for the key names by substring or membership:
  if all three are found, looking one up raises and the element is logged as
  skipped; otherwise it is passed over silently.
- A failure that ends a reload part-way (a number, boolean or null in the list)
  leaves the jobs registered before it in place; it does not leave the registry
  empty. Such an element stored before a saved entry keeps that entry from ever
  being reloaded.
- A failure to read the store while saving happens after the job was registered,
  so the job stays live but is not saved (`SaveFailed`).

## Model

| member | source | states |
|---|---|---|
| `Calendar.DaysInMonth` | Simple_Script_Scheduler.py:48 | a month has 28 to 31 days, and 29 exactly for February of a leap year |
| `Calendar.Ordinal` | Simple_Script_Scheduler.py:52 | every valid date has a day number of at least 1 |
| `Calendar.Weekday` | Simple_Script_Scheduler.py:52 | `weekday()` is always in 0..6 |
| `Calendar.DaysBeforeNextYear` | Simple_Script_Scheduler.py:52 | the closed-form day count before a year grows by that year's own length from one year to the next |
| `Calendar.OrdinalNextDay` | Simple_Script_Scheduler.py:52 | consecutive calendar dates have consecutive day numbers, across month and year ends and leap days |
| `Calendar.WeekdayNextDay` | Simple_Script_Scheduler.py:52 | the weekday advances by one, modulo 7, from each date to the next |
| `Calendar.OrdinalAddDays` | Simple_Script_Scheduler.py:52 | n dates later the day number is n larger |
| `Calendar.WeekdayWeeksLater` | Simple_Script_Scheduler.py:52 | a whole number of weeks later the weekday is the same |
| `Calendar.FirstDateIsDayOne` | Simple_Script_Scheduler.py:52 | 1 January of year 1 has day number 1, as `toordinal()` numbers it |
| `Calendar.FirstDateIsMonday` | Simple_Script_Scheduler.py:52 | 1 January of year 1 is weekday 0 (Monday) |
| `Calendar.ThirdOfJune2024IsMonday` | Simple_Script_Scheduler.py:52 | 3 June 2024 is weekday 0 (Monday) |
| `DateText.Parse` | Simple_Script_Scheduler.py:48 | text is accepted only if it denotes a real date and time and is exactly that timestamp's "YYYY-MM-DD HH:MM" text |
| `DateText.ParseFormat` | Simple_Script_Scheduler.py:84 | every real timestamp's text is accepted and parses back to that timestamp |
| `DateText.ParseIff` | Simple_Script_Scheduler.py:143 | text parses to t if and only if t is real and the text is t's formatted text |
| `DateText.RejectsFebruary29In2023` | Simple_Script_Scheduler.py:143-146 | "2023-02-29 10:00" is rejected |
| `DateText.RejectsHour24` | Simple_Script_Scheduler.py:143-146 | "2024-06-01 24:00" is rejected |
| `DateText.AcceptsFebruary29In2024` | Simple_Script_Scheduler.py:143 | "2024-02-29 10:00" is accepted as that leap day |
| `Text.Strip` | Simple_Script_Scheduler.py:134-136 | the result is empty exactly for all-white-space input; otherwise it is the infix of the input left after removing the white space at both ends, and it neither starts nor ends with white space |
| `Text.StripIdempotent` | Simple_Script_Scheduler.py:134-136 | stripping a stripped input changes nothing |
| `Trigger.Tag` | Simple_Script_Scheduler.py:49-54 | every rule kind belongs to one of the three known frequency tags |
| `Trigger.Compile` | Simple_Script_Scheduler.py:49-56 | a rule is produced exactly for "Daily", "Weekly" and "Monthly", of the matching kind, and it keeps the anchor's hour and minute |
| `Trigger.Matches` | Simple_Script_Scheduler.py:50-54 | a rule fires only at its hour and minute, and additionally only on its weekday (Weekly) or its day of the month (Monthly) |
| `Trigger.CompiledRuleFiresAtAnchor` | Simple_Script_Scheduler.py:50-54 | each compiled rule fires at its anchor minute |
| `Trigger.CompiledRuleFiresWhen` | Simple_Script_Scheduler.py:50-54 | a compiled rule fires exactly at the anchor's hour and minute, additionally on the anchor's weekday (Weekly) or day of month (Monthly), whatever the date otherwise |
| `Trigger.DailyFiresEveryDay` | Simple_Script_Scheduler.py:50 | a daily rule that fires at a minute fires again at that minute the next day |
| `Trigger.WeeklyFiresEveryWeek` | Simple_Script_Scheduler.py:52 | a weekly rule fires again any whole number of weeks later |
| `Trigger.WeeklySkipsNextDay` | Simple_Script_Scheduler.py:52 | a weekly rule does not fire on the day after one on which it fires |
| `Trigger.MonthlyNeverFiresInShortMonth` | Simple_Script_Scheduler.py:54 | no clamping: a monthly rule for a day the month does not have never fires in that month |
| `Trigger.DailyExample` | Simple_Script_Scheduler.py:50 | Daily at 2024-06-01 09:30 becomes "every day at 09:30" |
| `Trigger.WeeklyExample` | Simple_Script_Scheduler.py:52 | Weekly at 2024-06-03 09:30 becomes "Mondays at 09:30" |
| `Trigger.MonthlyExampleSkipsApril` | Simple_Script_Scheduler.py:54 | Monthly at 2024-01-31 09:30 never fires in April |
| `Registry.JobId` | Simple_Script_Scheduler.py:58 | the id is the path, then "_", then the frequency tag |
| `Registry.JobIdInjective` | Simple_Script_Scheduler.py:58 | for known tags, equal ids mean equal paths and equal frequencies |
| `Registry.Register` | Simple_Script_Scheduler.py:58-59 | for a known tag the job under `path_freq` is the newly compiled one, the key set gains at most that id, and every other job is unchanged; an unknown tag leaves the registry unchanged |
| `Registry.RegisterGrowsByAtMostOne` | Simple_Script_Scheduler.py:59 | the registry grows by one job exactly when the id was new, and otherwise keeps its size |
| `Registry.RegisterTwiceLastWins` | Simple_Script_Scheduler.py:59 | registering the same path and frequency twice equals registering only the second |
| `Registry.RegisterCommutes` | Simple_Script_Scheduler.py:58-59 | registrations for different (path, frequency) pairs can be swapped |
| `Registry.RegisterKeepsWellKeyed` | Simple_Script_Scheduler.py:58-59 | every job stays under the id of its own path and frequency |
| `Registry.JobRegistry.constructor` | Simple_Script_Scheduler.py:21-22 | the scheduler starts with no jobs |
| `Registry.JobRegistry.AddJob` | Simple_Script_Scheduler.py:59 | `add_job` with `replace_existing=True` is a map update |
| `Registry.JobRegistry.ScheduleTask` | Simple_Script_Scheduler.py:47-59 | unparseable text changes nothing; otherwise the registry becomes `Register` of the old one, and stays well keyed |
| `Store.Existing` | Simple_Script_Scheduler.py:64-68 | an absent file is read as the empty list, a list file as its elements |
| `Store.ScheduleStore.Save` | Simple_Script_Scheduler.py:62-73 | writing taken to succeed, the save succeeds exactly when the file is absent or holds a list; the store then becomes the old list with the new record appended (earlier elements and duplicates kept); otherwise reading or appending raises and it stays as it was |
| `AuditLog.Logger.Append` | Simple_Script_Scheduler.py:34-35 | the log only grows, by exactly the record written |
| `Executor.DispatchFor` | Simple_Script_Scheduler.py:37-40 | bash is used exactly for paths ending in ".sh" |
| `Executor.RunScript` | Simple_Script_Scheduler.py:29-44 | the log gains "Executed: path" first and one "ERROR" record only when starting failed; nothing is raised |
| `Reload.Apply` | Simple_Script_Scheduler.py:82-85 | an active element sets its job under its id; any other element changes nothing |
| `Reload.Step` | Simple_Script_Scheduler.py:81-91 | one iteration: after an outer failure nothing changes; otherwise the registration is `Apply`'s, the log gains "Failed to load jobs" for a number, boolean or null (which stops the walk), "Skipped" for a rejected element, and nothing else |
| `Reload.Fold` | Simple_Script_Scheduler.py:81-91 | the walk only appends to the log and never removes a job; once stopped nothing changes, and a walk that stops has just logged "Failed to load jobs" |
| `Reload.ReloadEffect` | Simple_Script_Scheduler.py:76-91 | a reload only appends to the log and never removes a job; an unreadable file adds exactly one "Failed to load jobs" record and changes nothing else |
| `Reload.Skips` | Simple_Script_Scheduler.py:86-88 | at most one skip record per element, each of kind Skipped and naming a rejected element |
| `Reload.FoldWithoutFailure` | Simple_Script_Scheduler.py:81-88 | without a number, boolean or null element the reload performs every element's registration in order and logs exactly one skip record per rejected element (a complete record with a bad datetime, or a string or list holding all three key names) |
| `Reload.FoldStopsAtNonRecord` | Simple_Script_Scheduler.py:81-91 | at the first number, boolean or null element one "Failed to load jobs" record is logged, the rest is ignored, and the jobs registered before it stay |
| `Reload.RegisterAllUntouched` | Simple_Script_Scheduler.py:81-85 | an id no active element carries keeps its job or stays absent |
| `Reload.RegisterAllLastWins` | Simple_Script_Scheduler.py:81-85 | among elements with one id the last active one's job is registered |
| `Reload.RegisterAllKeys` | Simple_Script_Scheduler.py:81-85 | afterwards an id is live exactly when it was live before or some active element carries it |
| `Reload.RegisterAllCount` | Simple_Script_Scheduler.py:81-85 | with distinct new ids every active element adds exactly one job |
| `Reload.MissingStoreDoesNothing` | Simple_Script_Scheduler.py:77 | with no store file nothing is registered or logged |
| `Reload.OneRejectedAmongValid` | Simple_Script_Scheduler.py:81-88 | N elements with distinct ids, one of them with a bad datetime: N - 1 jobs and exactly one skip record, and the walk is not cut short |
| `Reload.RegisterAllIgnoresSequences` | Simple_Script_Scheduler.py:81-85 | strings and lists in the walk register nothing |
| `Reload.NoSkipsWithoutKeys` | Simple_Script_Scheduler.py:81-82 | strings and lists lacking one of the key names are passed over without a log line |
| `Reload.NotAListRegistersNothing` | Simple_Script_Scheduler.py:79-88 | a top-level object or string registers nothing and never ends the walk early; only keys holding all three key names are logged as skipped, so a string changes nothing |
| `Reload.SavedEntryIsReloaded` | Simple_Script_Scheduler.py:62-91 | when the list holds no number, boolean or null, a valid entry appended by a save is what the next reload registers under its id, whatever records, strings or lists were stored before it |
| `Reload.Reload` | Simple_Script_Scheduler.py:76-91 | the registry and log afterwards are those of `ReloadEffect` on the store file, which is only read; the registry stays well keyed |
| `Submit.Submit` | Simple_Script_Scheduler.py:133-149 | a blank input or an unparseable datetime is rejected with no change; otherwise the stripped inputs are registered and then appended to the store, also for an unknown frequency |

## Left out

- The window, its widgets, message boxes and the file dialog (lines 94–98, 139, 145, 150, 153–169): user interface.
- The tray icon, its thread, `on_exit`, `show_window`, `os.kill` and `os._exit` (lines 100–131): user interface and process control.
- APScheduler's background thread and wall-clock loop (lines 21–22): firing is modelled only by `Trigger.Matches`, not by time passing; locking between that thread and submissions is not modelled.
- Starting processes: whether `subprocess.call` or `Popen` raised is the `launch` input of `RunScript`; the script's own run and exit status are not modelled.
- JSON text, `indent=2`, and log line text and timestamps: the store is a sequence of elements and the log a sequence of record kinds with their detail; the two timestamp formats of the log are not modelled.
- `Store.ScheduleStore.Save`: writing `schedules.json` (lines 71–72) is assumed to succeed; a read-only file or directory or a full disk would raise there, after the job was registered, and a `json.dump` failing part-way would leave the file truncated.
- A failure to write `log.txt` itself, which would escape from `run_script` and from the reload handlers; the model treats the log as always writable.
- Store fields holding JSON values other than strings: a non-string "datetime" raises inside the per-element handler and a non-string "frequency" matches no tag, which the model covers by an unparseable string and an unknown tag; a non-string "filepath", which Python would register under its printed form, is not represented.
- Which strings and lists contain all three key names is given by the `holdsKeys` flag of each `Sequence` element, and for a top-level object or string by the `keysHold` flags, not computed from their contents.
- `DateText.Parse`: accepts only the zero-padded form "YYYY-MM-DD HH:MM" with ASCII digits; `strptime` also accepts unpadded month, day, hour and minute, any run of white space for the space, and non-ASCII decimal digits, so some text Python accepts is rejected here.
- Minutes of the year 10000 and beyond: `NextDay` and `AddDays` stop at 31 December 9999, the last date Python represents.
