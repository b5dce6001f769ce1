# Plan bootstrapper and date-only ISO 8601 formatter, in Dafny

This project models two pieces of the Plan (Player Analytics) server plugin and proves properties about them.

1. **The plugin's enable step** (`Plan.onEnable`, `Plan.initDatabase` and the two analysis tasks). `initDatabase` picks the storage backend whose config name equals the configured database type, ignoring case. It records that backend in `db` and calls `init()` on it. When storage comes up, `onEnable` creates the data, inspect and analysis caches. If the webserver is enabled, it schedules a one-shot boot analysis with the host scheduler when refresh-on-enable is set, and a periodic analysis unless the refresh interval is -1. Each periodic tick recomputes the analysis only when nothing is cached or the cached snapshot is more than 60000 ms old.
2. **`ISO8601NoClockFormatter.apply`**. It renders a positive epoch-millisecond timestamp as its calendar date `yyyy-MM-dd`: the complete calendar-date representation, extended format, of ISO 8601:2004, section 4.1.2.2. Any other timestamp becomes `"-"`.

Files:

- `options.dfy`: the `Option` type, standing for a Java reference that may be null.
- `strings.dfy`: decimal digit strings, the order of `String.compareTo`, and `String.equalsIgnoreCase` on ASCII letters.
- `calendar.dfy`: the proleptic Gregorian calendar. `DayNumber` counts days from 1970-01-01. `FromDayNumber` is its inverse, computed from 400-year cycles of 146097 days.
- `iso_date.dfy`: the formatter, with `Parse` as its partner.
- `schedule.dfy`: the pure scheduling policy. It covers which tasks are scheduled, their tick delays in 32-bit `int` arithmetic, and the periodic tick's freshness gate.
- `plan.dfy`: the imperative bootstrapper. The class `Plan` has the source's fields `db`, `databases`, `handler`, `inspectCache`, `analysisCache`, `uiServer` and `bootAnalysisTaskID` (Plan.java:69-76). It also has the host plugin's enabled flag, which `setEnabled(false)` at Plan.java:244 and `disablePlugin` at Plan.java:107 clear. Small classes stand for the backends, the host scheduler and the caches.

Inputs from outside the model are passed in as parameters or stored in fields:

- the configuration: a `Settings` value holding the database type, the webserver and refresh-on-enable flags, and the refresh interval in minutes;
- the registered backends, each with its config name and whether its `init()` succeeds;
- the wall clock `now`;
- the analysis cache's `isCached()` and refresh date;
- the zone offset of the date formatter.

Points of the code that the model keeps as they are:

- The freshness threshold is the constant 60000 ms at Plan.java:257 (`FreshnessMs`).
- When `initDatabase` fails, `onEnable` returns before line 123. `bootAnalysisTaskID` therefore keeps Java's default 0 rather than -1, and the `Plan` constructor starts it at 0.
- When no backend name matches, `initDatabase` does not disable the plugin itself; `onEnable` then does. When `init()` fails, both do.

The refresh interval is multiplied as Java `int`s, and the model keeps that 32-bit wrap-around (`Wrap`). Up to 1789569 minutes the period is exact (`RefreshPeriodTicksExact`). 1789570 is the first interval whose period wraps, to -2147483296 ticks (`RefreshPeriodTicksOverflow`). Beyond it the period is minutes*1200 reduced into the int range (`RefreshPeriodTicksWrapsOnce`), which can be negative, zero or a small positive number: 3579140 minutes give 704 ticks and 268435456 minutes give 0 ticks (`RefreshPeriodTicksRewraps`).

## Model

| member | source | states |
|---|---|---|
| `Strings.EqualsIgnoreCaseIsLowerCaseEquality` | Plan/src/main/java/com/djrapitops/plan/Plan.java:230 | two names are equal ignoring case exactly when their ASCII lower-case forms are equal |
| `Strings.EqualsIgnoreCaseEquivalence` | Plan/src/main/java/com/djrapitops/plan/Plan.java:230 | equality ignoring case is reflexive, symmetric and transitive |
| `Strings.CharEqualsIgnoreCase` | Plan/src/main/java/com/djrapitops/plan/Plan.java:230 | reference definition: one char pair of regionMatches(ignoreCase = true), equal as chars, as upper-case forms or as lower-case forms of those; EqualsIgnoreCaseIsLowerCaseEquality characterizes it |
| `Strings.EqualsIgnoreCase` | Plan/src/main/java/com/djrapitops/plan/Plan.java:230 | reference definition of equalsIgnoreCase: equal lengths and every char pair matching ignoring case; its partners are EqualsIgnoreCaseIsLowerCaseEquality and EqualsIgnoreCaseEquivalence |
| `Bootstrap.FirstMatch` | Plan/src/main/java/com/djrapitops/plan/Plan.java:229-235 | the result is the position of a name matching the type ignoring case with no match before it; None exactly when no name matches |
| `Bootstrap.AtMostOneMatch` | Plan/src/main/java/com/djrapitops/plan/Plan.java:229-235 | with case-insensitively distinct config names, at most one backend matches the configured type |
| `Bootstrap.SelectionIgnoresOrder` | Plan/src/main/java/com/djrapitops/plan/Plan.java:92-94 | with distinct names, every iteration order of the backend set selects the same backend |
| `Bootstrap.DatabaseReady` | Plan/src/main/java/com/djrapitops/plan/Plan.java:224-248 | reference definition of initDatabase's result: a first matching backend exists and its init() succeeds; InitDatabase is proved to return it and DatabaseReadyIff characterizes it |
| `Bootstrap.DatabaseReadyIff` | Plan/src/main/java/com/djrapitops/plan/Plan.java:224-248 | with distinct names, initDatabase succeeds iff some backend's name equals the type ignoring case and that backend's init() succeeds |
| `Bootstrap.Database.Init` | Plan/src/main/java/com/djrapitops/plan/Plan.java:242 | init() returns the backend's fixed outcome and counts one more call on that backend |
| `Bootstrap.Plan.constructor` | Plan/src/main/java/com/djrapitops/plan/Plan.java:67-76 | before onEnable, db and the cache and server fields are null, bootAnalysisTaskID is 0 and the plugin is marked enabled; the backend collection starts empty, where Java holds null until line 92 assigns the set |
| `Bootstrap.Plan.InitDatabase` | Plan/src/main/java/com/djrapitops/plan/Plan.java:224-249 | db is the first backend whose name matches, or null if none does; init() is called once on db and never on another backend; the result is whether that init() succeeded; a failed init() disables the plugin, while no match leaves it enabled |
| `Bootstrap.Plan.OnEnable` | Plan/src/main/java/com/djrapitops/plan/Plan.java:92-133 | on a failed initDatabase the plugin is disabled, no cache is created, no task is scheduled and bootAnalysisTaskID is unchanged; otherwise the three caches are fresh and the tasks are exactly AnalysisTasks of the settings |
| `Bootstrap.Plan.StartCachesAndAnalysis` | Plan/src/main/java/com/djrapitops/plan/Plan.java:111-133 | creates the caches; bootAnalysisTaskID is the boot task's id if one was scheduled, -1 otherwise; the webserver starts only when it is enabled |
| `Bootstrap.Plan.StartBootAnalysisTask` | Plan/src/main/java/com/djrapitops/plan/Plan.java:264-275 | schedules one one-shot task 600 ticks out and keeps its id in bootAnalysisTaskID |
| `Bootstrap.Plan.StartAnalysisRefreshTask` | Plan/src/main/java/com/djrapitops/plan/Plan.java:251-262 | schedules one repeating task whose first delay and period are both minutes*60*20 in int arithmetic |
| `Bootstrap.Plan.RunBootAnalysisTask` | Plan/src/main/java/com/djrapitops/plan/Plan.java:268-272 | the boot task requests exactly one cache update and then cancels itself |
| `Bootstrap.Plan.RunPeriodicAnalysisTask` | Plan/src/main/java/com/djrapitops/plan/Plan.java:254-260 | a periodic tick requests one update exactly when PeriodicRunUpdates holds for the cache state and the clock, and none otherwise |
| `Bootstrap.Scheduler.RunTaskLater` | Plan/src/main/java/com/djrapitops/plan/Plan.java:273 | adds one one-shot task with the given delay and returns its id |
| `Bootstrap.Scheduler.RunTaskTimer` | Plan/src/main/java/com/djrapitops/plan/Plan.java:261 | adds one repeating task with the given delay and period and returns its id |
| `Bootstrap.Scheduler.Cancel` | Plan/src/main/java/com/djrapitops/plan/Plan.java:271 | this.cancel() adds the task's id to the cancelled ids and leaves the scheduled tasks unchanged |
| `Bootstrap.AnalysisCacheHandler.UpdateCache` | Plan/src/main/java/com/djrapitops/plan/Plan.java:256-258 | each updateCache() call is one more recorded update request and changes nothing else |
| `AnalysisSchedule.Wrap` | Plan/src/main/java/com/djrapitops/plan/Plan.java:261 | int arithmetic: the result is congruent to the exact value modulo 2^32 and equals it when it fits in an int |
| `AnalysisSchedule.WrapCongruent` | Plan/src/main/java/com/djrapitops/plan/Plan.java:261 | numbers congruent modulo 2^32 wrap to the same int |
| `AnalysisSchedule.RefreshPeriodTicks` | Plan/src/main/java/com/djrapitops/plan/Plan.java:261 | the int value of analysisRefreshMinutes * 60 * 20 agrees with the exact tick count minutes*1200 modulo 2^32 |
| `AnalysisSchedule.RefreshPeriodTicksWrapsOnce` | Plan/src/main/java/com/djrapitops/plan/Plan.java:261 | wrapping after each of the two multiplications is the same as wrapping minutes*1200 once |
| `AnalysisSchedule.RefreshPeriodTicksExact` | Plan/src/main/java/com/djrapitops/plan/Plan.java:261 | for 0..1789569 minutes the period is exactly minutes*60*20 ticks, that is minutes*60000 ms at 50 ms per tick, and positive for positive minutes |
| `AnalysisSchedule.RefreshPeriodTicksOverflow` | Plan/src/main/java/com/djrapitops/plan/Plan.java:261 | at 1789570 minutes the int product wraps to -2147483296 ticks |
| `AnalysisSchedule.RefreshPeriodTicksRewraps` | Plan/src/main/java/com/djrapitops/plan/Plan.java:261 | past the first wrap the period is not always negative: 3579140 minutes give 704 ticks and 268435456 minutes give 0 ticks |
| `AnalysisSchedule.PeriodicRunGate` | Plan/src/main/java/com/djrapitops/plan/Plan.java:255-259 | with nothing cached every tick recomputes; with a snapshot it recomputes iff now - refreshDate > 60000, so an age of 60000 ms or less does not |
| `AnalysisSchedule.PeriodicRunStaysStale` | Plan/src/main/java/com/djrapitops/plan/Plan.java:257 | a snapshot the tick would recompute at some time is still recomputed at any later time |
| `AnalysisSchedule.PeriodicRunUpdates` | Plan/src/main/java/com/djrapitops/plan/Plan.java:255-259 | reference definition of the run() gate: always with nothing cached, otherwise only when now - refreshDate > 60000; PeriodicRunGate and PeriodicRunStaysStale state its properties |
| `AnalysisSchedule.PeriodicTask` | Plan/src/main/java/com/djrapitops/plan/Plan.java:261 | the repeating request: its first delay and its period are the same Java int, congruent to minutes*1200 modulo 2^32, which fixes it to the int value of minutes*60*20 |
| `AnalysisSchedule.AnalysisTasks` | Plan/src/main/java/com/djrapitops/plan/Plan.java:123-133 | the boot task (600 ticks, one-shot) is scheduled iff the webserver and refresh-on-enable are on; the periodic task iff the webserver is on and the interval is not -1; nothing else is scheduled, and the boot task comes first |
| `Strings.Padded` | Plan/common/src/main/java/com/djrapitops/plan/delivery/formatting/time/ISO8601NoClockFormatter.java:39 | a zero-padded numeric field is all digits, at least the field width long, and denotes the number; when it is longer than the width it has no leading zero, so it is exactly the number's digits |
| `Strings.PaddedLength` | Plan/common/src/main/java/com/djrapitops/plan/delivery/formatting/time/ISO8601NoClockFormatter.java:39 | a number below 10^width pads to exactly width digits |
| `Strings.LexLessAppend` | Plan/common/src/main/java/com/djrapitops/plan/delivery/formatting/time/ISO8601NoClockFormatter.java:39 | comparing concatenations with equal-length first parts compares the first parts first, then the rest |
| `Strings.DigitsOrder` | Plan/common/src/main/java/com/djrapitops/plan/delivery/formatting/time/ISO8601NoClockFormatter.java:39 | for equal-length digit strings, string order is numeric order and string equality is numeric equality |
| `Calendar.DayNumber` | Plan/common/src/main/java/com/djrapitops/plan/delivery/formatting/time/ISO8601NoClockFormatter.java:39 | reference definition the conversion is proved against: days from 1970-01-01 to a date, counting whole years, whole months and days; FromDayNumber, DayNumberOrder and FromDayNumberOfDayNumber relate it to dates |
| `Calendar.CycleYearStep` | Plan/common/src/main/java/com/djrapitops/plan/delivery/formatting/time/ISO8601NoClockFormatter.java:39 | the closed form for days before year j of a 400-year cycle grows by 366 in leap years and by 365 otherwise |
| `Calendar.CycleAlign` | Plan/common/src/main/java/com/djrapitops/plan/delivery/formatting/time/ISO8601NoClockFormatter.java:39 | a year's position in its 400-year cycle determines whether it is a leap year |
| `Calendar.DaysBeforeYearStep` | Plan/common/src/main/java/com/djrapitops/plan/delivery/formatting/time/ISO8601NoClockFormatter.java:39 | January 1 of the next year is one year's length of days later, across cycle boundaries too |
| `Calendar.DaysBeforeYearGrowth` | Plan/common/src/main/java/com/djrapitops/plan/delivery/formatting/time/ISO8601NoClockFormatter.java:39 | every year adds at least 365 days |
| `Calendar.FindYearInCycle` | Plan/common/src/main/java/com/djrapitops/plan/delivery/formatting/time/ISO8601NoClockFormatter.java:39 | finds the year of a cycle whose day range contains the given day |
| `Calendar.FindMonth` | Plan/common/src/main/java/com/djrapitops/plan/delivery/formatting/time/ISO8601NoClockFormatter.java:39 | finds the month whose day range contains the given day of the year |
| `Calendar.FromDayNumber` | Plan/common/src/main/java/com/djrapitops/plan/delivery/formatting/time/ISO8601NoClockFormatter.java:39 | the date of a day number is a valid date (1 <= month <= 12, 1 <= day <= days in that month) whose day number is the input |
| `Calendar.DayNumberInYear` | Plan/common/src/main/java/com/djrapitops/plan/delivery/formatting/time/ISO8601NoClockFormatter.java:39 | a valid date's day number lies between January 1 of its year and January 1 of the next |
| `Calendar.DayNumberOrder` | Plan/common/src/main/java/com/djrapitops/plan/delivery/formatting/time/ISO8601NoClockFormatter.java:39 | for valid dates, chronological order is day-number order, and equal dates have equal day numbers, in both directions |
| `Calendar.FromDayNumberOfDayNumber` | Plan/common/src/main/java/com/djrapitops/plan/delivery/formatting/time/ISO8601NoClockFormatter.java:39 | FromDayNumber undoes DayNumber on every valid date |
| `Calendar.YearOfDayNumber` | Plan/common/src/main/java/com/djrapitops/plan/delivery/formatting/time/ISO8601NoClockFormatter.java:39 | a day falls in year y or later iff it is on or after January 1 of y |
| `IsoDate.LocalDay` | Plan/common/src/main/java/com/djrapitops/plan/delivery/formatting/time/ISO8601NoClockFormatter.java:41 | the local calendar day of an instant: the day whose 86400000 ms span contains the instant shifted by the zone offset |
| `IsoDate.Render` | Plan/common/src/main/java/com/djrapitops/plan/delivery/formatting/time/ISO8601NoClockFormatter.java:39 | the pattern yyyy-MM-dd gives at least ten characters |
| `IsoDate.Parse` | Plan/common/src/main/java/com/djrapitops/plan/delivery/formatting/time/ISO8601NoClockFormatter.java:39 | whatever the reader accepts is a valid calendar date |
| `IsoDate.LocalYear` | Plan/common/src/main/java/com/djrapitops/plan/delivery/formatting/time/ISO8601NoClockFormatter.java:35 | a positive timestamp's local date is in 1969 or later, and in 1970 or later when the zone is not behind UTC |
| `IsoDate.Format` | Plan/common/src/main/java/com/djrapitops/plan/delivery/formatting/time/ISO8601NoClockFormatter.java:38-42 | the constant pattern yyyy-MM-dd applied to the local date of a positive timestamp, at least ten characters long |
| `IsoDate.Apply` | Plan/common/src/main/java/com/djrapitops/plan/delivery/formatting/time/ISO8601NoClockFormatter.java:34-36 | the result is "-" exactly when the timestamp is not positive |
| `IsoDate.RenderParseRoundTrip` | Plan/common/src/main/java/com/djrapitops/plan/delivery/formatting/time/ISO8601NoClockFormatter.java:39 | parsing a rendered date gives that date back |
| `IsoDate.RenderShape` | Plan/common/src/main/java/com/djrapitops/plan/delivery/formatting/time/ISO8601NoClockFormatter.java:39 | a date with a four-digit year renders as ten characters: '-' at positions 4 and 7, digits elsewhere, the first four spelling the year |
| `IsoDate.RenderOrder` | Plan/common/src/main/java/com/djrapitops/plan/delivery/formatting/time/ISO8601NoClockFormatter.java:39 | with four-digit years, rendered strings sort exactly as the dates do, in both directions |
| `IsoDate.ApplyRoundTrip` | Plan/common/src/main/java/com/djrapitops/plan/delivery/formatting/time/ISO8601NoClockFormatter.java:34-42 | for a positive timestamp, parsing the output gives a valid date whose day number is the timestamp's local day |
| `IsoDate.ApplyUtcRoundTrip` | Plan/common/src/main/java/com/djrapitops/plan/delivery/formatting/time/ISO8601NoClockFormatter.java:34-42 | in UTC, the parsed date of a positive timestamp is in 1970 or later and its day number is floor(date / 86400000) |
| `IsoDate.ApplyShape` | Plan/common/src/main/java/com/djrapitops/plan/delivery/formatting/time/ISO8601NoClockFormatter.java:34-42 | before year 10000 the output of a positive timestamp is ten characters: '-' at positions 4 and 7, digits elsewhere; the year is at least 1969, and at least 1970 in UTC |
| `IsoDate.ApplySameDay` | Plan/common/src/main/java/com/djrapitops/plan/delivery/formatting/time/ISO8601NoClockFormatter.java:22-24 | no clock component: two positive timestamps give the same string exactly when they fall on the same local day |
| `IsoDate.ApplyOrder` | Plan/common/src/main/java/com/djrapitops/plan/delivery/formatting/time/ISO8601NoClockFormatter.java:34-42 | before year 10000, the outputs of two positive timestamps sort exactly as their local days do |
| `IsoDate.ApplyMonotone` | Plan/common/src/main/java/com/djrapitops/plan/delivery/formatting/time/ISO8601NoClockFormatter.java:34-42 | before year 10000, a <= b for positive timestamps gives apply(a) <= apply(b) in String.compareTo order |

## Left out

- Locale loading (`initLocale`, Plan.java:333-369): it downloads a file over HTTP, copies bytes to disk and deletes the file. That is network and file I/O.
- Host lifecycle plumbing (Plan.java:88-98, 100, 104, 106, 115-121, 134-143, 205-215): data folder, config writing, version check, log lines, listener and command registration, the API object, `handleReload`, console messages, `getServer()` checks. These are calls into the host runtime and collaborators that are not part of this model.
- `uiServer.initServer()` (Plan.java:126): the webserver is not part of this model. The model only records that a server object is created.
- `onDisable` (Plan.java:163-178): it stops the webserver, cancels tasks and runs a thread-pool save. That is concurrency and I/O.
- `hookPlanLite` (Plan.java:149-155): the hook class is not part of this model, and the method swallows every error.
- Backend internals: `MySQLDB`, `SQLiteDB` and `Database.init` are not part of this model. Each backend is its config name plus a fixed `init()` outcome. `OnEnable` receives the registered backends as a parameter, since the concrete names returned by `getConfigName()` are not part of this model.
- Hash set iteration order (Plan.java:73, 229): the backends are a sequence scanned in order. `SelectionIgnoresOrder` shows that with distinct names the order does not matter.
- Cache internals: `DataCacheHandler`, `InspectCacheHandler` and `AnalysisCacheHandler` are not part of this model. The analysis cache keeps only `isCached()`, the snapshot's refresh date and a count of `updateCache()` requests. What an update computes, and when it completes, is not modelled.
- The wall clock (`new Date()`, Plan.java:257) is the parameter `now`. `now - refreshDate` is unbounded integer subtraction; for real epoch-millisecond values the Java `long` subtraction cannot overflow.
- The periodic task runs asynchronously (`runTaskTimerAsynchronously`, Plan.java:261), while the boot task runs on the main thread (`runTaskLater`, Plan.java:273). The model treats each run as one atomic step, and `TaskRequest` does not record whether a task is synchronous. Concurrent runs of the two tasks against the analysis cache are not modelled.
- The host scheduler's own behaviour is not modelled: when tasks run, and what it does with negative or zero delays. The model records what it is asked to do and numbers tasks 1, 2, 3, … in the order they are scheduled.
- `DateFormatter` (the parent class) is not part of this model. The zone is a fixed offset from UTC within ±18 hours. Zone rules with transitions and locale-dependent output are not modelled. The calendar is proleptic Gregorian throughout.
- `IsoDate.Format`: requires a positive timestamp, which is all that its only caller, `apply`, ever passes.
- Years above 9999 are rendered with all their digits, without leading zeros (`Strings.Padded`), and no sign. The formatter may print a sign there, but that formatter is not part of this model.
- `IsoDate.ApplyShape`: the ten-character shape is stated only for dates before year 10000. A later year has more digits.
- `IsoDate.ApplyOrder`: stated only for dates before year 10000. A five-digit year sorts before "9999" as a string.
- `IsoDate.ApplyMonotone`: stated only for dates before year 10000, for the same reason.
- A null `Long` passed to `apply` throws in Java. The model takes an integer.
- `String.equalsIgnoreCase` is modelled on ASCII letters only. Unicode case mapping is not modelled.
- `NukkitAFKListenerTest.java`: the class it tests, `NukkitAFKListener`, is not part of this model.
