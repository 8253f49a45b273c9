# Memento Mori year engine, modelled in Dafny

Memento Mori shows one calendar year as a grid of dots, one per day, with
each day marked as past, today or future, and a count of the days left. This
project models the logic behind that page and proves its properties:

- `calendar.dfy` (module `Calendar`): the Gregorian leap-year rule of
  `isLeapYear`, and the parts of JavaScript's `Date` that the engine relies
  on. These are the month-length table, the day overflow of
  `new Date(year, 0, i)` (`Normalize`, `DateOfOrdinal`), day-of-year
  ordinals (`Ordinal`), and millisecond timestamps (`Timestamp`).
- `utils.dfy` (module `Utils`): `getYearStats` as the function `GetYearStats`.
  `generateDayGrid` appears twice: as the method `GenerateDayGrid`, whose loop
  pushes one entry per day, and as the specification function `DayGrid`. The
  method is proved equal to the function. Lemmas about `DayGrid` cover the
  rest: the grid's shape, the classification of each day, that past days form
  a prefix, that there is exactly one "today", and that the past-or-today
  count equals `daysPassed`.
- `app.dfy` (module `App`): the application's `year`/`stats`/`days` state as
  the class `YearView`. The class has the change handler, the effect that
  re-derives `stats` and `days`, and the header's previous and next arrows.
  The module also has the day-detail message choice.
- `time_display.dfy` (module `TimeDisplay`): `formatDrift` and the rule that
  decides when the drift line is shown. A parser for the message, used only in
  proofs, shows that the message keeps every bit of the drift.

"Now" is a parameter everywhere. The source reads the wall clock itself. An
`Instant` is a local civil date (year, month, day) plus the milliseconds since
that day's midnight. The model assumes **24-hour days and a fixed UTC offset
(no daylight saving)**. Under that assumption, `Timestamp` gives the same
differences and comparisons as `getTime()`.

## Model

| member | source | states |
|---|---|---|
| `Calendar.LeapYearExamples` | utils.ts:34-36 | The leap-year rule gives 2000, 2024 and 2400 as leap years and 1900, 2023 and 2100 as common years. |
| `Calendar.DaysInYear` | utils.ts:10 | A year has 365 or 366 days. |
| `Calendar.DaysInMonth` | utils.ts:45 | Month lengths are between 28 and 31 days. February has 29 days exactly in leap years. |
| `Calendar.DaysBeforeMonthTotal` | utils.ts:10 | The twelve month lengths add up to the year's 365 or 366 days. |
| `Calendar.DaysBeforeMonthMonotone` | utils.ts:45 | Each later month starts at least 28 days after an earlier one. |
| `Calendar.Ordinal` | utils.ts:44-45 | A valid date's 1-based day-of-year ordinal lies in [1, days in its year]. |
| `Calendar.Normalize` | utils.ts:45 | The Date constructor's day overflow always gives a valid calendar date. |
| `Calendar.DateOfOrdinal` | utils.ts:45 | `new Date(year, 0, i)` gives a valid date for every i >= 1. |
| `Calendar.NormalizeWithinYear` | utils.ts:44-45 | Overflowing day counts that fit in the year stay in the year. They land on the matching ordinal. |
| `Calendar.OrdinalOfDateOfOrdinal` | utils.ts:44-45 | For 1 <= i <= days in the year, `new Date(year, 0, i)` lies in `year` and has ordinal i. |
| `Calendar.OrdinalInjective` | utils.ts:49 | Two dates of one year with the same ordinal are the same date. |
| `Calendar.DateOfOrdinalOfDate` | utils.ts:45 | Counting a date's own ordinal from January 1 gives the date back. This is the inverse direction of the round trip. |
| `Calendar.DaysBeforeYearStep` | utils.ts:17 | Timestamps of consecutive January 1sts differ by exactly that year's 365 or 366 days. |
| `Calendar.DaysBeforeYearMonotone` | utils.ts:17 | A later year starts at least 365 days per year later. |
| `Calendar.DayNumberWithinYear` | utils.ts:17 | A date's day count since the epoch lies between its year's first day and the next year's first day. |
| `Calendar.DayNumberYearOrder` | utils.ts:50 | Every date of an earlier year comes before every date of a later year. |
| `Calendar.TimestampOrder` | utils.ts:50 | Comparing Date values orders instants by day, then by time of day. |
| `Utils.GetYearStats` | utils.ts:4-31 | `year` is echoed. `totalDays` is 366 exactly for leap years and 365 otherwise. `daysPassed` lies in [0, totalDays]. `daysPassed + daysLeft == totalDays`. A past year is fully passed, and a future year has nothing passed. `percentComplete` lies in [0, 100] and is 100 exactly when the year is fully passed. |
| `Utils.DaysPassedIsOrdinal` | utils.ts:16-18 | In now's year, the floor of the elapsed milliseconds over a day, plus one, is now's day-of-year ordinal (>= 1). The clamp leaves it unchanged. |
| `Utils.DayAt` | utils.ts:45-57 | The pushed entry for day i has `dayNumber` i and date `new Date(year, 0, i)`. |
| `Utils.DayGrid` | utils.ts:38-60 | The grid has one entry per day of the year. |
| `Utils.GenerateDayGrid` | utils.ts:38-60 | The loop pushes exactly the entries of `DayGrid(year, now)`, in order. |
| `Utils.DayClassification` | utils.ts:49-50 | An entry is today exactly when now is in the year and has the entry's ordinal. An entry is past exactly when now's year is later, or is the same year with a later ordinal. No entry is both past and today. |
| `Utils.DayGridShape` | utils.ts:44-57 | The grid has 366 entries in a leap year and 365 otherwise. Entry k has `dayNumber` k + 1, and its date is in the target year with ordinal k + 1. |
| `Utils.ElapsedIsPrefix` | utils.ts:49-50 | An entry is past or today exactly when its index is below `daysPassed`. The today entry, if any, is entry `daysPassed - 1`. Past and today are exclusive. |
| `Utils.PastIsPrefix` | utils.ts:50 | If an entry is past, every earlier entry is past. |
| `Utils.ElapsedCountIsDaysPassed` | utils.ts:13-23 | The number of grid entries that are past or today equals `getYearStats`'s `daysPassed`. |
| `Utils.TodayCount` | utils.ts:49 | Exactly one entry is today when now falls in the target year. Otherwise none is. |
| `Utils.MarchFirst2024` | utils.ts:38-60 | At any time on March 1, 2024, the grid has 366 entries and 61 days have passed. Entry 61 is today, entries 1-60 are past, and entries 62-366 are future. |
| `App.AcceptYear` | App.tsx:34-38 | The handler keeps a requested year exactly when it lies in [1900, 2100]. Otherwise the current year stays. |
| `App.YearAfterStaysInRange` | components/Header.tsx:18-37 | Starting inside [1900, 2100], any sequence of previous/next arrow presses leaves the year inside [1900, 2100]. |
| `App.YearAfterMovesAtMostOnePerPress` | components/Header.tsx:18-37 | After n arrow presses the year is within n of where it started. |
| `App.YearView.constructor` | App.tsx:11-13 | The initial state selects now's year. Its stats and grid are the engine's values at now, and `daysPassed` is today's ordinal. |
| `App.YearView.Recompute` | App.tsx:18-21 | The effect on `year` sets `stats` and `days` to the engine's values for `year` at the given instant. |
| `App.YearView.HandleYearChange` | App.tsx:34-38 | A year in [1900, 2100] becomes the selected year, with stats and grid recomputed. Any other request changes nothing, and so does re-selecting the current year. Afterwards the grid length equals `stats.totalDays` and `stats.year == year`. |
| `App.YearView.RequestPreviousYear` | components/Header.tsx:18 | The left arrow asks for `stats.year - 1`. The year stays in range. A move recomputes stats and grid at the given instant. A rejected request (at 1900, or from a year outside the range) changes nothing. |
| `App.YearView.RequestNextYear` | components/Header.tsx:37 | The right arrow asks for `stats.year + 1`. The year stays in range. A move recomputes stats and grid at the given instant. A rejected request (at 2100, or from a year outside the range) changes nothing. |
| `App.DayMessage` | App.tsx:88-92 | A day gets exactly one of the three texts: the past text iff it is past, the today text iff it is today and not past, and the future text otherwise. |
| `App.GridDayMessage` | App.tsx:88-92 | On a grid entry, the today text appears exactly on the today entry. The future text appears exactly on the entries after the first `daysPassed`. |
| `TimeDisplay.SplitSeconds` | components/TimeDisplay.tsx:80-82 | Minutes * 60 + seconds equals the drift's magnitude, and the seconds lie in [0, 59]. |
| `TimeDisplay.DecimalString` | components/TimeDisplay.tsx:85-86 | A number is written as a non-empty string of decimal digits. |
| `TimeDisplay.DecimalRoundTrip` | components/TimeDisplay.tsx:85-86 | The decimal text of a number reads back as that number. |
| `TimeDisplay.Amount` | components/TimeDisplay.tsx:84-86 | The drift text always ends with the seconds part "…s". |
| `TimeDisplay.AmountRoundTrip` | components/TimeDisplay.tsx:81-86 | The drift text, with or without its "<m>m " part, reads back as the magnitude. |
| `TimeDisplay.FormatDrift` | components/TimeDisplay.tsx:88 | The message always starts with "Clock is ". |
| `TimeDisplay.FormatDriftRoundTrip` | components/TimeDisplay.tsx:78-89 | The message reads back as the exact signed drift, so no two drifts give the same message. |
| `TimeDisplay.FormatDriftDirection` | components/TimeDisplay.tsx:79 | The message ends in " ahead" iff the drift is positive. It ends in " behind" iff the drift is zero or negative. |
| `TimeDisplay.FormatDriftMinutes` | components/TimeDisplay.tsx:85 | The minutes part (the only 'm' in the message) appears iff the drift's magnitude is at least 60 seconds. |
| `TimeDisplay.DriftLine` | components/TimeDisplay.tsx:106-111 | The drift message is shown iff the drift is known and its magnitude exceeds 1. It then reads back as the drift. Otherwise "Synchronization optimal" is shown. |

## Left out

- `formatDate`: it wraps the locale library's `toLocaleDateString`, whose month and weekday names and layout are not part of this model.
- The wall clock: "now" is a parameter of `GetYearStats`, `DayGrid`, `GenerateDayGrid` and the `YearView` methods. The source calls `new Date()` separately for the stats and for the grid, milliseconds apart. The model uses one instant for both.
- Daylight saving and time zones: the model assumes 24-hour days and a fixed UTC offset. On a day with a daylight-saving change, the source's millisecond floor division can be off by one. The model does not capture this.
- Floating point: the source computes `Math.floor(diff / 86400000)` in double precision. The double quotient itself is generally not exact, but its rounding error (for quotients up to about 366) is far smaller than the distance 1/86400000 between a non-integer quotient and the next integer. So its floor equals the exact floor, and the model uses exact floor division. `percentComplete` is modelled as an exact real.
- `Utils.DayAt`, `Utils.MillisSinceYearStart`, `Utils.GetYearStats`: JavaScript's `Date` constructor (in `new Date(year, 0, i)` and in `startOfYear = new Date(year, 0, 1)`) reads a year from 0 to 99 as 1900 to 1999. The model uses the year as given. The application only selects years in [1900, 2100] or the clock's own year, so the difference never arises there.
- The range of JavaScript `Date` (about ±275,000 years) is not modelled: years are unbounded integers.
- `toDateString()` equality is modelled as equality of civil dates. The weekday in that string is a function of the date.
- The reflection text from the external text-generation service, with its fallback strings, the refresh button and the fetch effects: all of these are network calls.
- The network time sync (geolocation, `fetch`, latency halving, rounding of the drift), the one-second ticking clock and the flip-digit animation are asynchronous timer and I/O work. The drift reaches the model only as an optional whole number of seconds.
- Rendering of the header, the grid and the modal. The header contributes only its two year requests, and the modal only its message choice.
