# Goals calendar: a verified model

The application is a one-page calendar. It shows one month as a grid of weeks, Sunday first. Clicking a day opens a dialog where the user records a note and a progress percentage for that day. The records live in a map keyed by a `Y-MM-DD` string, and the component writes that map to the browser's storage after every change.

This Dafny project models the logic of `src/App.jsx`:

- `calendar.dfy` (module `Calendar`) covers Gregorian arithmetic. It gives month lengths by the leap-year rule and a day count from 1 January 1970, and derives `getDay()` from that count. It also covers `startOfMonth` and the previous/next-month steps. The `Date` constructor's "day 0 of next month" trick is proved to give the month table's length.
- `month_grid.dfy` (module `MonthGrid`) covers `getMonthMatrix`. It is a method with the source's loops, proved against a slot-by-slot specification `GridCell`. Lemmas then show what that specification means:
  - the row count is 4 to 6;
  - read in order, the dates are exactly days 1 to the month's length;
  - every date stands in the column of its weekday.
- `date_key.dfy` (module `DateKey`) covers `formatDate`, with JavaScript's `String(n)` and `padStart(2, "0")`. A parser for the keys proves the round trip, so two distinct dates never share a key.
- `day_store.dfy` (module `DayStore`) covers the component's state as a class, with one method per event handler: `openDay`, `saveAndClose`, `closeWithoutSave`, the month buttons, the slider and the note. The map field holds `days`, and a second field holds what storage was last given. The module also covers the lookup with its default record and the clamp behind the displayed percentage.
- `wrappers.dfy` defines `Option`, which stands for JavaScript's `null`.

A `Date` is the triple `(year, month0, day)`. Month lengths and weekdays follow the proleptic Gregorian calendar, as JavaScript's `Date` does.

The model follows the code in two places where a reader might expect otherwise:

- The rows after the first are created with `new Array(7).fill(null)`, so the last row is padded with empty slots to seven. The slots are not left out.
- `saveAndClose` stores `progress` as it is (src/App.jsx:71). Only the tile's display clamps it (src/App.jsx:117). Nothing clamps it before storage.

## Model

| member | source | states |
|---|---|---|
| Calendar.DaysInMonth | src/App.jsx:13 | a month has 28 to 31 days: 28 or 29 in February by the Gregorian leap-year rule, 30 in April, June, September and November, 31 otherwise |
| Calendar.MarchYearLength | src/App.jsx:13 | counted from 1 March, a year has 366 days exactly when the February at its end is a leap February, so the day count follows the leap-year rule |
| Calendar.MonthLengthByDayCount | src/App.jsx:13 | the first of the next month, with the year carried from December, lies exactly `DaysInMonth` days after the first of this month |
| Calendar.DayZeroOfNextMonth | src/App.jsx:13 | `new Date(year, month + 1, 0).getDate()`, computed from the day count, equals the month table's length |
| Calendar.Weekday | src/App.jsx:11-12 | `getDay()` of a date lies in 0..6, with Sunday as 0 |
| Calendar.KnownWeekdays | src/App.jsx:11-12 | 1 January 1970 is day 0 and a Thursday; 1 January 2024 is a Monday; 1 February 2023 is a Wednesday |
| Calendar.WeekdayWithinMonth | src/App.jsx:17-27 | day `d` of a month falls `d - 1` weekdays after the first, modulo 7 |
| Calendar.StartOfMonth | src/App.jsx:6-8 | `startOfMonth` keeps the year and month of its argument and sets the day to 1 |
| Calendar.StartOfMonthIdempotent | src/App.jsx:6-8 | applying `startOfMonth` twice gives the same date as applying it once |
| Calendar.MonthStart | src/App.jsx:80 | for a year argument outside 0..99, `new Date(year, monthIndex, 1)` gives day 1 of a month in 0..11, and its month ordinal `12 * year + month` equals `12 * year + monthIndex`, so an index outside 0..11 carries into the adjacent year |
| Calendar.NextMonth | src/App.jsx:83-85 | `nextMonth` gives day 1 of the month whose ordinal is one greater |
| Calendar.PrevMonth | src/App.jsx:79-81 | `prevMonth` gives day 1 of the month whose ordinal is one smaller |
| Calendar.NavigationYearCarry | src/App.jsx:79-85 | December steps forward to January of the next year, and January steps back to December of the previous year; other months keep their year |
| Calendar.NavigationRoundTrip | src/App.jsx:79-85 | next then previous, or previous then next, returns to day 1 of the same month |
| Calendar.LegacyYear | src/App.jsx:80 | after the `Date` constructor's two-digit rule, the year argument is never in 0..99: the rule adds 1900 to exactly the year arguments in 0..99 and keeps every other year. The month carry that follows the rule can still reach year 99 |
| Calendar.LegacyYearCollides | src/App.jsx:80 | year arguments 99 and 1999 are the same after the two-digit rule, and no year argument is 99 after it |
| Calendar.NextMonthAsWritten | src/App.jsx:83-85 | `nextMonth` as written gives day 1 of the month whose ordinal is one past month `getMonth()` of the year argument after the two-digit rule |
| Calendar.PrevMonthAsWritten | src/App.jsx:79-81 | `prevMonth` as written gives day 1 of the month whose ordinal is one before month `getMonth()` of the year argument after the two-digit rule |
| Calendar.NavigationRoundTripFailsAsWritten | src/App.jsx:79-85 | as written, one step back from January of year 100 shows December of year 99, and one step forward from there gives January 2000 |
| Calendar.NavigationAsWrittenAgrees | src/App.jsx:79-85 | outside years 0..99, the month steps as written equal the corrected ones |
| DateKey.NatToString | src/App.jsx:35-36 | `String(n)` of a natural number is a non-empty string of digits, one digit long below 10 and two digits long from 10 to 99 |
| DateKey.ParseIntToString | src/App.jsx:34-37 | the unpadded year text, with a minus sign for a negative year, reads back as the year |
| DateKey.Pad2 | src/App.jsx:35-36 | `padStart(2, "0")` of a number below 100 is exactly two digits |
| DateKey.Pad2Value | src/App.jsx:35-36 | the two padded digits read back as the number |
| DateKey.FormatDate | src/App.jsx:33-38 | the key is the year text followed by six characters: `-`, two month characters, `-` and two day characters |
| DateKey.ParseFormatDate | src/App.jsx:33-38 | the key of every valid date parses back to that year, 0-based month and day |
| DateKey.FormatDateInjective | src/App.jsx:33-38 | two valid dates with the same key are the same date |
| MonthGrid.StartDay | src/App.jsx:11-12 | the column of the first of the month lies in 0..6 |
| MonthGrid.WeekCount | src/App.jsx:22-29 | the number of rows is `ceil((startDay + daysInMonth) / 7)`, which lies between 4 and 6 |
| MonthGrid.MonthMatrix | src/App.jsx:10-31 | the grid has `WeekCount` rows of exactly 7 slots, and every slot equals `GridCell`. In the first row, slots before `startDay` are null and slots from `startDay` to 6 hold days 1 to `7 - startDay`. Read in order, the grid's dates are exactly days 1..`daysInMonth`. The first row's loop does not check the month's end and still stays inside the month, because every month has at least 28 days |
| MonthGrid.GridReadsMonthInOrder | src/App.jsx:23-29 | read row by row, the non-empty slots of the specified grid are days 1..`daysInMonth` of the month: ascending, with no gaps and no duplicates |
| MonthGrid.GridDates | src/App.jsx:22-29 | any rows that agree slot by slot with `GridCell` read as exactly the month's days in order |
| MonthGrid.GridColumnIsWeekday | src/App.jsx:17-27 | a date in column `c` of any row has weekday `c` |
| MonthGrid.TwoDigitYearGrids | src/App.jsx:11-13 | December 99 starts in column 2 but December 1999, which the constructor builds for year argument 99, starts in column 3; February 0 has 29 days but February 1900 has 28 |
| MonthGrid.KnownMonths | src/App.jsx:10-31 | January 2024 starts in column 1, spans 5 rows and has 31 days; February 2023 has 28 days and February 2024 has 29 |
| DayStore.RecordOf | src/App.jsx:65 | a read returns the stored record for the key, or `{note: "", progress: 0}` when the key is absent |
| DayStore.Pct | src/App.jsx:117 | the displayed percentage lies in 0..100: it equals `progress` when `progress` is in range, 0 below the range and 100 above it |
| DayStore.Saved | src/App.jsx:71 | the copied-and-updated map has the old keys plus the saved key; the saved key maps to the new record and every other key keeps its record |
| DayStore.SavedThenRead | src/App.jsx:70-73 | after a save, reading the saved key gives the new record, and reading any other key gives what it gave before |
| DayStore.Load | src/App.jsx:43-49 | a missing or malformed snapshot loads as an empty map; a readable one loads as its map |
| DayStore.CalendarApp.constructor | src/App.jsx:41-56 | start-up shows the first of today's month, loads the records, selects no day, and writes the records back to storage |
| DayStore.CalendarApp.OpenDay | src/App.jsx:62-68 | the selection becomes the day's key, the dialog gets the stored record or the default, and the records stay unchanged |
| DayStore.CalendarApp.SetNote | src/App.jsx:152-155 | the dialog's note becomes the edited text |
| DayStore.CalendarApp.SetProgress | src/App.jsx:142-148 | the dialog's progress becomes the slider's value, which lies in 0..100 |
| DayStore.CalendarApp.SaveAndClose | src/App.jsx:70-73 | the selected key maps to the dialog's note and its progress, unclamped; every other key keeps its record; the selection is cleared and storage equals the new map; the shown month, the note and the progress keep their values |
| DayStore.CalendarApp.CloseWithoutSave | src/App.jsx:75-77 | the selection is cleared, and neither the records nor storage change |
| DayStore.CalendarApp.ShowPrevMonth | src/App.jsx:79-81 | the shown month becomes `PrevMonth` of the old one |
| DayStore.CalendarApp.ShowNextMonth | src/App.jsx:83-85 | the shown month becomes `NextMonth` of the old one |
| DayStore.CalendarApp.Matrix | src/App.jsx:58-60 | the memoised grid of the shown month has `WeekCount` rows of exactly 7 slots, every slot equals `GridCell` of the shown year and month (so each date has its fixed column and the padding is null), and its dates are exactly the days of that month in order |
| DayStore.CalendarApp.DisplayedPercent | src/App.jsx:115-117 | a tile shows a value in 0..100: 0 for a day without a record, and the stored progress when it is in range |
| DayStore.OpenAndCancel | src/App.jsx:62-77 | opening a day and cancelling leaves the records, storage and the shown month as they were, with no day selected; the dialog's note and progress keep the opened record |
| DayStore.OpenAndSaveUnedited | src/App.jsx:62-73 | opening a day and saving without an edit stores exactly the record the dialog showed (the default for a day without one), with no day selected |

## Findings

| source | as written | input that shows it | evidently intended | confidence | as-written member | corrected member |
|---|---|---|---|---|---|---|
| src/App.jsx:79-85 | `prevMonth` and `nextMonth` pass `getFullYear()` to `new Date(year, month ± 1, 1)`, and that constructor reads a year argument in 0..99 as 1900..1999 | shown month January 100: `prevMonth` shows December 99, and `nextMonth` then shows January 2000. Under the header December 99, `getMonthMatrix(99, 11)` lays out December 1999 and its tiles open the keys of December 1999 (`MonthGrid.TwoDigitYearGrids`) | one step back and one step forward return to the same month for every year | high (follows from the `Date` constructor's two-digit-year rule); not executed | Calendar.NavigationRoundTripFailsAsWritten | Calendar.NavigationRoundTrip |

The corrected month steps `Calendar.NextMonth` and `Calendar.PrevMonth` take the year as it is. The class uses them. `Calendar.NextMonthAsWritten` and `Calendar.PrevMonthAsWritten` keep the behaviour as written.

## Left out

- Rendering, CSS classes, the tile's gradient string, the tooltip and the localized month name (src/App.jsx:87-167) are presentation. Only the clamped percentage of line 117 is modelled.
- `JSON.parse` and `JSON.stringify` are not modelled (src/App.jsx:45, 55). The storage slot is modelled by the map itself. `Load` receives either that map or the outcome "missing" or "malformed", and nothing about the text format is proved. A snapshot that parses to something other than an object is not modelled.
- React's `useState`, `useEffect` and `useMemo` scheduling is not modelled. The handlers are sequential methods on one object. The effect that writes `days` to storage is folded into the handlers that change `days`, namely the constructor and `SaveAndClose`.
- `new Date()` for today is a clock read. The constructor takes `today` as a parameter.
- JavaScript's falsy coercions `data.note || ""` and `data.progress || 0` (src/App.jsx:66-67, 116-117) reduce to the identity on typed fields and are not modelled. A stored progress of `NaN` is not modelled either.
- Time of day, time zones and the `Date` range limit of about 275,760 years are not modelled. Years are unbounded integers.
- MonthGrid.MonthMatrix: uses the year it is given. For a year argument in 0..99, the source's `new Date(year, month, 1)` (src/App.jsx:11, 20, 26) would lay out and date the grid of 1900 + year. This is the same two-digit-year rule as under Findings.
- Calendar.NextMonth: takes a year in 0..99 as it is. For such a year the source's step is `Calendar.NextMonthAsWritten`, which moves it to 1900 + year (see Findings).
- Calendar.PrevMonth: takes a year in 0..99 as it is. For such a year the source's step is `Calendar.PrevMonthAsWritten`, which moves it to 1900 + year (see Findings).
- DayStore.CalendarApp.ShowNextMonth: uses the corrected `Calendar.NextMonth`. For a shown year in 0..99 the source's handler gives `Calendar.NextMonthAsWritten` instead.
- DayStore.CalendarApp.ShowPrevMonth: uses the corrected `Calendar.PrevMonth`. For a shown year in 0..99 the source's handler gives `Calendar.PrevMonthAsWritten` instead.
- MonthGrid.StartDay: uses the year it is given. For a year argument in 0..99 the source's `first` (src/App.jsx:11) is in 1900 + year, so December 99 starts in column 3, not 2 (`MonthGrid.TwoDigitYearGrids`).
- Calendar.DayZeroOfNextMonth: uses the year it is given. For a year argument in 0..99 the source's `new Date(year, month + 1, 0)` (src/App.jsx:13) counts the month of 1900 + year, so February 0 has 28 days there, not 29.
- DayStore.CalendarApp.Matrix: gives the grid of the shown year. When the shown year is in 0..99, which `prevMonth` reaches from January 100, the source's memo (src/App.jsx:58-60) is the grid of 1900 + year, with that year's dates and keys.
- Calendar.MonthStart: models the constructor after its two-digit rule, taking the year as it is. For a year argument in 0..99, `new Date(year, monthIndex, 1)` gives a month of 1900 + year instead. `Calendar.NextMonthAsWritten` and `Calendar.PrevMonthAsWritten` apply `Calendar.LegacyYear` before `MonthStart` to get the constructor's behaviour.
- Calendar.StartOfMonth: keeps a year in 0..99. The source's `new Date(getFullYear(), getMonth(), 1)` (src/App.jsx:7) would move it to 1900 + year, by the same rule.
- Each row of the grid is returned as a sequence, not as the array the source fills. The source never changes a row after pushing it, so nothing observable is lost.
- `saveAndClose` with no day selected cannot happen: its button exists only while a day is selected (src/App.jsx:136, 158). `SaveAndClose` therefore requires a selection.
