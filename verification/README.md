# Attendance grid: a Dafny model

This project models the month view of a small attendance-tracking client
(`src/Components/AttendanceGrid.js`). The view shows one calendar month as a
fixed 5 x 7 grid. Each day cell carries a present/absent flag. A day that is
not in the future can be clicked, given a new status in a dialog and saved.
The change is posted to a remote service, and the grid is updated only after
the write succeeds.

The model has six modules:

- `Wrappers`: an `Option` type, standing for the component's `null` values.
- `Calendar`: proleptic Gregorian arithmetic in place of JavaScript's `Date`.
  It covers month lengths, a day numbering (0001-01-01 is day 0), the weekday
  with 0 = Sunday as `getDay` returns it, the local-midnight comparison with
  "now", and the `(year, month)` navigation step.
- `GridLayout`: `createAttendanceGrid`. It has a specification function
  `Layout` and an imperative method `CreateAttendanceGrid` with the source's
  nested loops and its `currentDay` counter. The method is proved equal to
  `Layout`. Lemmas give the order and count of the days shown, where each day
  sits, and the days lost to the fifth-row cut-off.
- `DateFormat`: the payload's `<year>-<MM>-<DD>` date string. A parser is
  proved to read the string back. Another lemma gives the exact set of years
  for which the string has the `full-date` shape of RFC 3339, section 5.6.
- `AttendanceView`: the component as a class `AttendanceGrid`. Its fields
  are the React state (`year`, `month`, `attendance`, `selectedRowIndex`,
  `selectedColIndex`, `newStatus`, `isDialogOpen`) and the username. Its
  methods are the event handlers. The pure parts are functions: the
  future-date test, the request that save posts, and the guarded one-cell
  update.
- `Scenarios`: end-to-end runs on March 2024 (a successful edit, a failed
  edit, a locked future day, closing the dialog twice). They are stated as
  what a caller can prove from the handlers' contracts.

Inputs from outside the component are parameters:

- "now" is an `Instant`: a local day plus the milliseconds since its midnight.
- The random status draws are a `seq<bool>`; day `d` gets `coins[d - 1]`.
- The outcome of the HTTP post is a `writeSucceeds` flag.
- The username is a constructor argument.

Behaviour the model keeps from the code:

- **Clicking an empty cell.** The render-time guard lets the click through,
  because `isFutureDate` is falsy for `null`. `handleGridClick` then reads
  `.date` of `null` and throws before any state is set. The model makes
  this click a no-op (`HandleGridClick` needs no precondition on the cell).
- **Saving with a selection that no longer holds a day.** This can happen
  after navigation. Reading the cell's `.date` throws inside the `try`, and
  the error is caught and logged. The model sends nothing and changes
  nothing.
- **Navigation keeps the selection.** It does not clear `selectedRowIndex`,
  `selectedColIndex`, `newStatus` or `isDialogOpen`; it only rebuilds the
  grid.
- **The username is posted as it is.** No check for a missing identity exists.
- **A failed write is only logged.** The dialog stays open and the chosen
  status is kept.
- **Days beyond slot 35 are dropped.** The grid always has 5 rows. A month
  whose days need a sixth row loses its last days. For example, March 2024
  starts on a Friday and has 31 days, so day 31 is not shown
  (`GridLayout.MarchTwentyTwentyFourLosesLastDay`).

## Model

| member | source | states |
|---|---|---|
| `Calendar.DaysInMonth` | src/Components/AttendanceGrid.js:5-7 | a month has 28 to 31 days; February has 29 in Gregorian leap years and 28 otherwise; April, June, September and November have 30, and each other month has 31 |
| `Calendar.DayZeroOfNextMonth` | src/Components/AttendanceGrid.js:5-7 | "day 0 of the next month" (one day before its first, year rollover included) is the last day of the month, day `DaysInMonth`, so `getDaysInMonth` gives the month length |
| `Calendar.NextDayNumber` | src/Components/AttendanceGrid.js:5-7 | the day numbering counts days: the day after a valid day (rolling over month and year ends) has the next number |
| `Calendar.WeekdayOfNextDay` | src/Components/AttendanceGrid.js:11 | weekdays advance by one per day and wrap from Saturday (6) to Sunday (0), across month and year ends |
| `Calendar.Weekday` | src/Components/AttendanceGrid.js:11 | `getDay` of a date lies in 0..6 (0 = Sunday); `WeekdayOfNextDay` and `WeekdayAnchor` fix which value each day gets |
| `Calendar.WeekdayAnchor` | src/Components/AttendanceGrid.js:11 | 1970-01-01 was a Thursday (4), which pins the weekday numbering to the one `getDay` uses |
| `GridLayout.FirstDayOfMonth` | src/Components/AttendanceGrid.js:11 | the weekday of the first of the month lies in 0..6 (0 = Sunday) |
| `GridLayout.FirstDayOfNextMonth` | src/Components/AttendanceGrid.js:11 | the next month's first weekday is this month's plus the month length, modulo 7, across the year end too |
| `Calendar.AfterIffLaterDayNumber` | src/Components/AttendanceGrid.js:52 | for valid days, comparing (year, month, day) lexicographically is the same as comparing their day numbers, both ways |
| `Calendar.IsFutureDate` | src/Components/AttendanceGrid.js:52 | for a valid day, local midnight lies after "now" exactly when the day is after today, whatever the time of day; today itself is not in the future |
| `Calendar.PreviousMonth` | src/Components/AttendanceGrid.js:107-112 | going back one month lowers the absolute month count 12*year+month by one; the month stays in 0..11 |
| `Calendar.NextMonth` | src/Components/AttendanceGrid.js:113-118 | going forward one month raises the absolute month count by one; the month stays in 0..11 |
| `Calendar.MonthIndexInjective` | src/Components/AttendanceGrid.js:107-118 | two (year, month) keys with the same absolute month count are equal, so the count determines where navigation lands |
| `Calendar.NavigationRoundTrip` | src/Components/AttendanceGrid.js:107-118 | next after previous, and previous after next, give back the same (year, month) |
| `Calendar.NavigationRollover` | src/Components/AttendanceGrid.js:107-118 | previous from (y, 0) is (y-1, 11); next from (y, 11) is (y+1, 0) |
| `GridLayout.Layout` | src/Components/AttendanceGrid.js:9-31 | the grid has 5 rows of 7 cells; a day cell at (r, c) has date 7r + c - firstDayOfMonth + 1, which lies in 1..daysInMonth, and carries that day's status draw |
| `GridLayout.CreateAttendanceGrid` | src/Components/AttendanceGrid.js:9-31 | the nested loops with the running `currentDay` counter build exactly `Layout(year, month, coins)` |
| `GridLayout.LayoutDatesInOrder` | src/Components/AttendanceGrid.js:15-30 | read row by row, the day cells hold exactly 1, 2, ..., min(daysInMonth, 35 - firstDayOfMonth): consecutive from the first, cut off where the 35 slots end |
| `GridLayout.LayoutDayCount` | src/Components/AttendanceGrid.js:15-30 | the number of non-empty cells is min(daysInMonth, 35 - firstDayOfMonth) |
| `GridLayout.LayoutPositions` | src/Components/AttendanceGrid.js:18-22 | day d is at row (first+d-1)/7, column (first+d-1)%7 when that slot is among the 35; otherwise no cell carries day d |
| `GridLayout.LayoutCellPosition` | src/Components/AttendanceGrid.js:18-22 | every day cell sits at the position computed from its own date (coordinate to date and back) |
| `GridLayout.MarchTwentyTwentyFourLosesLastDay` | src/Components/AttendanceGrid.js:15-30 | March 2024 starts on weekday 5; its grid shows days 1..30, and no cell carries day 31 |
| `DateFormat.PadStart2` | src/Components/AttendanceGrid.js:73-78 | `padStart(2, "0")` keeps the string as its suffix and fills in front of it with '0' up to two characters; a string of two or more characters comes back unchanged |
| `DateFormat.DecimalRoundTrip` | src/Components/AttendanceGrid.js:73-78 | the decimal text of a natural number reads back as that number |
| `DateFormat.IntTextRoundTrip` | src/Components/AttendanceGrid.js:73 | the year as `toString` writes it (a minus sign for negative years) reads back as the year |
| `DateFormat.FormatDate` | src/Components/AttendanceGrid.js:73-78 | for a day of at most two digits, the payload date `<year>-<MM>-<DD>` reads back as (year, month + 1, day); this holds for every integer year, negative ones included, and so for every year `Date` can hold |
| `DateFormat.FormatDateIsFullDate` | src/Components/AttendanceGrid.js:73-78 | the payload date has the RFC 3339 `full-date` shape exactly when 1000 <= year <= 9999, because the year is not padded |
| `AttendanceView.StatusLabel` | src/Components/AttendanceGrid.js:72 | the status is "present" exactly when the new status is true, and "absent" exactly when it is false |
| `AttendanceView.SaveRequest` | src/Components/AttendanceGrid.js:64-80 | a payload is produced exactly when the status and both indices are set and the selected cell holds a day; it carries the username, a date that reads back as (year, month + 1, cell date), and the status label of the chosen status |
| `AttendanceView.SetPresence` | src/Components/AttendanceGrid.js:82-94 | when row and cell exist and hold a day, that cell's flag becomes the new status with its date kept; every other cell is unchanged; otherwise the grid is unchanged |
| `AttendanceView.SetPresenceShowsMonth` | src/Components/AttendanceGrid.js:82-94 | the update changes no date: the grid still shows its month's days at their positions |
| `AttendanceView.SetPresenceIdempotent` | src/Components/AttendanceGrid.js:82-94 | saving the same status to the same cell twice leaves the grid as saving it once |
| `AttendanceView.LayoutShowsMonth` | src/Components/AttendanceGrid.js:103-105 | every grid built for (year, month) shows that month's days at their layout positions, whatever the status draws |
| `AttendanceView.IsFutureCell` | src/Components/AttendanceGrid.js:152-153 | an empty cell is never in the future; a cell holding a valid day is in the future exactly when that day is after today |
| `AttendanceView.FutureCellIffAfterToday` | src/Components/AttendanceGrid.js:152-153 | on the displayed month's grid, the render-time future test holds exactly for day cells whose day is after today |
| `AttendanceView.ClickAcceptedIffNotAfterToday` | src/Components/AttendanceGrid.js:165-167 | a click is accepted exactly on day cells not after today; the cell for today is accepted |
| `AttendanceView.AttendanceGrid.constructor` | src/Components/AttendanceGrid.js:34-40 | mounting shows the month of "now" with a freshly built grid, no selection, no pending status and the dialog closed |
| `AttendanceView.AttendanceGrid.HandleGridClick` | src/Components/AttendanceGrid.js:45-58 | an accepted click records (row, col) and opens the dialog; a click on a future day or an empty cell changes nothing; the grid, month and pending status never change |
| `AttendanceView.AttendanceGrid.HandleCloseDialog` | src/Components/AttendanceGrid.js:59-62 | the dialog is closed and the pending status cleared; selection, month and grid are untouched, so a second close changes nothing more |
| `AttendanceView.AttendanceGrid.SetNewStatus` | src/Components/AttendanceGrid.js:221 | a radio button sets the pending status (true for Present at line 221, false for Absent at line 232) and nothing else |
| `AttendanceView.AttendanceGrid.HandleSaveChanges` | src/Components/AttendanceGrid.js:63-101 | posts `SaveRequest` of the state before the call; after a successful write the grid becomes `SetPresence` of the old grid, the dialog closes and the pending status is cleared; if nothing was posted or the write failed, the grid, dialog and pending status stay as they were; the selection and month never change |
| `AttendanceView.AttendanceGrid.HandlePreviousMonth` | src/Components/AttendanceGrid.js:107-112 | the displayed month becomes `PreviousMonth` of the old one and the grid is rebuilt for it; selection, pending status and dialog are kept |
| `AttendanceView.AttendanceGrid.HandleNextMonth` | src/Components/AttendanceGrid.js:113-118 | the displayed month becomes `NextMonth` of the old one and the grid is rebuilt for it; selection, pending status and dialog are kept |
| `Scenarios.SuccessfulEdit` | src/Components/AttendanceGrid.js:63-96 | on 2024-03-15, selecting March 10, choosing present and saving successfully posts {alice, "2024-03-10", "present"}, sets the cell to present and closes the dialog |
| `Scenarios.FailedEdit` | src/Components/AttendanceGrid.js:97-99 | the same edit with a failed write leaves the cell's status as drawn, the dialog open and the chosen status pending |
| `Scenarios.FutureDayLocked` | src/Components/AttendanceGrid.js:52-54 | on 2024-03-15 a click on March 16 selects nothing and leaves the dialog closed |
| `Scenarios.CloseTwice` | src/Components/AttendanceGrid.js:59-62 | closing the dialog twice leaves it closed with no pending status and the selection kept |

## Left out

- JSX rendering and styling (lines 120-251) are not modelled: colours, labels, the month title from `toLocaleDateString`, and the dialog markup. The render-time future test at lines 152-153 is kept as `IsFutureCell`.
- The dialog's visibility (lines 185-187) is not a precondition. `SetNewStatus` and `HandleSaveChanges` can be called in any state, as the handlers themselves allow.
- `axios.post` (line 81) is network I/O. The model takes its outcome as the `writeSucceeds` parameter and returns the payload that would be posted. `console.error` (line 98) is dropped.
- `Math.random()` (line 21) is replaced by the `coins` input sequence. The navigation handlers ask for at least 31 draws, enough for any month.
- `new Date()` at lines 34-35, 46 and 153 becomes the `Instant` parameter `now`. Day numbers count from 0001-01-01 rather than from 1970. Every local day is taken to be 24 hours long, so time zones and daylight-saving shifts are not modelled. Only comparisons of timestamps are used, so the epoch does not matter.
- The `Date` constructor's mapping of years 0 to 99 to 1900-1999 is not modelled. The model counts years in the proleptic Gregorian calendar.
- `Date`'s range limit is not modelled. A `Date` holds only about years -271821 to 275760 (8.64e15 ms either side of 1970). Outside that range `getDaysInMonth` yields `NaN`, the grid is 35 empty cells, and the posted date would read "NaN-NaN-NaN". The model's years are unbounded, so its results for those years have no counterpart in the component.
- `Date`'s normalisation of out-of-range day numbers at line 71 is not modelled. `SaveRequest` requires a grid that shows its month (`ShowsMonth`), as every grid the component holds does, so the selected day is always inside the month.
- The username lookup through `useLocation`/`URLSearchParams` (lines 41-43) is a constructor argument. A missing `username` (JSON `null`) is not modelled.
- React scheduling is not modelled: `useState` batching, functional updaters, the re-render between the effect at lines 103-105 and the handlers, and the initial render with an empty `attendance` before the first effect. Each handler is one sequential step, and the constructor includes the first effect.
- The shallow copy at line 83 shares row arrays with the previous state, so the old state's row is mutated too. The model replaces the grid value and does not model this aliasing.
- Overlapping an in-flight save with navigation, closing or another save is not modelled. Neither is a guard against double submission, which the code does not have.
- `src/Login.js` (a `fetch` POST, a blank-field check and a router `navigate`) and `src/App.js` (the route table) are not part of this model.
