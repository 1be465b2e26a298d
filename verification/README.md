# College Life Planner: recurrence dialog, recurring-event routes and calendar pane

This project models the parts of the College Life Planner that carry logic, and proves properties about them in Dafny:

- **The "Customize Recurrence" dialog.** It turns its form controls (frequency, weekdays, monthly day or ordinal weekday, end condition) into a partial RRule options record. The Save, Clear and Cancel buttons decide whether and with what the dialog calls its `onSave` callback (`RecurrenceDialog`).
- **Two backend routes for recurring series.** `DELETE /:id` removes a series. `PATCH /:id/exclude` adds one instance's start and end instants to the exclusion lists of the series' two RRule documents (`RecurringEventRoutes`).
- **The calendar pane.** This covers:
  - the previous/next arrows in the day, week and month views;
  - the seven days of the week view and the 35 days of the month grid;
  - which events land in which day, column or cell, and the two-event cap of a month cell;
  - the muting of cells outside the current month (`CalendarView`).
- **The earlier prototype of the pane.** It adds a three-day view that steps by three days and is drawn like the day view. It builds its month grid from an index formula (`PrototypeCalendarView`).

`Calendar` models the date operations the views use on integer day numbers counted from 1970-01-01 in the proleptic Gregorian calendar. These are date-fns helpers, two `Date` methods and one `format` pattern:

| operation | modelled by |
|---|---|
| `addDays`, `addWeeks` | day arithmetic |
| `addMonths` | `AddMonths`, which clamps to the target month's length |
| `startOfWeek` | `StartOfWeek`, with Sunday as the first day |
| `startOfMonth` | `StartOfMonth` |
| `isSameDay` | `DayOf` |
| `Date.prototype.getMonth` | `MonthIndex` |
| `Date.prototype.getDay` | `Weekday` |
| `format(day, "d")` | `DayOfMonth` |

The walk year by year from 1970 is proved equal to the closed Gregorian formula.

Four behaviours of the code are worth stating plainly:

- The exclude route is not idempotent: excluding the same instance twice lists it twice (`ExcludeTwiceListsTwice`).
- The exclude route accepts any instant, whether or not the rule generates it (`ExcludeInstance`).
- The dialog saves a weekly rule with an empty weekday list when no day is toggled (`SavingUntouchedDialog`).
- With "On" selected but no date picked, the dialog saves a rule that never ends, the same record as "Never" (`SavingOnWithoutDate`). The `until` field is then undefined and `count` is null.

The prototype's week view lists the same seven days as the later pane (src/components/CalendarView.tsx:51-52 against frontend/src/components/CalendarView.tsx:88-89). `CalendarView.WeekDays` models both.

## Model

| member | source | states |
|---|---|---|
| Calendar.DayOf | frontend/src/components/CalendarView.tsx:55 | the day of a timestamp is the day whose millisecond interval holds it |
| Calendar.Weekday | src/components/CalendarView.tsx:85 | `getDay` lies in 0..6 |
| Calendar.StartOfWeek | frontend/src/components/CalendarView.tsx:88 | `startOfWeek` returns a Sunday on or at most six days before the date |
| Calendar.StartOfWeekUnique | frontend/src/components/CalendarView.tsx:135 | a Sunday within the six days before a date is its `startOfWeek` |
| Calendar.YearStartIsGregorian | frontend/src/components/CalendarView.tsx:133 | the year-by-year calendar walk equals the Gregorian closed form of 365 days a year plus leap days |
| Calendar.MonthOf | frontend/src/components/CalendarView.tsx:152 | every day lies in the month whose first day and length enclose it |
| Calendar.MonthOfIs | frontend/src/components/CalendarView.tsx:152 | no other month holds that day |
| Calendar.StartOfMonth | frontend/src/components/CalendarView.tsx:133 | `startOfMonth` is the 1st of the date's month, at most 30 days before the date |
| Calendar.DayOfMonth | frontend/src/components/CalendarView.tsx:154 | the day of the month that `format(day, "d")` prints lies between 1 and the month's length and locates the day from the 1st |
| Calendar.DayFromCivil | frontend/src/components/CalendarView.tsx:154 | building a day from year, month and day of month gives back that month and day of month |
| Calendar.CivilRoundTrip | frontend/src/components/CalendarView.tsx:152-154 | splitting a day into its civil date and rebuilding it gives the same day |
| Calendar.AddMonths | frontend/src/components/CalendarView.tsx:45 | `addMonths` lands n months later on the same day of the month, clamped to the target month's length |
| Calendar.EpochIsNewYear1970 | frontend/src/components/CalendarView.tsx:152-154 | day 0 is Thursday 1 January 1970 |
| CalendarView.InitialPane | frontend/src/components/CalendarView.tsx:39-40 | the pane opens on the week view at today's date |
| CalendarView.Previous | frontend/src/components/CalendarView.tsx:42-46 | "previous" goes back one day, one week (same weekday) or one month (clamped day of month) |
| CalendarView.Next | frontend/src/components/CalendarView.tsx:48-52 | "next" goes ahead one day, one week (same weekday) or one month (clamped day of month) |
| CalendarView.Navigate | frontend/src/components/CalendarView.tsx:42-52 | an arrow press keeps the view and moves the date with that view's step |
| CalendarView.SelectView | frontend/src/components/CalendarView.tsx:175-179 | choosing a view keeps the current date |
| CalendarView.PreviousUndoesNext | frontend/src/components/CalendarView.tsx:42-52 | previous and next are inverse in the day and week views, and in the month view on days 1 to 28 |
| CalendarView.MonthArrowsDoNotRoundTrip | frontend/src/components/CalendarView.tsx:45-51 | from 31 January 2024, next then previous lands on 29 January |
| CalendarView.FirstQuarter2024 | frontend/src/components/CalendarView.tsx:133 | the first days and lengths of January, February and March 2024 |
| CalendarView.EventsOn | frontend/src/components/CalendarView.tsx:55 | the day filter keeps exactly the events that start on that day |
| CalendarView.EventsOnCounts | frontend/src/components/CalendarView.tsx:119 | the filter keeps every copy of a matching event and no copy of any other |
| CalendarView.EventsOnAppend | frontend/src/components/CalendarView.tsx:158 | the filter keeps the input order |
| CalendarView.WeekDays | frontend/src/components/CalendarView.tsx:88-89 | the week view shows the seven consecutive days from the Sunday of the current week |
| CalendarView.WeekColumns | frontend/src/components/CalendarView.tsx:114-119 | column i holds exactly the events starting on the i-th day of the week, and it is the day filter's list for that day, with every copy and in input order |
| CalendarView.EventInAtMostOneColumn | frontend/src/components/CalendarView.tsx:119 | no event appears in two week columns |
| CalendarView.EventShownInWeekIff | frontend/src/components/CalendarView.tsx:114-126 | an event is shown in the week view exactly when it starts in the current week |
| CalendarView.MonthGridDays | frontend/src/components/CalendarView.tsx:133-136 | the grid has 35 consecutive days from a Sunday, and its first row holds the 1st |
| CalendarView.MonthGridHoldsTheFirst | frontend/src/components/CalendarView.tsx:135-136 | the 1st of the month is in the grid's first row |
| CalendarView.CellEvents | frontend/src/components/CalendarView.tsx:157-159 | a cell lists the first min(2, n) of the n events starting that day, in order |
| CalendarView.NearMonth | frontend/src/components/CalendarView.tsx:133-136 | every grid day lies in the current month or a neighbouring one |
| CalendarView.MutedIffOutsideMonth | frontend/src/components/CalendarView.tsx:152 | comparing only month indices mutes exactly the days outside the current month |
| CalendarView.CellsFor | frontend/src/components/CalendarView.tsx:146-166 | each drawn cell carries its day, is muted exactly outside the current month and lists its capped events |
| CalendarView.MonthViewCells | frontend/src/components/CalendarView.tsx:132-171 | the month view draws 35 cells from the grid start; each is muted exactly outside the current month and lists the first min(2, n) of the n events starting that day, in order |
| CalendarView.MonthGridCoversMonthIff | frontend/src/components/CalendarView.tsx:136 | the 35-cell grid shows the whole month exactly when the 1st's weekday plus the month length is at most 35 |
| CalendarView.MarchTwentyTwentyFourLosesItsLastDay | frontend/src/components/CalendarView.tsx:136 | 31 March 2024 is missing from March 2024's grid |
| CalendarView.FullMonthGridDays | frontend/src/components/CalendarView.tsx:136 | a six-week grid extends the 35-cell one and holds every day of the month |
| CalendarView.FullMonthViewCells | frontend/src/components/CalendarView.tsx:146-166 | on the six-week grid every day of the month has an unmuted cell |
| PrototypeCalendarView.InitialPane | src/components/CalendarView.tsx:15-16 | the prototype opens on the week view at today's date |
| PrototypeCalendarView.Previous | src/components/CalendarView.tsx:18-23 | "previous" goes back one day, three days, one week or one clamped month |
| PrototypeCalendarView.Next | src/components/CalendarView.tsx:25-30 | "next" goes ahead one day, three days, one week or one clamped month |
| PrototypeCalendarView.ArrowsAgreeWithLaterPane | src/components/CalendarView.tsx:18-30 | outside the three-day view the prototype's arrows move as the later pane's do |
| PrototypeCalendarView.PreviousUndoesNext | src/components/CalendarView.tsx:18-30 | previous and next are inverse, in the month view on days 1 to 28 |
| PrototypeCalendarView.ScreenFor | src/components/CalendarView.tsx:134-137 | the three-day view draws the day view's hour list, and only day and three-day do |
| PrototypeCalendarView.MonthGridDays | src/components/CalendarView.tsx:84-85 | cell `weekday(1st)` of the grid is the 1st, the grid starts on a Sunday and is consecutive |
| PrototypeCalendarView.GridAgreesWithLaterPane | src/components/CalendarView.tsx:84-85 | the prototype's index formula gives the later pane's grid |
| RecurrenceDialog.WeekdayIndex | frontend/src/components/RecurringEventDialog.tsx:62 | every weekday has a position in the code list |
| RecurrenceDialog.ParseWeekday | frontend/src/components/RecurringEventDialog.tsx:72 | a code names a weekday exactly when it is one of the seven codes |
| RecurrenceDialog.WeekdayCodeRoundTrip | frontend/src/components/RecurringEventDialog.tsx:62 | codes and weekdays correspond one to one |
| RecurrenceDialog.OrdinalNth | frontend/src/components/RecurringEventDialog.tsx:77 | the ordinals table: first, second, third and fourth map to 1, 2, 3 and 4, and last maps to -1 |
| RecurrenceDialog.OrdinalOfNth | frontend/src/components/RecurringEventDialog.tsx:77 | an `nth` argument names an ordinal exactly when it is -1 or 1..4 |
| RecurrenceDialog.OrdinalRoundTrip | frontend/src/components/RecurringEventDialog.tsx:77 | the ordinals table is one to one |
| RecurrenceDialog.InitialForm | frontend/src/components/RecurringEventDialog.tsx:47-59 | the dialog opens weekly with no days, on day 1, first Sunday, never ending, count 1, no date |
| RecurrenceDialog.PlainWeekdays | frontend/src/components/RecurringEventDialog.tsx:72 | the toggled days become plain RRule weekdays in the same order |
| RecurrenceDialog.PlainDaysRoundTrip | frontend/src/components/RecurringEventDialog.tsx:72 | reading the plain weekdays back gives the toggled days |
| RecurrenceDialog.Options | frontend/src/components/RecurringEventDialog.tsx:64-80 | the frequency, end condition and day selector of the record each follow the matching control |
| RecurrenceDialog.OneSelectorSet | frontend/src/components/RecurringEventDialog.tsx:71-80 | exactly one of `byweekday` and `bymonthday` is set |
| RecurrenceDialog.Save | frontend/src/components/RecurringEventDialog.tsx:82-83 | Save passes the options record to `onSave` and closes the dialog |
| RecurrenceDialog.Clear | frontend/src/components/RecurringEventDialog.tsx:86-89 | Clear passes null to `onSave` and closes the dialog |
| RecurrenceDialog.Cancel | frontend/src/components/RecurringEventDialog.tsx:236 | Cancel closes the dialog without calling `onSave` |
| RecurrenceDialog.SavingUntouchedDialog | frontend/src/components/RecurringEventDialog.tsx:47-72 | saving the untouched dialog gives a weekly rule on no days without end |
| RecurrenceDialog.SavingOnWithoutDate | frontend/src/components/RecurringEventDialog.tsx:67-68 | "On" without a picked date saves the same record as "Never", with neither `until` nor `count` |
| RecurrenceDialog.SaveDecodesToChoice | frontend/src/components/RecurringEventDialog.tsx:64-80 | the saved record decodes to exactly the recurrence the controls describe, reading "On" without a date as no end, as `SavingOnWithoutDate` shows Save does |
| RecurrenceDialog.SameOptionsIffSameChoice | frontend/src/components/RecurringEventDialog.tsx:64-80 | two forms save the same record exactly when they describe the same recurrence |
| RecurringEventRoutes.StatusOf | backend/routes/recurringEvents.js:43-50 | a missing series answers 404 and a missing date 400 |
| RecurringEventRoutes.AddExdate | backend/routes/recurringEvents.js:62-71 | an exclusion is appended after the existing ones, creating the list when absent |
| RecurringEventRoutes.ExcludeInstance | backend/routes/recurringEvents.js:42-71 | not found before missing date; on success both lists grow by the instant and the instant plus the series' duration |
| RecurringEventRoutes.PatchExclude | backend/routes/recurringEvents.js:40-82 | a refused request changes nothing; an accepted one rewrites only the requested series |
| RecurringEventRoutes.DeleteSeries | backend/routes/recurringEvents.js:27-37 | delete removes exactly the requested series, or answers 404 when it is missing |
| RecurringEventRoutes.DeleteTwiceFindsNothing | backend/routes/recurringEvents.js:29-32 | a second delete of the same series answers 404 and leaves the collection as it is |
| RecurringEventRoutes.DeleteForgetsExclusions | backend/routes/recurringEvents.js:27-82 | excluding an instance and then deleting the series leaves what a plain delete leaves |
| RecurringEventRoutes.ExcludeKeepsPaired | backend/routes/recurringEvents.js:56-71 | exclusion keeps each end exclusion equal to its start exclusion plus the duration |
| RecurringEventRoutes.FreshSeriesIsPaired | backend/routes/recurringEvents.js:62-67 | a series with no exclusion lists is in lockstep |
| RecurringEventRoutes.ExcludeTwiceListsTwice | backend/routes/recurringEvents.js:70-71 | excluding one instant twice lists it twice on each axis |
| RecurringEventRoutes.PatchExcludeRecordsInstant | backend/routes/recurringEvents.js:70-78 | after an accepted request the instant and its shifted end are excluded |

## Left out

- Expanding rules into occurrences (the RRule library) is not modelled. The routes only edit the stored rule documents.
- The create and list routes are not modelled. They only pass data to and from the database.
- Mongoose persistence is not modelled, and neither is `markModified`.
- The 500 answers of the `catch` branches are not modelled. Database failures are outside the model.
- Ids are assumed to be well-formed ObjectIds. In the source, a malformed `:id` makes `findByIdAndDelete` or `findById` (backend/routes/recurringEvents.js:29, :42) reject with a cast error, and the route answers 500. `DeleteSeries` and `PatchExclude` answer 404 for every id not in the collection.
- RecurringEventRoutes.PatchExclude: each request is modelled as one atomic step. The handler reads the document (backend/routes/recurringEvents.js:42), appends in memory (:70-71) and saves whole rule documents (:74-77), with `await`s in between. Two concurrent requests on one series can therefore lose an exclusion, and the model does not capture that.
- The exclude route's `date` is modelled as a present or absent instant. `new Date(date)` parsing is not modelled, and neither are truthy values that parse to an invalid date. Falsy values other than an absent field are read as absent.
- Time zones and daylight saving are not modelled. Days are UTC days of the millisecond timestamps.
- The current date is a whole day. Its time of day only affects labels.
- The event layout is not modelled. The `top` and `height` offsets are floating-point arithmetic on hours and minutes.
- The labels, hour lists and styling are rendering only. They are not modelled.
- A view name other than the menu items cannot reach the arrow handlers from the menu bar. Such names are not modelled.
- The dialog's number inputs are modelled as integers. `parseInt` yielding `NaN` is not modelled, and neither are the unenforced `min`/`max` attributes.
- The dialog's controls that only set one field are not modelled as separate operations.
- The other components (task input, AI chat, group manager, pages, API wrappers) are not part of this model.
- The prototype's month grid has the same 35-cell shortfall as the later pane's. It is stated once, on `CalendarView`, after `PrototypeCalendarView.GridAgreesWithLaterPane` shows the two grids are equal.

## Findings

| source | as written | input that shows it | evidently intended | confidence | as-written member | corrected member |
|---|---|---|---|---|---|---|
| frontend/src/components/CalendarView.tsx:136 | the month grid has 35 cells from the Sunday on or before the 1st | March 2024 starts on a Friday and has 31 days, so the grid ends on Saturday 30 March and 31 March is never drawn | a grid that always holds the whole month, which needs six weeks (42 cells) | high, not executed | CalendarView.MarchTwentyTwentyFourLosesItsLastDay | CalendarView.FullMonthViewCells |
