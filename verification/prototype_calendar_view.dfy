/** The earlier prototype of the calendar pane. It offers a three-day view
    besides day, week and month, draws no events, and builds its month grid
    from its own index formula. Its week view lists the same seven days as
    `CalendarView.WeekDays`. */
module PrototypeCalendarView {
  import opened Calendar
  import CalendarView

  /** The views of the prototype's menu bar. */
  datatype View = Day | ThreeDay | Week | Month

  /** The body the pane draws below the navigation bar. */
  datatype Screen = HourList | WeekGrid | MonthGrid

  /** What the pane holds between renders. */
  datatype PaneState = PaneState(view: View, current: int)

  /** The pane opens on the week view at today's date. */
  function InitialPane(today: int): (s: PaneState)
    ensures s.view == Week
    ensures s.current == today
  {
    PaneState(Week, today)
  }

  /** Number of days the three-day view moves by. */
  const ThreeDayStep := 3

  /** The "next" arrow. */
  function Next(view: View, d: int): (r: int)
    ensures view == Day ==> r == d + 1
    ensures view == ThreeDay ==> r == d + ThreeDayStep
    ensures view == Week ==> Weekday(r) == Weekday(d) && StartOfWeek(r) == StartOfWeek(d) + 7
    ensures view == Month ==> MonthOf(r) == MonthOf(d) + 1
    ensures view == Month ==> DayOfMonth(r) == Min(DayOfMonth(d), Length(MonthOf(d) + 1))
  {
    match view
    case Day => d + 1
    case ThreeDay => d + ThreeDayStep
    case Week => d + 7
    case Month => AddMonths(d, 1)
  }

  /** The "previous" arrow. */
  function Previous(view: View, d: int): (r: int)
    ensures view == Day ==> r == d - 1
    ensures view == ThreeDay ==> r == d - ThreeDayStep
    ensures view == Week ==> Weekday(r) == Weekday(d) && StartOfWeek(r) == StartOfWeek(d) - 7
    ensures view == Month ==> MonthOf(r) == MonthOf(d) - 1
    ensures view == Month ==> DayOfMonth(r) == Min(DayOfMonth(d), Length(MonthOf(d) - 1))
  {
    match view
    case Day => d - 1
    case ThreeDay => d - ThreeDayStep
    case Week => d - 7
    case Month => AddMonths(d, -1)
  }

  /** The view of the later pane that a prototype view corresponds to, if
      any. */
  function Later(view: View): (r: CalendarView.View)
    requires view != ThreeDay
  {
    match view
    case Day => CalendarView.Day
    case Week => CalendarView.Week
    case Month => CalendarView.Month
  }

  /** The day, week and month arrows move exactly as the later pane's do. */
  lemma ArrowsAgreeWithLaterPane(view: View, d: int)
    requires view != ThreeDay
    ensures Next(view, d) == CalendarView.Next(Later(view), d)
    ensures Previous(view, d) == CalendarView.Previous(Later(view), d)
  {
  }

  /** "previous" undoes "next" in every view but the month view, and there
      whenever the day of the month exists in every month. */
  lemma PreviousUndoesNext(view: View, d: int)
    requires view == Month ==> DayOfMonth(d) <= 28
    ensures Previous(view, Next(view, d)) == d
    ensures Next(view, Previous(view, d)) == d
  {
    if view == Month {
      CalendarView.PreviousUndoesNext(CalendarView.Month, d);
    }
  }

  /** The three-day view draws the same hour list as the day view. */
  function ScreenFor(view: View): (s: Screen)
    ensures s == HourList <==> view == Day || view == ThreeDay
    ensures s == WeekGrid <==> view == Week
    ensures s == MonthGrid <==> view == Month
  {
    match view
    case Day => HourList
    case ThreeDay => HourList
    case Week => WeekGrid
    case Month => MonthGrid
  }

  /** The prototype's month grid: cell `i` is the 1st of the month plus
      `i` minus the weekday of the 1st. */
  function MonthGridDays(d: int): (r: seq<int>)
    ensures |r| == CalendarView.GridCells
    ensures r[Weekday(StartOfMonth(d))] == StartOfMonth(d)
    ensures Weekday(r[0]) == 0
    ensures forall i :: 0 <= i < |r| ==> r[i] == r[0] + i
  {
    var monthStart := StartOfMonth(d);
    assert monthStart + (0 - Weekday(monthStart)) == StartOfWeek(monthStart);
    seq(CalendarView.GridCells, i => monthStart + (i - Weekday(monthStart)))
  }

  /** The prototype's index formula and the later pane's "35 days from the
      Sunday on or before the 1st" give the same grid. */
  lemma GridAgreesWithLaterPane(d: int)
    ensures MonthGridDays(d) == CalendarView.MonthGridDays(d)
  {
    var a, b := MonthGridDays(d), CalendarView.MonthGridDays(d);
    assert forall i :: 0 <= i < |a| ==> a[i] == b[i];
  }
}
