/** The calendar pane of the planner: navigation between dates, and which
    events land in which day, week column or month cell. The current date is
    a day number (every use of it in the views is at day granularity) and
    event times are millisecond timestamps. */
module CalendarView {
  import opened Calendar
  import opened Wrappers

  /** A calendar entry as the pane receives it. */
  datatype Event = Event(id: string, title: string, start: int, end: int, color: Option<string>)

  /** The views the menu bar offers. */
  datatype View = Day | Week | Month

  /** What the pane holds between renders. */
  datatype PaneState = PaneState(view: View, current: int)

  /** The pane opens on the week view at today's date. */
  function InitialPane(today: int): (s: PaneState)
    ensures s.view == Week
    ensures s.current == today
  {
    PaneState(Week, today)
  }

  /** The "next" arrow: one day, one week or one month ahead. */
  function Next(view: View, d: int): (r: int)
    ensures view == Day ==> r == d + 1
    ensures view == Week ==> Weekday(r) == Weekday(d) && StartOfWeek(r) == StartOfWeek(d) + 7
    ensures view == Month ==> MonthOf(r) == MonthOf(d) + 1
    ensures view == Month ==> DayOfMonth(r) == Min(DayOfMonth(d), Length(MonthOf(d) + 1))
  {
    match view
    case Day => d + 1
    case Week => d + 7
    case Month => AddMonths(d, 1)
  }

  /** The "previous" arrow: one day, one week or one month back. */
  function Previous(view: View, d: int): (r: int)
    ensures view == Day ==> r == d - 1
    ensures view == Week ==> Weekday(r) == Weekday(d) && StartOfWeek(r) == StartOfWeek(d) - 7
    ensures view == Month ==> MonthOf(r) == MonthOf(d) - 1
    ensures view == Month ==> DayOfMonth(r) == Min(DayOfMonth(d), Length(MonthOf(d) - 1))
  {
    match view
    case Day => d - 1
    case Week => d - 7
    case Month => AddMonths(d, -1)
  }

  /** An arrow press moves the date and keeps the view. */
  function Navigate(s: PaneState, forward: bool): (r: PaneState)
    ensures r.view == s.view
    ensures forward ==> r.current == Next(s.view, s.current)
    ensures !forward ==> r.current == Previous(s.view, s.current)
  {
    PaneState(s.view, if forward then Next(s.view, s.current) else Previous(s.view, s.current))
  }

  /** Choosing a view from the menu bar keeps the date. */
  function SelectView(s: PaneState, v: View): (r: PaneState)
    ensures r.view == v && r.current == s.current
  {
    PaneState(v, s.current)
  }

  /** "previous" undoes "next" in the day and week views, and in the month
      view whenever the day of the month exists in every month. */
  lemma PreviousUndoesNext(view: View, d: int)
    requires view == Month ==> DayOfMonth(d) <= 28
    ensures Previous(view, Next(view, d)) == d
    ensures Next(view, Previous(view, d)) == d
  {
    if view == Month {
      var up, down := Next(Month, d), Previous(Month, d);
      MonthOfIs(FirstDay(MonthOf(d)) + DayOfMonth(d) - 1, MonthOf(d));
      assert DayOfMonth(Previous(Month, up)) == DayOfMonth(d);
      assert DayOfMonth(Next(Month, down)) == DayOfMonth(d);
    }
  }

  /** The month arrows clamp: 31 January 2024 goes forward to 29 February and
      back to 29 January, not to the 31st. */
  lemma MonthArrowsDoNotRoundTrip(jan31: int, jan: int)
    requires jan31 == 19_753 && jan == 12 * 2024
    ensures MonthOf(jan31) == jan && DayOfMonth(jan31) == 31
    ensures Next(Month, jan31) == jan31 + 29
    ensures Previous(Month, Next(Month, jan31)) == jan31 - 2
  {
    FirstQuarter2024(jan);
    MonthOfIs(jan31, jan);
  }

  /** Day numbers and lengths of January, February and March 2024, for the
      month serial `jan` of January 2024. */
  lemma FirstQuarter2024(jan: int)
    requires jan == 12 * 2024
    ensures FirstDay(jan) == 19_723 && Length(jan) == 31
    ensures FirstDay(jan + 1) == 19_754 && Length(jan + 1) == 29
    ensures FirstDay(jan + 2) == 19_783 && Length(jan + 2) == 31
  {
    YearStartIsGregorian(2024);
    assert LeapYearsBefore(2024) == 491;
    assert YearOf(jan) == 2024 && MonthIndex(jan) == 0;
    assert YearOf(jan + 1) == 2024 && MonthIndex(jan + 1) == 1;
    assert YearOf(jan + 2) == 2024 && MonthIndex(jan + 2) == 2;
  }

  /** `isSameDay(event.start, day)`. */
  predicate StartsOn(e: Event, day: int) {
    DayOf(e.start) == day
  }

  /** The events starting on `day`, in input order: the day view's list and
      the list of one week column or month cell before capping. */
  function EventsOn(events: seq<Event>, day: int): (r: seq<Event>)
    ensures |r| <= |events|
    ensures forall e :: e in r <==> e in events && StartsOn(e, day)
  {
    if events == [] then []
    else (if StartsOn(events[0], day) then [events[0]] else []) + EventsOn(events[1..], day)
  }

  /** The filter keeps every copy of an event that starts on `day` and no
      copy of any other. */
  lemma {:induction false} EventsOnCounts(events: seq<Event>, day: int, e: Event)
    ensures multiset(EventsOn(events, day))[e] == if StartsOn(e, day) then multiset(events)[e] else 0
  {
    if events != [] {
      assert events == [events[0]] + events[1..];
      EventsOnCounts(events[1..], day, e);
    }
  }

  /** Filtering keeps the input order: the events of a concatenation are the
      events of each part, one after the other. */
  lemma {:induction false} EventsOnAppend(a: seq<Event>, b: seq<Event>, day: int)
    ensures EventsOn(a + b, day) == EventsOn(a, day) + EventsOn(b, day)
  {
    if a == [] {
      assert a + b == b;
    } else {
      assert (a + b)[0] == a[0];
      assert (a + b)[1..] == a[1..] + b;
      EventsOnAppend(a[1..], b, day);
    }
  }

  /** The week view's seven days: Sunday to Saturday of the current week. */
  function WeekDays(d: int): (r: seq<int>)
    ensures |r| == 7
    ensures Weekday(r[0]) == 0 && r[0] <= d < r[0] + 7
    ensures forall i :: 0 <= i < 7 ==> r[i] == r[0] + i
  {
    var start := StartOfWeek(d);
    seq(7, i => start + i)
  }

  /** The events of each of the week view's seven columns. */
  function WeekColumns(events: seq<Event>, d: int): (cols: seq<seq<Event>>)
    ensures |cols| == 7
    ensures forall i, e :: 0 <= i < 7 ==>
      (e in cols[i] <==> e in events && DayOf(e.start) == StartOfWeek(d) + i)
    ensures forall i :: 0 <= i < 7 ==> cols[i] == EventsOn(events, StartOfWeek(d) + i)
  {
    var days := WeekDays(d);
    seq(7, i requires 0 <= i < 7 => EventsOn(events, days[i]))
  }

  /** An event sits in at most one week column. */
  lemma EventInAtMostOneColumn(events: seq<Event>, d: int, e: Event, i: int, j: int)
    requires 0 <= i < 7 && 0 <= j < 7
    requires e in WeekColumns(events, d)[i] && e in WeekColumns(events, d)[j]
    ensures i == j
  {
  }

  /** An event is shown in the week view exactly when it is one of the
      events and starts in the current week. */
  lemma EventShownInWeekIff(events: seq<Event>, d: int, e: Event)
    ensures (exists i :: 0 <= i < 7 && e in WeekColumns(events, d)[i])
        <==> e in events && StartOfWeek(DayOf(e.start)) == StartOfWeek(d)
  {
    var cols := WeekColumns(events, d);
    if e in events && StartOfWeek(DayOf(e.start)) == StartOfWeek(d) {
      var i := DayOf(e.start) - StartOfWeek(d);
      assert e in cols[i];
    }
    if exists i :: 0 <= i < 7 && e in cols[i] {
      var i :| 0 <= i < 7 && e in cols[i];
      StartOfWeekUnique(DayOf(e.start), StartOfWeek(d));
    }
  }

  /** Number of cells of the month grid. */
  const GridCells := 35

  /** The month view's grid: 35 consecutive days from the Sunday on or
      before the 1st of the current month. */
  function MonthGridDays(d: int): (r: seq<int>)
    ensures |r| == GridCells
    ensures Weekday(r[0]) == 0
    ensures r[0] <= StartOfMonth(d) < r[0] + 7
    ensures forall i :: 0 <= i < GridCells ==> r[i] == r[0] + i
  {
    var first := GridStart(d);
    seq(GridCells, i => first + i)
  }

  /** The grid holds the 1st of the month, in its first row. */
  lemma MonthGridHoldsTheFirst(d: int)
    ensures StartOfMonth(d) in MonthGridDays(d)[..7]
  {
    var r := MonthGridDays(d);
    assert r[StartOfMonth(d) - r[0]] == StartOfMonth(d);
  }

  /** At most this many events are listed in a month cell. */
  const CellCap := 2

  /** The events listed in one month cell: the first two, in input order,
      of those starting that day. */
  function CellEvents(events: seq<Event>, day: int): (r: seq<Event>)
    ensures |r| == Min(CellCap, |EventsOn(events, day)|)
    ensures r == EventsOn(events, day)[..|r|]
    ensures forall e :: e in r ==> e in events && StartsOn(e, day)
  {
    var all := EventsOn(events, day);
    if |all| <= CellCap then all else all[..CellCap]
  }

  /** `day.getMonth() !== currentDate.getMonth()`: only the month index is
      compared, not the year. */
  predicate OutsideMonth(day: int, d: int) {
    MonthIndex(MonthOf(day)) != MonthIndex(MonthOf(d))
  }

  /** One cell of the month grid as drawn. */
  datatype MonthCell = MonthCell(day: int, muted: bool, events: seq<Event>)

  /** The first day of the grid of the month holding `d`. */
  function GridStart(d: int): int {
    StartOfWeek(StartOfMonth(d))
  }

  /** A day within six weeks of the grid start lies in the current month or
      one of its neighbours. */
  lemma NearMonth(d: int, c: int)
    requires GridStart(d) <= c < GridStart(d) + 42
    ensures MonthOf(c) in {MonthOf(d) - 1, MonthOf(d), MonthOf(d) + 1}
  {
    var m := MonthOf(d);
    NextMonthFollows(m - 1);
    NextMonthFollows(m);
    NextMonthFollows(m + 1);
    if c < FirstDay(m) {
      MonthOfIs(c, m - 1);
    } else if c < FirstDay(m + 1) {
      MonthOfIs(c, m);
    } else {
      MonthOfIs(c, m + 1);
    }
  }

  /** Comparing month indices alone is exact on the grid: a cell is muted
      exactly when its day lies outside the current month. */
  lemma MutedIffOutsideMonth(d: int, c: int)
    requires GridStart(d) <= c < GridStart(d) + 42
    ensures OutsideMonth(c, d) <==> MonthOf(c) != MonthOf(d)
  {
    NearMonth(d, c);
  }

  /** Draws one cell per day of `days`: the day, whether it is muted and its
      capped event list. */
  function CellsFor(events: seq<Event>, d: int, days: seq<int>): (cells: seq<MonthCell>)
    requires forall i :: 0 <= i < |days| ==> GridStart(d) <= days[i] < GridStart(d) + 42
    ensures |cells| == |days|
    ensures forall i :: 0 <= i < |days| ==> cells[i].day == days[i]
    ensures forall i :: 0 <= i < |days| ==>
      (cells[i].muted <==> MonthOf(days[i]) != MonthOf(d))
    ensures forall i :: 0 <= i < |days| ==>
      |cells[i].events| == Min(CellCap, |EventsOn(events, days[i])|)
      && cells[i].events == EventsOn(events, days[i])[..|cells[i].events|]
  {
    forall i | 0 <= i < |days|
      ensures OutsideMonth(days[i], d) <==> MonthOf(days[i]) != MonthOf(d)
    {
      MutedIffOutsideMonth(d, days[i]);
    }
    seq(|days|, i requires 0 <= i < |days| =>
      MonthCell(days[i], OutsideMonth(days[i], d), CellEvents(events, days[i])))
  }

  /** The month view: 35 cells from the grid start, each with its day,
      whether it is muted and its capped event list. */
  function MonthViewCells(events: seq<Event>, d: int): (cells: seq<MonthCell>)
    ensures |cells| == GridCells
    ensures forall i :: 0 <= i < GridCells ==> cells[i].day == GridStart(d) + i
    ensures forall i :: 0 <= i < GridCells ==>
      (cells[i].muted <==> MonthOf(cells[i].day) != MonthOf(d))
    ensures forall i :: 0 <= i < GridCells ==>
      |cells[i].events| == Min(CellCap, |EventsOn(events, cells[i].day)|)
      && cells[i].events == EventsOn(events, cells[i].day)[..|cells[i].events|]
    ensures forall i :: 0 <= i < GridCells ==>
      forall e :: e in cells[i].events ==> e in events && StartsOn(e, cells[i].day)
  {
    CellsFor(events, d, MonthGridDays(d))
  }

  /** The 35-cell grid shows every day of the current month exactly when the
      weekday of the 1st plus the month's length is at most 35. */
  lemma MonthGridCoversMonthIff(d: int)
    ensures (forall k :: InMonth(k, MonthOf(d)) ==> k in MonthGridDays(d))
        <==> Weekday(StartOfMonth(d)) + Length(MonthOf(d)) <= GridCells
  {
    var r := MonthGridDays(d);
    var first := StartOfMonth(d);
    var last := first + Length(MonthOf(d)) - 1;
    if Weekday(first) + Length(MonthOf(d)) <= GridCells {
      forall k | InMonth(k, MonthOf(d))
        ensures k in r
      {
        assert r[k - r[0]] == k;
      }
    } else {
      assert InMonth(last, MonthOf(d));
      assert last !in r;
    }
  }

  /** March 2024 starts on a Friday and has 31 days, so its grid stops at
      Saturday 30 March and never shows the 31st. */
  lemma MarchTwentyTwentyFourLosesItsLastDay(march1: int, jan: int)
    requires march1 == 19_783 && jan == 12 * 2024
    ensures Weekday(march1) == 5
    ensures MonthOf(march1) == jan + 2 && DayOfMonth(march1) == 1
    ensures MonthOf(march1 + 30) == jan + 2 && DayOfMonth(march1 + 30) == 31
    ensures march1 + 30 !in MonthGridDays(march1)
  {
    assert Weekday(march1) == 5;
    FirstQuarter2024(jan);
    MonthOfIs(march1, jan + 2);
    MonthOfIs(march1 + 30, jan + 2);
  }

  /** Number of cells of a grid with six full weeks. */
  const FullGridCells := 42

  /** A month grid with six weeks, which always has room for the whole
      current month. */
  function FullMonthGridDays(d: int): (r: seq<int>)
    ensures |r| == FullGridCells
    ensures Weekday(r[0]) == 0
    ensures r[..GridCells] == MonthGridDays(d)
    ensures forall k :: InMonth(k, MonthOf(d)) ==> k in r
  {
    var first := GridStart(d);
    var r := seq(FullGridCells, i => first + i);
    forall k | InMonth(k, MonthOf(d))
      ensures k in r
    {
      assert r[k - first] == k;
    }
    r
  }

  /** The month view on the six-week grid: every day of the current month
      has a cell, and that cell is not muted. */
  function FullMonthViewCells(events: seq<Event>, d: int): (cells: seq<MonthCell>)
    ensures |cells| == FullGridCells
    ensures forall i :: 0 <= i < FullGridCells ==> cells[i].day == GridStart(d) + i
    ensures forall k :: InMonth(k, MonthOf(d)) ==>
      exists i :: 0 <= i < FullGridCells && cells[i].day == k && !cells[i].muted
  {
    var days := FullMonthGridDays(d);
    var cells := CellsFor(events, d, days);
    forall k | InMonth(k, MonthOf(d))
      ensures exists i :: 0 <= i < FullGridCells && cells[i].day == k && !cells[i].muted
    {
      var i := k - GridStart(d);
      MonthOfIs(k, MonthOf(d));
      assert cells[i].day == k;
    }
    cells
  }
}
