/** The "Customize Recurrence" dialog: its form state, and the recurrence
    options record that Save hands to the caller. Weekdays and ordinals are
    modelled as enumerations; an options record stands for the partial
    RRule options object, with `None` for a field that is null or not set. */
module RecurrenceDialog {
  import opened Wrappers

  /** The "Repeats" select. */
  datatype Frequency = Weekly | Monthly

  /** RRule's frequency constants, of which the dialog produces two. */
  datatype RuleFrequency = WEEKLY | MONTHLY

  /** Weekdays, in the order of the dialog's toggle group (Sunday first). */
  datatype Weekday = SU | MO | TU | WE | TH | FR | SA

  /** The monthly radio group: a day of the month or an ordinal weekday. */
  datatype MonthlyType = ByDay | ByWeekday

  /** The ordinal select. */
  datatype Ordinal = First | Second | Third | Fourth | Last

  /** The "Ends" radio group. */
  datatype EndType = Never | AfterCount | OnDate

  /** Everything the dialog's controls hold. `endDate` is `None` until a date
      has been picked; dates are timestamps in milliseconds. */
  datatype FormState = FormState(
    frequency: Frequency,
    weeklyDays: seq<Weekday>,
    monthlyType: MonthlyType,
    monthlyDay: int,
    monthlyOrdinal: Ordinal,
    monthlyWeekday: Weekday,
    endType: EndType,
    endCount: int,
    endDate: Option<int>)

  /** An RRule weekday, with the ordinal that `nth` attaches (`MO.nth(2)` is
      the second Monday); `n` is `None` for a plain weekday. */
  datatype WeekdaySpec = WeekdaySpec(day: Weekday, n: Option<int>)

  /** The recurrence options record Save emits. */
  datatype RuleOptions = RuleOptions(
    freq: RuleFrequency,
    until: Option<int>,
    count: Option<int>,
    byweekday: Option<seq<WeekdaySpec>>,
    bymonthday: Option<int>)

  /** Whether and with what the dialog called its `onSave` callback. */
  datatype SaveCall = NotCalled | CalledWith(rule: Option<RuleOptions>)

  /** What a button press does: the `onSave` call and whether the dialog
      stays open afterwards. */
  datatype DialogEffect = DialogEffect(saved: SaveCall, open: bool)

  /** The codes of the toggle group and the weekday select, Sunday first. */
  const WeekdayCodes: seq<string> := ["SU", "MO", "TU", "WE", "TH", "FR", "SA"]

  /** The position of a weekday in `WeekdayCodes`. */
  function WeekdayIndex(w: Weekday): (i: int)
    ensures 0 <= i < |WeekdayCodes|
  {
    match w
    case SU => 0 case MO => 1 case TU => 2 case WE => 3
    case TH => 4 case FR => 5 case SA => 6
  }

  /** The code the dialog uses for a weekday. */
  function WeekdayCode(w: Weekday): string {
    WeekdayCodes[WeekdayIndex(w)]
  }

  /** The weekday a code names, if any (the `RRule[code]` lookup). */
  function ParseWeekday(code: string): (r: Option<Weekday>)
    ensures r.Some? <==> code in WeekdayCodes
  {
    if code == "SU" then Some(SU) else if code == "MO" then Some(MO)
    else if code == "TU" then Some(TU) else if code == "WE" then Some(WE)
    else if code == "TH" then Some(TH) else if code == "FR" then Some(FR)
    else if code == "SA" then Some(SA) else None
  }

  /** Codes and weekdays correspond one to one. */
  lemma WeekdayCodeRoundTrip(w: Weekday, code: string)
    ensures ParseWeekday(WeekdayCode(w)) == Some(w)
    ensures ParseWeekday(code) == Some(w) ==> WeekdayCode(w) == code
  {
  }

  /** The ordinals table: first..fourth count from the start of the month,
      last is -1. */
  function OrdinalNth(o: Ordinal): (n: int)
    ensures o == First ==> n == 1
    ensures o == Second ==> n == 2
    ensures o == Third ==> n == 3
    ensures o == Fourth ==> n == 4
    ensures o == Last ==> n == -1
  {
    match o
    case First => 1
    case Second => 2
    case Third => 3
    case Fourth => 4
    case Last => -1
  }

  /** The ordinal an `nth` argument stands for, if it is one of the table's. */
  function OrdinalOfNth(n: int): (r: Option<Ordinal>)
    ensures r.Some? <==> n == -1 || 1 <= n <= 4
  {
    if n == 1 then Some(First) else if n == 2 then Some(Second)
    else if n == 3 then Some(Third) else if n == 4 then Some(Fourth)
    else if n == -1 then Some(Last) else None
  }

  /** The ordinals table is one to one, in both directions. */
  lemma OrdinalRoundTrip(o: Ordinal, n: int)
    ensures OrdinalOfNth(OrdinalNth(o)) == Some(o)
    ensures OrdinalOfNth(n) == Some(o) ==> OrdinalNth(o) == n
  {
  }

  /** The dialog's state when it first opens. */
  function InitialForm(): (s: FormState)
    ensures s.frequency == Weekly && s.weeklyDays == []
    ensures s.monthlyType == ByDay && s.monthlyDay == 1
    ensures s.monthlyOrdinal == First && s.monthlyWeekday == SU
    ensures s.endType == Never && s.endCount == 1 && s.endDate == None
  {
    FormState(Weekly, [], ByDay, 1, First, SU, Never, 1, None)
  }

  /** The selected weekdays as plain RRule weekdays, in selection order. */
  function PlainWeekdays(days: seq<Weekday>): (r: seq<WeekdaySpec>)
    ensures |r| == |days|
    ensures forall i :: 0 <= i < |days| ==> r[i] == WeekdaySpec(days[i], None)
  {
    seq(|days|, i requires 0 <= i < |days| => WeekdaySpec(days[i], None))
  }

  /** The options record built from the form (`handleSave`). */
  function Options(s: FormState): (o: RuleOptions)
    ensures o.freq == WEEKLY <==> s.frequency == Weekly
    ensures o.freq == MONTHLY <==> s.frequency == Monthly
    ensures o.until.Some? ==> s.endType == OnDate && o.until == s.endDate
    ensures s.endType == OnDate ==> o.until == s.endDate
    ensures o.count.Some? <==> s.endType == AfterCount
    ensures o.count.Some? ==> o.count.value == s.endCount
    ensures !(o.until.Some? && o.count.Some?)
    ensures s.frequency == Weekly ==>
      o.bymonthday == None && o.byweekday.Some?
      && |o.byweekday.value| == |s.weeklyDays|
      && forall i :: 0 <= i < |s.weeklyDays| ==> o.byweekday.value[i] == WeekdaySpec(s.weeklyDays[i], None)
    ensures s.frequency == Monthly && s.monthlyType == ByDay ==>
      o.bymonthday == Some(s.monthlyDay) && o.byweekday == None
    ensures s.frequency == Monthly && s.monthlyType == ByWeekday ==>
      o.bymonthday == None
      && o.byweekday == Some([WeekdaySpec(s.monthlyWeekday, Some(OrdinalNth(s.monthlyOrdinal)))])
  {
    var freq := match s.frequency case Weekly => WEEKLY case Monthly => MONTHLY;
    var until := if s.endType == OnDate then s.endDate else None;
    var count := if s.endType == AfterCount then Some(s.endCount) else None;
    if s.frequency == Weekly then
      RuleOptions(freq, until, count, Some(PlainWeekdays(s.weeklyDays)), None)
    else if s.monthlyType == ByDay then
      RuleOptions(freq, until, count, None, Some(s.monthlyDay))
    else
      RuleOptions(freq, until, count,
        Some([WeekdaySpec(s.monthlyWeekday, Some(OrdinalNth(s.monthlyOrdinal)))]), None)
  }

  /** Exactly one of `byweekday` and `bymonthday` is set. */
  lemma OneSelectorSet(s: FormState)
    ensures Options(s).byweekday.Some? != Options(s).bymonthday.Some?
  {
  }

  /** The Save button: emits the options record and closes the dialog. */
  function Save(s: FormState): (e: DialogEffect)
    ensures e.saved == CalledWith(Some(Options(s)))
    ensures !e.open
  {
    DialogEffect(CalledWith(Some(Options(s))), false)
  }

  /** The Clear button: emits `null` in place of a record and closes the
      dialog. */
  function Clear(): (e: DialogEffect)
    ensures e.saved.CalledWith? && e.saved.rule == None
    ensures !e.open
  {
    DialogEffect(CalledWith(None), false)
  }

  /** The Cancel button: closes the dialog without calling `onSave`. */
  function Cancel(): (e: DialogEffect)
    ensures e.saved == NotCalled
    ensures !e.open
  {
    DialogEffect(NotCalled, false)
  }

  /** Saving the untouched dialog gives a weekly rule on no days that never
      ends: nothing checks that a weekday was picked. */
  lemma SavingUntouchedDialog()
    ensures Options(InitialForm()) == RuleOptions(WEEKLY, None, None, Some([]), None)
  {
  }

  /** Choosing "On" without picking a date saves the same record as
      choosing "Never": a rule without end, while the dialog still shows the
      "On" radio selected. */
  lemma SavingOnWithoutDate(s: FormState)
    requires s.endType == OnDate && s.endDate.None?
    ensures Options(s) == Options(s.(endType := Never))
    ensures Options(s).until == None && Options(s).count == None
  {
  }

  /** The repetition pattern a user has chosen, as a tagged variant. */
  datatype Pattern =
    | WeeklyOn(days: seq<Weekday>)
    | MonthlyOnDay(day: int)
    | MonthlyOnWeekday(ordinal: Ordinal, weekday: Weekday)

  /** When a recurrence stops. */
  datatype Termination = Forever | AfterOccurrences(count: int) | UntilDate(date: int)

  /** A recurrence as a tagged variant, free of invalid field combinations. */
  datatype Recurrence = Recurrence(pattern: Pattern, end: Termination)

  /** The recurrence the controls describe. Choosing "On" without picking a
      date describes a recurrence without end, because that is what Save
      emits for it (see `SavingOnWithoutDate`). */
  function Chosen(s: FormState): Recurrence {
    var pattern :=
      if s.frequency == Weekly then WeeklyOn(s.weeklyDays)
      else if s.monthlyType == ByDay then MonthlyOnDay(s.monthlyDay)
      else MonthlyOnWeekday(s.monthlyOrdinal, s.monthlyWeekday);
    var end :=
      match s.endType
      case Never => Forever
      case AfterCount => AfterOccurrences(s.endCount)
      case OnDate => if s.endDate.Some? then UntilDate(s.endDate.value) else Forever;
    Recurrence(pattern, end)
  }

  /** The weekdays of a list of plain RRule weekdays; `None` if any carries
      an ordinal. */
  function PlainDays(specs: seq<WeekdaySpec>): (r: Option<seq<Weekday>>)
    ensures r.Some? ==> |r.value| == |specs|
  {
    if specs == [] then Some([])
    else if specs[0].n.Some? then None
    else match PlainDays(specs[1..])
      case None => None
      case Some(rest) => Some([specs[0].day] + rest)
  }

  /** Reading the plain weekdays back gives the selection. */
  lemma {:induction false} PlainDaysRoundTrip(days: seq<Weekday>)
    ensures PlainDays(PlainWeekdays(days)) == Some(days)
  {
    if days != [] {
      PlainDaysRoundTrip(days[1..]);
      assert PlainWeekdays(days)[1..] == PlainWeekdays(days[1..]);
      assert [days[0]] + days[1..] == days;
    }
  }

  /** The recurrence an options record describes, or `None` for a record of
      a shape the dialog never emits. */
  function Decode(o: RuleOptions): Option<Recurrence> {
    var end :=
      if o.until.Some? && o.count.Some? then None
      else if o.until.Some? then Some(UntilDate(o.until.value))
      else if o.count.Some? then Some(AfterOccurrences(o.count.value))
      else Some(Forever);
    var pattern :=
      if o.freq == WEEKLY then
        if o.bymonthday.None? && o.byweekday.Some? then
          match PlainDays(o.byweekday.value)
          case Some(days) => Some(WeeklyOn(days))
          case None => None
        else None
      else if o.bymonthday.Some? && o.byweekday.None? then Some(MonthlyOnDay(o.bymonthday.value))
      else if o.bymonthday.None? && o.byweekday.Some? && |o.byweekday.value| == 1
          && o.byweekday.value[0].n.Some? && OrdinalOfNth(o.byweekday.value[0].n.value).Some? then
        Some(MonthlyOnWeekday(OrdinalOfNth(o.byweekday.value[0].n.value).value, o.byweekday.value[0].day))
      else None;
    if end.Some? && pattern.Some? then Some(Recurrence(pattern.value, end.value)) else None
  }

  /** The options record decodes to exactly the recurrence `Chosen` reads
      from the controls, where "On" without a date means no end. */
  lemma SaveDecodesToChoice(s: FormState)
    ensures Decode(Options(s)) == Some(Chosen(s))
  {
    if s.frequency == Weekly {
      PlainDaysRoundTrip(s.weeklyDays);
    } else if s.monthlyType == ByWeekday {
      OrdinalRoundTrip(s.monthlyOrdinal, OrdinalNth(s.monthlyOrdinal));
    }
  }

  /** Two forms save the same record exactly when they describe the same
      recurrence: the hidden controls never leak into the record. */
  lemma SameOptionsIffSameChoice(s: FormState, t: FormState)
    ensures Options(s) == Options(t) <==> Chosen(s) == Chosen(t)
  {
    SaveDecodesToChoice(s);
    SaveDecodesToChoice(t);
    if Chosen(s) == Chosen(t) {
      if s.frequency == Weekly {
        assert PlainWeekdays(s.weeklyDays) == PlainWeekdays(t.weeklyDays);
      }
    }
  }
}
