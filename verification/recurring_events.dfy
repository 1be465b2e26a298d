/** The recurring-event routes of the backend that hold logic: deleting a
    series and excluding one instance of it. A series is stored as two rule
    documents, one anchored at the first instance's start and one at its
    end; each carries an exclusion list that may be absent. Instants are
    timestamps in milliseconds and the collection is a map from id to
    series. */
module RecurringEventRoutes {
  import opened Wrappers

  /** The part of a stored RRule options object that the routes touch: its
      anchor `dtstart` and its exclusion list `exdate`, which is absent on a
      freshly created series. */
  datatype RuleDoc = RuleDoc(dtstart: int, exdate: Option<seq<int>>)

  /** A stored recurring series. */
  datatype Series = Series(title: string, color: Option<string>, rruleStart: RuleDoc, rruleEnd: RuleDoc)

  /** The recurring-event collection, keyed by id. */
  type Store = map<string, Series>

  /** Why a request is refused. */
  datatype RouteError = NotFound | DateRequired

  /** The HTTP status a refusal is answered with. */
  function StatusOf(e: RouteError): (code: int)
    ensures code == 404 <==> e == NotFound
    ensures code == 400 <==> e == DateRequired
  {
    match e
    case NotFound => 404
    case DateRequired => 400
  }

  /** HTTP status of a request that succeeds. */
  const OkStatus := 200

  /** A route's answer: its status and the collection afterwards. */
  datatype Response = Response(status: int, store: Store)

  /** The exclusion list of a rule, reading an absent list as empty. */
  function Exdates(r: RuleDoc): seq<int> {
    r.exdate.GetOr([])
  }

  /** How long each instance of the series lasts: the gap between the two
      anchors. */
  function Duration(s: Series): int {
    s.rruleEnd.dtstart - s.rruleStart.dtstart
  }

  /** Appends one exclusion to a rule, creating the list when it is absent. */
  function AddExdate(r: RuleDoc, t: int): (r': RuleDoc)
    ensures r'.dtstart == r.dtstart
    ensures r'.exdate.Some?
    ensures |Exdates(r')| == |Exdates(r)| + 1
    ensures Exdates(r')[..|Exdates(r)|] == Exdates(r)
    ensures Exdates(r')[|Exdates(r)|] == t
  {
    RuleDoc(r.dtstart, Some(Exdates(r) + [t]))
  }

  /** The exclude handler once the series has been looked up: `found` is the
      series, if one has the requested id, and `date` the instance's start,
      if the request carries one. Any instant is accepted, whether or not
      the rule generates it, and nothing checks for duplicates. */
  function ExcludeInstance(found: Option<Series>, date: Option<int>): (r: Result<Series, RouteError>)
    ensures found.None? ==> r == Failure(NotFound)
    ensures found.Some? && date.None? ==> r == Failure(DateRequired)
    ensures found.Some? && date.Some? ==> r.Success?
    ensures r.Success? ==>
      var s, s' := found.value, r.value;
      && s'.title == s.title && s'.color == s.color
      && s'.rruleStart.dtstart == s.rruleStart.dtstart
      && s'.rruleEnd.dtstart == s.rruleEnd.dtstart
      && Exdates(s'.rruleStart) == Exdates(s.rruleStart) + [date.value]
      && Exdates(s'.rruleEnd) == Exdates(s.rruleEnd) + [date.value + Duration(s)]
  {
    if found.None? then Failure(NotFound)
    else if date.None? then Failure(DateRequired)
    else
      var s := found.value;
      var start := date.value;
      var end := start + Duration(s);
      Success(s.(rruleStart := AddExdate(s.rruleStart, start), rruleEnd := AddExdate(s.rruleEnd, end)))
  }

  /** PATCH `/:id/exclude` against the collection. An unknown id is refused
      before the date is looked at; a refused request changes nothing; an
      accepted one rewrites only the series with that id. */
  function PatchExclude(store: Store, id: string, date: Option<int>): (r: Response)
    ensures id !in store ==> r.status == 404 && r.store == store
    ensures id in store && date.None? ==> r.status == 400 && r.store == store
    ensures id in store && date.Some? ==>
      && r.status == OkStatus
      && r.store.Keys == store.Keys
      && (forall k :: k in store && k != id ==> r.store[k] == store[k])
      && Success(r.store[id]) == ExcludeInstance(Some(store[id]), date)
  {
    var found := if id in store then Some(store[id]) else None;
    match ExcludeInstance(found, date)
    case Failure(e) => Response(StatusOf(e), store)
    case Success(s) => Response(OkStatus, store[id := s])
  }

  /** DELETE `/:id`: removes the series, or answers 404 when there is none. */
  function DeleteSeries(store: Store, id: string): (r: Response)
    ensures id !in store ==> r.status == 404 && r.store == store
    ensures id in store ==> r.status == OkStatus
    ensures r.store.Keys == store.Keys - {id}
    ensures forall k :: k in r.store ==> r.store[k] == store[k]
  {
    if id !in store then Response(StatusOf(NotFound), store)
    else Response(OkStatus, map k | k in store && k != id :: store[k])
  }

  /** The two exclusion lists are in lockstep: equally long, and each end
      exclusion is its start exclusion shifted by the series' duration. */
  predicate Paired(s: Series) {
    var starts, ends := Exdates(s.rruleStart), Exdates(s.rruleEnd);
    |starts| == |ends| && forall i :: 0 <= i < |starts| ==> ends[i] == starts[i] + Duration(s)
  }

  /** Excluding an instance keeps the lists in lockstep. */
  lemma ExcludeKeepsPaired(s: Series, t: int)
    requires Paired(s)
    ensures Paired(ExcludeInstance(Some(s), Some(t)).value)
  {
    var s' := ExcludeInstance(Some(s), Some(t)).value;
    assert Duration(s') == Duration(s);
    var starts, ends := Exdates(s'.rruleStart), Exdates(s'.rruleEnd);
    forall i | 0 <= i < |starts|
      ensures ends[i] == starts[i] + Duration(s')
    {
      if i < |Exdates(s.rruleStart)| {
        assert starts[i] == Exdates(s.rruleStart)[i];
        assert ends[i] == Exdates(s.rruleEnd)[i];
      }
    }
  }

  /** A series whose lists are both absent, as a newly created one, is in
      lockstep; by `ExcludeKeepsPaired` it stays so under exclusions. */
  lemma FreshSeriesIsPaired(s: Series)
    requires s.rruleStart.exdate.None? && s.rruleEnd.exdate.None?
    ensures Paired(s)
  {
  }

  /** Exclusion is not idempotent: excluding the same instant twice lists it
      twice on each axis. */
  lemma ExcludeTwiceListsTwice(s: Series, t: int)
    ensures var twice := ExcludeInstance(Some(ExcludeInstance(Some(s), Some(t)).value), Some(t)).value;
      && Exdates(twice.rruleStart) == Exdates(s.rruleStart) + [t, t]
      && Exdates(twice.rruleEnd) == Exdates(s.rruleEnd) + [t + Duration(s), t + Duration(s)]
  {
    var once := ExcludeInstance(Some(s), Some(t)).value;
    assert Duration(once) == Duration(s);
    assert Exdates(s.rruleStart) + [t] + [t] == Exdates(s.rruleStart) + [t, t];
    assert Exdates(s.rruleEnd) + [t + Duration(s)] + [t + Duration(s)]
        == Exdates(s.rruleEnd) + [t + Duration(s), t + Duration(s)];
  }

  /** After an accepted exclude request the collection lists the instant as
      excluded on the start axis and its shifted end on the end axis. */
  lemma PatchExcludeRecordsInstant(store: Store, id: string, t: int)
    requires id in store
    ensures var s := PatchExclude(store, id, Some(t)).store[id];
      t in Exdates(s.rruleStart) && t + Duration(store[id]) in Exdates(s.rruleEnd)
  {
    var s := PatchExclude(store, id, Some(t)).store[id];
    assert Exdates(s.rruleStart)[|Exdates(s.rruleStart)| - 1] == t;
    assert Exdates(s.rruleEnd)[|Exdates(s.rruleEnd)| - 1] == t + Duration(store[id]);
  }

  /** A second delete of the same series answers 404 and changes nothing. */
  lemma DeleteTwiceFindsNothing(store: Store, id: string)
    ensures var once := DeleteSeries(store, id).store;
      DeleteSeries(once, id) == Response(404, once)
  {
  }

  /** Deleting a series discards any exclusions recorded on it: excluding an
      instance and then deleting the series leaves the collection a plain
      delete leaves. */
  lemma DeleteForgetsExclusions(store: Store, id: string, date: Option<int>)
    ensures DeleteSeries(PatchExclude(store, id, date).store, id).store
         == DeleteSeries(store, id).store
  {
    var patched := PatchExclude(store, id, date).store;
    var a, b := DeleteSeries(patched, id).store, DeleteSeries(store, id).store;
    assert a.Keys == b.Keys;
    forall k | k in a
      ensures a[k] == b[k]
    {
    }
  }
}
