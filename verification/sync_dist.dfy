/** The sync routine of `dist/index.js`: events kept by the local year of
    their start, existing keys read from the stored start as it is, and each
    create carrying the formatted start and the day before the exclusive DTEND. */
module SyncDist {
  import opened Wrappers
  import opened Text
  import opened CivilDate
  import opened Pagination
  import opened Store
  import opened Selection
  import Ts = SyncTs

  /** A feed event: its summary and the local calendar days of DTSTART and DTEND. */
  datatype FeedEvent = FeedEvent(title: string, start: CalendarDay, end: CalendarDay)

  /** The filter: the local year of the start is the current or the next year. */
  predicate Relevant(ev: FeedEvent, currentYear: int)
  {
    ev.start.year == currentYear || ev.start.year == currentYear + 1
  }

  function Identity(ev: FeedEvent): FeedEvent
  {
    ev
  }

  /** `raw.filter(...)`: the relevant events, in feed order. */
  function RelevantEvents(raw: seq<FeedEvent>, currentYear: int): seq<FeedEvent>
  {
    Select(raw, (e: FeedEvent) => Relevant(e, currentYear), Identity)
  }

  /** The filter keeps exactly the relevant events. */
  lemma RelevantEventsMembership(raw: seq<FeedEvent>, currentYear: int, e: FeedEvent)
    ensures e in RelevantEvents(raw, currentYear) <==> e in raw && Relevant(e, currentYear)
  {
    if e in raw && Relevant(e, currentYear) {
      var i :| 0 <= i < |raw| && raw[i] == e;
      SelectComplete(raw, (e: FeedEvent) => Relevant(e, currentYear), Identity, i);
    }
  }

  /** The stored start as this variant reads it: exactly as stored, with no
      cutting at `T`. */
  function AsStored(start: string): string
  {
    start
  }

  /** The key of an event: its title and formatted start `sd`; `ed` plays no part. */
  function EventKey(ev: FeedEvent): string
  {
    Key(ev.title, Format(ev.start))
  }

  predicate Absent(ev: FeedEvent, existing: set<string>)
  {
    EventKey(ev) !in existing
  }

  /** The create request: title, `sd` and `ed`, the last day being the day
      before the exclusive DTEND. */
  function Create(ev: FeedEvent): NewRecord
  {
    NewRecord(ev.title, Format(ev.start), Format(PrevDay(ev.end)))
  }

  /** The written dates read back as DTSTART's day and the day before DTEND. */
  lemma CreateReadsBack(ev: FeedEvent)
    ensures ParseDate(Create(ev).start) == Some(ev.start)
    ensures ParseDate(Create(ev).end) == Some(PrevDay(ev.end))
  {
    FormatRoundTrip(ev.start);
    FormatRoundTrip(PrevDay(ev.end));
  }

  /** The create requests of the loop over the filtered events, in order;
      the key set is never updated inside it. */
  function Plan(events: seq<FeedEvent>, existing: set<string>): (creates: seq<NewRecord>)
    ensures |creates| <= |events|
    ensures forall c :: c in creates ==> Key(c.title, c.start) !in existing
  {
    Select(events, (e: FeedEvent) => Absent(e, existing), Create)
  }

  /** What one run does against a store answering with `pages`: a missing
      date aborts it before any create, otherwise the planned creates. */
  function Outcome(raw: seq<FeedEvent>, currentYear: int, pages: seq<Page<StoredRecord>>): Result<seq<NewRecord>, SyncError>
  {
    var db := Collected(pages);
    if !AllDated(db) then Failure(MissingDate)
    else Success(Plan(RelevantEvents(raw, currentYear), ExistingKeys(db, AsStored)))
  }

  /** `syncAll` for one source: filter by year, paginate, build the key set
      once, then create each event whose key is absent. */
  method Sync(raw: seq<FeedEvent>, currentYear: int, pages: seq<Page<StoredRecord>>)
    returns (r: Result<seq<NewRecord>, SyncError>)
    ensures r.Failure? <==> !AllDated(Collected(pages))
    ensures r.Success? ==> r.value == Plan(RelevantEvents(raw, currentYear), ExistingKeys(Collected(pages), AsStored))
    ensures r == Outcome(raw, currentYear, pages)
  {
    var events := FilterRelevant(raw, currentYear);
    var existing, requests := Collect(pages);
    RequestsUnique(pages, requests);
    var keys := KeySet(existing, AsStored);
    if keys.None? {
      return Failure(MissingDate);
    }
    var creates := CreateMissing(events, keys.value);
    return Success(creates);
  }

  /** The filter loop: keeps the events of the current and next year, in order. */
  method FilterRelevant(raw: seq<FeedEvent>, currentYear: int) returns (events: seq<FeedEvent>)
    ensures events == RelevantEvents(raw, currentYear)
  {
    events := [];
    for i := 0 to |raw|
      invariant events == RelevantEvents(raw[..i], currentYear)
    {
      assert raw[..i + 1][..i] == raw[..i];
      var y := raw[i].start.year;
      if y == currentYear || y == currentYear + 1 {
        events := events + [raw[i]];
      }
    }
    assert raw[..|raw|] == raw;
  }

  /** The create loop: format `sd` and `ed`, and issue a request when the key
      `title|sd` is not in the set, which stays as it was built. */
  method CreateMissing(events: seq<FeedEvent>, existSet: set<string>) returns (creates: seq<NewRecord>)
    ensures creates == Plan(events, existSet)
  {
    creates := [];
    for i := 0 to |events|
      invariant creates == Plan(events[..i], existSet)
    {
      assert events[..i + 1][..i] == events[..i];
      var ev := events[i];
      var sd := Format(ev.start);
      var ed := Format(PrevDay(ev.end));
      var key := Key(ev.title, sd);
      if key !in existSet {
        creates := creates + [NewRecord(ev.title, sd, ed)];
      }
    }
    assert events[..|events|] == events;
  }

  /** A request is created exactly for each filtered event whose key is absent. */
  lemma PlanMembership(events: seq<FeedEvent>, existing: set<string>, c: NewRecord)
    ensures c in Plan(events, existing)
        <==> exists i :: 0 <= i < |events| && Absent(events[i], existing) && c == Create(events[i])
  {
    if exists i :: 0 <= i < |events| && Absent(events[i], existing) && c == Create(events[i]) {
      var i :| 0 <= i < |events| && Absent(events[i], existing) && c == Create(events[i]);
      SelectComplete(events, (e: FeedEvent) => Absent(e, existing), Create, i);
    }
  }

  /** The end date never takes part in the dedup: two events with the same
      title and start are both kept or both skipped. */
  lemma EndIgnoredByDedup(a: FeedEvent, b: FeedEvent, existing: set<string>)
    requires a.title == b.title && a.start == b.start
    ensures Absent(a, existing) <==> Absent(b, existing)
  {
  }

  /** An event whose exclusive end is after its start is written with a
      last day that is not before its first day. */
  lemma WrittenRangeOrdered(ev: FeedEvent)
    requires Before(ev.start, ev.end)
    ensures var c := Create(ev);
            ParseDate(c.start).Some? && ParseDate(c.end).Some?
            && NotAfter(ParseDate(c.start).value, ParseDate(c.end).value)
  {
    CreateReadsBack(ev);
    InclusiveEndNotBeforeStart(ev.start, ev.end);
  }

  /** A one-day event (DTEND the day after DTSTART) is written with the same
      start and end. */
  lemma OneDayEventWrittenAsOneDay(ev: FeedEvent)
    requires ev.end == NextDay(ev.start)
    ensures Create(ev).start == Create(ev).end
  {
    OneDayEvent(ev.start);
  }

  /** Idempotence: over a store that reads back the title and `sd` it was
      given, a second run with the same feed and year creates nothing. */
  lemma Idempotent(raw: seq<FeedEvent>, currentYear: int, db: seq<StoredRecord>)
    requires AllDated(db)
    ensures var first := Outcome(raw, currentYear, Paginate(db, PageSize));
            && first.Success?
            && Outcome(raw, currentYear, Paginate(Commit(db, first.value), PageSize)) == Success([])
  {
    PaginationComplete(db, PageSize);
    var events := RelevantEvents(raw, currentYear);
    var keys := ExistingKeys(db, AsStored);
    var creates := Plan(events, keys);
    var db2 := Commit(db, creates);
    CommitKeepsDates(db, creates);
    PaginationComplete(db2, PageSize);
    var keys2 := ExistingKeys(db2, AsStored);
    forall i | 0 <= i < |events|
      ensures !Absent(events[i], keys2)
    {
      KeyPresentAfterCommit(events, db, i);
    }
    SelectNone(events, (e: FeedEvent) => Absent(e, keys2), Create);
  }

  /** After the creates of a run, every filtered event's key is in the store:
      either it was there before, or the run created a record with it. */
  lemma KeyPresentAfterCommit(events: seq<FeedEvent>, db: seq<StoredRecord>, i: int)
    requires AllDated(db) && 0 <= i < |events|
    ensures var db2 := Commit(db, Plan(events, ExistingKeys(db, AsStored)));
            AllDated(db2) && !Absent(events[i], ExistingKeys(db2, AsStored))
  {
    var keys := ExistingKeys(db, AsStored);
    var db2 := Commit(db, Plan(events, keys));
    CommitKeepsDates(db, Plan(events, keys));
    var keys2 := ExistingKeys(db2, AsStored);
    var e := events[i];
    if Absent(e, keys) {
      var creates := Plan(events, keys);
      PlanMembership(events, keys, Create(e));
      var j :| 0 <= j < |creates| && creates[j] == Create(e);
      WrittenKey(e, db2[|db| + j]);
      assert RecordKey(db2[|db| + j], AsStored) in keys2;
    } else {
      var k :| 0 <= k < |db| && RecordKey(db[k], AsStored) == EventKey(e);
      assert db2[k] == db2[..|db|][k] == db[k];
      assert RecordKey(db2[k], AsStored) in keys2;
    }
  }

  /** The record written for an event reads back with the event's key. */
  lemma WrittenKey(e: FeedEvent, r: StoredRecord)
    requires r == Written(Create(e))
    ensures r.date.Some? && RecordKey(r, AsStored) == EventKey(e)
  {
  }

  /** For every non-negative year the two variants filter alike: the year
      `index.ts` reads from the date text is the year `dist/index.js` reads
      from the day. */
  lemma FiltersAgree(d: CalendarDay, currentYear: int)
    requires d.year >= 0
    ensures Ts.Relevant(Format(d), currentYear) <==> d.year == currentYear || d.year == currentYear + 1
    ensures Ts.DateOnly(Format(d)) == Format(d)
  {
    var ys := NatToDecimal(d.year);
    assert IntToString(d.year) == ys;
    FormatSplit(d);
    DecimalRoundTrip(d.year);
    Ts.RelevantYear(ys, DateTail(d), currentYear);
    FormatHasNoT(d);
    Ts.DateOnlyOfDate(Format(d));
  }

  /** A stored start that carries a time of day matches in `index.ts`, which
      cuts it at `T`, but not here, where it is compared as read. */
  lemma StoredStartNotCut(title: string, day: string, time: string)
    requires 'T' !in day
    ensures var r := StoredRecord([title], Some(DateValue(day + "T" + time, None)));
            && RecordKey(r, Ts.DateOnly) == Key(title, day)
            && RecordKey(r, AsStored) != Key(title, day)
  {
    Ts.DateOnlyOfTimestamp(day, time);
    var k := Key(title, day + "T" + time);
    assert |k| > |Key(title, day)|;
  }
}
