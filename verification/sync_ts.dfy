/** The sync routine of `index.ts`: timestamps cut to their date text, a year
    filter read from that text, existing keys read from the store, and one
    create per relevant event whose key is not already there. */
module SyncTs {
  import opened Wrappers
  import opened Text
  import opened Pagination
  import opened Store
  import opened Selection

  /** A feed event as the feed reader hands it over: its summary and the
      `toISOString()` texts of DTSTART and DTEND. */
  datatype FeedEvent = FeedEvent(title: string, startIso: string, endIso: string)

  /** `CalendarEvent`: title, and start and end as date texts. */
  datatype CalendarEvent = CalendarEvent(title: string, start: string, end: string)

  /** `dateOnly`: the text before the first `T`, or the whole text when it has none. */
  function DateOnly(iso: string): (r: string)
    ensures r <= iso && 'T' !in r
    ensures |r| == |iso| || iso[|r|] == 'T'
  {
    TakeUntil(iso, 'T')
  }

  /** Cutting a date text twice changes nothing. */
  lemma DateOnlyIdempotent(iso: string)
    ensures DateOnly(DateOnly(iso)) == DateOnly(iso)
  {
    TakeUntilIdempotent(iso, 'T');
  }

  /** A text with no `T`, such as `YYYY-MM-DD`, is its own date text. */
  lemma DateOnlyOfDate(s: string)
    requires 'T' !in s
    ensures DateOnly(s) == s
  {
    TakeUntilAbsent(s, 'T');
  }

  /** A timestamp `date + "T" + time` is cut to `date`. */
  lemma DateOnlyOfTimestamp(date: string, time: string)
    requires 'T' !in date
    ensures DateOnly(date + "T" + time) == date
  {
    TakeUntilJoin(date, 'T', time);
  }

  /** The mapping in `fetchEventsFrom`: both timestamps cut to their date,
      the end kept as the feed's exclusive DTEND. */
  function ToCalendarEvent(ev: FeedEvent): CalendarEvent
  {
    CalendarEvent(ev.title, DateOnly(ev.startIso), DateOnly(ev.endIso))
  }

  function Events(feed: seq<FeedEvent>): (events: seq<CalendarEvent>)
    ensures |events| == |feed|
    ensures forall i :: 0 <= i < |feed| ==> events[i] == ToCalendarEvent(feed[i])
  {
    seq(|feed|, i requires 0 <= i < |feed| => ToCalendarEvent(feed[i]))
  }

  /** `parseInt(start.split("-")[0], 10)`; `None` stands for `NaN`. */
  function EventYear(start: string): Option<int>
  {
    JsParseInt(TakeUntil(start, '-'))
  }

  /** The filter of the loop: the start year is the current or the next year. */
  predicate Relevant(start: string, currentYear: int)
  {
    EventYear(start) == Some(currentYear) || EventYear(start) == Some(currentYear + 1)
  }

  /** A start text that begins with a run of year digits and a dash is
      filtered on the value of those digits, leading zeros included (as
      `toISOString()` writes years below 1000). */
  lemma RelevantYear(ys: string, rest: string, currentYear: int)
    requires |ys| > 0 && AllDigits(ys)
    requires |rest| > 0 && rest[0] == '-'
    ensures Relevant(ys + rest, currentYear)
        <==> DecimalValue(ys) == currentYear || DecimalValue(ys) == currentYear + 1
  {
    EventYearOf(ys, rest);
  }

  /** The year read from `ys + rest` is the value of the digit run `ys`. */
  lemma EventYearOf(ys: string, rest: string)
    requires |ys| > 0 && AllDigits(ys)
    requires |rest| > 0 && rest[0] == '-'
    ensures EventYear(ys + rest) == Some(DecimalValue(ys))
  {
    YearText(ys, rest);
    YearValue(ys);
  }

  /** `parseInt` of a run of year digits is their value. */
  lemma YearValue(ys: string)
    requires |ys| > 0 && AllDigits(ys)
    ensures JsParseInt(ys) == Some(DecimalValue(ys))
  {
    JsParseIntDigits(ys, "");
    assert ys + "" == ys;
  }

  /** The text before the first `-` of `ys + rest` is the digit run `ys`. */
  lemma YearText(ys: string, rest: string)
    requires AllDigits(ys)
    requires |rest| > 0 && rest[0] == '-'
    ensures TakeUntil(ys + rest, '-') == ys
  {
    assert ys + rest == ys + ['-'] + rest[1..];
    assert '-' !in ys by {
      forall i | 0 <= i < |ys|
        ensures ys[i] != '-'
      {
        assert IsDigit(ys[i]);
      }
    }
    TakeUntilJoin(ys, '-', rest[1..]);
  }

  /** An event the loop creates: relevant, and its key absent from the set. */
  predicate Wanted(e: CalendarEvent, currentYear: int, existing: set<string>)
  {
    Relevant(e.start, currentYear) && Key(e.title, e.start) !in existing
  }

  /** The create request for an event: title, start and end as they are. */
  function Create(e: CalendarEvent): NewRecord
  {
    NewRecord(e.title, e.start, e.end)
  }

  /** The create requests of the loop over `events`, in order. The key set
      is never updated, so each wanted event gets its own request. */
  function Plan(events: seq<CalendarEvent>, currentYear: int, existing: set<string>): (creates: seq<NewRecord>)
    ensures |creates| <= |events|
    ensures forall c :: c in creates ==> Relevant(c.start, currentYear) && Key(c.title, c.start) !in existing
  {
    Select(events, (e: CalendarEvent) => Wanted(e, currentYear, existing), Create)
  }

  /** What one run does against a store answering with `pages`: a missing
      date aborts it before any create, otherwise the planned creates. */
  function Outcome(feed: seq<FeedEvent>, currentYear: int, pages: seq<Page<StoredRecord>>): Result<seq<NewRecord>, SyncError>
  {
    var db := Collected(pages);
    if !AllDated(db) then Failure(MissingDate)
    else Success(Plan(Events(feed), currentYear, ExistingKeys(db, DateOnly)))
  }

  /** `syncAll` for one source: paginate, build the key set once, then walk
      the events, filtering by year and creating the absent ones. */
  method Sync(feed: seq<FeedEvent>, currentYear: int, pages: seq<Page<StoredRecord>>)
    returns (r: Result<seq<NewRecord>, SyncError>)
    ensures r.Failure? <==> !AllDated(Collected(pages))
    ensures r.Success? ==> r.value == Plan(Events(feed), currentYear, ExistingKeys(Collected(pages), DateOnly))
    ensures r == Outcome(feed, currentYear, pages)
  {
    var existing, requests := Collect(pages);
    RequestsUnique(pages, requests);
    var keys := KeySet(existing, DateOnly);
    if keys.None? {
      return Failure(MissingDate);
    }
    var creates := CreateMissing(Events(feed), currentYear, keys.value);
    return Success(creates);
  }

  /** The event loop: skip events outside the two years, and issue a request
      when the key is not in the set, which stays as it was built. */
  method CreateMissing(events: seq<CalendarEvent>, currentYear: int, existSet: set<string>)
    returns (creates: seq<NewRecord>)
    ensures creates == Plan(events, currentYear, existSet)
  {
    creates := [];
    for i := 0 to |events|
      invariant creates == Plan(events[..i], currentYear, existSet)
    {
      assert events[..i + 1][..i] == events[..i];
      var ev := events[i];
      var eventYear := EventYear(ev.start);
      if eventYear != Some(currentYear) && eventYear != Some(currentYear + 1) {
        continue;
      }
      var key := Key(ev.title, ev.start);
      if key !in existSet {
        creates := creates + [Create(ev)];
      }
    }
    assert events[..|events|] == events;
  }

  /** A request is created exactly for each wanted event, and carries that
      event's title, start and uncorrected end. */
  lemma PlanMembership(events: seq<CalendarEvent>, currentYear: int, existing: set<string>, c: NewRecord)
    ensures c in Plan(events, currentYear, existing)
        <==> exists i :: 0 <= i < |events| && Wanted(events[i], currentYear, existing) && c == Create(events[i])
  {
    if exists i :: 0 <= i < |events| && Wanted(events[i], currentYear, existing) && c == Create(events[i]) {
      var i :| 0 <= i < |events| && Wanted(events[i], currentYear, existing) && c == Create(events[i]);
      SelectComplete(events, (e: CalendarEvent) => Wanted(e, currentYear, existing), Create, i);
    }
  }

  /** A feed that lists a wanted event twice gets two identical requests. */
  lemma RepeatedKeyWrittenTwice(a: seq<CalendarEvent>, e: CalendarEvent, b: seq<CalendarEvent>,
                                currentYear: int, existing: set<string>)
    requires Wanted(e, currentYear, existing)
    ensures multiset(Plan(a + [e] + b + [e], currentYear, existing))[Create(e)] >= 2
  {
    SelectRepeated(a, e, b, (e: CalendarEvent) => Wanted(e, currentYear, existing), Create);
  }

  /** Idempotence: over a store that reads back the title and start it was
      given, a second run with the same feed and year creates nothing. */
  lemma Idempotent(feed: seq<FeedEvent>, currentYear: int, db: seq<StoredRecord>)
    requires AllDated(db)
    ensures var first := Outcome(feed, currentYear, Paginate(db, PageSize));
            && first.Success?
            && Outcome(feed, currentYear, Paginate(Commit(db, first.value), PageSize)) == Success([])
  {
    PaginationComplete(db, PageSize);
    var events := Events(feed);
    var keys := ExistingKeys(db, DateOnly);
    var creates := Plan(events, currentYear, keys);
    var db2 := Commit(db, creates);
    CommitKeepsDates(db, creates);
    PaginationComplete(db2, PageSize);
    var keys2 := ExistingKeys(db2, DateOnly);
    forall i | 0 <= i < |events|
      ensures !Wanted(events[i], currentYear, keys2)
    {
      var e := events[i];
      DateOnlyIdempotent(feed[i].startIso);
      if Wanted(e, currentYear, keys) {
        PlanMembership(events, currentYear, keys, Create(e));
        var j :| 0 <= j < |creates| && creates[j] == Create(e);
        assert db2[|db| + j] == Written(Create(e));
        assert RecordKey(db2[|db| + j], DateOnly) == Key(e.title, e.start);
      } else if Relevant(e.start, currentYear) {
        var k :| 0 <= k < |db| && RecordKey(db[k], DateOnly) == Key(e.title, e.start);
        assert db2[k] == db2[..|db|][k] == db[k];
      }
    }
    SelectNone(events, (e: CalendarEvent) => Wanted(e, currentYear, keys2), Create);
  }

  lemma NewYearStartIsRelevant()
    ensures Relevant("2025-01-01", 2025)
  {
    assert "2025"[..3] == "202" && "202"[..2] == "20" && "20"[..1] == "2" && "2"[..0] == "";
    assert DecimalValue("2") == 2;
    assert DecimalValue("20") == 20;
    assert DecimalValue("202") == 202;
    assert DecimalValue("2025") == 2025;
    assert "2025" + "-01-01" == "2025-01-01";
    RelevantYear("2025", "-01-01", 2025);
  }

  /** `toISOString()` pads a year below 1000 with zeros; the filter still
      reads the year's value. */
  lemma ZeroPaddedYearIsRelevant()
    ensures Relevant("0999-01-01", 999)
  {
    assert "0999"[..3] == "099" && "099"[..2] == "09" && "09"[..1] == "0" && "0"[..0] == "";
    assert DecimalValue("0") == 0;
    assert DecimalValue("09") == 9;
    assert DecimalValue("099") == 99;
    assert DecimalValue("0999") == 999;
    assert "0999" + "-01-01" == "0999-01-01";
    RelevantYear("0999", "-01-01", 999);
  }

  /** The exclusive DTEND is written as the last day: a one-day holiday
      comes out spanning two days. */
  lemma OneDayEventSpansTwoDays(feed: seq<FeedEvent>)
    requires feed == [FeedEvent("New Year", "2025-01-01T00:00:00.000Z", "2025-01-02T00:00:00.000Z")]
    ensures Outcome(feed, 2025, [Page([], false, None)]) == Success([NewRecord("New Year", "2025-01-01", "2025-01-02")])
  {
    var e := CalendarEvent("New Year", "2025-01-01", "2025-01-02");
    NewYearEvents(feed);
    NewYearStartIsRelevant();
    EmptyStore();
    assert Wanted(e, 2025, {});
    assert [e][..0] == [];
    assert Plan([e], 2025, {}) == [Create(e)];
  }

  lemma NewYearEvents(feed: seq<FeedEvent>)
    requires feed == [FeedEvent("New Year", "2025-01-01T00:00:00.000Z", "2025-01-02T00:00:00.000Z")]
    ensures Events(feed) == [CalendarEvent("New Year", "2025-01-01", "2025-01-02")]
  {
    NewYearStart();
    NewYearEnd();
    assert ToCalendarEvent(feed[0]) == CalendarEvent("New Year", "2025-01-01", "2025-01-02");
  }

  lemma NewYearStart()
    ensures DateOnly("2025-01-01T00:00:00.000Z") == "2025-01-01"
  {
    assert "2025-01-01T00:00:00.000Z" == "2025-01-01" + "T" + "00:00:00.000Z";
    DateOnlyOfTimestamp("2025-01-01", "00:00:00.000Z");
  }

  lemma NewYearEnd()
    ensures DateOnly("2025-01-02T00:00:00.000Z") == "2025-01-02"
  {
    assert "2025-01-02T00:00:00.000Z" == "2025-01-02" + "T" + "00:00:00.000Z";
    DateOnlyOfTimestamp("2025-01-02", "00:00:00.000Z");
  }

  /** An empty store answers with one empty page and has no keys. */
  lemma EmptyStore()
    ensures var empty: seq<Page<StoredRecord>> := [Page([], false, None)];
            Collected(empty) == [] && AllDated([]) && ExistingKeys([], DateOnly) == {}
  {
    var empty: seq<Page<StoredRecord>> := [Page([], false, None)];
    RequestsUnique(empty, 1);
    assert empty[..1] == empty;
  }

}
