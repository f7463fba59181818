/** The destination store as the sync routine sees it: records read back
    through the query endpoint, create requests, identity keys, and the
    append-only effect of creating records. */
module Store {
  import opened Wrappers

  /** The value of a record's date property. */
  datatype DateValue = DateValue(start: string, end: Option<string>)

  /** A record read back from the store: the plain-text segments of its title
      property, and its date property (absent when the date is empty). */
  datatype StoredRecord = StoredRecord(title: seq<string>, date: Option<DateValue>)

  /** One create request: the title, and the start and end of the date range. */
  datatype NewRecord = NewRecord(title: string, start: string, end: string)

  /** Reading `date.start` of a record whose date is empty throws, which ends
      the run before any record is created. */
  datatype SyncError = MissingDate

  /** `title[0]?.plain_text`: the first title segment, absent for an empty title. */
  function FirstTitle(r: StoredRecord): (t: Option<string>)
    ensures t.Some? <==> |r.title| > 0
  {
    if |r.title| > 0 then Some(r.title[0]) else None
  }

  /** How a template literal renders a possibly absent title. */
  function TitleText(t: Option<string>): string
  {
    match t
    case Some(s) => s
    case None => "undefined"
  }

  /** The identity key `${title}|${start}`. */
  function Key(title: string, start: string): string
  {
    title + "|" + start
  }

  /** Keys identify the (title, start) pair exactly, as long as the start has no `|`. */
  lemma KeyInjective(t1: string, s1: string, t2: string, s2: string)
    requires '|' !in s1 && '|' !in s2
    ensures Key(t1, s1) == Key(t2, s2) <==> t1 == t2 && s1 == s2
  {
    if Key(t1, s1) == Key(t2, s2) {
      var k := Key(t1, s1);
      assert k[|k| - |s1| - 1] == '|' && k[|k| - |s2| - 1] == '|';
      assert s1 == k[|k| - |s1|..] == s2;
      assert t1 == k[..|t1|] == t2;
    }
  }

  /** An untitled record reads back with the same key as a record titled "undefined". */
  lemma UntitledKey(r: StoredRecord, start: string)
    requires |r.title| == 0
    ensures Key(TitleText(FirstTitle(r)), start) == Key("undefined", start)
  {
  }

  /** Every record has a date, so reading its start cannot throw. */
  predicate AllDated(db: seq<StoredRecord>)
  {
    forall i :: 0 <= i < |db| ==> db[i].date.Some?
  }

  /** The key of a stored record: its title (or "undefined") and its stored
      start as `readStart` reads it. The end plays no part. */
  function RecordKey(r: StoredRecord, readStart: string -> string): string
    requires r.date.Some?
  {
    Key(TitleText(FirstTitle(r)), readStart(r.date.value.start))
  }

  /** The existing-key set, built once from every stored record. */
  function ExistingKeys(db: seq<StoredRecord>, readStart: string -> string): (keys: set<string>)
    requires AllDated(db)
    ensures forall i :: 0 <= i < |db| ==> RecordKey(db[i], readStart) in keys
    ensures forall k :: k in keys ==> exists i :: 0 <= i < |db| && RecordKey(db[i], readStart) == k
  {
    set i | 0 <= i < |db| :: RecordKey(db[i], readStart)
  }

  /** `new Set(existing.map(...))`: the key of every record, or `None` when
      a record has no date and reading its start throws. */
  method KeySet(existing: seq<StoredRecord>, readStart: string -> string) returns (keys: Option<set<string>>)
    ensures keys.None? <==> !AllDated(existing)
    ensures keys.Some? ==> keys.value == ExistingKeys(existing, readStart)
  {
    var existSet: set<string> := {};
    for i := 0 to |existing|
      invariant forall j :: 0 <= j < i ==> existing[j].date.Some?
      invariant existSet == set j | 0 <= j < i :: RecordKey(existing[j], readStart)
    {
      if existing[i].date.None? {
        return None;
      }
      existSet := existSet + {RecordKey(existing[i], readStart)};
    }
    return Some(existSet);
  }

  /** The record a create request leaves in the store: one title segment and
      the date range as written. */
  function Written(n: NewRecord): (r: StoredRecord)
    ensures FirstTitle(r) == Some(n.title)
    ensures r.date.Some? && r.date.value.start == n.start
  {
    StoredRecord([n.title], Some(DateValue(n.start, Some(n.end))))
  }

  /** Issuing the create requests in order against a store holding `db`:
      every record already there stays as it was, and one record is added
      per request, in request order. */
  function Commit(db: seq<StoredRecord>, news: seq<NewRecord>): (db': seq<StoredRecord>)
    ensures |db'| == |db| + |news|
    ensures db'[..|db|] == db
    ensures forall i :: 0 <= i < |news| ==> db'[|db| + i] == Written(news[i])
    decreases |news|
  {
    if |news| == 0 then db else Commit(db + [Written(news[0])], news[1..])
  }

  /** A store whose records all had dates still has after the creates. */
  lemma CommitKeepsDates(db: seq<StoredRecord>, news: seq<NewRecord>)
    requires AllDated(db)
    ensures AllDated(Commit(db, news))
  {
    var db' := Commit(db, news);
    forall i | 0 <= i < |db'|
      ensures db'[i].date.Some?
    {
      if i < |db| {
        assert db'[i] == db'[..|db|][i];
      } else {
        assert db'[i] == Written(news[i - |db|]);
      }
    }
  }
}
