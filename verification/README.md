# Holiday-calendar sync, modelled in Dafny

The repository copies the events of public-holiday iCalendar feeds into a
record store, one store per feed, without creating duplicates. The routine
exists twice: `index.ts`, the TypeScript source, and `dist/index.js`, a build
that has drifted from it. This project models both variants over the same
abstract store and proves what each one does.

Each run does the following:

1. It reads the feed's events.
2. It keeps those whose start year is the current year or the next one.
3. It pages through the store's records, 100 per request, following the cursor.
4. It builds the set of identity keys `title|start` once.
5. It issues one create request for every kept event whose key is not in that set.

The modules:

- `Wrappers`: `Option` (JavaScript's `undefined`) and `Result`, used for runs that throw.
- `Text`: `split(sep)[0]`, `String(n)`, `padStart(2, "0")` and `parseInt(s, 10)` on `seq<char>`.
- `CivilDate`: proleptic Gregorian days, the previous and next day, the `formatDate` text and its parse-back.
- `Pagination`: pages, the truthy-cursor loop, and a model of how the store splits its records into pages.
- `Store`: stored records, create requests, identity keys, the key set (parameterised by how a variant reads a stored start), and the append-only effect of creates.
- `Selection`: the create loop both variants share. It walks the events in order under a test fixed before the walk.
- `SyncTs`: the `index.ts` routine.
- `SyncDist`: the `dist/index.js` routine.

The two variants differ in three ways:

- In `index.ts`, start and end are `toISOString()` texts cut at `T`. The year filter reads `parseInt` of the text before the first `-`. Stored starts are cut at `T` before keying. The end is written as DTEND's own date.
- In `dist/index.js`, start and end are local calendar days. The year filter reads the day's year. Stored starts are keyed exactly as read. The end is written as the day before DTEND.
- Under section 3.8.2.2 of RFC 5545, DTEND is exclusive. Only the `dist/index.js` end is therefore the event's last day.

Inputs that the real program takes from the outside world become parameters:

- The current year (`new Date().getFullYear()`).
- The feed's events, already parsed.
- The store's query responses, as a sequence of pages.

A run's result is the sequence of create requests it issues. `Store.Commit` applies those requests to a store.

In three places the code does something other than what a reader might expect. The model follows the code:

- **Untitled records.** One might expect an untitled stored record to count as the empty title. The code renders `title[0]?.plain_text` through a template literal, which gives the key `undefined|start` (`Store.TitleText`, `Store.UntitledKey`).
- **Duplicates within one feed.** One might expect each new key to be added to the in-memory set, so that a feed listing the same event twice creates it once. Both variants build the set once and never extend it. A repeated wanted event is therefore created twice (`SyncTs.RepeatedKeyWrittenTwice`, `Selection.SelectAppend`).
- **Local versus UTC dates.** `dist/index.js` reads the local calendar day of each event. `index.ts` instead truncates the UTC `toISOString()` text, so an event near midnight can land on another day. The model takes that text as its input (see Left out).

## Model

| member | source | states |
|---|---|---|
| Text.TakeUntil | index.ts:40 | `split(sep)[0]` is a prefix of the input with no separator, and it stops at the first separator or at the end of the input |
| Text.TakeUntilIdempotent | index.ts:40 | cutting at the first separator a second time changes nothing |
| Text.TakeUntilJoin | index.ts:93 | for `a + sep + b` where `a` has no separator, the text before the separator is exactly `a` |
| Text.NatToDecimal | dist/index.js:22-25 | `String(n)` is a non-empty run of digits with no leading zero |
| Text.DecimalRoundTrip | dist/index.js:22-25 | the digits `String(n)` writes read back as `n` |
| Text.IntRoundTrip | dist/index.js:22 | the year text `String(y)`, minus sign included, reads back as `y` |
| Text.PadStart | dist/index.js:23-24 | `padStart` reaches the width by prepending the fill character and keeps the original text as its suffix; longer texts are unchanged |
| Text.TwoDigits | dist/index.js:23-24 | a month or day number below 100 is padded to exactly two digits that denote that number |
| Text.JsParseIntDigits | index.ts:93 | `parseInt(…, 10)` reads a run of digits, leading zeros included, as its decimal value and ignores what follows a non-digit |
| Text.JsParseIntDecimal | index.ts:93 | `parseInt(…, 10)` reads back the number whose digits start the text and ignores anything after them |
| CivilDate.DaysInMonth | dist/index.js:71 | month lengths lie in 28..31, and a month has 29 days exactly when it is February of a leap year |
| CivilDate.PrevDay | dist/index.js:71 | `subDays(end, 1)` yields a valid day strictly before `end` |
| CivilDate.NextDay | dist/index.js:67-71 | the next day is a valid day strictly after the given one; it is used to describe a one-day event |
| CivilDate.PrevDayIsImmediate | dist/index.js:70-71 | no valid day lies strictly between the corrected end and DTEND, across month, year and leap-year boundaries |
| CivilDate.NextDayIsImmediate | dist/index.js:67-71 | no valid day lies strictly between a day and the day after it |
| CivilDate.PrevNextInverse | dist/index.js:70-71 | stepping back one day and forward one day, in either order, returns to the start |
| CivilDate.InclusiveEndNotBeforeStart | dist/index.js:69-71 | if DTEND is after DTSTART, the inclusive last day is not before the first day |
| CivilDate.OneDayEvent | dist/index.js:69-71 | an event whose DTEND is the day after DTSTART ends on its start day |
| CivilDate.PrevDayExamples | dist/index.js:71 | 2024-01-03 → 2024-01-02, 2025-01-01 → 2024-12-31, 2024-03-01 → 2024-02-29, and the 1900 and 2000 century cases |
| CivilDate.FormatShape | dist/index.js:21-26 | `formatDate` gives the year text, `-`, two month digits denoting a month in 1..12, `-`, two day digits denoting the day |
| CivilDate.ParseDate | dist/index.js:64 | reading a date text back only ever yields a valid day |
| CivilDate.FormatRoundTrip | dist/index.js:21-26 | reading `formatDate`'s text back yields the same year, month and day |
| CivilDate.FormatInjective | dist/index.js:69-72 | two different days never share a formatted `sd`, so the key separates them |
| CivilDate.FormatFourDigitYear | dist/index.js:21-26 | for a four-digit year the text is 10 characters long, has its dashes at positions 4 and 7, starts with the year digits and contains no `T` |
| Pagination.Requests | index.ts:61-69 | pagination requests pages in order: every page before the last request carries a truthy cursor and `has_more`, and the last one does not |
| Pagination.Collect | index.ts:58-69 | the do/while loop stops exactly at the first response without `has_more` or with an absent or empty cursor, and returns every requested page's results concatenated in order |
| Pagination.RequestsUnique | dist/index.js:51-61 | any count of requests that stops where the loop stops equals the count `Requests` gives |
| Pagination.Paginate | index.ts:62-66 | a store that serves its records in pages of at most the page size concatenates back to all of them; every page but the last continues, and the last stops |
| Pagination.PaginationComplete | dist/index.js:51-61 | over such a store, pagination makes one request per page and collects every record in order |
| Pagination.ThreePages | index.ts:65 | 250 records take three pages of at most 100, and all 250 are collected |
| Store.FirstTitle | index.ts:72 | `title[0]?.plain_text` is present exactly when the title has a segment |
| Store.KeyInjective | index.ts:96 | for starts without a bar character, two keys are equal exactly when both title and start are equal |
| Store.UntitledKey | index.ts:72 | a record with an empty title has the same key as a record titled "undefined" |
| Store.ExistingKeys | index.ts:71-74 | the key set holds exactly the keys of the stored records: title (or "undefined") and the start as the variant reads it (cut at `T` in `index.ts`, as stored in `dist/index.js`); the end takes no part |
| Store.KeySet | index.ts:71-90 | the key set is built when every record has a date, and it is absent (the run throws) otherwise; `dist/index.js:62-66` does the same |
| Store.Written | index.ts:98-106 | a created record reads back with the title and start it was created with |
| Store.Commit | index.ts:98-108 | creates add one record per request, in request order, and leave every existing record unchanged |
| Store.CommitKeepsDates | dist/index.js:74-80 | creates only add records that have dates, so a store whose records all had dates still has |
| Selection.Select | index.ts:92-111 | the create loop issues at most one request per event, and each request comes from an event the fixed test keeps |
| Selection.SelectComplete | dist/index.js:73-80 | every event the test keeps gets its request |
| Selection.SelectAppend | index.ts:90-111 | the key set is never extended in the loop, so the requests for two feeds in a row are those for each feed in turn |
| Selection.SelectCount | index.ts:92-111 | the number of requests equals the number of kept positions, repetitions included |
| Selection.SelectNone | dist/index.js:73 | if the test keeps no event, no request is issued |
| Selection.SelectRepeated | index.ts:90-111 | an event kept twice in the feed is requested twice |
| SyncTs.DateOnly | index.ts:39-41 | `dateOnly` returns the text before the first `T`, or the whole text when it has no `T` |
| SyncTs.DateOnlyIdempotent | index.ts:39-41 | `dateOnly(dateOnly(s)) == dateOnly(s)` |
| SyncTs.DateOnlyOfDate | index.ts:39-41 | `dateOnly` is the identity on texts without `T`, such as `YYYY-MM-DD` |
| SyncTs.DateOnlyOfTimestamp | index.ts:51-52 | a timestamp `date + "T" + time` is cut to `date` |
| SyncTs.Events | index.ts:47-53 | each feed event becomes one calendar event, in feed order: the title unchanged, start and end cut at `T` |
| SyncTs.RelevantYear | index.ts:93-94 | a start text that begins with a run of year digits and a `-` is kept exactly when the digits' value is the current or the next year, leading zeros included |
| SyncTs.EventYearOf | index.ts:93 | the year read from such a text is the value of its leading digit run |
| SyncTs.ZeroPaddedYearIsRelevant | index.ts:93-94 | the zero-padded start text `0999-01-01` passes the filter in 999 |
| SyncTs.Plan | index.ts:92-111 | every request is for a relevant event whose key is not in the pre-run set |
| SyncTs.Sync | index.ts:78-111 | the run fails exactly when some collected record has no date; otherwise it issues exactly the planned requests; its result is the run's `Outcome`, about which idempotence is proved |
| SyncTs.CreateMissing | index.ts:92-111 | the event loop issues exactly the planned requests, with the set unchanged throughout |
| SyncTs.PlanMembership | index.ts:96-106 | a request is issued exactly for each relevant event with an absent key, and it carries that event's title, start and uncorrected end |
| SyncTs.RepeatedKeyWrittenTwice | index.ts:90-111 | a relevant event with an absent key that appears twice in the feed is requested twice |
| SyncTs.Idempotent | index.ts:90-106 | when the store reads back the title and start it was given, a second run with the same feed and year issues no request |
| SyncTs.NewYearStartIsRelevant | index.ts:93-94 | the start text `2025-01-01` passes the filter in 2025 |
| SyncTs.OneDayEventSpansTwoDays | index.ts:49-53 | the one-day New Year event is written with end `2025-01-02`, the exclusive DTEND |
| SyncTs.NewYearEvents | index.ts:47-53 | the New Year feed event becomes the calendar event with start `2025-01-01` and end `2025-01-02` |
| SyncTs.NewYearStart | index.ts:51 | the timestamp `2025-01-01T00:00:00.000Z` is cut to `2025-01-01` |
| SyncTs.NewYearEnd | index.ts:52 | the timestamp `2025-01-02T00:00:00.000Z` is cut to `2025-01-02` |
| SyncTs.EmptyStore | index.ts:61-74 | an empty store answers with one empty page and yields no keys |
| SyncDist.RelevantEventsMembership | dist/index.js:46-49 | the filter keeps exactly the feed events whose start year is the current or the next year |
| SyncDist.CreateReadsBack | dist/index.js:69-71 | the written `sd` reads back as DTSTART's day, and `ed` as the day before DTEND |
| SyncDist.Plan | dist/index.js:68-83 | every request's key (title and `sd`) is absent from the pre-run set |
| SyncDist.Sync | dist/index.js:39-83 | the run fails exactly when some collected record has no date; otherwise it issues exactly the planned requests for the filtered events; its result is the run's `Outcome`, about which idempotence is proved |
| SyncDist.FilterRelevant | dist/index.js:46-49 | the filter loop yields the relevant events in feed order |
| SyncDist.CreateMissing | dist/index.js:68-83 | the create loop issues exactly the planned requests, with the set unchanged throughout |
| SyncDist.PlanMembership | dist/index.js:72-80 | a request is issued exactly for each filtered event whose key is absent |
| SyncDist.EndIgnoredByDedup | dist/index.js:72 | two events with equal title and start are both kept or both skipped, whatever their ends |
| SyncDist.WrittenRangeOrdered | dist/index.js:69-71 | if DTEND is after DTSTART, the written start is not after the written end |
| SyncDist.OneDayEventWrittenAsOneDay | dist/index.js:67-71 | a one-day event is written with `sd == ed` |
| SyncDist.Idempotent | dist/index.js:62-83 | when the store reads back the title and `sd` it was given, a second run with the same feed and year issues no request |
| SyncDist.KeyPresentAfterCommit | dist/index.js:62-83 | after a run's creates, the key of every filtered event is in the store's key set, whether it was there before or was just created |
| SyncDist.FiltersAgree | dist/index.js:46-49 | for every non-negative year, the `index.ts` filter on the formatted text agrees with this filter on the day, and `dateOnly` leaves the text unchanged |
| SyncDist.StoredStartNotCut | dist/index.js:64 | a stored start with a time of day matches the event key in `index.ts`, which cuts at `T`, but not in `dist/index.js` |

## Findings

| source | as written | input that shows it | evidently intended | confidence | as-written member | corrected member |
|---|---|---|---|---|---|---|
| index.ts:52 | the end is written as DTEND's own date, although DTEND is exclusive | event "New Year", DTSTART 2025-01-01T00:00Z, DTEND 2025-01-02T00:00Z, empty store, year 2025 | end 2025-01-01, the event's last day (what `dist/index.js` writes) | high; not executed | SyncTs.OneDayEventSpansTwoDays | SyncDist.OneDayEventWrittenAsOneDay |

`SyncTs` keeps the `index.ts` behaviour as written. The corrected behaviour is the `dist/index.js` variant, modelled in `SyncDist`. There, `CivilDate.PrevDay` is proved to yield the day immediately before DTEND, and a one-day event is proved to be written with start equal to end.

## Left out

- Fetching the feed over HTTP and parsing iCalendar text: foreign libraries. The feed is given as a sequence of already-parsed events.
- Time zones and `Date` internals. `index.ts` takes the `toISOString()` (UTC) texts of DTSTART and DTEND as input, and `dist/index.js` takes the local calendar days. The conversion from an instant to either is not modelled.
- The store client. `databases.query` is a sequence of pages, where each cursor leads to the next page, and `pages.create` is an append (`Store.Commit`). A request past the last modelled page is answered with an empty page that ends the loop.
- Failed store calls and failed creates: the routine does not retry them, and they only end the run. Of the throwing paths, only a record with an empty date property is modelled (`MissingDate`).
- Feed events with no summary or no DTSTART/DTEND: the model's feed events always have all three.
- Environment variables, the credential check, console logging and `process.exit`: plumbing.
- The list of configured sources, handled one after another in a single loop. Sources share no state, but a throw while syncing one ends the whole run, so later sources are skipped. The model covers one source.
- `Promise.all`, which overlaps the feed fetch with the store query in `index.ts`: no effect on the result.
- Text.JsParseInt: skips only ASCII whitespace, not Unicode whitespace. It also gives the exact value of any digit run, where JavaScript loses precision above 2^53. Neither case arises for ISO date texts.
- SyncTs.RelevantYear: covers start texts that begin with a run of digits and a `-`, which is what `toISOString()` writes for years 0 to 9999, zero-padded to four digits. The extended years it writes outside that range (`+012345-…`, `-000001-…`) are not covered by the lemma. The filter on them is still defined by `Text.JsParseInt`.
- SyncDist.FiltersAgree: stated for non-negative years only. For negative years the two filters really differ: `formatDate` writes a leading `-`, so `index.ts` would read `NaN`.
- CivilDate: years are unbounded integers. JavaScript's `Date` range of about ±275,760 years is not modelled.
