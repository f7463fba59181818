/** Calendar days of the proleptic Gregorian calendar, the "previous day"
    step that turns an exclusive DTEND into an inclusive last day, and the
    `YYYY-MM-DD` text the destination store keeps. */
module CivilDate {
  import opened Wrappers
  import opened Text

  /** A day as JavaScript's `getFullYear()`, `getMonth() + 1` and `getDate()`
      read it: the month is already one-based. */
  datatype Date = Date(year: int, month: int, day: int)

  predicate IsLeapYear(y: int)
  {
    y % 4 == 0 && (y % 100 != 0 || y % 400 == 0)
  }

  function DaysInMonth(y: int, m: int): (n: int)
    requires 1 <= m <= 12
    ensures 28 <= n <= 31
    ensures n == 29 <==> m == 2 && IsLeapYear(y)
  {
    if m == 2 then (if IsLeapYear(y) then 29 else 28)
    else if m == 4 || m == 6 || m == 9 || m == 11 then 30
    else 31
  }

  predicate Valid(d: Date)
  {
    1 <= d.month <= 12 && 1 <= d.day <= DaysInMonth(d.year, d.month)
  }

  /** A JavaScript `Date` always denotes an existing day once read in local time. */
  type CalendarDay = d: Date | Valid(d) witness Date(1970, 1, 1)

  /** Chronological order: year, then month, then day. */
  predicate Before(a: Date, b: Date)
  {
    a.year < b.year || (a.year == b.year && (a.month < b.month || (a.month == b.month && a.day < b.day)))
  }

  predicate NotAfter(a: Date, b: Date)
  {
    a == b || Before(a, b)
  }

  /** The day before `d`, across month, year and leap-year boundaries:
      what `subDays(d, 1)` yields, read back as a calendar day. */
  function PrevDay(d: CalendarDay): (p: CalendarDay)
    ensures Before(p, d)
  {
    if d.day > 1 then Date(d.year, d.month, d.day - 1)
    else if d.month > 1 then Date(d.year, d.month - 1, DaysInMonth(d.year, d.month - 1))
    else Date(d.year - 1, 12, 31)
  }

  /** The day after `d`: used to state what a one-day event is. */
  function NextDay(d: CalendarDay): (n: CalendarDay)
    ensures Before(d, n)
  {
    if d.day < DaysInMonth(d.year, d.month) then Date(d.year, d.month, d.day + 1)
    else if d.month < 12 then Date(d.year, d.month + 1, 1)
    else Date(d.year + 1, 1, 1)
  }

  /** No day lies strictly between `PrevDay(d)` and `d`. */
  lemma PrevDayIsImmediate(d: CalendarDay, x: CalendarDay)
    requires Before(x, d)
    ensures NotAfter(x, PrevDay(d))
  {
    if d.day == 1 && d.month > 1 && x.year == d.year && x.month == d.month - 1 {
      assert x.day <= DaysInMonth(d.year, d.month - 1);
    }
  }

  /** No day lies strictly between `d` and `NextDay(d)`. */
  lemma NextDayIsImmediate(d: CalendarDay, x: CalendarDay)
    requires Before(d, x)
    ensures NotAfter(NextDay(d), x)
  {
  }

  /** Stepping back a day and forward again, or the other way round, returns to the start. */
  lemma PrevNextInverse(d: CalendarDay)
    ensures NextDay(PrevDay(d)) == d
    ensures PrevDay(NextDay(d)) == d
  {
  }

  /** An event whose exclusive end is after its start has an inclusive last
      day that is not before its first day. */
  lemma InclusiveEndNotBeforeStart(start: CalendarDay, end: CalendarDay)
    requires Before(start, end)
    ensures NotAfter(start, PrevDay(end))
  {
    PrevDayIsImmediate(end, start);
  }

  /** An event lasting exactly one day ends on the day it starts. */
  lemma OneDayEvent(start: CalendarDay)
    ensures PrevDay(NextDay(start)) == start
  {
    PrevNextInverse(start);
  }

  /** `formatDate`: the year as `String` writes it, then month and day
      left-padded with `0` to two characters, joined by `-`. */
  function Format(d: Date): string
  {
    IntToString(d.year) + "-" + Pad2(d.month) + "-" + Pad2(d.day)
  }

  /** The part of a formatted day after the year text: `-MM-DD`. */
  function DateTail(d: Date): (rest: string)
    ensures |rest| > 0 && rest[0] == '-'
  {
    "-" + Pad2(d.month) + "-" + Pad2(d.day)
  }

  /** A formatted day is its year text followed by its `-MM-DD` tail. */
  lemma FormatSplit(d: Date)
    ensures Format(d) == IntToString(d.year) + DateTail(d)
  {
    JoinTail(IntToString(d.year), Pad2(d.month), Pad2(d.day));
  }

  lemma JoinTail(ys: string, ms: string, ds: string)
    ensures ys + "-" + ms + "-" + ds == ys + ("-" + ms + "-" + ds)
  {
  }

  /** Reads a `Y-MM-DD` text back into the day it names; `None` for any text
      that is not a formatted valid day. */
  function ParseDate(s: string): (r: Option<Date>)
    ensures r.Some? ==> Valid(r.value)
  {
    if |s| < 7 || s[|s| - 6] != '-' || s[|s| - 3] != '-' then None
    else
      var ys, ms, ds := s[..|s| - 6], s[|s| - 5..|s| - 3], s[|s| - 2..];
      if !AllDigits(ms) || !AllDigits(ds) then None
      else match ParseSigned(ys)
        case None => None
        case Some(y) =>
          var d := Date(y, DecimalValue(ms), DecimalValue(ds));
          if Valid(d) then Some(d) else None
  }

  /** The formatted text of a valid day: the year text, then `-`, two month
      digits, `-`, two day digits, with the month in 1..12. */
  lemma FormatShape(d: CalendarDay)
    ensures var r := Format(d);
            && |r| == |IntToString(d.year)| + 6
            && r[..|r| - 6] == IntToString(d.year)
            && r[|r| - 6] == '-' && r[|r| - 3] == '-'
            && AllDigits(r[|r| - 5..|r| - 3]) && DecimalValue(r[|r| - 5..|r| - 3]) == d.month
            && AllDigits(r[|r| - 2..]) && DecimalValue(r[|r| - 2..]) == d.day
            && 1 <= d.month <= 12
  {
    TwoDigits(d.month);
    TwoDigits(d.day);
    var ys, ms, ds := IntToString(d.year), Pad2(d.month), Pad2(d.day);
    assert |ms| == 2 && |ds| == 2;
    JoinShape(ys, ms, ds);
    assert Format(d) == ys + "-" + ms + "-" + ds;
  }

  lemma JoinShape(ys: string, ms: string, ds: string)
    requires |ms| == 2 && |ds| == 2
    ensures var r := ys + "-" + ms + "-" + ds;
            && |r| == |ys| + 6 && r[..|r| - 6] == ys
            && r[|r| - 6] == '-' && r[|r| - 3] == '-'
            && r[|r| - 5..|r| - 3] == ms && r[|r| - 2..] == ds
  {
  }

  /** Reading a formatted day back gives the same year, month and day. */
  lemma FormatRoundTrip(d: CalendarDay)
    ensures ParseDate(Format(d)) == Some(d)
  {
    FormatShape(d);
    IntRoundTrip(d.year);
  }

  /** Two days format to the same text only if they are the same day. */
  lemma FormatInjective(a: CalendarDay, b: CalendarDay)
    requires Format(a) == Format(b)
    ensures a == b
  {
    FormatRoundTrip(a);
    FormatRoundTrip(b);
  }

  /** For a four-digit year the text is exactly `YYYY-MM-DD`: ten characters,
      dashes at 4 and 7, and no `T`. */
  lemma FormatFourDigitYear(d: CalendarDay)
    requires 1000 <= d.year <= 9999
    ensures var r := Format(d);
            |r| == 10 && r[4] == '-' && r[7] == '-' && r[..4] == NatToDecimal(d.year) && 'T' !in r
  {
    FormatShape(d);
    DecimalLength(d.year);
    FormatHasNoT(d);
  }

  /** A day of a non-negative year is formatted with digits and dashes only. */
  lemma FormatHasNoT(d: CalendarDay)
    requires d.year >= 0
    ensures 'T' !in Format(d)
  {
    var ys, ms, ds := IntToString(d.year), Pad2(d.month), Pad2(d.day);
    assert ys == NatToDecimal(d.year);
    TwoDigits(d.month);
    TwoDigits(d.day);
    DigitsHaveNoT(ys);
    DigitsHaveNoT(ms);
    DigitsHaveNoT(ds);
    NoTInJoin(ys, ms, ds);
    assert Format(d) == ys + "-" + ms + "-" + ds;
  }

  lemma DigitsHaveNoT(s: string)
    requires AllDigits(s)
    ensures 'T' !in s
  {
  }

  lemma NoTInJoin(ys: string, ms: string, ds: string)
    requires 'T' !in ys && 'T' !in ms && 'T' !in ds
    ensures 'T' !in ys + "-" + ms + "-" + ds
  {
  }

  /** The day-boundary cases of the exclusive-end correction. */
  lemma PrevDayExamples()
    ensures PrevDay(Date(2024, 1, 3)) == Date(2024, 1, 2)
    ensures PrevDay(Date(2025, 1, 1)) == Date(2024, 12, 31)
    ensures PrevDay(Date(2024, 3, 1)) == Date(2024, 2, 29)
    ensures PrevDay(Date(2023, 3, 1)) == Date(2023, 2, 28)
    ensures PrevDay(Date(1900, 3, 1)) == Date(1900, 2, 28)
    ensures PrevDay(Date(2000, 3, 1)) == Date(2000, 2, 29)
  {
  }
}
