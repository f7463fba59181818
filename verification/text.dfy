/** The string operations the sync routine relies on: `split(sep)[0]`,
    `String(n)`, `padStart(2, "0")` and `parseInt(s, 10)`, over `seq<char>`. */
module Text {
  import opened Wrappers

  predicate IsDigit(c: char) { '0' <= c <= '9' }

  predicate AllDigits(s: string) { forall i :: 0 <= i < |s| ==> IsDigit(s[i]) }

  function DigitValue(c: char): (v: nat)
    requires IsDigit(c)
    ensures v < 10
  {
    (c as int) - ('0' as int)
  }

  function DigitChar(n: nat): (c: char)
    requires n < 10
    ensures IsDigit(c) && DigitValue(c) == n
  {
    (('0' as int) + n) as char
  }

  /** The text before the first `sep`, or all of `s` when `sep` does not
      occur: what `s.split(sep)[0]` gives for a one-character separator. */
  function TakeUntil(s: string, sep: char): (r: string)
    ensures r <= s
    ensures sep !in r
    ensures |r| == |s| || s[|r|] == sep
  {
    if |s| == 0 || s[0] == sep then "" else [s[0]] + TakeUntil(s[1..], sep)
  }

  /** Splitting a string that has no separator gives the string back. */
  lemma TakeUntilAbsent(s: string, sep: char)
    requires sep !in s
    ensures TakeUntil(s, sep) == s
  {
  }

  /** Taking the text before the first `sep` twice is the same as once. */
  lemma TakeUntilIdempotent(s: string, sep: char)
    ensures TakeUntil(TakeUntil(s, sep), sep) == TakeUntil(s, sep)
  {
    TakeUntilAbsent(TakeUntil(s, sep), sep);
  }

  /** The text before `sep` of `a + [sep] + b` is `a`, whenever `a` has no `sep`. */
  lemma TakeUntilJoin(a: string, sep: char, b: string)
    requires sep !in a
    ensures TakeUntil(a + [sep] + b, sep) == a
  {
    var s := a + [sep] + b;
    var r := TakeUntil(s, sep);
    assert s[..|a|] == a;
    assert s[|a|] == sep;
    assert r == s[..|r|];
  }

  /** Decimal digits of `n` without leading zeros: JavaScript's `String(n)`. */
  function NatToDecimal(n: nat): (r: string)
    ensures 1 <= |r|
    ensures AllDigits(r)
    ensures r[0] == '0' ==> n == 0
  {
    if n < 10 then [DigitChar(n)] else NatToDecimal(n / 10) + [DigitChar(n % 10)]
  }

  /** The number a string of decimal digits denotes. */
  function DecimalValue(s: string): nat
    requires AllDigits(s)
  {
    if |s| == 0 then 0 else DecimalValue(s[..|s| - 1]) * 10 + DigitValue(s[|s| - 1])
  }

  lemma {:induction false} DecimalRoundTrip(n: nat)
    ensures DecimalValue(NatToDecimal(n)) == n
  {
    if n >= 10 {
      var r := NatToDecimal(n);
      assert r[..|r| - 1] == NatToDecimal(n / 10);
      DecimalRoundTrip(n / 10);
    }
  }

  /** A number of at most four digits is written with at most four characters,
      and with exactly four when it is at least 1000. */
  lemma {:induction false} DecimalLength(n: nat)
    ensures n < 10 ==> |NatToDecimal(n)| == 1
    ensures 10 <= n < 100 ==> |NatToDecimal(n)| == 2
    ensures 100 <= n < 1000 ==> |NatToDecimal(n)| == 3
    ensures 1000 <= n < 10000 ==> |NatToDecimal(n)| == 4
  {
    if n >= 10 {
      DecimalLength(n / 10);
    }
  }

  /** `String(i)` for an integer: a minus sign before the digits when negative. */
  function IntToString(i: int): (r: string)
  {
    if i < 0 then "-" + NatToDecimal(-i) else NatToDecimal(i)
  }

  /** Reads back what `IntToString` writes: an optional minus sign followed by
      at least one digit. */
  function ParseSigned(s: string): Option<int>
  {
    if |s| > 0 && s[0] == '-' then
      (if 1 < |s| && AllDigits(s[1..]) then Some(-(DecimalValue(s[1..]) as int)) else None)
    else if 0 < |s| && AllDigits(s) then Some(DecimalValue(s))
    else None
  }

  lemma IntRoundTrip(i: int)
    ensures ParseSigned(IntToString(i)) == Some(i)
  {
    var r := IntToString(i);
    if i < 0 {
      var d := NatToDecimal(-i);
      assert r == "-" + d && r[0] == '-' && r[1..] == d;
      DecimalRoundTrip(-i);
      assert ParseSigned(r) == Some(-(DecimalValue(d) as int));
    } else {
      var d := NatToDecimal(i);
      assert r == d && IsDigit(d[0]);
      DecimalRoundTrip(i);
      assert ParseSigned(r) == Some(DecimalValue(d));
    }
  }

  /** `s.padStart(width, fill)`: `fill` is prepended until `s` reaches `width`;
      a string already that long is returned unchanged. */
  function PadStart(s: string, width: nat, fill: char): (r: string)
    ensures |r| == if |s| < width then width else |s|
    ensures r[|r| - |s|..] == s
    ensures forall i :: 0 <= i < |r| - |s| ==> r[i] == fill
  {
    if |s| < width then seq(width - |s|, _ => fill) + s else s
  }

  /** `String(n).padStart(2, "0")`. */
  function Pad2(n: int): string
  {
    PadStart(IntToString(n), 2, '0')
  }

  /** A number below 100 is padded to two digits whose value is that number. */
  lemma TwoDigits(n: nat)
    requires n < 100
    ensures |Pad2(n)| == 2 && AllDigits(Pad2(n)) && DecimalValue(Pad2(n)) == n
  {
    var d := NatToDecimal(n);
    assert IntToString(n) == d;
    DecimalLength(n);
    DecimalRoundTrip(n);
    if |d| == 1 {
      var r := PadStart(d, 2, '0');
      assert r == ['0', d[0]];
      assert r[..1] == "0" && r[..1][..0] == [];
      assert d[..0] == [];
    }
  }

  /** The whitespace `parseInt` skips before the number (the ASCII subset). */
  predicate IsSpace(c: char)
  {
    c == ' ' || c == '\t' || c == '\n' || c == '\r' || c == '\U{B}' || c == '\U{C}'
  }

  function TrimStart(s: string): (r: string)
    ensures |r| <= |s| && r == s[|s| - |r|..]
    ensures |r| > 0 ==> !IsSpace(r[0])
  {
    if |s| > 0 && IsSpace(s[0]) then TrimStart(s[1..]) else s
  }

  /** The longest run of digits at the start of `s`. */
  function LeadingDigits(s: string): (r: string)
    ensures r <= s
    ensures AllDigits(r)
    ensures |r| == |s| || !IsDigit(s[|r|])
  {
    if |s| > 0 && IsDigit(s[0]) then [s[0]] + LeadingDigits(s[1..]) else ""
  }

  /** The value of the digits that start `s`; `None` when `s` does not start with one. */
  function LeadingValue(s: string): Option<nat>
  {
    var digits := LeadingDigits(s);
    if |digits| == 0 then None else Some(DecimalValue(digits))
  }

  /** `parseInt(s, 10)`: leading whitespace skipped, an optional sign, then the
      longest run of decimal digits; `NaN` (here `None`) when there is no digit. */
  function JsParseInt(s: string): Option<int>
  {
    var t := TrimStart(s);
    if |t| > 0 && t[0] == '-' then
      match LeadingValue(t[1..])
      case None => None
      case Some(v) => Some(-(v as int))
    else if |t| > 0 && t[0] == '+' then
      match LeadingValue(t[1..])
      case None => None
      case Some(v) => Some(v as int)
    else
      match LeadingValue(t)
      case None => None
      case Some(v) => Some(v as int)
  }

  /** `parseInt` reads a run of digits, leading zeros included, as its
      decimal value, and ignores anything after the digits. */
  lemma JsParseIntDigits(ys: string, rest: string)
    requires |ys| > 0 && AllDigits(ys)
    requires |rest| == 0 || !IsDigit(rest[0])
    ensures JsParseInt(ys + rest) == Some(DecimalValue(ys))
  {
    var s := ys + rest;
    assert s[0] == ys[0];
    assert TrimStart(s) == s;
    LeadingDigitsOf(ys, rest);
    assert LeadingValue(s) == Some(DecimalValue(ys));
  }

  /** `parseInt` reads back every number `String` writes for a natural number,
      and ignores anything after the digits. */
  lemma JsParseIntDecimal(n: nat, rest: string)
    requires |rest| == 0 || !IsDigit(rest[0])
    ensures JsParseInt(NatToDecimal(n) + rest) == Some(n)
  {
    JsParseIntDigits(NatToDecimal(n), rest);
    DecimalRoundTrip(n);
  }

  lemma {:induction false} LeadingDigitsOf(d: string, rest: string)
    requires AllDigits(d)
    requires |rest| == 0 || !IsDigit(rest[0])
    ensures LeadingDigits(d + rest) == d
  {
    if |d| > 0 {
      assert (d + rest)[1..] == d[1..] + rest;
      LeadingDigitsOf(d[1..], rest);
      assert [d[0]] + d[1..] == d;
    } else {
      assert d + rest == rest;
    }
  }
}
