/**
 * Calendar dates as the `arrow` library represents them, and the two
 * zero-padded renderings the pipeline builds object-store keys from:
 * `YYYY/MM/DD` and `YYYY-MM-DD`.
 */
module Dates {
  import opened Wrappers

  datatype Date = Date(year: int, month: int, day: int) {
    /** The dates a Python `datetime` can hold: years 1 to 9999, real days of real months. */
    predicate Valid() {
      1 <= year <= 9999 && 1 <= month <= 12 && 1 <= day <= DaysInMonth(year, month)
    }
  }

  predicate IsLeapYear(y: int) {
    y % 4 == 0 && (y % 100 != 0 || y % 400 == 0)
  }

  function DaysInMonth(y: int, m: int): int {
    if m == 2 then (if IsLeapYear(y) then 29 else 28)
    else if m == 4 || m == 6 || m == 9 || m == 11 then 30
    else 31
  }

  /** Chronological order of dates (the comparison of midnight timestamps in pandas). */
  predicate OnOrBefore(a: Date, b: Date) {
    a.year < b.year
    || (a.year == b.year && a.month < b.month)
    || (a.year == b.year && a.month == b.month && a.day <= b.day)
  }

  function Pow10(n: nat): (r: nat)
    ensures r >= 1
  {
    if n == 0 then 1 else 10 * Pow10(n - 1)
  }

  predicate IsDigit(c: char) {
    '0' <= c <= '9'
  }

  function DigitChar(d: int): (c: char)
    requires 0 <= d < 10
    ensures IsDigit(c)
  {
    ('0' as int + d) as char
  }

  /** `n` rendered in exactly `width` decimal digits, with leading zeros (Python's `{n:0{width}d}`). */
  function Pad(n: nat, width: nat): (s: string)
    requires n < Pow10(width)
    ensures |s| == width
    ensures forall i :: 0 <= i < |s| ==> IsDigit(s[i])
  {
    if width == 0 then [] else Pad(n / 10, width - 1) + [DigitChar(n % 10)]
  }

  /** The value of a string of decimal digits; `None` if some character is not a digit. */
  function ParseDigits(s: string): Option<nat> {
    if |s| == 0 then Some(0)
    else if !IsDigit(s[|s| - 1]) then None
    else match ParseDigits(s[..|s| - 1])
      case None => None
      case Some(v) => Some(10 * v + (s[|s| - 1] as int - '0' as int))
  }

  lemma {:induction false} ParsePad(n: nat, width: nat)
    requires n < Pow10(width)
    ensures ParseDigits(Pad(n, width)) == Some(n)
  {
    if width > 0 {
      var s := Pad(n, width);
      assert s[..|s| - 1] == Pad(n / 10, width - 1);
      ParsePad(n / 10, width - 1);
    }
  }

  /** arrow's `format('YYYY<sep>MM<sep>DD')`. */
  function Format(d: Date, sep: char): (s: string)
    requires d.Valid()
    ensures |s| == 10 && s[4] == sep && s[7] == sep
    ensures forall i :: 0 <= i < 10 && i != 4 && i != 7 ==> IsDigit(s[i])
  {
    Pad(d.year, 4) + [sep] + Pad(d.month, 2) + [sep] + Pad(d.day, 2)
  }

  /** The inverse of `Format`: reads `YYYY<sep>MM<sep>DD` back into a date, if it is one. */
  function Parse(s: string, sep: char): Option<Date> {
    if |s| != 10 || s[4] != sep || s[7] != sep then None
    else match (ParseDigits(s[..4]), ParseDigits(s[5..7]), ParseDigits(s[8..]))
      case (Some(y), Some(m), Some(dd)) =>
        if Date(y, m, dd).Valid() then Some(Date(y, m, dd)) else None
      case _ => None
  }

  lemma ParseFormat(d: Date, sep: char)
    requires d.Valid()
    ensures Parse(Format(d, sep), sep) == Some(d)
  {
    var s := Format(d, sep);
    assert s[..4] == Pad(d.year, 4);
    assert s[5..7] == Pad(d.month, 2);
    assert s[8..] == Pad(d.day, 2);
    ParsePad(d.year, 4);
    ParsePad(d.month, 2);
    ParsePad(d.day, 2);
  }

  /** Distinct dates never render to the same key segment. */
  lemma FormatInjective(d1: Date, d2: Date, sep: char)
    requires d1.Valid() && d2.Valid()
    ensures Format(d1, sep) == Format(d2, sep) <==> d1 == d2
  {
    if Format(d1, sep) == Format(d2, sep) {
      ParseFormat(d1, sep);
      ParseFormat(d2, sep);
    }
  }

  /** `YYYY/MM/DD`. */
  function SlashDate(d: Date): (s: string)
    requires d.Valid()
    ensures Parse(s, '/') == Some(d)
  {
    ParseFormat(d, '/');
    Format(d, '/')
  }

  /** `YYYY-MM-DD`. */
  function DashDate(d: Date): (s: string)
    requires d.Valid()
    ensures Parse(s, '-') == Some(d)
  {
    ParseFormat(d, '-');
    Format(d, '-')
  }
}
