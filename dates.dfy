/** Calendar dates as the source handles them: `datetime.strptime(text, "%Y-%m-%d").date()`
    to read form input, `str(date)` to print, and `<` / `>` to compare. */
module Dates {
  import opened Wrappers
  import opened Text

  datatype Date = Date(year: nat, month: nat, day: nat)

  /** Python's `a < b` on dates: year, then month, then day. */
  predicate Before(a: Date, b: Date)
  {
    a.year < b.year
    || (a.year == b.year && (a.month < b.month || (a.month == b.month && a.day < b.day)))
  }

  /** Python's `a > b` on dates. */
  predicate After(a: Date, b: Date) { Before(b, a) }

  /** Before is a strict total order, so "not after today" means "today or earlier". */
  lemma BeforeTrichotomy(a: Date, b: Date)
    ensures Before(a, b) || a == b || Before(b, a)
    ensures !(Before(a, b) && Before(b, a))
    ensures !Before(a, a)
  {
  }

  lemma BeforeTransitive(a: Date, b: Date, c: Date)
    requires Before(a, b) && Before(b, c)
    ensures Before(a, c)
  {
  }

  predicate IsLeapYear(y: nat)
  {
    y % 4 == 0 && (y % 100 != 0 || y % 400 == 0)
  }

  function DaysInMonth(y: nat, m: nat): (n: nat)
    requires 1 <= m <= 12
    ensures 28 <= n <= 31
  {
    if m == 2 then (if IsLeapYear(y) then 29 else 28)
    else if m == 4 || m == 6 || m == 9 || m == 11 then 30
    else 31
  }

  /** The dates Python's `datetime.date` can represent (years 1 to 9999, Gregorian calendar). */
  predicate ValidDate(d: Date)
  {
    1 <= d.year <= 9999 && 1 <= d.month <= 12 && 1 <= d.day <= DaysInMonth(d.year, d.month)
  }

  predicate IsoShape(s: string)
  {
    |s| == 10 && s[4] == '-' && s[7] == '-'
    && AllDigits(s[..4]) && AllDigits(s[5..7]) && AllDigits(s[8..])
  }

  /** Reads `YYYY-MM-DD`; None stands for the `ValueError` strptime raises. */
  function ParseDate(s: string): (r: Option<Date>)
    ensures r.Some? ==> ValidDate(r.value)
  {
    if IsoShape(s) then
      var d := Date(DigitsValue(s[..4]), DigitsValue(s[5..7]), DigitsValue(s[8..]));
      if ValidDate(d) then Some(d) else None
    else None
  }

  /** `str(date)`: ISO 8601 with a four-digit year and two-digit month and day. */
  function FormatDate(d: Date): string
  {
    Pad(d.year, 4) + "-" + Pad(d.month, 2) + "-" + Pad(d.day, 2)
  }

  /** Every representable date prints to text that parses back to it. */
  lemma ParseFormat(d: Date)
    requires ValidDate(d)
    ensures ParseDate(FormatDate(d)) == Some(d)
  {
    var s := FormatDate(d);
    assert s[..4] == Pad(d.year, 4);
    assert s[5..7] == Pad(d.month, 2);
    assert s[8..] == Pad(d.day, 2);
    PadValue(d.year, 4);
    PadValue(d.month, 2);
    PadValue(d.day, 2);
  }

  /** The parser is strict: whatever it accepts is exactly the printed form of the date it returns. */
  lemma FormatParse(s: string)
    requires ParseDate(s).Some?
    ensures FormatDate(ParseDate(s).value) == s
  {
    PadOfValue(s[..4]);
    PadOfValue(s[5..7]);
    PadOfValue(s[8..]);
    assert s == s[..4] + "-" + s[5..7] + "-" + s[8..];
  }

  /** A printed date holds only digits and dashes. */
  lemma FormatDateChars(d: Date)
    ensures forall k :: 0 <= k < |FormatDate(d)| ==> IsDigit(FormatDate(d)[k]) || FormatDate(d)[k] == '-'
  {
    var y, m, n := Pad(d.year, 4), Pad(d.month, 2), Pad(d.day, 2);
    assert FormatDate(d) == y + ['-'] + m + ['-'] + n;
  }

  lemma FormatDateHasNo(c: char, d: Date)
    requires !IsDigit(c) && c != '-'
    ensures Count(c, FormatDate(d)) == 0
  {
    FormatDateChars(d);
    CountAbsent(c, FormatDate(d));
  }
}
