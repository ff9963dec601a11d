/** DateOnly and its "yyyy-MM-dd" custom format. */
module Dates {
  import opened Wrappers
  import opened Strings

  datatype Date = Date(year: int, month: int, day: int)

  predicate IsLeapYear(year: int) {
    year % 4 == 0 && (year % 100 != 0 || year % 400 == 0)
  }

  function DaysInMonth(year: int, month: int): (n: int)
    requires 1 <= month <= 12
    ensures 28 <= n <= 31
  {
    if month == 2 then (if IsLeapYear(year) then 29 else 28)
    else if month == 4 || month == 6 || month == 9 || month == 11 then 30
    else 31
  }

  /** The proleptic Gregorian dates from 0001-01-01 to 9999-12-31, the range of DateOnly. */
  predicate IsValidDate(d: Date) {
    1 <= d.year <= 9999 && 1 <= d.month <= 12 && 1 <= d.day <= DaysInMonth(d.year, d.month)
  }

  /** A .NET DateOnly value is always a valid calendar date. */
  type DateOnly = d: Date | IsValidDate(d) witness Date(1, 1, 1)

  /** DateOnly.ToString("yyyy-MM-dd"): four-digit year, two-digit month and day. */
  function ToIsoString(d: DateOnly): (s: string)
    ensures |s| == 10 && s[4] == '-' && s[7] == '-'
    ensures AllDigits(s[..4]) && AllDigits(s[5..7]) && AllDigits(s[8..])
  {
    ZeroPad(d.year, 4) + "-" + ZeroPad(d.month, 2) + "-" + ZeroPad(d.day, 2)
  }

  /** Reading a "yyyy-MM-dd" string back; None when it is not one or names no date. */
  function ParseIsoDate(s: string): (r: Option<DateOnly>)
    ensures r.Some? ==> ToIsoString(r.value) == s
  {
    if |s| == 10 && s[4] == '-' && s[7] == '-'
       && AllDigits(s[..4]) && AllDigits(s[5..7]) && AllDigits(s[8..])
    then
      var d := Date(DigitsValue(s[..4]), DigitsValue(s[5..7]), DigitsValue(s[8..]));
      if IsValidDate(d) then
        IsoStringOfParts(s, d);
        Some(d)
      else None
    else None
  }

  /** A digit string of the right width is its own zero-padded value. */
  lemma {:induction false} ZeroPadOfDigits(s: string)
    requires AllDigits(s)
    ensures ZeroPad(DigitsValue(s), |s|) == s
  {
    if s != [] {
      var init := s[..|s| - 1];
      ZeroPadOfDigits(init);
      var n := DigitsValue(s);
      assert n / 10 == DigitsValue(init);
      assert n % 10 == DigitValue(s[|s| - 1]);
      assert s == init + [s[|s| - 1]];
    }
  }

  lemma IsoStringOfParts(s: string, d: DateOnly)
    requires |s| == 10 && s[4] == '-' && s[7] == '-'
    requires AllDigits(s[..4]) && AllDigits(s[5..7]) && AllDigits(s[8..])
    requires d == Date(DigitsValue(s[..4]), DigitsValue(s[5..7]), DigitsValue(s[8..]))
    ensures ToIsoString(d) == s
  {
    ZeroPadOfDigits(s[..4]);
    ZeroPadOfDigits(s[5..7]);
    ZeroPadOfDigits(s[8..]);
    assert s == s[..4] + "-" + s[5..7] + "-" + s[8..];
  }

  /** Formatting a date and parsing the text gives the date back. */
  lemma IsoRoundTrip(d: DateOnly)
    ensures ParseIsoDate(ToIsoString(d)) == Some(d)
  {
    var s := ToIsoString(d);
    ZeroPadValue(d.year, 4);
    ZeroPadValue(d.month, 2);
    ZeroPadValue(d.day, 2);
    assert s[..4] == ZeroPad(d.year, 4);
    assert s[5..7] == ZeroPad(d.month, 2);
    assert s[8..] == ZeroPad(d.day, 2);
  }

  /** Distinct dates have distinct "yyyy-MM-dd" texts. */
  lemma IsoInjective(d1: DateOnly, d2: DateOnly)
    requires ToIsoString(d1) == ToIsoString(d2)
    ensures d1 == d2
  {
    IsoRoundTrip(d1);
    IsoRoundTrip(d2);
  }
}
