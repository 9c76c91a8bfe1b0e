/**
 * Calendar dates and `datetime.strptime(value, "%Y-%m-%d").date()`, the
 * conversion the purchase-date filter applies to the dates a user types.
 */
module Dates {
  import opened Outcomes
  import opened Text

  /** A `datetime.date`: year, month and day. */
  datatype Date = Date(year: int, month: int, day: int)

  /** `a < b` on dates: by year, then month, then day. */
  predicate Before(a: Date, b: Date) {
    || a.year < b.year
    || (a.year == b.year && a.month < b.month)
    || (a.year == b.year && a.month == b.month && a.day < b.day)
  }

  /** `a <= b` on dates. */
  predicate NotAfter(a: Date, b: Date) { a == b || Before(a, b) }

  predicate IsLeap(year: int) {
    year % 4 == 0 && (year % 100 != 0 || year % 400 == 0)
  }

  function DaysInMonth(year: int, month: int): int
    requires 1 <= month <= 12
  {
    if month == 2 then (if IsLeap(year) then 29 else 28)
    else if month == 4 || month == 6 || month == 9 || month == 11 then 30
    else 31
  }

  /** A date `datetime.date` accepts: year 1 to 9999, a month, a day of that month. */
  predicate ValidDate(d: Date) {
    && 1 <= d.year <= 9999
    && 1 <= d.month <= 12
    && 1 <= d.day <= DaysInMonth(d.year, d.month)
  }

  // ------------------------------------------------------------ strptime

  predicate InRange(c: char, lo: char, hi: char) { lo <= c <= hi }

  /**
   * The `%m` group followed by the `-` of the format: the alternatives
   * `1[0-2]`, `0[1-9]` and `[1-9]` are tried in that order, and the first one
   * that is followed by `-` is taken. The value and the index of the `-`.
   */
  function MonthAt(s: string, i: nat): (r: Option<(int, nat)>)
    ensures r.Some? ==> 1 <= r.value.0 <= 12 && i < r.value.1 < |s| && s[r.value.1] == '-'
  {
    if i + 2 < |s| && s[i] == '1' && InRange(s[i + 1], '0', '2') && s[i + 2] == '-' then
      Some((10 + DigitValue(s[i + 1]), i + 2))
    else if i + 2 < |s| && s[i] == '0' && InRange(s[i + 1], '1', '9') && s[i + 2] == '-' then
      Some((DigitValue(s[i + 1]), i + 2))
    else if i + 1 < |s| && InRange(s[i], '1', '9') && s[i + 1] == '-' then
      Some((DigitValue(s[i]), i + 1))
    else None
  }

  /**
   * The `%d` group: the first of `3[01]`, `[12]\d`, `0[1-9]`, `[1-9]` and
   * ` [1-9]` that matches at `i`. The value and the index after it.
   */
  function DayAt(s: string, i: nat): (r: Option<(int, nat)>)
    ensures r.Some? ==> 1 <= r.value.0 <= 31 && i < r.value.1 <= |s|
  {
    if i + 1 < |s| && s[i] == '3' && InRange(s[i + 1], '0', '1') then
      Some((30 + DigitValue(s[i + 1]), i + 2))
    else if i + 1 < |s| && InRange(s[i], '1', '2') && IsDigit(s[i + 1]) then
      Some((10 * DigitValue(s[i]) + DigitValue(s[i + 1]), i + 2))
    else if i + 1 < |s| && s[i] == '0' && InRange(s[i + 1], '1', '9') then
      Some((DigitValue(s[i + 1]), i + 2))
    else if i < |s| && InRange(s[i], '1', '9') then
      Some((DigitValue(s[i]), i + 1))
    else if i + 1 < |s| && s[i] == ' ' && InRange(s[i + 1], '1', '9') then
      Some((DigitValue(s[i + 1]), i + 2))
    else None
  }

  /** The `%Y` group: exactly four digits. */
  predicate YearDigits(s: string) {
    |s| >= 4 && IsDigit(s[0]) && IsDigit(s[1]) && IsDigit(s[2]) && IsDigit(s[3])
  }

  function YearValue(s: string): int
    requires YearDigits(s)
  {
    1000 * DigitValue(s[0]) + 100 * DigitValue(s[1]) + 10 * DigitValue(s[2]) + DigitValue(s[3])
  }

  /**
   * `datetime.strptime(s, "%Y-%m-%d").date()`: `None` where it raises, because
   * the text does not match the format, because text is left over after the
   * day ("unconverted data remains"), or because the date does not exist.
   */
  function ParseIsoDate(s: string): (r: Option<Date>)
    ensures r.Some? ==> ValidDate(r.value)
  {
    if !YearDigits(s) || |s| < 5 || s[4] != '-' then None
    else
      match MonthAt(s, 5)
      case None => None
      case Some((month, dash)) =>
        match DayAt(s, dash + 1)
        case None => None
        case Some((day, end)) =>
          var d := Date(YearValue(s), month, day);
          if end == |s| && ValidDate(d) then Some(d) else None
  }

  /** Text that `strptime` accepts starts with the four digits of the year. */
  lemma ParsedStartsWithYear(s: string)
    requires ParseIsoDate(s).Some?
    ensures YearDigits(s)
  {
  }

  // ---------------------------------------------------- the ISO rendering

  /** `n` written with exactly `width` digits, leading zeros included. */
  function Padded(n: nat, width: nat): (r: string)
    requires n < Pow10(width)
    ensures |r| == width && forall k :: 0 <= k < width ==> IsDigit(r[k])
  {
    if width == 0 then [] else Padded(n / 10, width - 1) + [DigitChar(n % 10)]
  }

  function Pow10(k: nat): nat { if k == 0 then 1 else 10 * Pow10(k - 1) }

  /** `d.isoformat()`: four-digit year, two-digit month and day. */
  function IsoString(d: Date): string
    requires 0 <= d.year <= 9999 && 1 <= d.month <= 12 && 1 <= d.day <= 31
  {
    assert Pow10(4) == 10000 && Pow10(2) == 100;
    Padded(d.year, 4) + "-" + Padded(d.month, 2) + "-" + Padded(d.day, 2)
  }

  lemma PaddedDigits(n: nat)
    requires n < 100
    ensures Padded(n, 2) == [DigitChar(n / 10), DigitChar(n % 10)]
  {
    var hi := n / 10;
    assert hi < 10 && hi / 10 == 0 && hi % 10 == hi;
    assert Padded(hi, 1) == [] + [DigitChar(hi)];
    assert Padded(n, 2) == Padded(hi, 1) + [DigitChar(n % 10)];
  }

  lemma {:induction false} PaddedYear(n: nat)
    requires n < 10000
    ensures Pow10(4) == 10000
    ensures YearDigits(Padded(n, 4)) && YearValue(Padded(n, 4)) == n
  {
    assert Pow10(4) == 10000 && Pow10(2) == 100;
    var s := Padded(n, 4);
    PaddedDigits(n / 100);
    assert Padded(n / 10, 3) == Padded(n / 10 / 10, 2) + [DigitChar(n / 10 % 10)];
    assert n / 10 / 10 == n / 100;
    assert s == Padded(n / 100, 2) + [DigitChar(n / 10 % 10)] + [DigitChar(n % 10)];
    assert n / 100 / 10 == n / 1000;
  }

  /**
   * `strptime` reads back every rendered date that exists, and rejects every
   * rendered year, month and day that do not form a date (year 0, 30
   * February, 29 February outside leap years, the 31st of a short month).
   */
  lemma IsoDateRoundTrip(d: Date)
    requires 0 <= d.year <= 9999 && 1 <= d.month <= 12 && 1 <= d.day <= 31
    ensures ParseIsoDate(IsoString(d)) == if ValidDate(d) then Some(d) else None
  {
    var s := IsoString(d);
    assert s[..10] == s;
    IsoFields(d, s);
  }

  /** Text after the day is "unconverted data": a rendered date followed by anything more is rejected. */
  lemma TrailingTextRejected(d: Date, rest: string)
    requires 0 <= d.year <= 9999 && 1 <= d.month <= 12 && 1 <= d.day <= 31
    requires rest != []
    ensures ParseIsoDate(IsoString(d) + rest) == None
  {
    var s := IsoString(d) + rest;
    assert s[..10] == IsoString(d);
    IsoFields(d, s);
  }

  /** `strptime` reads the year, month and day of a rendered date at their places. */
  lemma IsoFields(d: Date, s: string)
    requires 0 <= d.year <= 9999 && 1 <= d.month <= 12 && 1 <= d.day <= 31
    requires |s| >= 10 && s[..10] == IsoString(d)
    ensures YearDigits(s) && YearValue(s) == d.year && s[4] == '-'
    ensures MonthAt(s, 5) == Some((d.month, 7)) && DayAt(s, 8) == Some((d.day, 10))
  {
    var y, m, dd := Padded(d.year, 4), Padded(d.month, 2), Padded(d.day, 2);
    PaddedYear(d.year);
    PaddedDigits(d.month);
    PaddedDigits(d.day);
    var t := s[..10];
    assert t == y + "-" + m + "-" + dd;
    assert forall k :: 0 <= k < 10 ==> s[k] == t[k];
    assert s[0] == y[0] && s[1] == y[1] && s[2] == y[2] && s[3] == y[3];
    assert s[4] == '-' && s[5] == m[0] && s[6] == m[1] && s[7] == '-' && s[8] == dd[0] && s[9] == dd[1];
  }
}
