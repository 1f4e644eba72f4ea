/**
 * Calendar dates as the handlers see them: the strict `Y-m-d` round-trip
 * check `validateDate`, the `Y-m-d` and `d/m/Y` renderings, and a day count
 * that stands in for `strtotime()` when two dates are compared or
 * subtracted.
 */
module Calendar {
  import opened Wrappers
  import opened PhpStrings

  datatype Date = Date(year: int, month: int, day: int)

  /** Proleptic Gregorian leap years, as PHP's DateTime uses them. */
  predicate IsLeapYear(y: int) {
    y % 4 == 0 && (y % 100 != 0 || y % 400 == 0)
  }

  function DaysInMonth(y: int, m: int): (n: int)
    requires 1 <= m <= 12
    ensures 28 <= n <= 31
    ensures m == 2 ==> (n == 29 <==> IsLeapYear(y))
  {
    if m == 2 then (if IsLeapYear(y) then 29 else 28)
    else if m == 4 || m == 6 || m == 9 || m == 11 then 30
    else 31
  }

  /** A date that `Y-m-d` both parses and prints back: a four-digit year, a month, and a day that exists in it. */
  predicate IsRealDate(d: Date) {
    0 <= d.year <= 9999 && 1 <= d.month <= 12 && 1 <= d.day <= DaysInMonth(d.year, d.month)
  }

  /** The values a DATE column (and `date('Y-m-d')`) can hold. */
  type CalendarDate = d: Date | IsRealDate(d) witness Date(1970, 1, 1)

  function Pad2(n: int): (s: string)
    requires 0 <= n < 100
    ensures |s| == 2
  {
    [DigitChar(n / 10), DigitChar(n % 10)]
  }

  function Pad4(n: int): (s: string)
    requires 0 <= n < 10000
    ensures |s| == 4
  {
    Pad2(n / 100) + Pad2(n % 100)
  }

  /** `$date->format('Y-m-d')`. */
  function FormatYmd(d: CalendarDate): (s: string)
    ensures |s| == 10 && s[4] == '-' && s[7] == '-'
  {
    Pad4(d.year) + "-" + Pad2(d.month) + "-" + Pad2(d.day)
  }

  /** `date('d/m/Y', ...)`, the display format of read.php. */
  function FormatDmy(d: CalendarDate): (s: string)
    ensures |s| == 10 && s[2] == '/' && s[5] == '/'
  {
    Pad2(d.day) + "/" + Pad2(d.month) + "/" + Pad4(d.year)
  }

  /** Four digits, a dash, two digits, a dash, two digits. */
  predicate YmdShape(s: string) {
    && |s| == 10 && s[4] == '-' && s[7] == '-'
    && IsDigit(s[0]) && IsDigit(s[1]) && IsDigit(s[2]) && IsDigit(s[3])
    && IsDigit(s[5]) && IsDigit(s[6]) && IsDigit(s[8]) && IsDigit(s[9])
  }

  /** The number two digit characters spell. */
  function TwoDigits(a: char, b: char): (n: int)
    requires IsDigit(a) && IsDigit(b)
    ensures 0 <= n < 100
  {
    DigitValue(a) * 10 + DigitValue(b)
  }

  /**
   * `DateTime::createFromFormat('Y-m-d', s)` restricted to the inputs whose
   * re-formatting can give `s` back: four, two and two digits separated by
   * dashes, naming a date that exists.
   */
  function ParseYmd(s: string): Option<CalendarDate> {
    if YmdShape(s) then
      var d := Date(TwoDigits(s[0], s[1]) * 100 + TwoDigits(s[2], s[3]), TwoDigits(s[5], s[6]), TwoDigits(s[8], s[9]));
      if IsRealDate(d) then Some(d) else None
    else
      None
  }

  lemma Pad2Digits(n: int)
    requires 0 <= n < 100
    ensures IsDigit(Pad2(n)[0]) && IsDigit(Pad2(n)[1]) && TwoDigits(Pad2(n)[0], Pad2(n)[1]) == n
  {
    assert DigitValue(DigitChar(n / 10)) == n / 10;
    assert DigitValue(DigitChar(n % 10)) == n % 10;
  }

  lemma Pad2OfDigits(a: char, b: char)
    requires IsDigit(a) && IsDigit(b)
    ensures Pad2(TwoDigits(a, b)) == [a, b]
  {
    var n := TwoDigits(a, b);
    assert n / 10 == DigitValue(a) && n % 10 == DigitValue(b);
  }

  /** Whatever ParseYmd accepts prints back as the very same string. */
  lemma ParseYmdSound(s: string)
    ensures ParseYmd(s).Some? ==> FormatYmd(ParseYmd(s).value) == s
  {
    if ParseYmd(s).Some? {
      var d := ParseYmd(s).value;
      var hi, lo := TwoDigits(s[0], s[1]), TwoDigits(s[2], s[3]);
      assert d.year / 100 == hi && d.year % 100 == lo;
      Pad2OfDigits(s[0], s[1]);
      Pad2OfDigits(s[2], s[3]);
      Pad2OfDigits(s[5], s[6]);
      Pad2OfDigits(s[8], s[9]);
      assert Pad4(d.year) == [s[0], s[1], s[2], s[3]];
      assert FormatYmd(d) == [s[0], s[1], s[2], s[3]] + "-" + [s[5], s[6]] + "-" + [s[8], s[9]];
      assert s == [s[0], s[1], s[2], s[3]] + "-" + [s[5], s[6]] + "-" + [s[8], s[9]];
    }
  }

  /** Every real date printed as `Y-m-d` parses back to itself. */
  lemma ParseFormatRoundTrip(d: CalendarDate)
    ensures ParseYmd(FormatYmd(d)) == Some(d)
  {
    var s := FormatYmd(d);
    var y := d.year;
    Pad2Digits(y / 100);
    Pad2Digits(y % 100);
    Pad2Digits(d.month);
    Pad2Digits(d.day);
    assert s[0] == Pad2(y / 100)[0] && s[1] == Pad2(y / 100)[1];
    assert s[2] == Pad2(y % 100)[0] && s[3] == Pad2(y % 100)[1];
    assert s[5] == Pad2(d.month)[0] && s[6] == Pad2(d.month)[1];
    assert s[8] == Pad2(d.day)[0] && s[9] == Pad2(d.day)[1];
    assert YmdShape(s);
  }

  /** `validateDate($s)` of create.php and edit.php: the `Y-m-d` parse succeeds and formats back to `s`. */
  predicate ValidateDate(s: string) {
    ParseYmd(s).Some?
  }

  /**
   * The strict round-trip check accepts exactly the canonical renderings of
   * real dates: "2024-02-29" passes, "2024-02-30", "2023-02-29" and
   * "2024-2-5" do not.
   */
  lemma ValidateDateIsRoundTrip(s: string)
    ensures ValidateDate(s) <==> exists d: CalendarDate :: FormatYmd(d) == s
  {
    ParseYmdSound(s);
    if exists d: CalendarDate :: FormatYmd(d) == s {
      var d: CalendarDate :| FormatYmd(d) == s;
      ParseFormatRoundTrip(d);
    }
  }

  /** Re-formatting for display turns `YYYY-MM-DD` into `DD/MM/YYYY`. */
  lemma FormatDmyReordersYmd(d: CalendarDate)
    ensures var s := FormatYmd(d); FormatDmy(d) == s[8..10] + "/" + s[5..7] + "/" + s[0..4]
  {
    var s := FormatYmd(d);
    assert s[8..10] == Pad2(d.day) && s[5..7] == Pad2(d.month) && s[0..4] == Pad4(d.year);
  }

  function YearLength(y: int): int {
    if IsLeapYear(y) then 366 else 365
  }

  function DaysBeforeYear(y: nat): nat {
    if y == 0 then 0 else DaysBeforeYear(y - 1) + YearLength(y - 1)
  }

  /** Days of year `y` before the first of month `m`; month 13 stands for the end of the year. */
  function DaysBeforeMonth(y: int, m: int): (n: int)
    requires 1 <= m <= 13
  {
    var base :=
      if m == 1 then 0 else if m == 2 then 31 else if m == 3 then 59
      else if m == 4 then 90 else if m == 5 then 120 else if m == 6 then 151
      else if m == 7 then 181 else if m == 8 then 212 else if m == 9 then 243
      else if m == 10 then 273 else if m == 11 then 304 else if m == 12 then 334
      else 365;
    base + (if m > 2 && IsLeapYear(y) then 1 else 0)
  }

  /** Days since 0000-01-01: what the difference of two `strtotime()` values divided by 86400 counts. */
  function DayNumber(d: CalendarDate): int {
    DaysBeforeYear(d.year) + DaysBeforeMonth(d.year, d.month) + d.day - 1
  }

  /** Calendar order on dates: what comparing two `Y-m-d` strings or DATE values means. */
  predicate Before(a: Date, b: Date) {
    a.year < b.year || (a.year == b.year && (a.month < b.month || (a.month == b.month && a.day < b.day)))
  }

  lemma MonthsAreConsecutive(y: int, m: int, m': int)
    requires 1 <= m < m' <= 13
    ensures DaysBeforeMonth(y, m) + DaysInMonth(y, m) <= DaysBeforeMonth(y, m')
  {
  }

  lemma {:induction false} YearsAreConsecutive(y: nat, y': nat)
    requires y < y'
    ensures DaysBeforeYear(y) + YearLength(y) <= DaysBeforeYear(y')
    decreases y' - y
  {
    if y + 1 < y' {
      YearsAreConsecutive(y + 1, y');
    }
  }

  /** A date's day number falls inside its year's range of day numbers. */
  lemma DayNumberWithinYear(d: CalendarDate)
    ensures DaysBeforeYear(d.year) <= DayNumber(d) < DaysBeforeYear(d.year) + YearLength(d.year)
  {
    if d.month < 12 {
      MonthsAreConsecutive(d.year, d.month, 13);
    }
  }

  /**
   * Day numbers order dates exactly as the calendar does, and two real dates
   * have the same day number only when they are the same date.
   */
  lemma DayNumberOrder(a: CalendarDate, b: CalendarDate)
    ensures DayNumber(a) < DayNumber(b) <==> Before(a, b)
    ensures DayNumber(a) == DayNumber(b) <==> a == b
  {
    if Before(a, b) {
      DayNumberIncreases(a, b);
    } else if Before(b, a) {
      DayNumberIncreases(b, a);
    } else {
      assert a == b;
    }
  }

  lemma DayNumberIncreases(a: CalendarDate, b: CalendarDate)
    requires Before(a, b)
    ensures DayNumber(a) < DayNumber(b)
  {
    if a.year < b.year {
      DayNumberWithinYear(a);
      DayNumberWithinYear(b);
      YearsAreConsecutive(a.year, b.year);
    } else if a.month < b.month {
      MonthsAreConsecutive(a.year, a.month, b.month);
    }
  }
}
