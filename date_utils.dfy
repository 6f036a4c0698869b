/**
 * `calculate_days` (utils/date_utils.py): the inclusive number of days between
 * two dates written as `%Y-%m-%d`, over the proleptic Gregorian calendar that
 * Python's `datetime` uses.
 *
 * Dates are numbered the way `date.toordinal()` numbers them (0001-01-01 is
 * day 1), so `(d2 - d1).days` is a difference of ordinals. Parsing follows
 * `datetime.strptime(s, '%Y-%m-%d')`: the year is exactly four digits, the month
 * and the day may be written without their leading zero (`2024-1-5`), the day
 * may also be a space and one digit, the whole text must be consumed, and the
 * resulting date must exist (no month 13, no 29 February in a common year, no
 * year 0). Any failure is Python's `ValueError`, here `None`.
 */
module Dates {
  import opened Text

  datatype Date = Date(year: int, month: int, day: int)

  predicate IsLeapYear(y: int) {
    y % 4 == 0 && (y % 100 != 0 || y % 400 == 0)
  }

  function DaysInMonth(y: int, m: int): (n: int)
    requires 1 <= m <= 12
    ensures 28 <= n <= 31
  {
    if m == 2 then (if IsLeapYear(y) then 29 else 28)
    else if m == 4 || m == 6 || m == 9 || m == 11 then 30
    else 31
  }

  /** A date Python's `datetime.date` can hold: years 1..9999, a real day of a real month. */
  predicate ValidDate(d: Date) {
    1 <= d.year <= 9999 && 1 <= d.month <= 12 && 1 <= d.day <= DaysInMonth(d.year, d.month)
  }

  type CalendarDate = d: Date | ValidDate(d) witness Date(1, 1, 1)

  /** Days in the years before `y` (Python's `_days_before_year`). */
  function DaysBeforeYear(y: int): int
    requires y >= 1
  {
    var p := y - 1;
    p * 365 + p / 4 - p / 100 + p / 400
  }

  /** Days in the months of year `y` before month `m` (Python's `_days_before_month`). */
  function DaysBeforeMonth(y: int, m: int): int
    requires 1 <= m <= 12
  {
    (if m > 2 && IsLeapYear(y) then 1 else 0) +
    (if m == 1 then 0 else if m == 2 then 31 else if m == 3 then 59
     else if m == 4 then 90 else if m == 5 then 120 else if m == 6 then 151
     else if m == 7 then 181 else if m == 8 then 212 else if m == 9 then 243
     else if m == 10 then 273 else if m == 11 then 304 else 334)
  }

  /** `date.toordinal()`: 0001-01-01 is day 1. */
  function Ordinal(d: CalendarDate): int {
    DaysBeforeYear(d.year) + DaysBeforeMonth(d.year, d.month) + d.day
  }

  /** Calendar order: earlier year, or same year and earlier month, or same month and earlier day. */
  predicate Precedes(a: Date, b: Date) {
    a.year < b.year ||
    (a.year == b.year && (a.month < b.month || (a.month == b.month && a.day < b.day)))
  }

  /** The day after `d` on the calendar, computed from month lengths alone. */
  function NextDay(d: CalendarDate): (n: CalendarDate)
    requires d != Date(9999, 12, 31)
    ensures Precedes(d, n)
  {
    if d.day < DaysInMonth(d.year, d.month) then Date(d.year, d.month, d.day + 1)
    else if d.month < 12 then Date(d.year, d.month + 1, 1)
    else Date(d.year + 1, 1, 1)
  }

  lemma DaysBeforeYearStep(y: int)
    requires y >= 1
    ensures DaysBeforeYear(y + 1) == DaysBeforeYear(y) + (if IsLeapYear(y) then 366 else 365)
  {
    var p := y - 1;
    assert (p + 1) / 4 == p / 4 + (if y % 4 == 0 then 1 else 0);
    assert (p + 1) / 100 == p / 100 + (if y % 100 == 0 then 1 else 0);
    assert (p + 1) / 400 == p / 400 + (if y % 400 == 0 then 1 else 0);
  }

  lemma {:induction false} DaysBeforeYearGrows(y1: int, y2: int)
    requires 1 <= y1 < y2
    decreases y2 - y1
    ensures DaysBeforeYear(y1) + (if IsLeapYear(y1) then 366 else 365) <= DaysBeforeYear(y2)
  {
    DaysBeforeYearStep(y1);
    if y1 + 1 < y2 {
      DaysBeforeYearGrows(y1 + 1, y2);
    }
  }

  /** A valid date's ordinal lies within its own year. */
  lemma OrdinalWithinYear(d: CalendarDate)
    ensures DaysBeforeYear(d.year) < Ordinal(d)
    ensures Ordinal(d) <= DaysBeforeYear(d.year) + (if IsLeapYear(d.year) then 366 else 365)
  {
  }

  /** Calendar order and ordinal order agree on valid dates. */
  lemma OrdinalOrder(a: CalendarDate, b: CalendarDate)
    ensures Precedes(a, b) <==> Ordinal(a) < Ordinal(b)
    ensures a == b <==> Ordinal(a) == Ordinal(b)
  {
    if Precedes(a, b) {
      PrecedesOrdinal(a, b);
    } else if a != b {
      PrecedesOrdinal(b, a);
    }
  }

  lemma PrecedesOrdinal(a: CalendarDate, b: CalendarDate)
    requires Precedes(a, b)
    ensures Ordinal(a) < Ordinal(b)
  {
    if a.year < b.year {
      OrdinalWithinYear(a);
      OrdinalWithinYear(b);
      DaysBeforeYearGrows(a.year, b.year);
    } else if a.month < b.month {
      assert DaysBeforeMonth(a.year, a.month) + DaysInMonth(a.year, a.month) <= DaysBeforeMonth(b.year, b.month);
    }
  }

  /** Consecutive calendar days are consecutive ordinals. */
  lemma OrdinalNextDay(d: CalendarDate)
    requires d != Date(9999, 12, 31)
    ensures Ordinal(NextDay(d)) == Ordinal(d) + 1
  {
    if d.day == DaysInMonth(d.year, d.month) && d.month == 12 {
      DaysBeforeYearStep(d.year);
    }
  }

  /** Inclusive length of the span from `a` to `b`: `(b - a).days + 1`. */
  function DaysSpanned(a: CalendarDate, b: CalendarDate): int {
    Ordinal(b) - Ordinal(a) + 1
  }

  /** A span is positive exactly when it does not end before it starts. */
  lemma SpanPositive(a: CalendarDate, b: CalendarDate)
    ensures DaysSpanned(a, b) >= 1 <==> !Precedes(b, a)
    ensures DaysSpanned(a, b) == 1 <==> a == b
  {
    OrdinalOrder(b, a);
  }

  // ---- strptime('%Y-%m-%d') ----

  /** `%m` matches `1[0-2]|0[1-9]|[1-9]`. */
  function MonthField(t: string): (r: Option<int>)
    ensures r.Some? ==> 1 <= r.value <= 12
  {
    if |t| == 1 && '1' <= t[0] <= '9' then Some(DigitValue(t[0]))
    else if |t| == 2 && t[0] == '1' && '0' <= t[1] <= '2' then Some(10 + DigitValue(t[1]))
    else if |t| == 2 && t[0] == '0' && '1' <= t[1] <= '9' then Some(DigitValue(t[1]))
    else None
  }

  /** `%d` matches `3[01]|[12]\d|0[1-9]|[1-9]| [1-9]`. */
  function DayField(t: string): (r: Option<int>)
    ensures r.Some? ==> 1 <= r.value <= 31
  {
    if |t| == 1 && '1' <= t[0] <= '9' then Some(DigitValue(t[0]))
    else if |t| == 2 && (t[0] == '0' || t[0] == ' ') && '1' <= t[1] <= '9' then Some(DigitValue(t[1]))
    else if |t| == 2 && '1' <= t[0] <= '2' && IsDigit(t[1]) then Some(10 * DigitValue(t[0]) + DigitValue(t[1]))
    else if |t| == 2 && t[0] == '3' && '0' <= t[1] <= '1' then Some(30 + DigitValue(t[1]))
    else None
  }

  /**
   * `datetime.strptime(s, '%Y-%m-%d')`. The month field ends at the second '-':
   * neither field pattern contains '-', so the text splits in one way only.
   */
  function ParseDate(s: string): (r: Option<CalendarDate>)
    ensures r.Some? ==> |s| >= 8 && AllDigits(s[..4]) && s[4] == '-' && r.value.year == DigitsValue(s[..4]) >= 1
    ensures r.Some? ==>
      var k := if s[6] == '-' then 1 else 2;
      s[5 + k] == '-' && MonthField(s[5..5 + k]) == Some(r.value.month) &&
      DayField(s[6 + k..]) == Some(r.value.day) && r.value.day <= DaysInMonth(r.value.year, r.value.month)
  {
    if |s| < 5 || !AllDigits(s[..4]) || s[4] != '-' then None
    else
      var rest := s[5..];
      var split :=
        if |rest| >= 2 && rest[1] == '-' then 1
        else if |rest| >= 3 && rest[2] == '-' then 2
        else 0;
      if split == 0 then None
      else
        var year := DigitsValue(s[..4]);
        var month := MonthField(rest[..split]);
        var day := DayField(rest[split + 1..]);
        if month.None? || day.None? then None
        else if year < 1 || day.value > DaysInMonth(year, month.value) then None
        else
          assert DigitsValue(s[..4]) < 10000 by { DigitsValueBound(s[..4]); }
          Some(Date(year, month.value, day.value))
  }

  /** `date.isoformat()`: `YYYY-MM-DD` with zero padding. */
  function IsoFormat(d: CalendarDate): (s: string)
    ensures |s| == 10
  {
    Padded(d.year, 4) + "-" + Padded(d.month, 2) + "-" + Padded(d.day, 2)
  }

  lemma PaddedTwo(n: nat)
    requires n < 100
    ensures Padded(n, 2) == [DigitChar(n / 10), DigitChar(n % 10)]
  {
    var q, r := n / 10, n % 10;
    assert 0 <= q < 10 && q % 10 == q;
    assert Padded(n, 2) == Padded(q, 1) + [DigitChar(r)];
    assert Padded(q, 1) == [] + [DigitChar(q % 10)];
  }

  /** `strptime` reads back what `isoformat` writes. */
  lemma ParseIsoFormat(d: CalendarDate)
    ensures ParseDate(IsoFormat(d)) == Some(d)
  {
    var s := IsoFormat(d);
    var y4, m2, d2 := Padded(d.year, 4), Padded(d.month, 2), Padded(d.day, 2);
    assert s[..4] == y4;
    assert Pow10(4) == 10000;
    PaddedValue(d.year, 4);
    PaddedTwo(d.month);
    PaddedTwo(d.day);
    var rest := s[5..];
    assert rest == m2 + "-" + d2;
    assert rest[..2] == m2 && rest[3..] == d2;
    MonthFieldPadded(d.month);
    DayFieldPadded(d.day);
  }

  /** `%m` reads back a zero-padded month. */
  lemma MonthFieldPadded(n: int)
    requires 1 <= n <= 12
    ensures MonthField(Padded(n, 2)) == Some(n)
  {
    PaddedTwo(n);
    if n < 10 {
      assert Padded(n, 2) == ['0', DigitChar(n)];
    } else {
      assert Padded(n, 2) == ['1', DigitChar(n - 10)];
    }
  }

  /** `%d` reads back a zero-padded day. */
  lemma DayFieldPadded(n: int)
    requires 1 <= n <= 31
    ensures DayField(Padded(n, 2)) == Some(n)
  {
    PaddedTwo(n);
    if n < 10 {
      assert Padded(n, 2) == ['0', DigitChar(n)];
    } else if n < 30 {
      assert Padded(n, 2) == [DigitChar(n / 10), DigitChar(n % 10)];
    } else {
      assert Padded(n, 2) == ['3', DigitChar(n - 30)];
    }
  }

  /**
   * ISO text sorts chronologically: string order on `isoformat` output, which is
   * Python's `<` on `str` and SQLite's `ORDER BY` on the stored text, is
   * calendar order.
   */
  lemma IsoFormatOrder(a: CalendarDate, b: CalendarDate)
    ensures LexLess(IsoFormat(a), IsoFormat(b)) <==> Precedes(a, b)
  {
    var ya, yb := Padded(a.year, 4), Padded(b.year, 4);
    var ma, mb := Padded(a.month, 2), Padded(b.month, 2);
    var da, db := Padded(a.day, 2), Padded(b.day, 2);
    assert Pow10(4) == 10000 && Pow10(2) == 100;
    assert IsoFormat(a) == ya + (("-" + ma) + ("-" + da));
    assert IsoFormat(b) == yb + (("-" + mb) + ("-" + db));
    LexLessConcat(ya, ("-" + ma) + ("-" + da), yb, ("-" + mb) + ("-" + db));
    LexLessConcat("-" + ma, "-" + da, "-" + mb, "-" + db);
    LexLessConcat("-", ma, "-", mb);
    LexLessConcat("-", da, "-", db);
    LexLessIrreflexive("-");
    PaddedOrder(a.year, b.year, 4);
    PaddedOrder(a.month, b.month, 2);
    PaddedOrder(a.day, b.day, 2);
    if ya == yb { PaddedInjective(a.year, b.year, 4); }
    if ma == mb { PaddedInjective(a.month, b.month, 2); }
    if "-" + ma == "-" + mb { assert ma == ("-" + ma)[1..]; assert mb == ("-" + mb)[1..]; PaddedInjective(a.month, b.month, 2); }
  }

  /**
   * `calculate_days(start_date, end_date)`: `None` where `strptime` raises
   * `ValueError`, otherwise `(d2 - d1).days + 1`.
   */
  function CalculateDays(startDate: string, endDate: string): (r: Option<int>)
    ensures r.Some? <==> ParseDate(startDate).Some? && ParseDate(endDate).Some?
    ensures r.Some? ==> r.value == DaysSpanned(ParseDate(startDate).value, ParseDate(endDate).value)
    ensures r.Some? ==> (r.value >= 1 <==> !Precedes(ParseDate(endDate).value, ParseDate(startDate).value))
    ensures r.Some? ==> (r.value == 1 <==> ParseDate(startDate) == ParseDate(endDate))
  {
    var d1 := ParseDate(startDate);
    var d2 := ParseDate(endDate);
    if d1.None? || d2.None? then None
    else
      SpanPositive(d1.value, d2.value);
      Some(Ordinal(d2.value) - Ordinal(d1.value) + 1)
  }

  /** Back-to-back spans that share their boundary day add up with that day counted once. */
  lemma SpansCompose(a: string, b: string, c: string)
    requires ParseDate(a).Some? && ParseDate(b).Some? && ParseDate(c).Some?
    ensures CalculateDays(a, b).value + CalculateDays(b, c).value == CalculateDays(a, c).value + 1
  {
  }

  /** The span of a day and the next one is two days. */
  lemma SpanOfNextDay(d: CalendarDate)
    requires d != Date(9999, 12, 31)
    ensures CalculateDays(IsoFormat(d), IsoFormat(NextDay(d))) == Some(2)
  {
    ParseIsoFormat(d);
    ParseIsoFormat(NextDay(d));
    OrdinalNextDay(d);
  }

  /** The check in the repository's own smoke test: ten days in 1..10 January 2024. */
  lemma TenDaysInJanuary()
    ensures CalculateDays("2024-01-01", "2024-01-10") == Some(10)
  {
    FirstOfJanuary();
    TenthOfJanuary();
  }

  lemma FirstOfJanuary()
    ensures ParseDate("2024-01-01") == Some(Date(2024, 1, 1))
  {
    ParseCanonical("2024-01-01", 2024, "01", "01");
  }

  lemma TenthOfJanuary()
    ensures ParseDate("2024-01-10") == Some(Date(2024, 1, 10))
  {
    ParseCanonical("2024-01-10", 2024, "01", "10");
  }

  /** Unpadded month and day fields are accepted. */
  lemma ParseUnpadded()
    ensures ParseDate("2024-1-5") == Some(Date(2024, 1, 5))
  {
    var s := "2024-1-5";
    YearDigits(s, 2024);
    assert s[5..] == "1-5" && s[5..][..1] == "1" && s[5..][2..] == "5";
  }

  /** 29 February exists in a leap year ... */
  lemma LeapDayAccepted()
    ensures ParseDate("2024-02-29") == Some(Date(2024, 2, 29))
  {
    ParseCanonical("2024-02-29", 2024, "02", "29");
  }

  /** ... and not in a common year. */
  lemma LeapDayRejectedInCommonYear()
    ensures ParseDate("2023-02-29").None?
  {
    ParseCanonical("2023-02-29", 2023, "02", "29");
  }

  lemma MonthThirteenRejected()
    ensures ParseDate("2024-13-01").None?
  {
    ParseCanonical("2024-13-01", 2024, "13", "01");
  }

  lemma DayThirtyTwoRejected()
    ensures ParseDate("2024-01-32").None?
  {
    ParseCanonical("2024-01-32", 2024, "01", "32");
  }

  lemma YearZeroRejected()
    ensures ParseDate("0000-01-01").None?
  {
    ParseCanonical("0000-01-01", 0, "01", "01");
  }

  lemma YearDigits(s: string, y: nat)
    requires |s| >= 4 && y < 10000 && s[..4] == Padded(y, 4)
    ensures AllDigits(s[..4]) && DigitsValue(s[..4]) == y
  {
    assert Pow10(4) == 10000;
    PaddedValue(y, 4);
  }

  /** How `ParseDate` splits a text of the shape `YYYY-MM-DD`. */
  lemma ParseCanonical(s: string, y: nat, mt: string, dt: string)
    requires y < 10000 && |mt| == 2 && |dt| == 2 && mt[1] != '-'
    requires s == Padded(y, 4) + "-" + mt + "-" + dt
    ensures ParseDate(s) ==
      (var m := MonthField(mt); var d := DayField(dt);
       if m.None? || d.None? || y < 1 || d.value > DaysInMonth(y, m.value) then None
       else Some(Date(y, m.value, d.value)))
  {
    YearDigits(s, y);
    assert s[5..] == mt + "-" + dt;
    assert s[5..][..2] == mt && s[5..][3..] == dt;
  }
}
