/** Calendar dates as the habit tracker exchanges them: ISO 8601 extended
    calendar dates (`YYYY-MM-DD`) on the proleptic Gregorian calendar, read
    with Python's `datetime.strptime(s, "%Y-%m-%d")` and compared through
    their day ordinal, so that the gap between two dates is an integer
    subtraction. */
module Dates {
  import opened Wrappers

  datatype Date = Date(year: int, month: int, day: int)

  /** The year range of Python's `datetime`. */
  const MinYear := 1
  const MaxYear := 9999

  predicate IsLeapYear(y: int) {
    y % 4 == 0 && (y % 100 != 0 || y % 400 == 0)
  }

  function DaysInMonth(y: int, m: int): (n: int)
    requires 1 <= m <= 12
    ensures 28 <= n <= 31
    ensures n == 28 <==> m == 2 && !IsLeapYear(y)
    ensures n == 29 <==> m == 2 && IsLeapYear(y)
    ensures n == 30 <==> m == 4 || m == 6 || m == 9 || m == 11
  {
    if m == 2 then (if IsLeapYear(y) then 29 else 28)
    else if m == 4 || m == 6 || m == 9 || m == 11 then 30
    else 31
  }

  function DaysInYear(y: int): int {
    if IsLeapYear(y) then 366 else 365
  }

  /** A date `datetime` can represent. */
  predicate Valid(d: Date) {
    && MinYear <= d.year <= MaxYear
    && 1 <= d.month <= 12
    && 1 <= d.day <= DaysInMonth(d.year, d.month)
  }

  /** Days in the years before `y`, counted from year 1. */
  function DaysBeforeYear(y: int): int
    requires y >= 1
  {
    var n := y - 1;
    n * 365 + n / 4 - n / 100 + n / 400
  }

  /** Days in the months of year `y` before month `m`: a cumulative
      month-length table plus the leap day once February is past. */
  function DaysBeforeMonth(y: int, m: int): int
    requires 1 <= m <= 12
  {
    [0, 31, 59, 90, 120, 151, 181, 212, 243, 273, 304, 334][m - 1]
      + (if m > 2 && IsLeapYear(y) then 1 else 0)
  }

  /** The proleptic Gregorian ordinal: 0001-01-01 is day 1 (Python's
      `date.toordinal`). */
  function Ordinal(d: Date): (n: int)
    requires Valid(d)
    ensures n >= 1
    ensures d == Date(MinYear, 1, 1) ==> n == 1
  {
    DaysBeforeYear(d.year) + DaysBeforeMonth(d.year, d.month) + d.day
  }

  /** Calendar order: by year, then month, then day. */
  predicate Before(a: Date, b: Date) {
    || a.year < b.year
    || (a.year == b.year && a.month < b.month)
    || (a.year == b.year && a.month == b.month && a.day < b.day)
  }

  lemma MonthStep(y: int, m: int)
    requires 1 <= m < 12
    ensures DaysBeforeMonth(y, m + 1) == DaysBeforeMonth(y, m) + DaysInMonth(y, m)
  {
  }

  lemma {:induction false} MonthsAscend(y: int, m1: int, m2: int)
    requires 1 <= m1 < m2 <= 12
    ensures DaysBeforeMonth(y, m1) + DaysInMonth(y, m1) <= DaysBeforeMonth(y, m2)
    decreases m2
  {
    MonthStep(y, m2 - 1);
    if m1 < m2 - 1 {
      MonthsAscend(y, m1, m2 - 1);
    }
  }

  lemma MonthWithinYear(y: int, m: int)
    requires 1 <= m <= 12
    ensures DaysBeforeMonth(y, m) + DaysInMonth(y, m) <= DaysInYear(y)
  {
  }

  /** Going from `n` to `n + 1` passes one more multiple of `k` exactly
      when `n + 1` is one, for the divisors of the leap-year rule. */
  lemma DivStep(n: int, k: int)
    requires n >= 0 && (k == 4 || k == 100 || k == 400)
    ensures (n + 1) / k == n / k + (if (n + 1) % k == 0 then 1 else 0)
  {
    if k == 4 {
      assert (n + 1) / 4 == n / 4 + (if (n + 1) % 4 == 0 then 1 else 0);
    } else if k == 100 {
      assert (n + 1) / 100 == n / 100 + (if (n + 1) % 100 == 0 then 1 else 0);
    } else {
      assert (n + 1) / 400 == n / 400 + (if (n + 1) % 400 == 0 then 1 else 0);
    }
  }

  /** A multiple of 400 is a multiple of 100, and a multiple of 100 is a
      multiple of 4. */
  lemma LeapDivisors(y: int)
    ensures y % 400 == 0 ==> y % 100 == 0
    ensures y % 100 == 0 ==> y % 4 == 0
  {
    if y % 400 == 0 {
      var p := y / 400;
      assert y == 400 * p;
      assert y % 100 == 100 * (4 * p - y / 100);
    }
    if y % 100 == 0 {
      var p := y / 100;
      assert y == 100 * p;
      assert y % 4 == 4 * (25 * p - y / 4);
    }
  }

  lemma YearStep(y: int)
    requires y >= 1
    ensures DaysBeforeYear(y + 1) == DaysBeforeYear(y) + DaysInYear(y)
  {
    var n := y - 1;
    var a4, a100, a400 := (if y % 4 == 0 then 1 else 0), (if y % 100 == 0 then 1 else 0), (if y % 400 == 0 then 1 else 0);
    assert y / 4 == n / 4 + a4 by { DivStep(n, 4); }
    assert y / 100 == n / 100 + a100 by { DivStep(n, 100); }
    assert y / 400 == n / 400 + a400 by { DivStep(n, 400); }
    assert DaysBeforeYear(y + 1) == y * 365 + y / 4 - y / 100 + y / 400;
    LeapDivisors(y);
    assert DaysInYear(y) == 365 + a4 - a100 + a400;
  }

  lemma {:induction false} YearsAscend(y1: int, y2: int)
    requires 1 <= y1 < y2
    ensures DaysBeforeYear(y1) + DaysInYear(y1) <= DaysBeforeYear(y2)
    decreases y2
  {
    YearStep(y2 - 1);
    if y1 < y2 - 1 {
      YearsAscend(y1, y2 - 1);
    }
  }

  lemma OrdinalAscends(a: Date, b: Date)
    requires Valid(a) && Valid(b) && Before(a, b)
    ensures Ordinal(a) < Ordinal(b)
  {
    if a.year < b.year {
      MonthWithinYear(a.year, a.month);
      YearsAscend(a.year, b.year);
    } else if a.month < b.month {
      MonthsAscend(a.year, a.month, b.month);
    }
  }

  /** The ordinal is an order isomorphism: calendar order is ordinal order,
      so sorting dates and sorting their ordinals agree. */
  lemma OrdinalOrder(a: Date, b: Date)
    requires Valid(a) && Valid(b)
    ensures Before(a, b) <==> Ordinal(a) < Ordinal(b)
    ensures a == b <==> Ordinal(a) == Ordinal(b)
  {
    if Before(a, b) {
      OrdinalAscends(a, b);
    } else if Before(b, a) {
      OrdinalAscends(b, a);
    }
  }

  /** The calendar day after `d` (what adding `timedelta(days=1)` gives). */
  function NextDay(d: Date): (r: Date)
    requires Valid(d) && d != Date(MaxYear, 12, 31)
    ensures Valid(r)
    ensures Before(d, r)
  {
    if d.day < DaysInMonth(d.year, d.month) then Date(d.year, d.month, d.day + 1)
    else if d.month < 12 then Date(d.year, d.month + 1, 1)
    else Date(d.year + 1, 1, 1)
  }

  /** Consecutive calendar days are one ordinal apart. */
  lemma OrdinalNextDay(d: Date)
    requires Valid(d) && d != Date(MaxYear, 12, 31)
    ensures Ordinal(NextDay(d)) == Ordinal(d) + 1
  {
    if d.day == DaysInMonth(d.year, d.month) {
      if d.month < 12 {
        MonthStep(d.year, d.month);
      } else {
        YearStep(d.year);
      }
    }
  }

  // ---------------------------------------------------------------------
  // Reading dates: the grammar `strptime` uses for "%Y-%m-%d".
  // ---------------------------------------------------------------------

  predicate IsDigit(c: char) {
    '0' <= c <= '9'
  }

  function DigitValue(c: char): (v: int)
    requires IsDigit(c)
    ensures 0 <= v <= 9
  {
    c as int - '0' as int
  }

  /** `%Y`: exactly four digits. */
  function YearField(s: string): (r: Option<int>)
    ensures r.Some? <==> |s| == 4 && forall i :: 0 <= i < 4 ==> IsDigit(s[i])
    ensures r.Some? ==> 0 <= r.value <= 9999
  {
    if |s| == 4 && IsDigit(s[0]) && IsDigit(s[1]) && IsDigit(s[2]) && IsDigit(s[3]) then
      Some(1000 * DigitValue(s[0]) + 100 * DigitValue(s[1]) + 10 * DigitValue(s[2]) + DigitValue(s[3]))
    else None
  }

  /** `%m-`: a month written `10`..`12`, `01`..`09` or `1`..`9`, then the
      separator; yields the month and the text after the separator. */
  function MonthField(t: string): (r: Option<(int, string)>)
    ensures r.Some? ==> 1 <= r.value.0 <= 12 && |r.value.1| < |t|
  {
    if |t| >= 3 && t[0] == '1' && '0' <= t[1] <= '2' && t[2] == '-' then
      Some((10 + DigitValue(t[1]), t[3..]))
    else if |t| >= 3 && t[0] == '0' && '1' <= t[1] <= '9' && t[2] == '-' then
      Some((DigitValue(t[1]), t[3..]))
    else if |t| >= 2 && '1' <= t[0] <= '9' && t[1] == '-' then
      Some((DigitValue(t[0]), t[2..]))
    else None
  }

  /** `%d` up to the end of the text: `30`, `31`, `10`..`29`, `01`..`09`,
      `1`..`9`, or a space followed by `1`..`9`. Text left over after the
      day makes `strptime` fail, so the whole remainder must be the day. */
  function DayField(u: string): (r: Option<int>)
    ensures r.Some? ==> 1 <= r.value <= 31
  {
    if |u| == 2 && u[0] == '3' && '0' <= u[1] <= '1' then Some(30 + DigitValue(u[1]))
    else if |u| == 2 && '1' <= u[0] <= '2' && IsDigit(u[1]) then Some(10 * DigitValue(u[0]) + DigitValue(u[1]))
    else if |u| == 2 && u[0] == '0' && '1' <= u[1] <= '9' then Some(DigitValue(u[1]))
    else if |u| == 1 && '1' <= u[0] <= '9' then Some(DigitValue(u[0]))
    else if |u| == 2 && u[0] == ' ' && '1' <= u[1] <= '9' then Some(DigitValue(u[1]))
    else None
  }

  /** `datetime.strptime(s, "%Y-%m-%d")`: `None` where Python raises
      `ValueError`, either because the text does not fit the format or
      because the fields do not name a real date (year 0, February 30). */
  function Parse(s: string): (r: Option<Date>)
    ensures r.Some? ==> Valid(r.value)
    ensures r.Some? ==> 8 <= |s| <= 10 && s[4] == '-'
  {
    if |s| < 5 || s[4] != '-' then None
    else match YearField(s[..4])
      case None => None
      case Some(y) =>
        match MonthField(s[5..])
        case None => None
        case Some(mt) =>
          match DayField(mt.1)
          case None => None
          case Some(d) =>
            if Valid(Date(y, mt.0, d)) then Some(Date(y, mt.0, d)) else None
  }

  /** Whether `strptime` accepts `s`. */
  predicate Parses(s: string) {
    Parse(s).Some?
  }

  // ---------------------------------------------------------------------
  // Writing dates: the zero-padded ISO 8601 form.
  // ---------------------------------------------------------------------

  function DigitChar(v: int): (c: char)
    requires 0 <= v <= 9
    ensures IsDigit(c) && DigitValue(c) == v
  {
    ('0' as int + v) as char
  }

  function Pad2(v: int): (s: string)
    requires 0 <= v <= 99
    ensures |s| == 2
  {
    [DigitChar(v / 10), DigitChar(v % 10)]
  }

  function Pad4(v: int): (s: string)
    requires 0 <= v <= 9999
    ensures |s| == 4
  {
    Pad2(v / 100) + Pad2(v % 100)
  }

  /** `YYYY-MM-DD` with every field zero-padded. */
  function Format(d: Date): (s: string)
    requires Valid(d)
    ensures |s| == 10 && s[4] == '-' && s[7] == '-'
  {
    Pad4(d.year) + "-" + Pad2(d.month) + "-" + Pad2(d.day)
  }

  lemma YearFieldPad4(y: int)
    requires 0 <= y <= 9999
    ensures YearField(Pad4(y)) == Some(y)
  {
    var s := Pad4(y);
    var hi, lo := y / 100, y % 100;
    assert y == 100 * hi + lo;
    assert DigitValue(s[0]) == hi / 10 && DigitValue(s[1]) == hi % 10;
    assert DigitValue(s[2]) == lo / 10 && DigitValue(s[3]) == lo % 10;
    assert hi == 10 * (hi / 10) + hi % 10;
    assert lo == 10 * (lo / 10) + lo % 10;
  }

  lemma MonthFieldPad2(m: int, rest: string)
    requires 1 <= m <= 12
    ensures MonthField(Pad2(m) + "-" + rest) == Some((m, rest))
  {
    var t := Pad2(m) + "-" + rest;
    assert t[3..] == rest;
  }

  lemma DayFieldPad2(d: int)
    requires 1 <= d <= 31
    ensures DayField(Pad2(d)) == Some(d)
  {
  }

  /** Reading back a written date gives the same date. */
  lemma ParseFormat(d: Date)
    requires Valid(d)
    ensures Parse(Format(d)) == Some(d)
  {
    var s := Format(d);
    assert s[..4] == Pad4(d.year);
    YearFieldPad4(d.year);
    assert s[5..] == Pad2(d.month) + "-" + Pad2(d.day);
    MonthFieldPad2(d.month, Pad2(d.day));
    DayFieldPad2(d.day);
  }

  /** `strptime` accepts the zero-padded form, 29 February of a leap year included. */
  lemma ParseAcceptsPadded()
    ensures Parse("2023-01-02") == Some(Date(2023, 1, 2))
    ensures Parse("2024-02-29") == Some(Date(2024, 2, 29))
  {
  }

  /** `strptime` also accepts unpadded and space-padded fields. */
  lemma ParseAcceptsUnpadded()
    ensures Parse("2023-1-2") == Some(Date(2023, 1, 2))
    ensures Parse("2023-01- 2") == Some(Date(2023, 1, 2))
  {
  }

  /** `strptime` rejects fields that fit the format but name no date. */
  lemma ParseRejectsNonDates()
    ensures Parse("2023-02-29") == None
    ensures Parse("1900-02-29") == None
    ensures Parse("0000-01-01") == None
  {
  }

  /** `strptime` rejects text that does not fit the format. */
  lemma ParseRejectsMalformed()
    ensures Parse("2023-01-32") == None
    ensures Parse("2023-13-01") == None
    ensures Parse("23-01-01") == None
    ensures Parse("2023-01-01 ") == None
  {
  }

  /** Two digits read as a number are written back as the same two digits. */
  lemma Pad2Digits(a: char, b: char)
    requires IsDigit(a) && IsDigit(b)
    ensures Pad2(10 * DigitValue(a) + DigitValue(b)) == [a, b]
  {
    var v := 10 * DigitValue(a) + DigitValue(b);
    assert v / 10 == DigitValue(a) && v % 10 == DigitValue(b);
  }

  lemma Pad4YearField(t: string)
    requires YearField(t).Some?
    ensures Pad4(YearField(t).value) == t
  {
    var y := YearField(t).value;
    var hi := 10 * DigitValue(t[0]) + DigitValue(t[1]);
    var lo := 10 * DigitValue(t[2]) + DigitValue(t[3]);
    assert y == 100 * hi + lo;
    assert y / 100 == hi && y % 100 == lo;
    Pad2Digits(t[0], t[1]);
    Pad2Digits(t[2], t[3]);
    assert t == [t[0], t[1]] + [t[2], t[3]];
  }

  /** In a ten-character date the month takes two digits and leaves the
      last two characters for the day. */
  lemma Pad2MonthField(t: string)
    requires |t| == 5 && MonthField(t).Some? && DayField(MonthField(t).value.1).Some?
    ensures t[2] == '-' && MonthField(t).value.1 == t[3..]
    ensures Pad2(MonthField(t).value.0) == t[..2]
  {
    Pad2Digits(t[0], t[1]);
    assert t[..2] == [t[0], t[1]];
  }

  lemma Pad2DayField(u: string)
    requires |u| == 2 && u[0] != ' ' && DayField(u).Some?
    ensures Pad2(DayField(u).value) == u
  {
    Pad2Digits(u[0], u[1]);
  }

  /** The converse of `ParseFormat`: a ten-character text `strptime`
      accepts, with no space before the day, is the zero-padded form of the
      date it names. */
  lemma FormatParse(s: string)
    requires Parse(s).Some? && |s| == 10 && s[8] != ' '
    ensures Format(Parse(s).value) == s
  {
    var d := Parse(s).value;
    var t := s[5..];
    Pad4YearField(s[..4]);
    Pad2MonthField(t);
    assert t[3..] == s[8..];
    Pad2DayField(s[8..]);
    assert s == s[..4] + "-" + t[..2] + "-" + s[8..];
  }

  // ---------------------------------------------------------------------
  // Every spelling `strptime` accepts.
  // ---------------------------------------------------------------------

  /** How `%d` may spell a day: two digits, one digit, or a space and one digit. */
  datatype DayStyle = TwoDigits | OneDigit | SpaceDigit

  /** `%m` as written: two digits, or one digit when `short` holds and the
      month is below 10. */
  function MonthText(m: int, short: bool): (s: string)
    requires 1 <= m <= 12
    ensures |s| == 1 || |s| == 2
  {
    if short && m < 10 then [DigitChar(m)] else Pad2(m)
  }

  /** `%d` as written in the given style; the one-character styles apply
      only to days below 10. */
  function DayText(d: int, style: DayStyle): (s: string)
    requires 1 <= d <= 31
    ensures |s| == 1 || |s| == 2
  {
    if d < 10 && style == OneDigit then [DigitChar(d)]
    else if d < 10 && style == SpaceDigit then [' ', DigitChar(d)]
    else Pad2(d)
  }

  /** A date spelled with a four-digit year and the given month and day styles. */
  function Spelling(d: Date, short: bool, style: DayStyle): string
    requires Valid(d)
  {
    Pad4(d.year) + "-" + MonthText(d.month, short) + "-" + DayText(d.day, style)
  }

  lemma MonthFieldText(m: int, short: bool, rest: string)
    requires 1 <= m <= 12
    ensures MonthField(MonthText(m, short) + "-" + rest) == Some((m, rest))
  {
    var t := MonthText(m, short) + "-" + rest;
    if short && m < 10 {
      assert t[2..] == rest;
    } else {
      assert t[3..] == rest;
    }
  }

  lemma DayFieldText(d: int, style: DayStyle)
    requires 1 <= d <= 31
    ensures DayField(DayText(d, style)) == Some(d)
  {
  }

  /** Every spelling of a valid date reads back as that date. */
  lemma ParseSpelling(d: Date, short: bool, style: DayStyle)
    requires Valid(d)
    ensures Parse(Spelling(d, short, style)) == Some(d)
  {
    var s := Spelling(d, short, style);
    assert s[..4] == Pad4(d.year);
    YearFieldPad4(d.year);
    assert s[5..] == MonthText(d.month, short) + "-" + DayText(d.day, style);
    MonthFieldText(d.month, short, DayText(d.day, style));
    DayFieldText(d.day, style);
  }

  /** The text `MonthField` reads is the month spelled one way or the other. */
  lemma MonthTextOfField(t: string) returns (short: bool)
    requires MonthField(t).Some?
    ensures t == MonthText(MonthField(t).value.0, short) + "-" + MonthField(t).value.1
  {
    if |t| >= 3 && '0' <= t[0] <= '1' && IsDigit(t[1]) && t[2] == '-' {
      short := false;
      Pad2Digits(t[0], t[1]);
      assert t == [t[0], t[1]] + "-" + t[3..];
    } else {
      short := true;
      assert t == [t[0]] + "-" + t[2..];
    }
  }

  /** The text `DayField` reads is the day spelled in one of the three styles. */
  lemma DayTextOfField(u: string) returns (style: DayStyle)
    requires DayField(u).Some?
    ensures u == DayText(DayField(u).value, style)
  {
    if |u| == 1 {
      style := OneDigit;
    } else if u[0] == ' ' {
      style := SpaceDigit;
    } else {
      style := TwoDigits;
      Pad2Digits(u[0], u[1]);
    }
  }

  /** The converse of `ParseSpelling`: every text `strptime` accepts is a
      spelling of the date it names, so the text determines the date. */
  lemma SpellingOfParse(s: string)
    requires Parse(s).Some?
    ensures exists short, style :: s == Spelling(Parse(s).value, short, style)
  {
    var d := Parse(s).value;
    var t := s[5..];
    Pad4YearField(s[..4]);
    var short := MonthTextOfField(t);
    var u := MonthField(t).value.1;
    var style := DayTextOfField(u);
    assert s == s[..4] + "-" + t;
    assert s == Spelling(d, short, style);
  }
}
