/**
  Gregorian calendar arithmetic on integer (year, month, day) triples, and the behaviour of the
  JavaScript local-time constructor `new Date(year, monthIndex, day)` that the application relies
  on: two-digit years mean 19xx, the month index carries into the year, and a day outside the
  month rolls over into the neighbouring months.
 */
module Calendar {
  import opened Wrappers
  import opened Text

  datatype Date = Date(year: int, month: int, day: int)

  predicate IsLeapYear(y: int) {
    y % 4 == 0 && (y % 100 != 0 || y % 400 == 0)
  }

  function DaysInMonth(y: int, m: int): (r: int)
    requires 1 <= m <= 12
    ensures 28 <= r <= 31
    ensures r == 29 <==> m == 2 && IsLeapYear(y)
  {
    if m == 2 then (if IsLeapYear(y) then 29 else 28)
    else if m == 4 || m == 6 || m == 9 || m == 11 then 30
    else 31
  }

  predicate ValidDate(d: Date) {
    1 <= d.month <= 12 && 1 <= d.day <= DaysInMonth(d.year, d.month)
  }

  /** Days of the proleptic Gregorian calendar before 1 January of year `y` (relative to year 1). */
  function DaysBeforeYear(y: int): int {
    var p := y - 1;
    365 * p + p / 4 - p / 100 + p / 400
  }

  function DaysBeforeMonth(y: int, m: int): int
    requires 1 <= m <= 12
  {
    var cumulative := [0, 31, 59, 90, 120, 151, 181, 212, 243, 273, 304, 334];
    cumulative[m - 1] + (if m > 2 && IsLeapYear(y) then 1 else 0)
  }

  /** A serial day number, linear in the day, so that it is meaningful for any day value. */
  function DayNumber(y: int, m: int, d: int): int
    requires 1 <= m <= 12
  {
    DaysBeforeYear(y) + DaysBeforeMonth(y, m) + d
  }

  function DayNumberOf(d: Date): int
    requires 1 <= d.month <= 12
  {
    DayNumber(d.year, d.month, d.day)
  }

  lemma DivStep4(y: int)
    ensures y / 4 - (y - 1) / 4 == if y % 4 == 0 then 1 else 0
  {
    var q, r := (y - 1) / 4, (y - 1) % 4;
    assert y - 1 == 4 * q + r && 0 <= r < 4;
    if r == 3 { assert y == 4 * (q + 1); } else { assert y == 4 * q + (r + 1); }
  }

  lemma DivStep100(y: int)
    ensures y / 100 - (y - 1) / 100 == if y % 100 == 0 then 1 else 0
  {
    var q, r := (y - 1) / 100, (y - 1) % 100;
    assert y - 1 == 100 * q + r && 0 <= r < 100;
    if r == 99 { assert y == 100 * (q + 1); } else { assert y == 100 * q + (r + 1); }
  }

  lemma DivStep400(y: int)
    ensures y / 400 - (y - 1) / 400 == if y % 400 == 0 then 1 else 0
  {
    var q, r := (y - 1) / 400, (y - 1) % 400;
    assert y - 1 == 400 * q + r && 0 <= r < 400;
    if r == 399 { assert y == 400 * (q + 1); } else { assert y == 400 * q + (r + 1); }
  }

  /** A year has 365 days, or 366 in a leap year. */
  lemma YearLength(y: int)
    ensures DaysBeforeYear(y + 1) == DaysBeforeYear(y) + (if IsLeapYear(y) then 366 else 365)
  {
    DivStep4(y);
    DivStep100(y);
    DivStep400(y);
    DivisorsOfCentury(y);
    var p := y - 1;
    assert DaysBeforeYear(y + 1) - DaysBeforeYear(y)
        == 365 + (y / 4 - p / 4) - (y / 100 - p / 100) + (y / 400 - p / 400);
  }

  lemma DivisorsOfCentury(y: int)
    ensures y % 400 == 0 ==> y % 100 == 0
    ensures y % 100 == 0 ==> y % 4 == 0
  {
    if y % 400 == 0 {
      var k := y / 400;
      assert y == 100 * (4 * k);
    }
    if y % 100 == 0 {
      var k := y / 100;
      assert y == 4 * (25 * k);
    }
  }

  /** The day after the last day of a month is the first day of the next month. */
  lemma MonthEnd(y: int, m: int)
    requires 1 <= m <= 12
    ensures m < 12 ==> DayNumber(y, m, DaysInMonth(y, m)) + 1 == DayNumber(y, m + 1, 1)
    ensures m == 12 ==> DayNumber(y, m, DaysInMonth(y, m)) + 1 == DayNumber(y + 1, 1, 1)
  {
    if m == 12 {
      YearLength(y);
    }
  }

  /** Rolls a day outside its month over into the neighbouring months, as `Date` does. */
  function Normalize(y: int, m: int, d: int): (r: Date)
    requires 1 <= m <= 12
    ensures ValidDate(r)
    decreases d < 1, if d < 1 then -d else d
  {
    if d < 1 then
      var py := if m == 1 then y - 1 else y;
      var pm := if m == 1 then 12 else m - 1;
      Normalize(py, pm, d + DaysInMonth(py, pm))
    else if d > DaysInMonth(y, m) then
      var ny := if m == 12 then y + 1 else y;
      var nm := if m == 12 then 1 else m + 1;
      Normalize(ny, nm, d - DaysInMonth(y, m))
    else
      Date(y, m, d)
  }

  /** Rolling over keeps the serial day number: the result is the same day. */
  lemma {:induction false} NormalizeDayNumber(y: int, m: int, d: int)
    requires 1 <= m <= 12
    ensures DayNumberOf(Normalize(y, m, d)) == DayNumber(y, m, d)
    decreases d < 1, if d < 1 then -d else d
  {
    if d < 1 {
      var py := if m == 1 then y - 1 else y;
      var pm := if m == 1 then 12 else m - 1;
      RollBack(y, m, d);
      NormalizeDayNumber(py, pm, d + DaysInMonth(py, pm));
    } else if d > DaysInMonth(y, m) {
      var ny := if m == 12 then y + 1 else y;
      var nm := if m == 12 then 1 else m + 1;
      RollForward(y, m, d);
      NormalizeDayNumber(ny, nm, d - DaysInMonth(y, m));
    }
  }

  /** A day before the first is that many days before the end of the previous month. */
  lemma RollBack(y: int, m: int, d: int)
    requires 1 <= m <= 12 && d < 1
    ensures var py, pm := if m == 1 then y - 1 else y, if m == 1 then 12 else m - 1;
      DayNumber(py, pm, d + DaysInMonth(py, pm)) == DayNumber(y, m, d)
  {
    var py, pm := if m == 1 then y - 1 else y, if m == 1 then 12 else m - 1;
    MonthEnd(py, pm);
  }

  /** A day past the end is that many days into the next month. */
  lemma RollForward(y: int, m: int, d: int)
    requires 1 <= m <= 12
    ensures var ny, nm := if m == 12 then y + 1 else y, if m == 12 then 1 else m + 1;
      DayNumber(ny, nm, d - DaysInMonth(y, m)) == DayNumber(y, m, d)
  {
    MonthEnd(y, m);
  }

  /** The year `new Date(y, ...)` uses: 0..99 stand for 1900..1999. */
  function JsFullYear(y: int): int {
    if 0 <= y <= 99 then 1900 + y else y
  }

  /** `new Date(y, monthIndex, d)` read back through getFullYear / getMonth() + 1 / getDate. */
  function MakeDate(y: int, monthIndex: int, d: int): (r: Date)
    ensures ValidDate(r)
    ensures 1 <= d <= 28 ==> r == Date(JsFullYear(y) + monthIndex / 12, monthIndex % 12 + 1, d)
  {
    var year, month := JsFullYear(y) + monthIndex / 12, monthIndex % 12 + 1;
    if 1 <= d <= DaysInMonth(year, month) then Date(year, month, d) else Normalize(year, month, d)
  }

  /** The constructed date is the requested day counted from the first of the carried month. */
  lemma MakeDateDayNumber(y: int, monthIndex: int, d: int)
    ensures DayNumberOf(MakeDate(y, monthIndex, d)) == DayNumber(JsFullYear(y) + monthIndex / 12, monthIndex % 12 + 1, d)
  {
    NormalizeDayNumber(JsFullYear(y) + monthIndex / 12, monthIndex % 12 + 1, d);
  }

  /** Rolling a positive day forward never moves to an earlier year. */
  lemma {:induction false} NormalizeYearAtLeast(y: int, m: int, d: int)
    requires 1 <= m <= 12 && d >= 1
    ensures Normalize(y, m, d).year >= y
    decreases d
  {
    if d > DaysInMonth(y, m) {
      var ny := if m == 12 then y + 1 else y;
      var nm := if m == 12 then 1 else m + 1;
      NormalizeYearAtLeast(ny, nm, d - DaysInMonth(y, m));
    }
  }

  /** A valid date outside the two-digit years is constructed unchanged. */
  lemma MakeDateOfValid(d: Date)
    requires ValidDate(d) && !(0 <= d.year <= 99)
    ensures MakeDate(d.year, d.month - 1, d.day) == d
  {
    assert (d.month - 1) / 12 == 0 && (d.month - 1) % 12 + 1 == d.month;
    assert Normalize(d.year, d.month, d.day) == d;
  }

  /** (year, month) shifted by `delta` months, with the carry into the year. */
  function ShiftYear(y: int, m: int, delta: int): int { y + (m - 1 + delta) / 12 }

  function ShiftMonthOfYear(m: int, delta: int): (r: int)
    ensures 1 <= r <= 12
  {
    (m - 1 + delta) % 12 + 1
  }

  /** Shifting by `a` and then by `b` months is shifting by `a + b`. */
  lemma ShiftCompose(y: int, m: int, a: int, b: int)
    requires 1 <= m <= 12
    ensures ShiftYear(ShiftYear(y, m, a), ShiftMonthOfYear(m, a), b) == ShiftYear(y, m, a + b)
    ensures ShiftMonthOfYear(ShiftMonthOfYear(m, a), b) == ShiftMonthOfYear(m, a + b)
  {
    var t := m - 1 + a;
    var q, r := t / 12, t % 12;
    assert t == 12 * q + r && 0 <= r < 12;
    var u := r + b;
    var q2, r2 := u / 12, u % 12;
    assert u == 12 * q2 + r2 && 0 <= r2 < 12;
    assert m - 1 + (a + b) == 12 * (q + q2) + r2;
    assert (m - 1 + (a + b)) / 12 == q + q2;
    assert (m - 1 + (a + b)) % 12 == r2;
  }

  /** Shifting by zero months changes nothing. */
  lemma ShiftZero(y: int, m: int)
    requires 1 <= m <= 12
    ensures ShiftYear(y, m, 0) == y && ShiftMonthOfYear(m, 0) == m
  {
  }

  /** Days before a month plus its length never exceed the year. */
  lemma DayNumberInYear(d: Date)
    requires ValidDate(d)
    ensures DaysBeforeYear(d.year) < DayNumberOf(d) <= DaysBeforeYear(d.year + 1)
  {
    YearLength(d.year);
  }

  lemma {:induction false} DaysBeforeYearMonotone(a: int, b: int)
    requires a <= b
    ensures DaysBeforeYear(a) <= DaysBeforeYear(b)
    decreases b - a
  {
    if a < b {
      YearLength(a);
      DaysBeforeYearMonotone(a + 1, b);
    }
  }

  lemma MonthsInOrder(y: int, m1: int, m2: int)
    requires 1 <= m1 < m2 <= 12
    ensures DaysBeforeMonth(y, m1) + DaysInMonth(y, m1) <= DaysBeforeMonth(y, m2)
  {
  }

  /** The calendar order of dates: by year, then month, then day. */
  predicate Before(a: Date, b: Date) {
    a.year < b.year ||
    (a.year == b.year && (a.month < b.month || (a.month == b.month && a.day < b.day)))
  }

  /** For valid dates the day number follows the calendar order. */
  lemma DayNumberOrder(a: Date, b: Date)
    requires ValidDate(a) && ValidDate(b)
    ensures DayNumberOf(a) < DayNumberOf(b) <==> Before(a, b)
    ensures DayNumberOf(a) == DayNumberOf(b) <==> a == b
  {
    DayNumberInYear(a);
    DayNumberInYear(b);
    if a.year < b.year {
      DaysBeforeYearMonotone(a.year + 1, b.year);
    } else if b.year < a.year {
      DaysBeforeYearMonotone(b.year + 1, a.year);
    } else if a.month < b.month {
      MonthsInOrder(a.year, a.month, b.month);
    } else if b.month < a.month {
      MonthsInOrder(a.year, b.month, a.month);
    }
  }

  /** `[y, m, d] = s.split("-").map(Number)` then `new Date(y, (m || 1) - 1, d || 1)`;
      `None` is the invalid date produced when the year is not a number. */
  function ParseDateOnly(s: string): (r: Option<Date>)
    ensures r.Some? ==> ValidDate(r.value)
  {
    var parts := Split(s, '-');
    match NumberValue(parts[0])
    case None => None
    case Some(y) => Some(MakeDate(y, OrOne(PartAt(parts, 1)) - 1, OrOne(PartAt(parts, 2))))
  }

  function PartAt(parts: seq<string>, i: nat): Option<int> {
    if i < |parts| then NumberValue(parts[i]) else None
  }

  /** `v || 1` for a number that may be NaN, zero or missing. */
  function OrOne(v: Option<int>): int {
    if v.Some? && v.value != 0 then v.value else 1
  }

  /** A parsed date never lies in the years 0..99: the parts of a split on `-` are not
      negative, so the year is read as at least 100 and the month and day only carry forward. */
  lemma ParseDateOnlyYear(s: string)
    ensures ParseDateOnly(s).Some? ==> ParseDateOnly(s).value.year >= 100
  {
    var parts := Split(s, '-');
    SplitPieces(s, '-');
    NumberValueNatural(parts[0]);
    if 1 < |parts| {
      NumberValueNatural(parts[1]);
    }
    if 2 < |parts| {
      NumberValueNatural(parts[2]);
    }
    var m, d := OrOne(PartAt(parts, 1)), OrOne(PartAt(parts, 2));
    assert m >= 1 && d >= 1;
    if NumberValue(parts[0]).Some? {
      var y := NumberValue(parts[0]).value;
      var year, month := JsFullYear(y) + (m - 1) / 12, (m - 1) % 12 + 1;
      assert year >= 100;
      NormalizeYearAtLeast(year, month, d);
    }
  }

  /** `${y}-${mm}-${dd}` with the month and the day padded to two digits. */
  function FormatDate(d: Date): string {
    IntToString(d.year) + "-" + Pad2(d.month) + "-" + Pad2(d.day)
  }

  /** The regex `^\d{4}-\d{2}-\d{2}$`. */
  predicate IsDateFormat(s: string) {
    |s| == 10 && AllDigits(s[..4]) && s[4] == '-' && AllDigits(s[5..7]) && s[7] == '-' &&
    AllDigits(s[8..])
  }

  lemma SplitThree(a: string, b: string, c: string)
    requires '-' !in a && '-' !in b && '-' !in c
    ensures Split(a + "-" + b + "-" + c, '-') == [a, b, c]
  {
    assert a + "-" + b + "-" + c == a + ['-'] + (b + ['-'] + c);
    SplitAfter(a, b + "-" + c, '-');
    SplitAfter(b, c, '-');
    SplitNoSeparator(c, '-');
  }

  lemma DigitsHaveNoDash(s: string)
    requires AllDigits(s)
    ensures '-' !in s
  {
  }

  /** The parts of a formatted date. */
  lemma FormatDateParts(d: Date)
    requires ValidDate(d) && 1000 <= d.year <= 9999
    ensures var s := FormatDate(d);
      |s| == 10 && s[..4] == NatToString(d.year) && s[4] == '-' && s[5..7] == Pad2(d.month) &&
      s[7] == '-' && s[8..] == Pad2(d.day)
  {
    NatToStringFourDigits(d.year);
    Pad2Digits(d.month);
    Pad2Digits(d.day);
  }

  /** A text of three numeric parts, the month and the day non-zero, is parsed by parts. */
  lemma ParseDateParts(s: string, y: string, m: string, dd: string, year: int, month: int, day: int)
    requires Split(s, '-') == [y, m, dd]
    requires NumberValue(y) == Some(year) && NumberValue(m) == Some(month) && NumberValue(dd) == Some(day)
    requires month != 0 && day != 0
    ensures ParseDateOnly(s) == Some(MakeDate(year, month - 1, day))
  {
    assert PartAt(Split(s, '-'), 1) == Some(month) && PartAt(Split(s, '-'), 2) == Some(day);
  }

  /** A formatted date with a four-digit year splits into its three numbers. */
  lemma FormatDateSplits(d: Date)
    requires ValidDate(d) && 1000 <= d.year <= 9999
    ensures Split(FormatDate(d), '-') == [NatToString(d.year), Pad2(d.month), Pad2(d.day)]
    ensures NumberValue(NatToString(d.year)) == Some(d.year)
    ensures NumberValue(Pad2(d.month)) == Some(d.month) && NumberValue(Pad2(d.day)) == Some(d.day)
  {
    var y, m, dd := NatToString(d.year), Pad2(d.month), Pad2(d.day);
    Pad2Digits(d.month);
    Pad2Digits(d.day);
    DigitsHaveNoDash(y);
    DigitsHaveNoDash(m);
    DigitsHaveNoDash(dd);
    SplitThree(y, m, dd);
    NumberValueOfNatToString(d.year);
    NumberValueOfDigits(m);
    NumberValueOfDigits(dd);
    assert FormatDate(d) == y + "-" + m + "-" + dd;
  }

  /** A valid date with a four-digit year formats as `YYYY-MM-DD` and parses back to itself. */
  lemma FormatDateRoundTrip(d: Date)
    requires ValidDate(d) && 1000 <= d.year <= 9999
    ensures IsDateFormat(FormatDate(d))
    ensures ParseDateOnly(FormatDate(d)) == Some(d)
  {
    FormatDateShape(d);
    FormatDateParses(d);
  }

  lemma FormatDateShape(d: Date)
    requires ValidDate(d) && 1000 <= d.year <= 9999
    ensures IsDateFormat(FormatDate(d))
  {
    FormatDateParts(d);
    Pad2Digits(d.month);
    Pad2Digits(d.day);
  }

  lemma FormatDateParses(d: Date)
    requires ValidDate(d) && 1000 <= d.year <= 9999
    ensures ParseDateOnly(FormatDate(d)) == Some(d)
  {
    FormatDateSplits(d);
    ParseDateParts(FormatDate(d), NatToString(d.year), Pad2(d.month), Pad2(d.day), d.year, d.month, d.day);
    MakeDateOfValid(d);
  }
}
