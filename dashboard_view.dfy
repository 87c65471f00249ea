/**
  The dashboard page's own month arithmetic (`src/app/dashboard/page.tsx`): the month picker
  shifts a `YYYY-MM` key back and forth, the heading falls back to a label built from the
  key, and the chart scale and the month-on-month change are derived from the response.
 */
module DashboardView {
  import opened Wrappers
  import opened Text
  import opened Calendar
  import opened DashboardSales

  /** `currentMonthKey()`, with today passed in. */
  function CurrentMonthKey(today: Date): string {
    MonthKeyFromParts(today.year, today.month)
  }

  /** `const [year, month] = key.split("-").map(Number)`: `None` stands for NaN and for a
      missing part. */
  function KeyYear(key: string): Option<int> {
    NumberValue(Split(key, '-')[0])
  }

  function KeyMonth(key: string): Option<int> {
    PartAt(Split(key, '-'), 1)
  }

  /** `shiftMonthKey(key, delta)` */
  function ShiftMonthKey(key: string, delta: int, today: Date): string {
    ShiftParts(KeyYear(key), KeyMonth(key), delta, today)
  }

  /** The body of `shiftMonthKey` once the key is split. */
  function ShiftParts(year: Option<int>, month: Option<int>, delta: int, today: Date): string {
    if year.None? || month.None? then CurrentMonthKey(today)
    else
      var shifted := MakeDate(year.value, month.value - 1 + delta, 1);
      MonthKeyFromParts(shifted.year, shifted.month)
  }

  /** `monthLabelFromKey(key)` */
  function MonthLabelFromKey(key: string): string {
    var year, month := KeyYear(key), KeyMonth(key);
    if year.None? || month.None? then "-" else MonthLabel(year.value, month.value)
  }

  /** The month of a key ends in two digits, read as a value in 1..12. */
  predicate PaddedMonth(key: string) {
    |key| >= 3 && key[|key| - 3] == '-' && AllDigits(key[|key| - 2..]) &&
    1 <= DigitsValue(key[|key| - 2..]) <= 12
  }

  lemma MonthKeyPadded(year: int, month: int)
    requires 1 <= month <= 12
    ensures PaddedMonth(MonthKeyFromParts(year, month))
  {
    Pad2Digits(month);
    var k := MonthKeyFromParts(year, month);
    assert k[|k| - 2..] == Pad2(month);
  }

  /** Whatever the key and the delta, the result has a zero-padded month 01..12. */
  lemma ShiftMonthKeyPadded(key: string, delta: int, today: Date)
    requires ValidDate(today)
    ensures PaddedMonth(ShiftMonthKey(key, delta, today))
  {
    ShiftPartsPadded(KeyYear(key), KeyMonth(key), delta, today);
  }

  lemma ShiftPartsPadded(year: Option<int>, month: Option<int>, delta: int, today: Date)
    requires ValidDate(today)
    ensures PaddedMonth(ShiftParts(year, month, delta, today))
  {
    if year.Some? && month.Some? {
      var y, m := year.value, month.value;
      assert year == Some(y) && month == Some(m);
      ShiftPartsOf(y, m, delta, today);
      ShiftedKeyPadded(y, m - 1 + delta);
    } else {
      assert ShiftParts(year, month, delta, today) == CurrentMonthKey(today);
      MonthKeyPadded(today.year, today.month);
    }
  }

  /** Numeric parts select the first of the constructed month. */
  lemma ShiftPartsOf(year: int, month: int, delta: int, today: Date)
    ensures var shifted := MakeDate(year, month - 1 + delta, 1);
      ShiftParts(Some(year), Some(month), delta, today) == MonthKeyFromParts(shifted.year, shifted.month)
  {
  }

  lemma ShiftedKeyPadded(year: int, monthIndex: int)
    ensures var shifted := MakeDate(year, monthIndex, 1);
      PaddedMonth(MonthKeyFromParts(shifted.year, shifted.month))
  {
    var shifted := MakeDate(year, monthIndex, 1);
    MonthKeyPadded(shifted.year, shifted.month);
  }

  /** A key `YYYY-MM` of a year without a sign splits into its year and its month. */
  lemma {:induction false} KeyParts(year: nat, month: int)
    requires 1 <= month <= 12
    ensures KeyYear(MonthKeyFromParts(year, month)) == Some(year)
    ensures KeyMonth(MonthKeyFromParts(year, month)) == Some(month)
  {
    var y, m := NatToString(year), Pad2(month);
    Pad2Digits(month);
    DigitsHaveNoDash(y);
    DigitsHaveNoDash(m);
    assert MonthKeyFromParts(year, month) == y + ['-'] + m;
    SplitAfter(y, m, '-');
    SplitNoSeparator(m, '-');
    NumberValueOfNatToString(year);
    NumberValueOfDigits(m);
  }

  /** Once the key is split, the shift works on its numbers. */
  lemma ShiftKeyOfParts(key: string, year: int, month: int, delta: int, today: Date)
    requires KeyYear(key) == Some(year) && KeyMonth(key) == Some(month)
    ensures ShiftMonthKey(key, delta, today) == ShiftParts(Some(year), Some(month), delta, today)
  {
  }

  lemma ShiftPartsCarries(year: int, month: int, delta: int, today: Date)
    requires 1 <= month <= 12
    ensures ShiftParts(Some(year), Some(month), delta, today)
         == MonthKeyFromParts(ShiftYear(JsFullYear(year), month, delta), ShiftMonthOfYear(month, delta))
  {
    ShiftPartsOf(year, month, delta, today);
    var mi := month - 1 + delta;
    assert mi % 12 + 1 == ShiftMonthOfYear(month, delta);
    FirstOfMonth(JsFullYear(year) + mi / 12, mi % 12 + 1);
  }

  /** The shift of a key carries into the year. */
  lemma ShiftMonthKeyCarries(key: string, year: nat, month: int, delta: int, today: Date)
    requires 1 <= month <= 12 && key == MonthKeyFromParts(year, month)
    ensures ShiftMonthKey(key, delta, today)
         == MonthKeyFromParts(ShiftYear(JsFullYear(year), month, delta), ShiftMonthOfYear(month, delta))
  {
    KeyParts(year, month);
    ShiftKeyOfParts(key, year, month, delta, today);
    ShiftPartsCarries(year, month, delta, today);
  }

  /** The page's shift of a key is the server's shift of that month. */
  lemma ShiftMonthKeyAgrees(key: string, year: nat, month: int, delta: int, today: Date)
    requires 1 <= month <= 12 && key == MonthKeyFromParts(year, month)
    ensures ShiftMonthKey(key, delta, today) == ShiftMonth(RefOf(year, month), delta).key
  {
    ShiftMonthKeyCarries(key, year, month, delta, today);
    ShiftMonthCarries(RefOf(year, month), delta);
  }

  /** January shifted back by one is December of the previous year. */
  lemma ShiftMonthKeyJanuary(key: string, year: nat, today: Date)
    requires year >= 100 && key == MonthKeyFromParts(year, 1)
    ensures ShiftMonthKey(key, -1, today) == MonthKeyFromParts(year - 1, 12)
  {
    JanuaryBack(year);
    KeyShiftsTo(year, 1, -1, year - 1, 12, today);
  }

  lemma JanuaryBack(year: int)
    ensures year >= 100 ==> ShiftYear(JsFullYear(year), 1, -1) == year - 1
    ensures ShiftMonthOfYear(1, -1) == 12
  {
  }

  /** Shifting by `d` and back by `back == -d` gives the key back, while the years stay
      above 99. */
  lemma ShiftMonthKeyRoundTrip(key: string, year: nat, month: int, d: int, back: int, today: Date)
    requires 1 <= month <= 12 && key == MonthKeyFromParts(year, month)
    requires year >= 100 && ShiftYear(year, month, d) >= 100 && d + back == 0
    ensures ShiftMonthKey(ShiftMonthKey(key, d, today), back, today) == key
  {
    ShiftMonthKeyCarries(key, year, month, d, today);
    ShiftedKeyBack(year, month, d, back, today);
  }

  /** The key a shift by `d` produces shifts back by `back == -d` to the month it came from. */
  lemma ShiftedKeyBack(year: nat, month: int, d: int, back: int, today: Date)
    requires 1 <= month <= 12 && year >= 100 && ShiftYear(year, month, d) >= 100 && d + back == 0
    ensures ShiftMonthKey(MonthKeyFromParts(ShiftYear(year, month, d), ShiftMonthOfYear(month, d)), back, today)
         == MonthKeyFromParts(year, month)
  {
    ShiftBack(year, month, d, back);
    KeyShiftsTo(ShiftYear(year, month, d), ShiftMonthOfYear(month, d), back, year, month, today);
  }

  lemma KeyShiftsTo(year: nat, month: int, delta: int, year': int, month': int, today: Date)
    requires 1 <= month <= 12
    requires ShiftYear(JsFullYear(year), month, delta) == year' && ShiftMonthOfYear(month, delta) == month'
    ensures ShiftMonthKey(MonthKeyFromParts(year, month), delta, today) == MonthKeyFromParts(year', month')
  {
    ShiftMonthKeyCarries(MonthKeyFromParts(year, month), year, month, delta, today);
  }

  lemma ShiftBack(year: int, month: int, d: int, back: int)
    requires 1 <= month <= 12 && year >= 100 && ShiftYear(year, month, d) >= 100 && d + back == 0
    ensures var y2 := ShiftYear(year, month, d);
      ShiftYear(JsFullYear(y2), ShiftMonthOfYear(month, d), back) == year &&
      ShiftMonthOfYear(ShiftMonthOfYear(month, d), back) == month
  {
    ShiftCompose(year, month, d, back);
    ShiftZero(year, month);
  }

  /** A key whose year or month part is not a number, or that has no month part, selects the
      current month. */
  lemma ShiftMonthKeyFallback(key: string, delta: int, today: Date)
    requires KeyYear(key).None? || KeyMonth(key).None? || '-' !in key
    ensures ShiftMonthKey(key, delta, today) == CurrentMonthKey(today)
  {
    if '-' !in key {
      SplitNoSeparator(key, '-');
    }
  }

  /** The page's label of a month key is the server's label of that month, the month without
      a leading zero. */
  lemma MonthLabelFromKeyAgrees(year: nat, month: int)
    requires 1 <= month <= 12
    ensures MonthLabelFromKey(MonthKeyFromParts(year, month)) == MonthLabel(year, month)
    ensures MonthLabelFromKey(MonthKeyFromParts(year, month)) == RefOf(year, month).text
  {
    KeyParts(year, month);
  }

  /** A key whose year or month part is not a number, or that has no month part, is labelled
      "-". */
  lemma MonthLabelFromKeyFallback(key: string)
    requires KeyYear(key).None? || KeyMonth(key).None? || '-' !in key
    ensures MonthLabelFromKey(key) == "-"
  {
    if '-' !in key {
      SplitNoSeparator(key, '-');
    }
  }

  /** `Math.max(1, ...dailySales.map((point) => point.estimated_sales))` */
  function MaxOfSales(points: seq<DailyPoint>): (r: int)
    ensures r >= 1
    ensures forall i :: 0 <= i < |points| ==> points[i].sales <= r
    ensures r == 1 || exists i :: 0 <= i < |points| && points[i].sales == r
  {
    if points == [] then 1
    else
      var rest := MaxOfSales(points[1..]);
      assert rest != 1 ==> exists i :: 1 <= i < |points| && points[i].sales == rest by {
        if rest != 1 {
          var j :| 0 <= j < |points[1..]| && points[1..][j].sales == rest;
          assert points[j + 1].sales == rest;
        }
      }
      Max(points[0].sales, rest)
  }

  /** `maxSales`: `data?.daily_sales ?? []` before the maximum. */
  function MaxSales(data: Option<SalesSummary>): (r: int)
    ensures r >= 1
    ensures data.Some? ==> forall i :: 0 <= i < |data.value.dailySales| ==> data.value.dailySales[i].sales <= r
    ensures data.None? ==> r == 1
  {
    MaxOfSales(if data.Some? then data.value.dailySales else [])
  }

  /** `monthDelta`: current minus previous month sales, both 0 before the response. */
  function MonthDelta(data: Option<SalesSummary>): (r: int)
    ensures data.Some? ==> data.value.previousMonthSales + r == data.value.currentMonthSales
    ensures data.None? ==> r == 0
  {
    var current := if data.Some? then data.value.currentMonthSales else 0;
    var previous := if data.Some? then data.value.previousMonthSales else 0;
    current - previous
  }
}
