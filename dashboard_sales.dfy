/**
  The sales estimate of the dashboard endpoint (`GET /api/dashboard`): month selection and
  shifting, the length of a membership in months, the clamp on the unit price, the empty
  per-day series of the selected month, and the loop that adds every member's estimated sales
  to the bucket of its start month and, for the selected month, to the bucket of its start day.
 */
module DashboardSales {
  import opened Wrappers
  import opened Text
  import opened Calendar

  const DefaultUnitPrice := 150000
  const MinUnitPrice := 10000
  const MaxUnitPrice := 500000

  // ---------------------------------------------------------------------------------------
  // Months

  /** `MonthRef` */
  datatype MonthRef = MonthRef(year: int, month: int, key: string, text: string)

  /** `monthKeyFromParts`: `${year}-${mm}`. */
  function MonthKeyFromParts(year: int, month: int): string {
    IntToString(year) + "-" + Pad2(month)
  }

  /** `monthLabel`: `${year}년 ${month}월`. */
  function MonthLabel(year: int, month: int): string {
    IntToString(year) + "년 " + IntToString(month) + "월"
  }

  /** `monthKey(date)` */
  function MonthKey(d: Date): string {
    MonthKeyFromParts(d.year, d.month)
  }

  function RefOf(year: int, month: int): MonthRef {
    MonthRef(year, month, MonthKeyFromParts(year, month), MonthLabel(year, month))
  }

  /** The regex `^(\d{4})-(\d{2})$`. */
  predicate IsMonthFormat(s: string) {
    |s| == 7 && AllDigits(s[..4]) && s[4] == '-' && AllDigits(s[5..])
  }

  /** `normalizeMonth(raw)`, with the current date passed in: a `YYYY-MM` text with a month
      in 1..12 selects that month, anything else (including no text) today's month. */
  function NormalizeMonth(raw: Option<string>, today: Date): (r: MonthRef)
    requires ValidDate(today)
    ensures 1 <= r.month <= 12 && r == RefOf(r.year, r.month)
    ensures !(raw.Some? && IsMonthFormat(raw.value)) ==> r.year == today.year && r.month == today.month
  {
    if raw.None? || raw.value == "" || !IsMonthFormat(raw.value) then RefOf(today.year, today.month)
    else
      var year := DigitsValue(raw.value[..4]);
      var month := DigitsValue(raw.value[5..]);
      if month < 1 || month > 12 then RefOf(today.year, today.month) else RefOf(year, month)
  }

  /** A selected month whose key does not parse to a month in 1..12 falls back to today. */
  lemma NormalizeMonthOutOfRange(raw: string, today: Date)
    requires ValidDate(today) && IsMonthFormat(raw)
    requires !(1 <= DigitsValue(raw[5..]) <= 12)
    ensures NormalizeMonth(Some(raw), today) == RefOf(today.year, today.month)
  {
  }

  /** The key of a four-digit-year month selects that month again. */
  lemma NormalizeMonthOfKey(year: int, month: int, today: Date)
    requires 1000 <= year <= 9999 && 1 <= month <= 12 && ValidDate(today)
    ensures IsMonthFormat(MonthKeyFromParts(year, month))
    ensures NormalizeMonth(Some(MonthKeyFromParts(year, month)), today) == RefOf(year, month)
  {
    var y := IntToString(year);
    var k := MonthKeyFromParts(year, month);
    NatToStringFourDigits(year);
    Pad2Digits(month);
    DigitsValueOfNatToString(year);
    assert y == NatToString(year);
    assert k[..4] == y && k[4] == '-' && k[5..] == Pad2(month);
  }

  /** `shiftMonth(base, delta)`: the month of `new Date(base.year, base.month - 1 + delta, 1)`. */
  function ShiftMonth(base: MonthRef, delta: int): MonthRef {
    var shifted := MakeDate(base.year, base.month - 1 + delta, 1);
    RefOf(shifted.year, shifted.month)
  }

  lemma FirstOfMonth(y: int, m: int)
    requires 1 <= m <= 12
    ensures Normalize(y, m, 1) == Date(y, m, 1)
  {
  }

  /** Shifting carries into the year: the month stays in 1..12. */
  lemma ShiftMonthCarries(base: MonthRef, delta: int)
    requires 1 <= base.month <= 12
    ensures ShiftMonth(base, delta)
         == RefOf(ShiftYear(JsFullYear(base.year), base.month, delta), ShiftMonthOfYear(base.month, delta))
    ensures 1 <= ShiftMonth(base, delta).month <= 12
  {
    var mi := base.month - 1 + delta;
    assert mi % 12 + 1 == ShiftMonthOfYear(base.month, delta);
    FirstOfMonth(JsFullYear(base.year) + mi / 12, mi % 12 + 1);
  }

  /** January shifted back by one month is December of the previous year. */
  lemma ShiftJanuaryBack(base: MonthRef)
    requires base.month == 1 && !(0 <= base.year <= 99)
    ensures ShiftMonth(base, -1) == RefOf(base.year - 1, 12)
  {
    ShiftMonthCarries(base, -1);
  }

  /** Shifting by `a` and then by `b` is shifting by `a + b`, away from the two-digit years. */
  lemma ShiftMonthCompose(base: MonthRef, a: int, b: int)
    requires 1 <= base.month <= 12 && !(0 <= base.year <= 99)
    requires !(0 <= ShiftMonth(base, a).year <= 99)
    ensures ShiftMonth(ShiftMonth(base, a), b) == ShiftMonth(base, a + b)
  {
    var y1, m1 := ShiftYear(base.year, base.month, a), ShiftMonthOfYear(base.month, a);
    var y3, m3 := ShiftYear(base.year, base.month, a + b), ShiftMonthOfYear(base.month, a + b);
    ShiftMonthTo(base, a, y1, m1);
    ShiftCompose(base.year, base.month, a, b);
    ShiftMonthTo(RefOf(y1, m1), b, y3, m3);
    ShiftMonthTo(base, a + b, y3, m3);
  }

  lemma ShiftMonthTo(base: MonthRef, delta: int, year: int, month: int)
    requires 1 <= base.month <= 12
    requires ShiftYear(JsFullYear(base.year), base.month, delta) == year
    requires ShiftMonthOfYear(base.month, delta) == month
    ensures ShiftMonth(base, delta) == RefOf(year, month)
  {
    ShiftMonthCarries(base, delta);
  }

  // ---------------------------------------------------------------------------------------
  // Durations and prices

  /** `durationMonths(start, expire)`: whole calendar months from the start month to the
      expire month, at least 1; 1 when either date is invalid or expiry precedes the start. */
  function DurationMonths(startRaw: string, expireRaw: string): (r: int)
    ensures r >= 1
  {
    var start := ParseDateOnly(startRaw);
    var end := ParseDateOnly(expireRaw);
    if start.None? || end.None? || DayNumberOf(end.value) < DayNumberOf(start.value) then 1
    else Max(1, (end.value.year - start.value.year) * 12 + (end.value.month - start.value.month))
  }

  /** On formatted dates: 1 when the expiry is before the start, otherwise the difference
      in months, ignoring the days of the month, and at least 1. */
  lemma DurationOfDates(start: Date, end: Date)
    requires ValidDate(start) && ValidDate(end)
    requires 1000 <= start.year <= 9999 && 1000 <= end.year <= 9999
    ensures DurationMonths(FormatDate(start), FormatDate(end))
         == if Before(end, start) then 1 else Max(1, 12 * (end.year - start.year) + end.month - start.month)
  {
    FormatDateRoundTrip(start);
    FormatDateRoundTrip(end);
    DayNumberOrder(end, start);
  }

  /** The unit price: the `unitPrice` parameter, or 150000 when it is absent, blank or not a
      number, clamped to 10000..500000. */
  function UnitPrice(param: Option<string>): (r: int)
    ensures MinUnitPrice <= r <= MaxUnitPrice
  {
    var parsed := if param.None? || param.value == "" then Some(DefaultUnitPrice) else NumberValue(param.value);
    var value := if parsed.Some? then parsed.value else DefaultUnitPrice;
    Min(MaxUnitPrice, Max(MinUnitPrice, value))
  }

  /** An integer parameter inside the range is taken as it is, others are clamped, and
      anything that is not a number gives the default. */
  lemma UnitPriceCases(param: string)
    requires param != ""
    ensures NumberValue(param).None? ==> UnitPrice(Some(param)) == DefaultUnitPrice
    ensures NumberValue(param).Some? ==>
      var v := NumberValue(param).value;
      UnitPrice(Some(param)) == (if v < MinUnitPrice then MinUnitPrice else if v > MaxUnitPrice then MaxUnitPrice else v)
  {
  }

  lemma UnitPriceDefault()
    ensures UnitPrice(None) == DefaultUnitPrice && UnitPrice(Some("")) == DefaultUnitPrice
  {
  }

  // ---------------------------------------------------------------------------------------
  // The per-day series

  /** `DailySalesPoint` */
  datatype DailyPoint = DailyPoint(date: string, day: int, sales: int, count: nat)

  /** `new Date(year, month, 0).getDate()`: the last day of the month. */
  function DaysOf(year: int, month: int): int {
    MakeDate(year, month, 0).day
  }

  /** Day 0 of the following month is the last day of the month: one entry per day, 29 for
      February of a leap year. */
  lemma DaysOfMonth(year: int, month: int)
    requires 1 <= month <= 12
    ensures DaysOf(year, month) == DaysInMonth(JsFullYear(year), month)
  {
    var y := JsFullYear(year);
    if month < 12 {
      assert month / 12 == 0 && month % 12 + 1 == month + 1;
      assert Normalize(y, month + 1, 0) == Normalize(y, month, DaysInMonth(y, month));
      assert Normalize(y, month, DaysInMonth(y, month)) == Date(y, month, DaysInMonth(y, month));
    } else {
      assert month / 12 == 1 && month % 12 + 1 == 1;
      assert Normalize(y + 1, 1, 0) == Normalize(y, 12, DaysInMonth(y, 12));
      assert Normalize(y, 12, DaysInMonth(y, 12)) == Date(y, 12, DaysInMonth(y, 12));
    }
  }

  /** The empty point of one day. */
  function EmptyPoint(year: int, month: int, day: int): DailyPoint {
    DailyPoint(FormatDate(Date(year, month, day)), day, 0, 0)
  }

  /** The series `getDailySeries` builds: one empty point per day of the month. */
  function EmptySeries(year: int, month: int): seq<DailyPoint> {
    seq(Max(0, DaysOf(year, month)), i => EmptyPoint(year, month, i + 1))
  }

  /** `getDailySeries(year, month)` */
  method GetDailySeries(year: int, month: int) returns (points: seq<DailyPoint>)
    ensures |points| == Max(0, DaysOf(year, month))
    ensures forall i :: 0 <= i < |points| ==> points[i] == EmptyPoint(year, month, i + 1)
  {
    var days := DaysOf(year, month);
    points := [];
    var day := 1;
    while day <= days
      invariant 1 <= day && |points| == day - 1 && (days >= 1 ==> day <= days + 1)
      invariant forall i :: 0 <= i < |points| ==> points[i] == EmptyPoint(year, month, i + 1)
    {
      points := points + [EmptyPoint(year, month, day)];
      day := day + 1;
    }
  }

  // ---------------------------------------------------------------------------------------
  // Aggregation

  /** `MemberRevenueRow` */
  datatype RevenueRow = RevenueRow(startDate: Option<string>, expireDate: string, createdAt: string)

  /** What one member adds: its start month key, its start date and its estimated sales. */
  datatype Contribution = Contribution(key: string, start: Date, sales: int)

  function Prefix10(s: string): string {
    if |s| <= 10 then s else s[..10]
  }

  /** `parseISODate(created_at)`, read as the calendar date of its first ten characters. */
  function ParseIsoDate(s: string): Option<Date> {
    ParseDateOnly(Prefix10(s))
  }

  /** The body of the member loop up to the bucket updates: members without an expire date,
      without any start text or with an invalid start date add nothing. */
  function ContributionOf(m: RevenueRow, unitPrice: int): (r: Option<Contribution>)
    ensures r.Some? ==> ValidDate(r.value.start) && r.value.key == MonthKey(r.value.start)
    ensures r.Some? ==> r.value.start.year >= 100
  {
    if m.expireDate == "" then None
    else
      var hasStart := m.startDate.Some? && m.startDate.value != "";
      var source := if hasStart then m.startDate.value else Prefix10(m.createdAt);
      if source == "" then None
      else
        var start := if hasStart then ParseDateOnly(m.startDate.value) else ParseIsoDate(m.createdAt);
        assert start.Some? ==> start.value.year >= 100 by {
          if hasStart { ParseDateOnlyYear(m.startDate.value); } else { ParseDateOnlyYear(Prefix10(m.createdAt)); }
        }
        if start.None? then None
        else Some(Contribution(MonthKey(start.value), start.value, DurationMonths(source, m.expireDate) * unitPrice))
  }

  /** How each member row contributes; the handler uses `ContributorOf(unitPrice)`. */
  type Contributor = RevenueRow -> Option<Contribution>

  function ContributorOf(unitPrice: int): Contributor {
    (m: RevenueRow) => ContributionOf(m, unitPrice)
  }

  /** Every contribution falls into the month bucket of its own start date, which is never in
      the years 0..99. */
  ghost predicate KeyedByStart(contribute: Contributor) {
    forall m :: contribute(m).Some? ==>
      ValidDate(contribute(m).value.start) && contribute(m).value.key == MonthKey(contribute(m).value.start) &&
      contribute(m).value.start.year >= 100
  }

  lemma ContributorKeyedByStart(unitPrice: int)
    ensures KeyedByStart(ContributorOf(unitPrice))
  {
    forall m: RevenueRow ensures ContributorOf(unitPrice)(m) == ContributionOf(m, unitPrice) {
    }
  }

  /** `{ estimated_sales, member_count }` */
  datatype Bucket = Bucket(sales: int, count: nat)

  type Buckets = map<string, Bucket>

  function BucketAt(b: Buckets, key: string): Bucket {
    if key in b then b[key] else Bucket(0, 0)
  }

  function AddToMonth(b: Buckets, c: Contribution): Buckets {
    var before := BucketAt(b, c.key);
    b[c.key := Bucket(before.sales + c.sales, before.count + 1)]
  }

  /** The day bucket a contribution falls into, when it is in the selected month and its day
      is a day of the series. */
  function AddToDay(points: seq<DailyPoint>, c: Contribution, selectedKey: string): seq<DailyPoint> {
    var i := c.start.day - 1;
    if c.key != selectedKey || i < 0 || i >= |points| then points
    else points[i := points[i].(sales := points[i].sales + c.sales, count := points[i].count + 1)]
  }

  /** The monthly buckets after visiting `members`. */
  function Monthly(members: seq<RevenueRow>, contribute: Contributor): Buckets
    decreases |members|
  {
    if members == [] then map[]
    else
      var n := |members| - 1;
      var b := Monthly(members[..n], contribute);
      match contribute(members[n])
      case None => b
      case Some(c) => AddToMonth(b, c)
  }

  /** The daily series after visiting `members`, starting from `points`. */
  function Daily(members: seq<RevenueRow>, contribute: Contributor, selectedKey: string, points: seq<DailyPoint>): seq<DailyPoint>
    decreases |members|
  {
    if members == [] then points
    else
      var n := |members| - 1;
      var d := Daily(members[..n], contribute, selectedKey, points);
      match contribute(members[n])
      case None => d
      case Some(c) => AddToDay(d, c, selectedKey)
  }

  /** One more member adds its contribution, if any, to both kinds of bucket. */
  lemma BucketsStep(members: seq<RevenueRow>, i: nat, contribute: Contributor, selectedKey: string, points: seq<DailyPoint>)
    requires i < |members|
    ensures var c := contribute(members[i]);
      var m := Monthly(members[..i], contribute);
      var d := Daily(members[..i], contribute, selectedKey, points);
      Monthly(members[..i + 1], contribute) == (if c.Some? then AddToMonth(m, c.value) else m) &&
      Daily(members[..i + 1], contribute, selectedKey, points) == (if c.Some? then AddToDay(d, c.value, selectedKey) else d)
  {
    assert members[..i + 1][..i] == members[..i];
    assert members[..i + 1][i] == members[i];
  }

  /** The loop body for one member that contributes: its month bucket and, in the selected
      month, its day bucket gain its sales and one member. */
  method AddContribution(monthly: Buckets, c: Contribution, selectedKey: string, dailySales: array<DailyPoint>)
    returns (updated: Buckets)
    modifies dailySales
    ensures updated == AddToMonth(monthly, c)
    ensures dailySales[..] == AddToDay(old(dailySales[..]), c, selectedKey)
  {
    var key := c.key;
    var monthBucket := if key in monthly then monthly[key] else Bucket(0, 0);
    updated := monthly[key := Bucket(monthBucket.sales + c.sales, monthBucket.count + 1)];
    if key == selectedKey {
      var dayIndex := c.start.day - 1;
      if 0 <= dayIndex < dailySales.Length {
        var p := dailySales[dayIndex];
        dailySales[dayIndex] := p.(sales := p.sales + c.sales, count := p.count + 1);
        assert dailySales[..] == old(dailySales[..])[dayIndex := p.(sales := p.sales + c.sales, count := p.count + 1)];
      }
    }
  }

  /** The member loop of the dashboard handler, updating the day buckets in place; what one
      member contributes is computed by `contribute`. */
  method Aggregate(members: seq<RevenueRow>, contribute: Contributor, selectedKey: string, dailySales: array<DailyPoint>)
    returns (monthly: Buckets)
    modifies dailySales
    ensures monthly == Monthly(members, contribute)
    ensures dailySales[..] == Daily(members, contribute, selectedKey, old(dailySales[..]))
  {
    ghost var initial := dailySales[..];
    monthly := map[];
    var i := 0;
    while i < |members|
      invariant 0 <= i <= |members|
      invariant monthly == Monthly(members[..i], contribute)
      invariant dailySales[..] == Daily(members[..i], contribute, selectedKey, initial)
    {
      ghost var before, counted := dailySales[..], monthly;
      var c := contribute(members[i]);
      if c.Some? {
        monthly := AddContribution(monthly, c.value, selectedKey, dailySales);
      }
      assert monthly == (if c.Some? then AddToMonth(counted, c.value) else counted);
      assert dailySales[..] == (if c.Some? then AddToDay(before, c.value, selectedKey) else before);
      BucketsStep(members, i, contribute, selectedKey, initial);
      i := i + 1;
    }
    assert members[..i] == members;
  }

  /** `dailySales.reduce((sum, point) => sum + point.estimated_sales, 0)` */
  function Sum(points: seq<DailyPoint>): int {
    if points == [] then 0 else points[0].sales + Sum(points[1..])
  }

  function Count(points: seq<DailyPoint>): int {
    if points == [] then 0 else points[0].count + Count(points[1..])
  }

  lemma {:induction false} SumUpdate(points: seq<DailyPoint>, i: nat, p: DailyPoint)
    requires i < |points|
    ensures Sum(points[i := p]) == Sum(points) - points[i].sales + p.sales
    ensures Count(points[i := p]) == Count(points) - points[i].count + p.count
    decreases |points|
  {
    if i == 0 {
      assert points[i := p][1..] == points[1..];
    } else {
      assert points[i := p][1..] == points[1..][i - 1 := p];
      SumUpdate(points[1..], i - 1, p);
    }
  }

  /** Different months have different keys. */
  lemma MonthKeyInjective(y1: int, m1: int, y2: int, m2: int)
    requires 1 <= m1 <= 12 && 1 <= m2 <= 12
    requires MonthKeyFromParts(y1, m1) == MonthKeyFromParts(y2, m2)
    ensures y1 == y2 && m1 == m2
  {
    Pad2Digits(m1);
    Pad2Digits(m2);
    var a1, a2 := IntToString(y1), IntToString(y2);
    var k := MonthKeyFromParts(y1, m1);
    assert |a1| == |a2|;
    assert k[..|a1|] == a1 && MonthKeyFromParts(y2, m2)[..|a2|] == a2;
    IntToStringInjective(y1, y2);
    assert k[|a1| + 1..] == Pad2(m1) && MonthKeyFromParts(y2, m2)[|a2| + 1..] == Pad2(m2);
  }

  function SalesAt(b: Buckets, key: string): int {
    BucketAt(b, key).sales
  }

  /** Every contribution keyed `key` starts on one of the days `1..days`. */
  ghost predicate DaysWithin(contribute: Contributor, key: string, days: int) {
    forall m :: contribute(m).Some? && contribute(m).value.key == key ==>
      1 <= contribute(m).value.start.day <= days
  }

  /** Months of different years or numbers have different keys. */
  lemma MonthKeyDiffers(y1: int, m1: int, y2: int, m2: int)
    requires 1 <= m1 <= 12 && 1 <= m2 <= 12 && (y1 != y2 || m1 != m2)
    ensures MonthKeyFromParts(y1, m1) != MonthKeyFromParts(y2, m2)
  {
    if MonthKeyFromParts(y1, m1) == MonthKeyFromParts(y2, m2) {
      MonthKeyInjective(y1, m1, y2, m2);
    }
  }

  /** A contribution in the selected month starts on one of the days of its series: for a
      month outside the years 0..99 because it is that month, and for a month in those years
      because no start date has that key. */
  lemma KeyedDaysWithin(contribute: Contributor, year: int, month: int)
    requires KeyedByStart(contribute) && 1 <= month <= 12
    ensures DaysWithin(contribute, MonthKeyFromParts(year, month), DaysInMonth(JsFullYear(year), month))
  {
    var key := MonthKeyFromParts(year, month);
    if 0 <= year <= 99 {
      forall m | contribute(m).Some?
        ensures contribute(m).value.key != key
      {
        var s := contribute(m).value.start;
        MonthKeyDiffers(s.year, s.month, year, month);
      }
    } else {
      forall m | contribute(m).Some? && contribute(m).value.key == key
        ensures 1 <= contribute(m).value.start.day <= DaysInMonth(year, month)
      {
        var s := contribute(m).value.start;
        MonthKeyInjective(s.year, s.month, year, month);
      }
    }
  }

  /** One contribution adds to the day buckets of the selected month what it adds to that
      month's bucket. */
  lemma ContributionMatches(d: seq<DailyPoint>, b: Buckets, c: Contribution, key: string)
    requires c.key == key ==> 1 <= c.start.day <= |d|
    ensures var e := AddToDay(d, c, key);
      |e| == |d| &&
      Sum(e) == Sum(d) + SalesAt(AddToMonth(b, c), key) - SalesAt(b, key) &&
      Count(e) == Count(d) + BucketAt(AddToMonth(b, c), key).count - BucketAt(b, key).count
  {
    if c.key == key {
      var i := c.start.day - 1;
      SumUpdate(d, i, d[i].(sales := d[i].sales + c.sales, count := d[i].count + 1));
    }
  }

  /** Conservation: the day buckets of the selected month gain exactly what its month bucket
      gains, in sales and in members, when every contribution to that month falls on a day of
      the series. */
  lemma {:induction false} DailyMatchesMonthly(members: seq<RevenueRow>, contribute: Contributor, key: string, points: seq<DailyPoint>)
    requires DaysWithin(contribute, key, |points|)
    ensures var d := Daily(members, contribute, key, points);
      |d| == |points| &&
      Sum(d) == Sum(points) + SalesAt(Monthly(members, contribute), key) &&
      Count(d) == Count(points) + BucketAt(Monthly(members, contribute), key).count
    decreases |members|
  {
    if members != [] {
      var n := |members| - 1;
      DailyMatchesMonthly(members[..n], contribute, key, points);
      var c := contribute(members[n]);
      if c.Some? {
        ContributionMatches(Daily(members[..n], contribute, key, points), Monthly(members[..n], contribute), c.value, key);
      }
    }
  }

  /** The sales figures of the dashboard response. */
  datatype SalesSummary = SalesSummary(
    unitPrice: int, selectedMonth: string, selectedMonthLabel: string, dailySales: seq<DailyPoint>,
    selectedMonthSales: int, currentMonthSales: int, previousMonthSales: int)

  /** The sales part of the dashboard handler, given the query parameters, today and the
      live members in creation order. The day series is the empty series of the selected month
      with every member's contribution added to its start day; the selected month's sales are
      the sum of that series and equal its month bucket, in sales and in members; the current
      and previous month figures are their buckets, 0 when there is none. */
  method DashboardSales(monthParam: Option<string>, unitPriceParam: Option<string>, today: Date, members: seq<RevenueRow>)
    returns (summary: SalesSummary)
    requires ValidDate(today)
    ensures var selected := NormalizeMonth(monthParam, today);
      var current := NormalizeMonth(None, today);
      var monthly := Monthly(members, ContributorOf(summary.unitPrice));
      && summary.unitPrice == UnitPrice(unitPriceParam)
      && MinUnitPrice <= summary.unitPrice <= MaxUnitPrice
      && summary.selectedMonth == selected.key && summary.selectedMonthLabel == selected.text
      && |summary.dailySales| == DaysInMonth(JsFullYear(selected.year), selected.month)
      && summary.dailySales
         == Daily(members, ContributorOf(summary.unitPrice), selected.key, EmptySeries(selected.year, selected.month))
      && summary.selectedMonthSales == Sum(summary.dailySales)
      && summary.selectedMonthSales == SalesAt(monthly, selected.key)
      && Count(summary.dailySales) == BucketAt(monthly, selected.key).count
      && summary.currentMonthSales == SalesAt(monthly, current.key)
      && summary.previousMonthSales == SalesAt(monthly, ShiftMonth(current, -1).key)
  {
    var selected := NormalizeMonth(monthParam, today);
    var current := NormalizeMonth(None, today);
    var previous := ShiftMonth(current, -1);
    var unitPrice := UnitPrice(unitPriceParam);
    var series := GetDailySeries(selected.year, selected.month);
    DaysOfMonth(selected.year, selected.month);
    var dailySales := new DailyPoint[|series|](i requires 0 <= i < |series| => series[i]);
    assert dailySales[..] == series;
    var monthly := Aggregate(members, ContributorOf(unitPrice), selected.key, dailySales);
    ContributorKeyedByStart(unitPrice);
    KeyedDaysWithin(ContributorOf(unitPrice), selected.year, selected.month);
    DailyMatchesMonthly(members, ContributorOf(unitPrice), selected.key, series);
    ZeroSeries(series);
    assert series == EmptySeries(selected.year, selected.month);
    var selectedMonthSales := Sum(dailySales[..]);
    var currentMonthSales := if current.key in monthly then monthly[current.key].sales else 0;
    var previousMonthSales := if previous.key in monthly then monthly[previous.key].sales else 0;
    summary := SalesSummary(unitPrice, selected.key, selected.text, dailySales[..],
                            selectedMonthSales, currentMonthSales, previousMonthSales);
  }

  lemma {:induction false} ZeroSeries(points: seq<DailyPoint>)
    requires forall i :: 0 <= i < |points| ==> points[i].sales == 0 && points[i].count == 0
    ensures Sum(points) == 0 && Count(points) == 0
  {
    if points != [] {
      ZeroSeries(points[1..]);
    }
  }
}
