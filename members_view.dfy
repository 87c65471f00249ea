/**
  The member list page's own helpers (`src/app/members/page.tsx`): the expiry date a plan
  of some months gives, the day difference to an expiry date and the status it implies, the
  D-day text, the phone display, the member's age, and the state, stripe count and chip a row
  shows. "Today" is a parameter; the page reads it from the clock.
 */
module MembersView {
  import opened Wrappers
  import opened Text
  import opened Calendar

  // ---------------------------------------------------------------------------------------
  // Expiry dates

  /** `toDateString(date)`: an invalid date prints `NaN` in every part. */
  function DateString(d: Option<Date>): string {
    if d.None? then "NaN-NaN-NaN" else FormatDate(d.value)
  }

  /** The date `addMonthsToDateString` builds from a valid base date: the first of the month
      `months` later, the last day of that month, then the base day clamped to it. */
  function AddMonths(base: Date, months: int): (r: Date)
    ensures ValidDate(r)
  {
    var monthStart := MakeDate(base.year, base.month - 1 + months, 1);
    var endDay := MakeDate(monthStart.year, monthStart.month - 1 + 1, 0).day;
    var day := Min(base.day, endDay);
    MakeDate(monthStart.year, monthStart.month - 1, day)
  }

  /** `addMonthsToDateString(baseDate, months)` */
  function AddMonthsToDateString(baseDate: string, months: int): string {
    var base := ParseDateOnly(baseDate);
    DateString(if base.None? then None else Some(AddMonths(base.value, months)))
  }

  /** Day 0 of the month after `(y, m)` is the last day of `(y, m)`. */
  lemma LastDayOfMonth(y: int, m: int)
    requires 1 <= m <= 12 && !(0 <= y <= 99)
    ensures MakeDate(y, m, 0) == Date(y, m, DaysInMonth(y, m))
  {
    var year, month := y + m / 12, m % 12 + 1;
    var py := if month == 1 then year - 1 else year;
    var pm := if month == 1 then 12 else month - 1;
    assert py == y && pm == m;
    assert Normalize(year, month, 0) == Normalize(py, pm, DaysInMonth(py, pm));
  }

  /** The month advances with a carry into the year, and the day is the base day clamped to
      the length of the target month (away from the two-digit years, which `Date` reads as
      19xx). */
  lemma AddMonthsClamps(base: Date, months: int)
    requires ValidDate(base) && !(0 <= base.year <= 99)
    requires !(0 <= ShiftYear(base.year, base.month, months) <= 99)
    ensures var y, m := ShiftYear(base.year, base.month, months), ShiftMonthOfYear(base.month, months);
      AddMonths(base, months) == Date(y, m, Min(base.day, DaysInMonth(y, m)))
  {
    var y, m := ShiftYear(base.year, base.month, months), ShiftMonthOfYear(base.month, months);
    var monthStart := MakeDate(base.year, base.month - 1 + months, 1);
    assert monthStart == Date(y, m, 1);
    LastDayOfMonth(y, m);
    var day := Min(base.day, DaysInMonth(y, m));
    assert (m - 1) / 12 == 0 && (m - 1) % 12 + 1 == m;
    assert MakeDate(y, m - 1, day) == Date(y, m, day);
  }

  /** Adding no months gives the base date back. */
  lemma AddMonthsZero(base: Date)
    requires ValidDate(base) && !(0 <= base.year <= 99)
    ensures AddMonths(base, 0) == base
  {
    ShiftZero(base.year, base.month);
    AddMonthsClamps(base, 0);
  }

  /** On text: a valid date with a four-digit year comes back unchanged after 0 months. */
  lemma AddNoMonthsToDateString(d: Date)
    requires ValidDate(d) && 1000 <= d.year <= 9999
    ensures AddMonthsToDateString(FormatDate(d), 0) == FormatDate(d)
  {
    FormatDateRoundTrip(d);
    AddMonthsZero(d);
  }

  /** On text: a date written `YYYY-MM-DD` advances to the clamped date of the target month. */
  lemma AddMonthsText(base: Date, months: int)
    requires ValidDate(base) && 1000 <= base.year <= 9999
    requires !(0 <= ShiftYear(base.year, base.month, months) <= 99)
    ensures var y, m := ShiftYear(base.year, base.month, months), ShiftMonthOfYear(base.month, months);
      AddMonthsToDateString(FormatDate(base), months) == FormatDate(Date(y, m, Min(base.day, DaysInMonth(y, m))))
  {
    FormatDateParses(base);
    AddMonthsClamps(base, months);
  }

  /** January 31 plus one month is the last day of February: the 29th in a leap year such as
      2024 and the 28th in a common year such as 2023. */
  lemma AddMonthFromJanuary31(year: int)
    requires 1000 <= year <= 9999
    ensures AddMonthsToDateString(FormatDate(Date(year, 1, 31)), 1)
         == FormatDate(Date(year, 2, if IsLeapYear(year) then 29 else 28))
  {
    AddMonthsText(Date(year, 1, 31), 1);
  }

  /** The text is `NaN-NaN-NaN` exactly when the base date has no numeric year. */
  lemma AddMonthsInvalid(baseDate: string, months: int)
    ensures AddMonthsToDateString(baseDate, months) == "NaN-NaN-NaN" <==> ParseDateOnly(baseDate).None?
  {
    var base := ParseDateOnly(baseDate);
    if base.Some? {
      var d := AddMonths(base.value, months);
      var s := FormatDate(d);
      assert s[0] == IntToString(d.year)[0];
      assert s[0] == '-' || IsDigit(s[0]);
    }
  }

  // ---------------------------------------------------------------------------------------
  // Expiry status

  /** `dayDiffFromToday(expireDate)`: whole days from today's midnight to the expiry date's
      midnight; `None` is NaN, when the expiry date has no numeric year. */
  function DayDiffFromToday(expireDate: string, today: Date): Option<int>
    requires ValidDate(today)
  {
    var expire := ParseDateOnly(expireDate);
    if expire.None? then None else Some(DayNumberOf(expire.value) - DayNumberOf(today))
  }

  /** The difference is negative exactly for a date before today and zero exactly for today. */
  lemma DayDiffSign(expireDate: string, today: Date)
    requires ValidDate(today) && ParseDateOnly(expireDate).Some?
    ensures var diff, expire := DayDiffFromToday(expireDate, today).value, ParseDateOnly(expireDate).value;
      (diff < 0 <==> Before(expire, today)) && (diff == 0 <==> expire == today)
  {
    DayNumberOrder(ParseDateOnly(expireDate).value, today);
  }

  /** Today's own date is day 0. */
  lemma DayDiffOfToday(today: Date)
    requires ValidDate(today) && 1000 <= today.year <= 9999
    ensures DayDiffFromToday(FormatDate(today), today) == Some(0)
  {
    FormatDateRoundTrip(today);
  }

  /** `MemberStatus` */
  datatype Status = Normal | Expiring | Overdue

  /** The classification of `statusFromExpireDate`, on the day difference; NaN fails every
      comparison and is NORMAL. */
  function StatusOfDiff(diff: Option<int>): (r: Status)
    ensures r == Overdue <==> diff.Some? && diff.value < 0
    ensures r == Expiring <==> diff.Some? && 0 <= diff.value <= 7
    ensures r == Normal <==> diff.None? || diff.value > 7
  {
    if diff.Some? && diff.value < 0 then Overdue
    else if diff.Some? && diff.value <= 7 then Expiring
    else Normal
  }

  /** `statusFromExpireDate(expireDate)` */
  function StatusFromExpireDate(expireDate: string, today: Date): Status
    requires ValidDate(today)
  {
    StatusOfDiff(DayDiffFromToday(expireDate, today))
  }

  lemma StatusBoundaries()
    ensures StatusOfDiff(Some(-1)) == Overdue && StatusOfDiff(Some(0)) == Expiring
    ensures StatusOfDiff(Some(7)) == Expiring && StatusOfDiff(Some(8)) == Normal
  {
  }

  /** How urgent a status is. */
  function Urgency(s: Status): nat {
    match s
    case Normal => 0
    case Expiring => 1
    case Overdue => 2
  }

  /** A later expiry is never more urgent. */
  lemma StatusMonotone(a: int, b: int)
    requires a <= b
    ensures Urgency(StatusOfDiff(Some(b))) <= Urgency(StatusOfDiff(Some(a)))
  {
  }

  /** `resolveStatus(member)`: the server's status when it is one of the three, otherwise the
      status computed from the expiry date (`undefined` and `DELETED` included). */
  function ResolveStatus(status: Option<string>, expireDate: string, today: Date): (r: Status)
    requires ValidDate(today)
    ensures status == Some("NORMAL") ==> r == Normal
    ensures status == Some("EXPIRING") ==> r == Expiring
    ensures status == Some("OVERDUE") ==> r == Overdue
    ensures !(status.Some? && status.value in ["NORMAL", "EXPIRING", "OVERDUE"]) ==>
      r == StatusFromExpireDate(expireDate, today)
  {
    if status == Some("NORMAL") then Normal
    else if status == Some("EXPIRING") then Expiring
    else if status == Some("OVERDUE") then Overdue
    else StatusFromExpireDate(expireDate, today)
  }

  /** The expiry cell's tone class, from the same difference. */
  function ExpireTone(diff: Option<int>): string {
    if diff.Some? && diff.value < 0 then "expire-overdue"
    else if diff.Some? && diff.value <= 7 then "expire-warning"
    else "expire-normal"
  }

  /** The tone follows the status thresholds: overdue, expiring and normal in step. */
  lemma ExpireToneMatchesStatus(diff: Option<int>)
    ensures ExpireTone(diff) == "expire-overdue" <==> StatusOfDiff(diff) == Overdue
    ensures ExpireTone(diff) == "expire-warning" <==> StatusOfDiff(diff) == Expiring
    ensures ExpireTone(diff) == "expire-normal" <==> StatusOfDiff(diff) == Normal
  {
  }

  // ---------------------------------------------------------------------------------------
  // D-day

  /** `formatDday(diff)`; NaN fails both tests and prints `D+NaN`. */
  function FormatDday(diff: Option<int>): string {
    if diff.None? then "D+NaN"
    else if diff.value == 0 then "D-day"
    else if diff.value > 0 then "D-" + NatToString(diff.value)
    else "D+" + NatToString(-diff.value)
  }

  /** Reads a D-day text back: `D-day` is 0, `D-n` is `n` and `D+n` is `-n`. */
  function DdayValue(s: string): Option<int> {
    if s == "D-day" then Some(0)
    else if |s| > 2 && s[0] == 'D' && s[1] == '-' && AllDigits(s[2..]) then Some(DigitsValue(s[2..]))
    else if |s| > 2 && s[0] == 'D' && s[1] == '+' && AllDigits(s[2..]) then Some(0 - DigitsValue(s[2..]) as int)
    else None
  }

  /** Every day difference reads back from its text, and NaN reads back as no number. */
  lemma FormatDdayRoundTrip(diff: Option<int>)
    ensures DdayValue(FormatDday(diff)) == diff
  {
    var s := FormatDday(diff);
    if diff.None? {
      assert s[2] == 'N';
      assert !AllDigits(s[2..]);
    } else if diff.value != 0 {
      var n: nat := if diff.value > 0 then diff.value else -diff.value;
      DigitsValueOfNatToString(n);
      assert s[2..] == NatToString(n);
      assert s[2] == NatToString(n)[0];
      assert s != "D-day";
    }
  }

  /** Days left read `D-n`, days past read `D+n`: the text tells every difference apart. */
  lemma FormatDdayInjective(a: int, b: int)
    requires FormatDday(Some(a)) == FormatDday(Some(b))
    ensures a == b
  {
    FormatDdayRoundTrip(Some(a));
    FormatDdayRoundTrip(Some(b));
  }

  // ---------------------------------------------------------------------------------------
  // Phone display

  /** `formatPhoneDisplay(phone)`: 11 digits as 3-4-4, 10 digits as 3-3-4, anything else as
      it came. */
  function FormatPhoneDisplay(phone: string): (r: string)
    ensures var digits := DigitsOnly(phone);
      (|digits| == 11 ==> |r| == 13 && r[3] == '-' && r[8] == '-') &&
      (|digits| == 10 ==> |r| == 12 && r[3] == '-' && r[7] == '-') &&
      (|digits| != 11 && |digits| != 10 ==> r == phone)
  {
    var digits := DigitsOnly(phone);
    if |digits| == 11 then digits[..3] + "-" + digits[3..7] + "-" + digits[7..]
    else if |digits| == 10 then digits[..3] + "-" + digits[3..6] + "-" + digits[6..]
    else phone
  }

  /** Removing everything but the digits from the display gives the phone's digits. */
  lemma FormatPhoneDigits(phone: string)
    ensures DigitsOnly(FormatPhoneDisplay(phone)) == DigitsOnly(phone)
  {
    var digits := DigitsOnly(phone);
    if |digits| == 11 {
      DashedDigits(digits[..3], digits[3..7], digits[7..]);
      assert digits[..3] + digits[3..7] + digits[7..] == digits;
    } else if |digits| == 10 {
      DashedDigits(digits[..3], digits[3..6], digits[6..]);
      assert digits[..3] + digits[3..6] + digits[6..] == digits;
    }
  }

  /** Dashes put between runs of digits are not digits. */
  lemma DashedDigits(a: string, b: string, c: string)
    requires AllDigits(a) && AllDigits(b) && AllDigits(c)
    ensures DigitsOnly(a + "-" + b + "-" + c) == a + b + c
  {
    DashDropped(a, b);
    DashDropped(a + "-" + b, c);
    DigitsOnlyFixpoint(a);
    DigitsOnlyFixpoint(b);
    DigitsOnlyFixpoint(c);
  }

  lemma DashDropped(x: string, y: string)
    ensures DigitsOnly(x + "-" + y) == DigitsOnly(x) + DigitsOnly(y)
  {
    DigitsOnlyAppend(x + "-", y);
    DigitsOnlyAppend(x, "-");
    assert DigitsOnly("-") == [];
  }

  // ---------------------------------------------------------------------------------------
  // Age

  /** `calculateAge(birthDate)`: `None` is null, for a missing or empty birth date, for a
      part that is not a number, and for a negative age. A year is taken off while today is
      before this year's birthday. */
  function CalculateAge(birthDate: Option<string>, today: Date): (r: Option<int>)
    requires ValidDate(today)
    ensures r.Some? ==> r.value >= 0
    ensures birthDate.None? || birthDate == Some("") ==> r.None?
  {
    if birthDate.None? || birthDate.value == "" then None
    else
      var parts := Split(birthDate.value, '-');
      var year, month, day := NumberValue(parts[0]), PartAt(parts, 1), PartAt(parts, 2);
      if year.None? || month.None? || day.None? then None
      else AgeFromParts(year.value, month.value, day.value, today)
  }

  /** The age once the birth date is split into numbers. */
  function AgeFromParts(year: int, month: int, day: int, today: Date): (r: Option<int>)
    requires ValidDate(today)
    ensures r.Some? ==> r.value >= 0
  {
    var birthday := MakeDate(today.year, month - 1, day);
    var age := today.year - year - (if DayNumberOf(today) < DayNumberOf(birthday) then 1 else 0);
    if age >= 0 then Some(age) else None
  }

  /** A part that is not a number gives no age. */
  lemma CalculateAgeNotNumeric(birthDate: string, today: Date)
    requires ValidDate(today)
    requires var parts := Split(birthDate, '-');
      NumberValue(parts[0]).None? || PartAt(parts, 1).None? || PartAt(parts, 2).None?
    ensures CalculateAge(Some(birthDate), today).None?
  {
  }

  /** Full years: the years between the two dates, less one while today comes before the
      birthday's month and day. */
  function FullYears(birth: Date, today: Date): int {
    today.year - birth.year -
      (if today.month < birth.month || (today.month == birth.month && today.day < birth.day) then 1 else 0)
  }

  /** For a birth date written `YYYY-MM-DD` the age is the number of full years, February 29
      included (in a common year it is reached on March 1). */
  lemma CalculateAgeFullYears(birth: Date, today: Date)
    requires ValidDate(birth) && 1000 <= birth.year <= 9999
    requires ValidDate(today) && today.year >= 100
    requires FullYears(birth, today) >= 0
    ensures CalculateAge(Some(FormatDate(birth)), today) == Some(FullYears(birth, today))
  {
    FormatDateSplits(birth);
    assert |FormatDate(birth)| > 0;
    CalculateAgeOfParts(FormatDate(birth), birth.year, birth.month, birth.day, today);
    AgeFromPartsOfBirth(birth, today);
  }

  /** A birth date after today, in full years, gives no age (null), not an age of 0. */
  lemma CalculateAgeFuture(birth: Date, today: Date)
    requires ValidDate(birth) && 1000 <= birth.year <= 9999
    requires ValidDate(today) && today.year >= 100
    requires FullYears(birth, today) < 0
    ensures CalculateAge(Some(FormatDate(birth)), today).None?
  {
    FormatDateSplits(birth);
    assert |FormatDate(birth)| > 0;
    CalculateAgeOfParts(FormatDate(birth), birth.year, birth.month, birth.day, today);
    AgeFromPartsOfBirth(birth, today);
  }

  /** Once the three parts of the text read as numbers, the age is computed from them. */
  lemma CalculateAgeOfParts(s: string, year: int, month: int, day: int, today: Date)
    requires ValidDate(today) && s != ""
    requires var parts := Split(s, '-');
      NumberValue(parts[0]) == Some(year) && PartAt(parts, 1) == Some(month) && PartAt(parts, 2) == Some(day)
    ensures CalculateAge(Some(s), today) == AgeFromParts(year, month, day, today)
  {
  }

  /** From a valid birth date, the age is its full years before today, or none when those are
      negative. */
  lemma AgeFromPartsOfBirth(birth: Date, today: Date)
    requires ValidDate(birth) && ValidDate(today) && today.year >= 100
    ensures var age := FullYears(birth, today);
      AgeFromParts(birth.year, birth.month, birth.day, today) == if age >= 0 then Some(age) else None
  {
    BirthdayOrder(birth, today);
    var behind := today.month < birth.month || (today.month == birth.month && today.day < birth.day);
    AgeFromPartsBehind(birth.year, birth.month, birth.day, today, behind);
  }

  /** The age is the difference of the years, less one while today is behind the birthday. */
  lemma AgeFromPartsBehind(year: int, month: int, day: int, today: Date, behind: bool)
    requires ValidDate(today)
    requires behind <==> DayNumberOf(today) < DayNumberOf(MakeDate(today.year, month - 1, day))
    ensures var age := today.year - year - (if behind then 1 else 0);
      AgeFromParts(year, month, day, today) == if age >= 0 then Some(age) else None
  {
  }

  /** Today comes before this year's birthday exactly when its month and day come first. */
  lemma BirthdayOrder(birth: Date, today: Date)
    requires ValidDate(birth) && ValidDate(today) && today.year >= 100
    ensures var birthday := MakeDate(today.year, birth.month - 1, birth.day);
      DayNumberOf(today) < DayNumberOf(birthday) <==>
        today.month < birth.month || (today.month == birth.month && today.day < birth.day)
  {
    var birthday := MakeDate(today.year, birth.month - 1, birth.day);
    if birth.day <= DaysInMonth(today.year, birth.month) {
      MakeDateOfValid(Date(today.year, birth.month, birth.day));
      DayNumberOrder(today, birthday);
    } else {
      CommonYearFebruary29(today.year);
      DayNumberOrder(today, birthday);
    }
  }

  /** February 29 of a common year rolls over to March 1. */
  lemma CommonYearFebruary29(y: int)
    requires y >= 100 && !IsLeapYear(y)
    ensures MakeDate(y, 1, 29) == Date(y, 3, 1)
  {
    assert DaysInMonth(y, 2) == 28;
    assert Normalize(y, 2, 29) == Normalize(y, 3, 1);
  }

  // ---------------------------------------------------------------------------------------
  // Membership state, stripes and the registration chip

  datatype MembershipState = Active | Paused

  /** `resolveMembershipState(member)` */
  function ResolveMembershipState(state: Option<string>): (r: MembershipState)
    ensures r == Paused <==> state == Some("PAUSED")
  {
    if state == Some("PAUSED") then Paused else Active
  }

  /** `resolveBeltGral(member)`: the stripe count when it is one of 0..4, otherwise 0.
      `None` stands for a missing, null or non-integer value. */
  function ResolveBeltGral(gral: Option<int>): (r: int)
    ensures 0 <= r <= 4
    ensures gral.Some? && 0 <= gral.value <= 4 ==> r == gral.value
    ensures !(gral.Some? && 0 <= gral.value <= 4) ==> r == 0
  {
    if gral.Some? && 0 <= gral.value <= 4 then gral.value else 0
  }

  /** The registration chip of a row. */
  datatype Chip = OverdueChip | PausedChip | ActiveChip

  function ChipClass(c: Chip): string {
    match c
    case OverdueChip => "chip chip-overdue"
    case PausedChip => "chip chip-paused"
    case ActiveChip => "chip chip-normal"
  }

  function ChipLabel(c: Chip): string {
    match c
    case OverdueChip => "미납"
    case PausedChip => "정지"
    case ActiveChip => "활성"
  }

  /** The chip starts as active and is replaced by the overdue chip, or else by the paused
      one. */
  function RegistrationChip(status: Status, state: MembershipState): (r: Chip)
    ensures r.OverdueChip? <==> status.Overdue?
    ensures r.PausedChip? <==> !status.Overdue? && state.Paused?
    ensures r.ActiveChip? <==> !status.Overdue? && state.Active?
  {
    if status == Overdue then OverdueChip
    else if state == Paused then PausedChip
    else ActiveChip
  }

  /** An overdue member shows the overdue chip even while paused. */
  lemma OverdueBeforePaused(state: MembershipState)
    ensures RegistrationChip(Overdue, state) == OverdueChip
  {
  }
}
