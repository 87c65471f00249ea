# Gym membership console: verified model of its business rules

This project models, in Dafny, the deterministic logic of a gym and martial-arts studio
membership console (a Next.js application over a hosted database). It covers three parts:

- **Member CSV import** (`POST /api/import/members`). The hand-written CSV tokenizer, header
  normalisation and the bilingual synonym table, per-row validation in a fixed order, and the
  reconciliation loop. That loop updates a member whose phone is already known and inserts one
  otherwise, counting created, updated and failed rows. The member store is abstract: the
  lookup of existing members and every insert or update are answered by functions passed in.
- **Dashboard sales estimate** (`GET /api/dashboard` and the dashboard page). Month selection
  and shifting, membership length in months, the unit-price clamp, the per-day series, and
  the loop that fills the monthly buckets and the selected month's day buckets in place. The
  page's own month-key shift and label, and its chart maximum and month-on-month change.
- **Member helpers**. The field normalisers, error order, new-record defaults and paging of
  `/api/members`. The member list page's expiry-date arithmetic, status classification, D-day
  text, phone display, age, membership state, stripe count and registration chip.

Dates are integer `(year, month, day)` triples in the Gregorian calendar (`Calendar`). The
JavaScript `new Date(y, monthIndex, d)` constructor is modelled exactly on integers: years
0..99 mean 19xx, the month index carries into the year, and a day outside its month rolls over.
"Today" is always a parameter.

Modules, one per source file or shared concern:

- `wrappers.dfy` (`Wrappers`): `Option`, `Result`, `Min`, `Max`.
- `text.dfy` (`Text`): `trim`, `toLowerCase`, `\s`, `\D`, `String(n)`, `padStart`, `split`, `Number`.
- `calendar.dfy` (`Calendar`): the Gregorian calendar, `new Date(...)`, `parseDateOnly`, `YYYY-MM-DD`.
- `csv.dfy` (`CsvTokenizer`): `parseCsv`.
- `import_rows.dfy` (`ImportRows`): headers, cells, normalisers, `validateCsvRow`, the row pass.
- `import_reconcile.dfy` (`ImportMembers`): the import handler and its reconciliation loop.
- `dashboard_sales.dfy` (`DashboardSales`): the dashboard handler's sales estimate.
- `dashboard_view.dfy` (`DashboardView`): the dashboard page's month keys and derived values.
- `members_view.dfy` (`MembersView`): the member list page's helpers.
- `members_api.dfy` (`MembersApi`): the `/api/members` normalisers, `POST` validation and `GET` paging.

## Model

| member | source | states |
|---|---|---|
| CsvTokenizer.ParseCsv | src/app/api/import/members/route.ts:58-110 | the character loop returns exactly the rows of the tokenizer's specification: quoted mode, `""` escape, `,` ends a field, `\n` ends a row, `\r` dropped, last row only when non-empty |
| CsvTokenizer.ScanEscaped | src/app/api/import/members/route.ts:67-78 | inside quotes `""` gives one literal `"`, and `,`, `\r`, `\n` are kept as field text, until the closing quote |
| CsvTokenizer.ScanComma | src/app/api/import/members/route.ts:85-89 | outside quotes `,` finishes the current field |
| CsvTokenizer.ScanLineEnd | src/app/api/import/members/route.ts:90-99 | outside quotes LF or CRLF finishes the current row |
| CsvTokenizer.CarriageReturnsIgnored | src/app/api/import/members/route.ts:97-99 | for text without quotes, removing every `\r` leaves the rows unchanged, so CRLF and LF files give identical rows |
| CsvTokenizer.TrailingNewline | src/app/api/import/members/route.ts:90-109 | a trailing newline after a pending row gives the same rows as no newline: it never adds an empty row |
| CsvTokenizer.RowsNonEmpty | src/app/api/import/members/route.ts:90-107 | every produced row has at least one field |
| CsvTokenizer.RoundTrip | src/app/api/import/members/route.ts:58-110 | rows serialised with fields joined by `,` and every row ended by LF or CRLF (fields quoted only when they hold `"`, `,`, `\r` or `\n`) are parsed back exactly |
| ImportRows.NormalizeHeaderShape | src/app/api/import/members/route.ts:38-45 | a normalised header has no white space, no capital letter and no `-` |
| ImportRows.NormalizeHeaderIdempotent | src/app/api/import/members/route.ts:38-45 | normalising a header twice is normalising it once |
| ImportRows.MapHeaders | src/app/api/import/members/route.ts:112-123 | the `forEach` fills the mapping column by column, keeping the first column of each field |
| ImportRows.HeaderMappingFirst | src/app/api/import/members/route.ts:112-123 | a field is mapped iff some header normalises to one of its synonyms, and then to the first such column, which is below the header length; unknown headers are ignored |
| ImportRows.GetCell | src/app/api/import/members/route.ts:125-128 | the trimmed cell, or "" for an unmapped field or a short row |
| ImportRows.NormalizePhone | src/app/api/import/members/route.ts:47-49 | the result has digits only |
| ImportRows.NormalizePhoneIdempotent | src/app/api/import/members/route.ts:47-49 | normalising a phone twice is normalising it once |
| ImportRows.NormalizeGender | src/app/api/import/members/route.ts:51-56 | 남 exactly for 남/남자/male/m and 여 exactly for 여/여자/female/f after trimming and lower-casing, null otherwise |
| ImportRows.GenderIgnoresCase | src/app/api/import/members/route.ts:51-56 | upper-casing the value does not change the gender |
| ImportRows.GenderWordsRecognised | src/app/api/import/members/route.ts:51-56 | every listed word is recognised with surrounding blanks |
| ImportRows.ValidateCsvRow | src/app/api/import/members/route.ts:130-157 | the row fails iff some check fails, with the first in the order name, phone, gender, missing expiry, expiry format, start format; on success the phone is digits, the expiry is `YYYY-MM-DD`, and start date and memo are null exactly when their cells are blank |
| ImportRows.CollectRows | src/app/api/import/members/route.ts:194-205 | the row loop sorts the data rows into payloads and errors as the specification of the pass says |
| ImportRows.TriageAccounts | src/app/api/import/members/route.ts:194-205 | every non-blank data row is one payload or one error, blank rows are in neither, data row i is reported as row i+2, in file order |
| ImportMembers.Distinct | src/app/api/import/members/route.ts:218 | the looked-up phones are those of the payloads, each once |
| ImportMembers.IndexByPhoneLast | src/app/api/import/members/route.ts:230 | the phone index has exactly the returned phones, each with the id of the last row with that phone |
| ImportMembers.MissingHeaders | src/app/api/import/members/route.ts:182-183 | a required field (name, phone, gender, expire_date) is reported iff it has no column |
| ImportMembers.Capped | src/app/api/import/members/route.ts:288-294 | at most 20 errors are returned, the first ones |
| ImportMembers.Reconcile | src/app/api/import/members/route.ts:232-286 | the reconciliation loop computes the counters, errors and store calls of its specification |
| ImportMembers.ReconciledCounts | src/app/api/import/members/route.ts:232-294 | one store call per payload, updates and inserts write only name, gender, start_date, expire_date and memo (and the phone on insert); created + updated + (failed − validation errors) equals the payload count; failed equals the error count, whose head is the validation errors |
| ImportMembers.ReconciledReplies | src/app/api/import/members/route.ts:236-286 | created is the number of inserts the store saved and updated the number of updates it saved; after the validation errors the error list holds one entry per refused call, with that payload's row and the store's message, in order; failed is the validation errors plus those |
| ImportMembers.InsertedPhoneIsUpdatedLater | src/app/api/import/members/route.ts:236-286 | once a phone has been inserted (and the store returned its id), every later payload with that phone is sent down the update path |
| ImportMembers.ImportCsv | src/app/api/import/members/route.ts:171-294 | a blank file, fewer than 2 rows, or a missing required header (listed in the message) is rejected with 400 before any store call; without a valid row, a summary of 0 with the validation errors and no store call; otherwise the distinct phones are looked up once, a failed lookup is 500 with its message, and the summary is the reconciliation's tally from the returned index (created and updated are the saved inserts and updates, failed adds the refused calls to the validation errors) with the first min(20, failed) errors |
| Calendar.ParseDateOnly | src/app/api/dashboard/route.ts:35-38 | `new Date(y, (m \|\| 1) - 1, d \|\| 1)` of the `-`-separated parts is a valid calendar date whenever the year is a number |
| Calendar.ParseDateOnlyYear | src/app/api/dashboard/route.ts:35-38 | a parsed date never lies in the years 0..99: the parts cannot be negative, two-digit years mean 19xx, and month and day only carry forward |
| Text.SplitPieces | src/app/api/dashboard/route.ts:36 | no piece of `split("-")` contains `-` |
| Text.NumberValueNatural | src/app/api/dashboard/route.ts:36 | `Number` of a text without `-` is never negative |
| Calendar.FormatDateRoundTrip | src/app/members/page.tsx:66-76 | a valid date with a four-digit year formats as `YYYY-MM-DD` and parses back to itself |
| Calendar.DayNumberOrder | src/app/members/page.tsx:86-92 | the day number used for differences follows the calendar order and identifies the date |
| DashboardSales.NormalizeMonth | src/app/api/dashboard/route.ts:60-101 | the month is in 1..12 and the key and label are those of the month; no text, or text not `YYYY-MM`, gives today's month |
| DashboardSales.NormalizeMonthOutOfRange | src/app/api/dashboard/route.ts:84-93 | a `YYYY-MM` text with a month outside 1..12 gives today's month |
| DashboardSales.NormalizeMonthOfKey | src/app/api/dashboard/route.ts:60-101 | the zero-padded key of a month with a four-digit year selects that month |
| DashboardSales.MonthKeyInjective | src/app/api/dashboard/route.ts:52-54 | different months have different keys |
| DashboardSales.ShiftMonthCarries | src/app/api/dashboard/route.ts:103-113 | shifting carries into the year and keeps the month in 1..12 |
| DashboardSales.ShiftJanuaryBack | src/app/api/dashboard/route.ts:103-113 | January shifted by -1 is December of the previous year |
| DashboardSales.ShiftMonthCompose | src/app/api/dashboard/route.ts:103-113 | shifting by a and then by b is shifting by a + b |
| DashboardSales.DurationMonths | src/app/api/dashboard/route.ts:115-121 | the duration is at least 1 |
| DashboardSales.DurationOfDates | src/app/api/dashboard/route.ts:115-121 | 1 when the expiry is before the start, otherwise max(1, 12·(ey−sy) + (em−sm)), ignoring the day of the month |
| DashboardSales.UnitPrice | src/app/api/dashboard/route.ts:149-150 | the unit price lies in 10000..500000 |
| DashboardSales.UnitPriceCases | src/app/api/dashboard/route.ts:149-150 | a non-number gives 150000, a number is clamped to the range |
| DashboardSales.UnitPriceDefault | src/app/api/dashboard/route.ts:149 | no parameter, or an empty one, gives 150000 |
| DashboardSales.DaysOfMonth | src/app/api/dashboard/route.ts:124 | day 0 of the next month is the last day of the month, 29 for February of a leap year |
| DashboardSales.GetDailySeries | src/app/api/dashboard/route.ts:123-137 | one entry per day; entry i−1 is day i with the date `YYYY-MM-DD` and zero sales and count |
| DashboardSales.ContributionOf | src/app/api/dashboard/route.ts:175-184 | a member that counts is keyed by the month of its effective start date |
| DashboardSales.AddContribution | src/app/api/dashboard/route.ts:184-196 | one member adds +1 and its sales to its month bucket, and to its start day's bucket only in the selected month |
| DashboardSales.Aggregate | src/app/api/dashboard/route.ts:172-197 | the member loop leaves the monthly buckets and the day buckets as their specifications say |
| DashboardSales.DailyMatchesMonthly | src/app/api/dashboard/route.ts:190-199 | conservation: the day buckets of the selected month gain exactly the sales and members its month bucket gains |
| DashboardSales.DashboardSales | src/app/api/dashboard/route.ts:145-211 | the returned series is the empty series of the selected month with every member's contribution added to its start day; selected-month sales are the sum of that series and equal the selected month's bucket, as the member count of the series equals the bucket's, for every selected year; current and previous month sales are their buckets, 0 when absent; the unit price is clamped |
| DashboardSales.KeyedDaysWithin | src/app/api/dashboard/route.ts:184-193 | every member keyed to the selected month starts on a day of its series, so the day-index guard never drops one; for a selected year 0..99 no member has that key at all |
| DashboardView.ShiftMonthKeyPadded | src/app/dashboard/page.tsx:41-46 | for any key and delta the result ends in a zero-padded month 01..12 |
| DashboardView.ShiftMonthKeyCarries | src/app/dashboard/page.tsx:41-46 | the shift of a key carries into the year |
| DashboardView.ShiftMonthKeyRoundTrip | src/app/dashboard/page.tsx:41-46 | shifting by d and then by −d gives the key back |
| DashboardView.ShiftMonthKeyJanuary | src/app/dashboard/page.tsx:41-46 | January shifted by −1 is December of the previous year |
| DashboardView.ShiftMonthKeyFallback | src/app/dashboard/page.tsx:43 | a key with a non-numeric year or month, or no month part, gives the current month key |
| DashboardView.ShiftMonthKeyAgrees | src/app/dashboard/page.tsx:41-46 | the page's shift of a key equals the server's `shiftMonth` of that month |
| DashboardView.MonthLabelFromKeyAgrees | src/app/dashboard/page.tsx:48-52 | a key is labelled `{year}년 {month}월` with the month not padded, as the server labels it |
| DashboardView.MonthLabelFromKeyFallback | src/app/dashboard/page.tsx:48-52 | a key with a non-numeric year or month, or no month part, is labelled "-" |
| DashboardView.MaxOfSales | src/app/dashboard/page.tsx:102 | the maximum is at least 1, at least every day's sales, and is 1 or one of them |
| DashboardView.MaxSales | src/app/dashboard/page.tsx:97-102 | with no response the maximum is 1; otherwise it bounds every day of the response |
| DashboardView.MonthDelta | src/app/dashboard/page.tsx:99-103 | the change is current minus previous month sales, 0 with no response |
| MembersView.AddMonthsClamps | src/app/members/page.tsx:78-84 | the month advances with a year carry and the day is min(base day, days in the target month) |
| MembersView.AddMonthsText | src/app/members/page.tsx:78-84 | the same on `YYYY-MM-DD` text |
| MembersView.AddMonthFromJanuary31 | src/app/members/page.tsx:78-84 | Jan 31 + 1 month is Feb 29 in a leap year and Feb 28 otherwise |
| MembersView.AddNoMonthsToDateString | src/app/members/page.tsx:78-84 | adding 0 months to a valid date returns it unchanged |
| MembersView.AddMonthsZero | src/app/members/page.tsx:78-84 | adding 0 months to a valid date gives the same date |
| MembersView.AddMonthsInvalid | src/app/members/page.tsx:66-84 | the text is `NaN-NaN-NaN` exactly when the base date has no numeric year |
| MembersView.DayDiffSign | src/app/members/page.tsx:86-92 | the difference is negative exactly for a past date and zero exactly for today |
| MembersView.DayDiffOfToday | src/app/members/page.tsx:86-92 | today's own date is day 0 |
| MembersView.StatusOfDiff | src/app/members/page.tsx:94-99 | OVERDUE iff the difference is below 0, EXPIRING iff 0..7, NORMAL iff above 7 (or NaN) |
| MembersView.StatusBoundaries | src/app/members/page.tsx:94-99 | −1 is OVERDUE, 0 and 7 are EXPIRING, 8 is NORMAL |
| MembersView.StatusMonotone | src/app/members/page.tsx:94-99 | a later expiry is never more urgent |
| MembersView.ResolveStatus | src/app/members/page.tsx:101-106 | the server status when it is NORMAL, EXPIRING or OVERDUE, otherwise (undefined, DELETED, anything) the computed one |
| MembersView.ExpireToneMatchesStatus | src/app/members/page.tsx:332-333 | the expiry tone uses the status thresholds: overdue, warning and normal in step with OVERDUE, EXPIRING, NORMAL |
| MembersView.FormatDdayRoundTrip | src/app/members/page.tsx:108-112 | `D-day` for 0, `D-n` for n > 0, `D+\|n\|` for n < 0: the number reads back from the text |
| MembersView.FormatDdayInjective | src/app/members/page.tsx:108-112 | different differences give different texts |
| MembersView.FormatPhoneDisplay | src/app/members/page.tsx:114-119 | 11 digits get dashes after the 3rd and 7th digit, 10 digits after the 3rd and 6th, any other phone is shown unchanged |
| MembersView.FormatPhoneDigits | src/app/members/page.tsx:114-119 | removing the dashes (all non-digits) from the display gives the phone's digits |
| MembersView.CalculateAge | src/app/members/page.tsx:121-131 | no birth date gives null, and an age is never negative |
| MembersView.CalculateAgeNotNumeric | src/app/members/page.tsx:123-124 | a non-numeric part gives null |
| MembersView.CalculateAgeFullYears | src/app/members/page.tsx:121-131 | for a `YYYY-MM-DD` birth date the age is the full years, one less while today is before this year's birthday |
| MembersView.CalculateAgeFuture | src/app/members/page.tsx:126-130 | a `YYYY-MM-DD` birth date whose full years before today are negative gives null, not an age |
| MembersView.ResolveMembershipState | src/app/members/page.tsx:133-135 | PAUSED exactly for the literal PAUSED, ACTIVE otherwise |
| MembersView.ResolveBeltGral | src/app/members/page.tsx:137-141 | 0..4 unchanged, anything else 0 |
| MembersView.RegistrationChip | src/app/members/page.tsx:334-342 | the overdue chip iff OVERDUE; otherwise the paused chip iff PAUSED, else the active chip |
| MembersView.OverdueBeforePaused | src/app/members/page.tsx:336-342 | an overdue member shows the overdue chip even while paused |
| MembersApi.NormalizeGender | src/app/api/members/route.ts:11-17 | null for a non-string, otherwise exactly the importer's gender reading |
| MembersApi.NormalizeText | src/app/api/members/route.ts:19-23 | the trimmed string, null exactly when it is blank or not a string |
| MembersApi.NormalizeBelt | src/app/api/members/route.ts:25-32 | a belt only when the trimmed text is one of the 8 belt names, and then the belt of that name |
| MembersApi.NormalizeBeltOfName | src/app/api/members/route.ts:25-32 | every belt name, with or without blanks around it, is accepted as that belt |
| MembersApi.NormalizeBeltGral | src/app/api/members/route.ts:34-40 | null for null, a missing field or ""; otherwise the value only when the number, or the string's `Number`, is an integer in 0..4 |
| MembersApi.NormalizeBeltGralAccepts | src/app/api/members/route.ts:34-40 | 0..4 are accepted as numbers and as decimal text, and the list page shows them unchanged |
| MembersApi.NormalizeBeltGralRefuses | src/app/api/members/route.ts:34-40 | integers outside 0..4, fractions, non-numeric text and booleans are refused |
| MembersApi.NormalizeBeltGralBlank | src/app/api/members/route.ts:36 | a blank but non-empty string reads as 0 |
| MembersApi.NormalizePhone | src/app/api/members/route.ts:42-44 | digits only, "" for a non-string, the importer's phone reading for a string |
| MembersApi.NormalizePhoneIdempotent | src/app/api/members/route.ts:42-44 | normalising a phone twice is normalising it once |
| MembersApi.NormalizeDate | src/app/api/members/route.ts:46-52 | the trimmed string exactly when it matches `^\d{4}-\d{2}-\d{2}$` |
| MembersApi.NormalizeDateShapeOnly | src/app/api/members/route.ts:46-52 | only the shape is checked: "2024-13-45" is accepted |
| MembersApi.NormalizeDateOfFormatted | src/app/api/members/route.ts:46-52 | every valid date with a four-digit year, written out, is accepted as it is |
| MembersApi.ValidateCreate | src/app/api/members/route.ts:104-147 | refused iff some check fails, with the first of: start date, birth date, belt, stripe count (each only when sent), then the required fields; an accepted body gives an ACTIVE record with `paused_at` null, 0 paused days and `memo` null when absent |
| MembersApi.SpecificErrorFirst | src/app/api/members/route.ts:114-128 | a sent but invalid start date, birth date, belt or stripe count is never reported as a missing required field |
| MembersApi.BeltIsRequired | src/app/api/members/route.ts:126-128 | a body without belt or stripe count is refused |
| MembersApi.OrNull | src/app/api/members/route.ts:146 | `memo ?? null`: null exactly for a missing or null memo |
| MembersApi.PostMember | src/app/api/members/route.ts:114-152 | 400 with the first failing check's message, and no use of the insert's answer; otherwise 201 with the validated record, or 500 with the store's message |
| MembersApi.ListQueryOf | src/app/api/members/route.ts:61-84 | the page size is capped at 200; rows (page−1)·pageSize to that + pageSize − 1 are asked for; the status filter is exactly the status asked for, and only for NORMAL, EXPIRING or OVERDUE; the search is exactly `q`, and only for a non-empty text |
| MembersApi.ListQueryDefaults | src/app/api/members/route.ts:62-66 | without parameters, page 1 of 50 rows, rows 0 to 49 |
| MembersApi.PagesAdjacent | src/app/api/members/route.ts:63-66 | consecutive pages of one size ask for adjacent row ranges |

## Left out

- The database. Queries, inserts, updates, the `dashboard_counts` RPC and the `v_members_with_status` view are not modelled; the server-side status and the overdue/expiring counts come from SQL that is not part of this model. The CSV import's store is an abstract lookup function plus a reply function for each insert or update; `POST /api/members` receives the insert's answer as a parameter.
- Authentication, the gym lookup (the 404 "No gym" answer), the multipart form parsing (the 400 "CSV file is required" answer) and the generic `catch` that turns any thrown error into a 500. These are framework and network code.
- Pause and resume. Their handler, src/app/api/members/[id]/route.ts, is not part of this model. The list page only sends the action name, and this model has no paused-day arithmetic.
- The pages' React state, effects and rendering, the chart's SVG geometry, `toLocaleString` currency formatting, and the unit price kept in browser storage.
- Time zones and daylight saving. Day differences are taken on calendar day numbers, which matches the source's millisecond difference only when both midnights are 24-hour multiples apart. The range limit of JavaScript dates is not modelled.
- `Text.NumberValue`: JavaScript's `Number(text)` is modelled on decimal integers with an optional sign (blank text is 0). Decimals, exponents, hexadecimal and `Infinity` read as NaN here. So `DashboardSales.UnitPrice` uses the default for a fractional or exponent parameter where the source would clamp that number. The same holds for a fractional or exponent stripe count in `MembersApi.NormalizeBeltGral` (the source accepts "2.0"), and for fractional month or day parts of a date.
- `Text.ToLower`: only ASCII letters are lower-cased; the Korean synonyms have no case.
- `Text.Trim`: strings are sequences of Unicode scalar values, while JavaScript strings are UTF-16 code units. No modelled result depends on the difference: every length and index the model uses is over ASCII digits, separators or whole words.
- `DashboardSales.ParseIsoDate`: `created_at` is read as the calendar date of its first ten characters, not as a full ISO timestamp converted to local time.
- `MembersApi.CreateBody`: a request body that is not a JSON object (`null`, an array) makes the source throw and answer 500; the model takes the body as a record of fields. JSON numbers too large for a double are not modelled.
- `MembersApi.ListQueryOf`: the search text is kept as it is; the `ilike` pattern it is spliced into is not modelled.
- `DashboardView.ShiftMonthKeyRoundTrip`: stated for years of 100 and above. `Date` reads a constructed year 0..99 as 19xx, so a shift that passes through those years does not come back ("0100-01" shifted by −1 is "99-12", and that shifted by +1 is "2000-01").
- `DashboardSales.ShiftJanuaryBack`, `DashboardSales.ShiftMonthCompose`: stated outside the years 0..99, for the same reason.
- `MembersView.AddMonthsClamps`: stated outside the years 0..99, for the same reason.
- `MembersView.AddMonthsZero`: stated outside the years 0..99, for the same reason.
- `MembersView.AddMonthsText`, `MembersView.AddNoMonthsToDateString`, `DashboardSales.DurationOfDates`, `DashboardSales.NormalizeMonthOfKey`, `Calendar.FormatDateRoundTrip`: stated for four-digit years, where `YYYY-MM-DD` text and the date agree.
- `MembersView.CalculateAgeFullYears`: stated for birth dates written with a four-digit year; other text is covered only by `CalculateAge`'s general contract.
