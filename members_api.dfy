/**
  The member endpoint (`/api/members`) after authentication: the normalisers of the JSON body
  fields, the order in which `POST` reports an invalid body and the record it inserts, and the
  paging and filter arithmetic of `GET`. The request body is a set of JSON values, each of
  which may be absent; the insert itself is answered by a parameter.
 */
module MembersApi {
  import opened Wrappers
  import opened Text
  import opened Calendar
  import ImportRows
  import opened MembersView

  // ---------------------------------------------------------------------------------------
  // JSON values

  /** A JSON number: an integer, or a number with a fractional part. */
  datatype JsonNumber = Integer(value: int) | Fraction

  /** A field of a parsed JSON body; `Undefined` is a field that is not there, `Composite` an
      array or an object. */
  datatype Json = Undefined | Null | Bool(b: bool) | Num(n: JsonNumber) | Str(s: string) | Composite

  /** JavaScript truthiness: `!value` is false exactly for these values. */
  predicate Truthy(v: Json) {
    match v
    case Undefined => false
    case Null => false
    case Bool(b) => b
    case Num(n) => n != Integer(0)
    case Str(s) => s != ""
    case Composite => true
  }

  /** `value != null && value !== ""`: the field was sent with some content. */
  predicate Present(v: Json) {
    !v.Undefined? && !v.Null? && v != Str("")
  }

  // ---------------------------------------------------------------------------------------
  // Normalisers

  /** `normalizeGender(value)`: anything but a string is no gender; a string is read exactly as
      the CSV import reads its gender cell. */
  function NormalizeGender(v: Json): (r: Option<ImportRows.Gender>)
    ensures !v.Str? ==> r.None?
    ensures v.Str? ==> r == ImportRows.NormalizeGender(v.s)
  {
    if v.Str? then ImportRows.NormalizeGender(v.s) else None
  }

  /** `normalizeText(value)`: the trimmed string, `None` when it is blank or not a string. */
  function NormalizeText(v: Json): (r: Option<string>)
    ensures r.Some? <==> v.Str? && Trim(v.s) != ""
    ensures r.Some? ==> r.value == Trim(v.s) && !IsJsSpace(r.value[0]) && !IsJsSpace(r.value[|r.value| - 1])
  {
    if v.Str? && Trim(v.s) != "" then Some(Trim(v.s)) else None
  }

  /** `BELT_VALUES`, in rank order. */
  datatype Belt = White | Gray | Orange | Green | Blue | Purple | Brown | Black

  function BeltName(b: Belt): string {
    match b
    case White => "흰띠"
    case Gray => "그레이띠"
    case Orange => "오렌지띠"
    case Green => "초록띠"
    case Blue => "파란띠"
    case Purple => "보라띠"
    case Brown => "갈색띠"
    case Black => "검은띠"
  }

  const BeltValues: seq<Belt> := [White, Gray, Orange, Green, Blue, Purple, Brown, Black]

  lemma BeltListed(b: Belt)
    ensures b in BeltValues
  {
    match b
    case White => assert BeltValues[0] == b;
    case Gray => assert BeltValues[1] == b;
    case Orange => assert BeltValues[2] == b;
    case Green => assert BeltValues[3] == b;
    case Blue => assert BeltValues[4] == b;
    case Purple => assert BeltValues[5] == b;
    case Brown => assert BeltValues[6] == b;
    case Black => assert BeltValues[7] == b;
  }

  /** The first belt in `belts` whose name is `name`. */
  function BeltNamed(name: string, belts: seq<Belt>): (r: Option<Belt>)
    ensures r.Some? ==> r.value in belts && BeltName(r.value) == name
    ensures r.None? ==> forall i :: 0 <= i < |belts| ==> BeltName(belts[i]) != name
  {
    if belts == [] then None
    else if BeltName(belts[0]) == name then Some(belts[0])
    else BeltNamed(name, belts[1..])
  }

  /** `normalizeBelt(value)`: the trimmed text when it is one of the eight belt names. */
  function NormalizeBelt(v: Json): (r: Option<Belt>)
    ensures r.Some? ==> v.Str? && BeltName(r.value) == Trim(v.s)
    ensures r.None? ==> !v.Str? || forall b: Belt :: BeltName(b) != Trim(v.s)
  {
    var text := NormalizeText(v);
    if text.None? then None
    else
      var r := BeltNamed(text.value, BeltValues);
      assert r.None? ==> forall b: Belt :: BeltName(b) != text.value by {
        if r.None? {
          forall b: Belt ensures BeltName(b) != text.value {
            BeltListed(b);
          }
        }
      }
      r
  }

  /** Every belt is recognised by its name, with any blanks around it. */
  lemma NormalizeBeltOfName(b: Belt)
    ensures NormalizeBelt(Str(BeltName(b))) == Some(b)
    ensures NormalizeBelt(Str(" " + BeltName(b) + " ")) == Some(b)
  {
    var w := BeltName(b);
    assert w != [] && !IsJsSpace(w[0]) && !IsJsSpace(w[|w| - 1]);
    ImportRows.TrimPadded(w);
    TrimNoSpaceEnds(w);
  }

  /** The numeric reading of `normalizeBeltGral`: a number as it is, a string through
      `Number(value)`, anything else NaN. `None` is a value that is not an integer. */
  function IntegerOf(v: Json): Option<int> {
    match v
    case Num(n) => if n.Integer? then Some(n.value) else None
    case Str(s) => NumberValue(s)
    case _ => None
  }

  /** `normalizeBeltGral(value)`: `None` for null, a missing field or "", and otherwise the
      number only when it is an integer in 0..4. */
  function NormalizeBeltGral(v: Json): (r: Option<int>)
    ensures r.Some? ==> 0 <= r.value <= 4
    ensures r.Some? <==> Present(v) && IntegerOf(v).Some? && 0 <= IntegerOf(v).value <= 4
    ensures r.Some? ==> r == IntegerOf(v)
  {
    if !Present(v) then None
    else
      var num := IntegerOf(v);
      if num.Some? && 0 <= num.value <= 4 then num else None
  }

  /** The stripe counts 0..4 are accepted both as numbers and as their decimal text, and the
      page's reading of a stored count gives it back. */
  lemma NormalizeBeltGralAccepts(k: nat)
    requires k <= 4
    ensures NormalizeBeltGral(Num(Integer(k))) == Some(k)
    ensures NormalizeBeltGral(Str(NatToString(k))) == Some(k)
    ensures ResolveBeltGral(NormalizeBeltGral(Str(NatToString(k)))) == k
  {
    NumberValueOfNatToString(k);
    assert NatToString(k) == [DigitChar(k)];
  }

  /** Fractions, text that is not a number and integers outside 0..4 are refused. */
  lemma NormalizeBeltGralRefuses(k: int)
    requires !(0 <= k <= 4)
    ensures NormalizeBeltGral(Num(Integer(k))).None?
    ensures NormalizeBeltGral(Num(Fraction)).None?
    ensures NormalizeBeltGral(Str("x")).None?
    ensures NormalizeBeltGral(Bool(true)).None?
  {
    assert Trim("x") == "x";
  }

  /** A blank but non-empty text reads as `Number("  ") == 0`, a stripe count of 0. */
  lemma NormalizeBeltGralBlank()
    ensures NormalizeBeltGral(Str(" ")) == Some(0)
  {
    assert TrimStart(" ") == "";
  }

  /** `normalizePhone(value)`: the digits of a string, "" for anything else. */
  function NormalizePhone(v: Json): (r: string)
    ensures AllDigits(r)
    ensures v.Str? ==> r == ImportRows.NormalizePhone(v.s)
    ensures !v.Str? ==> r == ""
  {
    if v.Str? then DigitsOnly(v.s) else ""
  }

  /** Normalising a normalised phone changes nothing. */
  lemma NormalizePhoneIdempotent(v: Json)
    ensures NormalizePhone(Str(NormalizePhone(v))) == NormalizePhone(v)
  {
    DigitsOnlyFixpoint(NormalizePhone(v));
  }

  /** `normalizeDate(value)`: the trimmed string when it is written `YYYY-MM-DD`. Only the shape
      is checked, not that the month and the day exist. */
  function NormalizeDate(v: Json): (r: Option<string>)
    ensures r.Some? <==> v.Str? && IsDateFormat(Trim(v.s))
    ensures r.Some? ==> r.value == Trim(v.s)
  {
    var text := NormalizeText(v);
    if text.None? || !IsDateFormat(text.value) then None else text
  }

  /** Only the shape is looked at: month 13 and day 45 pass. */
  lemma NormalizeDateShapeOnly()
    ensures NormalizeDate(Str("2024-13-45")) == Some("2024-13-45")
  {
    TrimNoSpaceEnds("2024-13-45");
  }

  /** Every valid date with a four-digit year, written out, is accepted as it is. */
  lemma NormalizeDateOfFormatted(d: Date)
    requires ValidDate(d) && 1000 <= d.year <= 9999
    ensures NormalizeDate(Str(FormatDate(d))) == Some(FormatDate(d))
  {
    var s := FormatDate(d);
    FormatDateShape(d);
    assert IsDigit(s[0]) && IsDigit(s[9]) by {
      assert s[..4][0] == s[0] && s[8..][1] == s[9];
    }
    TrimNoSpaceEnds(s);
  }

  // ---------------------------------------------------------------------------------------
  // POST: creating a member

  /** The fields of the request body `POST` reads. */
  datatype CreateBody = CreateBody(
    name: Json, phone: Json, gender: Json, memo: Json, startDate: Json, expireDate: Json,
    birthDate: Json, belt: Json, beltGral: Json)

  /** The reasons a body is refused with status 400, in the order they are checked. */
  datatype CreateError = BadStartDate | BadBirthDate | BadBelt | BadBeltGral | MissingRequired

  function CreateErrorMessage(e: CreateError): string {
    match e
    case BadStartDate => "start_date must be YYYY-MM-DD"
    case BadBirthDate => "birth_date must be YYYY-MM-DD"
    case BadBelt => "belt is invalid"
    case BadBeltGral => "belt_gral is invalid"
    case MissingRequired => "name, phone, gender, belt, belt_gral, expire_date are required"
  }

  /** The record `POST` inserts. `name` and `memo` are stored as they were sent. */
  datatype NewMember = NewMember(
    gymId: string, name: Json, phone: string, gender: ImportRows.Gender, belt: Belt, beltGral: int,
    birthDate: Option<string>, startDate: Option<string>, expireDate: string,
    membershipState: MembershipState, pausedAt: Option<string>, pausedDaysTotal: int, memo: Json)

  /** The required fields, normalised: the name is sent and not falsy, the phone has digits,
      the expiry date is `YYYY-MM-DD`, and gender, belt and stripe count are recognised. */
  predicate HasRequired(body: CreateBody) {
    Truthy(body.name) && NormalizePhone(body.phone) != "" && NormalizeDate(body.expireDate).Some? &&
    NormalizeGender(body.gender).Some? && NormalizeBelt(body.belt).Some? &&
    NormalizeBeltGral(body.beltGral).Some?
  }

  /** Every check the body fails, in the order `POST` makes them: a sent but invalid optional
      field has its own message, and only then are the required fields checked. */
  function CreateProblems(body: CreateBody): seq<CreateError> {
    (if Present(body.startDate) && NormalizeDate(body.startDate).None? then [BadStartDate] else []) +
    (if Present(body.birthDate) && NormalizeDate(body.birthDate).None? then [BadBirthDate] else []) +
    (if Present(body.belt) && NormalizeBelt(body.belt).None? then [BadBelt] else []) +
    (if Present(body.beltGral) && NormalizeBeltGral(body.beltGral).None? then [BadBeltGral] else []) +
    (if HasRequired(body) then [] else [MissingRequired])
  }

  /** `memo ?? null` */
  function OrNull(v: Json): (r: Json)
    ensures v.Undefined? || v.Null? <==> r == Null
    ensures !(v.Undefined? || v.Null?) ==> r == v
  {
    if v.Undefined? || v.Null? then Null else v
  }

  /** The validation of `POST` and the record it inserts. A body is refused exactly when some
      check fails, with the first failing check. An accepted body has all required fields;
      the new member is ACTIVE, not paused, with no paused days, and its optional dates are
      `null` exactly when they were not sent as a `YYYY-MM-DD` text. */
  function ValidateCreate(gymId: string, body: CreateBody): (r: Result<NewMember, CreateError>)
    ensures r.Failure? <==> CreateProblems(body) != []
    ensures r.Failure? ==> r.error == CreateProblems(body)[0]
    ensures r.Success? ==>
      && HasRequired(body)
      && var m := r.value;
      && m.gymId == gymId && m.name == body.name && Truthy(m.name)
      && m.phone == NormalizePhone(body.phone) != ""
      && Some(m.gender) == NormalizeGender(body.gender)
      && Some(m.belt) == NormalizeBelt(body.belt)
      && Some(m.beltGral) == NormalizeBeltGral(body.beltGral) && 0 <= m.beltGral <= 4
      && Some(m.expireDate) == NormalizeDate(body.expireDate) && IsDateFormat(m.expireDate)
      && m.startDate == NormalizeDate(body.startDate)
      && m.birthDate == NormalizeDate(body.birthDate)
      && m.membershipState == Active && m.pausedAt.None? && m.pausedDaysTotal == 0
      && m.memo == OrNull(body.memo)
  {
    var phone := NormalizePhone(body.phone);
    var gender := NormalizeGender(body.gender);
    var startDate := NormalizeDate(body.startDate);
    var expireDate := NormalizeDate(body.expireDate);
    var birthDate := NormalizeDate(body.birthDate);
    var belt := NormalizeBelt(body.belt);
    var beltGral := NormalizeBeltGral(body.beltGral);
    if Present(body.startDate) && startDate.None? then Failure(BadStartDate)
    else if Present(body.birthDate) && birthDate.None? then Failure(BadBirthDate)
    else if Present(body.belt) && belt.None? then Failure(BadBelt)
    else if Present(body.beltGral) && beltGral.None? then Failure(BadBeltGral)
    else if !Truthy(body.name) || phone == "" || expireDate.None? || gender.None? || belt.None? || beltGral.None? then
      Failure(MissingRequired)
    else Success(NewMember(
      gymId, body.name, phone, gender.value, belt.value, beltGral.value, birthDate, startDate,
      expireDate.value, Active, None, 0, OrNull(body.memo)))
  }

  /** A sent but invalid start date, birth date, belt or stripe count is reported as such, never
      as a missing required field, whatever else the body lacks. */
  lemma SpecificErrorFirst(gymId: string, body: CreateBody)
    requires
      || (Present(body.startDate) && NormalizeDate(body.startDate).None?)
      || (Present(body.birthDate) && NormalizeDate(body.birthDate).None?)
      || (Present(body.belt) && NormalizeBelt(body.belt).None?)
      || (Present(body.beltGral) && NormalizeBeltGral(body.beltGral).None?)
    ensures ValidateCreate(gymId, body).Failure?
    ensures ValidateCreate(gymId, body).error != MissingRequired
  {
  }

  /** Belt and stripe count are required: a body that leaves either out is refused. */
  lemma BeltIsRequired(gymId: string, body: CreateBody)
    requires body.belt.Undefined? || body.beltGral.Undefined?
    ensures ValidateCreate(gymId, body).Failure?
  {
  }

  /** The answer of `POST`: 201 with the new record, 400 with the message of the first failing
      check, or 500 with the store's message when the insert fails. */
  datatype CreateResponse = Created(member: NewMember) | BadRequest(message: string) | InsertFailed(message: string)

  /** `POST /api/members`, given the store's answer to the insert (`None` for success). The
      answer is used only when the body is valid: a refused body is never inserted. */
  function PostMember(gymId: string, body: CreateBody, insertError: Option<string>): (r: CreateResponse)
    ensures ValidateCreate(gymId, body).Failure? ==>
      r == BadRequest(CreateErrorMessage(CreateProblems(body)[0]))
    ensures r.Created? <==> CreateProblems(body) == [] && insertError.None?
    ensures r.Created? ==> Success(r.member) == ValidateCreate(gymId, body)
    ensures r.InsertFailed? <==> CreateProblems(body) == [] && insertError.Some?
  {
    match ValidateCreate(gymId, body)
    case Failure(e) => BadRequest(CreateErrorMessage(e))
    case Success(m) => if insertError.None? then Created(m) else InsertFailed(insertError.value)
  }

  // ---------------------------------------------------------------------------------------
  // GET: the member list query

  const DefaultPage := "1"
  const DefaultPageSize := "50"
  const MaxPageSize := 200

  /** `searchParams.get(name) || fallback` */
  function ParamOr(param: Option<string>, fallback: string): string {
    if param.None? || param.value == "" then fallback else param.value
  }

  /** The list query `GET` builds. `None` stands for NaN in the page numbers. */
  datatype ListQuery = ListQuery(
    page: Option<int>, pageSize: Option<int>, from: Option<int>, to: Option<int>,
    status: Option<Status>, search: Option<string>)

  function StatusParam(s: string): Option<Status> {
    if s == "NORMAL" then Some(Normal)
    else if s == "EXPIRING" then Some(Expiring)
    else if s == "OVERDUE" then Some(Overdue)
    else None
  }

  /** The page, its size capped at 200, and the rows `(page - 1) * pageSize` to
      `from + pageSize - 1` it asks for; the status filter is one of the three statuses or
      none, filtering on exactly the status asked for, and the search text is used, as it is,
      only when it is not empty. */
  function ListQueryOf(status: Option<string>, q: Option<string>, page: Option<string>, pageSize: Option<string>): (r: ListQuery)
    ensures r.page == NumberValue(ParamOr(page, DefaultPage))
    ensures r.pageSize.Some? ==> r.pageSize.value <= MaxPageSize
    ensures var requested := NumberValue(ParamOr(pageSize, DefaultPageSize));
      r.pageSize == if requested.Some? then Some(Min(requested.value, MaxPageSize)) else None
    ensures r.from.Some? <==> r.page.Some? && r.pageSize.Some?
    ensures r.to.Some? <==> r.from.Some?
    ensures r.from.Some? ==>
      r.from.value == (r.page.value - 1) * r.pageSize.value && r.to.value - r.from.value + 1 == r.pageSize.value
    ensures r.status.Some? <==> status.Some? && status.value in ["NORMAL", "EXPIRING", "OVERDUE"]
    ensures status == Some("NORMAL") ==> r.status == Some(Normal)
    ensures status == Some("EXPIRING") ==> r.status == Some(Expiring)
    ensures status == Some("OVERDUE") ==> r.status == Some(Overdue)
    ensures r.search.Some? <==> q.Some? && q.value != ""
    ensures r.search.Some? ==> r.search == q
  {
    var pageNumber := NumberValue(ParamOr(page, DefaultPage));
    var requested := NumberValue(ParamOr(pageSize, DefaultPageSize));
    var size := if requested.Some? then Some(Min(requested.value, MaxPageSize)) else None;
    var from := if pageNumber.Some? && size.Some? then Some((pageNumber.value - 1) * size.value) else None;
    var to := if from.Some? then Some(from.value + size.value - 1) else None;
    ListQuery(pageNumber, size, from, to,
      if status.Some? then StatusParam(status.value) else None,
      if q.Some? && q.value != "" then q else None)
  }

  /** Without parameters the first 50 rows, 0 to 49, are asked for, unfiltered. */
  lemma ListQueryDefaults()
    ensures ListQueryOf(None, None, None, None) == ListQuery(Some(1), Some(50), Some(0), Some(49), None, None)
  {
    NumberValueOfDigits(DefaultPage);
    NumberValueOfDigits(DefaultPageSize);
    assert DigitsValue(DefaultPage) == 1;
    assert DigitsValue(DefaultPageSize) == 50 by {
      assert DefaultPageSize[..1] == "5";
      assert DigitsValue("5") == 5;
    }
  }

  /** Consecutive pages of the same size ask for adjacent row ranges. */
  lemma PagesAdjacent(n: nat, pageSize: Option<string>)
    requires NumberValue(ParamOr(pageSize, DefaultPageSize)).Some?
    ensures var a := ListQueryOf(None, None, Some(NatToString(n)), pageSize);
      var b := ListQueryOf(None, None, Some(NatToString(n + 1)), pageSize);
      a.to.value + 1 == b.from.value
  {
    NumberValueOfNatToString(n);
    NumberValueOfNatToString(n + 1);
    var size := Min(NumberValue(ParamOr(pageSize, DefaultPageSize)).value, MaxPageSize);
    NextPageStart(n, size);
  }

  lemma NextPageStart(n: int, size: int)
    ensures (n - 1) * size + size - 1 + 1 == (n + 1 - 1) * size
  {
    assert (n - 1) * size + size == n * size;
  }
}
