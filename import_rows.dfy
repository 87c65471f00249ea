/**
  The per-row stages of the member CSV import: header normalisation and synonym mapping
  (`normalizeHeader`, `HEADER_MAP`, `mapHeaders`), cell access (`getCell`), the normalisers
  for phone and gender, and `validateCsvRow` with its fixed order of checks; and the pass over
  the data rows that skips blank rows and sorts the rest into payloads and errors.
 */
module ImportRows {
  import opened Wrappers
  import opened Text
  import opened Calendar
  import opened CsvTokenizer

  /** `MemberGender`: "남" or "여". */
  datatype Gender = Male | Female

  function GenderText(g: Gender): string {
    match g
    case Male => "남"
    case Female => "여"
  }

  /** The payload fields a column can be mapped to. */
  datatype Field = Name | Phone | GenderField | StartDate | ExpireDate | Memo

  /** The field names used in the "Missing required headers" message. */
  function FieldKey(f: Field): string {
    match f
    case Name => "name"
    case Phone => "phone"
    case GenderField => "gender"
    case StartDate => "start_date"
    case ExpireDate => "expire_date"
    case Memo => "memo"
  }

  // ---------------------------------------------------------------------------------------
  // Headers

  const ByteOrderMark: char := '\U{FEFF}'

  function StripBom(s: string): string {
    if s != [] && s[0] == ByteOrderMark then s[1..] else s
  }

  /** `normalizeHeader`: the leading BOM removed, trimmed, lower-cased, all white space
      removed, `-` replaced by `_`. */
  function NormalizeHeader(header: string): string {
    var lowered := ToLower(Trim(StripBom(header)));
    ReplaceChar(RemoveSpaces(lowered), '-', '_')
  }

  /** A normalised header has no white space, no capital letter and no `-`. */
  lemma NormalizeHeaderShape(header: string)
    ensures var r := NormalizeHeader(header); NoSpace(r) && NoUpper(r) && '-' !in r
  {
    var lowered := ToLower(Trim(StripBom(header)));
    ToLowerKeeps(Trim(StripBom(header)));
    RemoveSpacesKeeps(lowered);
    ReplaceCharKeeps(RemoveSpaces(lowered), '-', '_');
  }

  /** A normalised header is left as it is: normalising twice is normalising once. */
  lemma NormalizeHeaderIdempotent(header: string)
    ensures NormalizeHeader(NormalizeHeader(header)) == NormalizeHeader(header)
  {
    NormalizeHeaderShape(header);
    NormalizedIsFixed(NormalizeHeader(header));
  }

  /** Text without white space, capitals or `-` is its own normal form. */
  lemma NormalizedIsFixed(r: string)
    requires NoSpace(r) && NoUpper(r) && '-' !in r
    ensures NormalizeHeader(r) == r
  {
    assert StripBom(r) == r by {
      assert IsJsSpace(ByteOrderMark);
    }
    TrimOfNoSpace(r);
    ToLowerKeeps(r);
    RemoveSpacesKeeps(r);
    ReplaceCharAbsent(r, '-', '_');
    NormalizeHeaderSteps(r);
  }

  lemma NormalizeHeaderSteps(r: string)
    requires StripBom(r) == r && Trim(r) == r && ToLower(r) == r && RemoveSpaces(r) == r
    requires ReplaceChar(r, '-', '_') == r
    ensures NormalizeHeader(r) == r
  {
  }

  /** `HEADER_MAP`: the accepted spellings of each field, in normalised form. */
  const HeaderMap: seq<(string, Field)> := [
    ("name", Name), ("이름", Name),
    ("phone", Phone), ("전화번호", Phone), ("전화", Phone),
    ("gender", GenderField), ("성별", GenderField),
    ("start_date", StartDate), ("시작일", StartDate),
    ("expire_date", ExpireDate), ("만료일", ExpireDate),
    ("memo", Memo), ("메모", Memo)]

  /** The field of the first table entry spelled `key`. */
  function Synonym(key: string, table: seq<(string, Field)>): Option<Field> {
    if table == [] then None
    else if table[0].0 == key then Some(table[0].1)
    else Synonym(key, table[1..])
  }

  /** `HEADER_MAP[normalizeHeader(header)]` */
  function HeaderField(header: string): Option<Field> {
    Synonym(NormalizeHeader(header), HeaderMap)
  }

  /** The field each column is a spelling of, if any. */
  function ColumnFields(headers: seq<string>): (r: seq<Option<Field>>)
    ensures |r| == |headers| && forall i :: 0 <= i < |headers| ==> r[i] == HeaderField(headers[i])
  {
    seq(|headers|, i requires 0 <= i < |headers| => HeaderField(headers[i]))
  }

  type Mapping = map<Field, nat>

  /** Visiting column `n`: a field seen for the first time is recorded at `n`. */
  function Record(m: Mapping, col: Option<Field>, n: nat): Mapping {
    if col.Some? && col.value !in m then m[col.value := n] else m
  }

  /** The mapping recorded after visiting `cols` from left to right: a field is recorded at
      its first column and later columns for it are ignored. */
  function FirstColumns(cols: seq<Option<Field>>): Mapping
    decreases |cols|
  {
    if cols == [] then map[] else Record(FirstColumns(cols[..|cols| - 1]), cols[|cols| - 1], |cols| - 1)
  }

  lemma FirstColumnsStep(cols: seq<Option<Field>>, n: nat)
    requires n < |cols|
    ensures FirstColumns(cols[..n + 1]) == Record(FirstColumns(cols[..n]), cols[n], n)
  {
    assert cols[..n + 1][..n] == cols[..n];
  }

  /** The mapping `mapHeaders` builds after visiting `headers` from left to right. */
  function HeaderMapping(headers: seq<string>): Mapping
    decreases |headers|
  {
    if headers == [] then map[]
    else
      var n := |headers| - 1;
      Record(HeaderMapping(headers[..n]), HeaderField(headers[n]), n)
  }

  /** `mapHeaders(headerRow)` */
  method MapHeaders(headerRow: seq<string>) returns (mapped: Mapping)
    ensures mapped == HeaderMapping(headerRow)
  {
    mapped := map[];
    var index := 0;
    while index < |headerRow|
      invariant 0 <= index <= |headerRow|
      invariant mapped == HeaderMapping(headerRow[..index])
    {
      HeaderMappingStep(headerRow, index);
      var field := HeaderField(headerRow[index]);
      if field.Some? && field.value !in mapped {
        mapped := mapped[field.value := index];
      }
      assert mapped == Record(HeaderMapping(headerRow[..index]), field, index);
      index := index + 1;
    }
    assert headerRow[..index] == headerRow;
  }

  lemma HeaderMappingStep(headers: seq<string>, n: nat)
    requires n < |headers|
    ensures HeaderMapping(headers[..n + 1]) == Record(HeaderMapping(headers[..n]), HeaderField(headers[n]), n)
  {
    assert headers[..n + 1][..n] == headers[..n];
  }

  /** Mapping the headers is recording the first column of each field they classify into. */
  lemma {:induction false} HeaderMappingColumns(headers: seq<string>)
    ensures HeaderMapping(headers) == FirstColumns(ColumnFields(headers))
    decreases |headers|
  {
    if headers != [] {
      var n := |headers| - 1;
      HeaderMappingColumns(headers[..n]);
      assert ColumnFields(headers)[..n] == ColumnFields(headers[..n]);
    }
  }

  /** Column `i` exists and its header is a spelling of `f`. */
  predicate ColumnFor(headers: seq<string>, i: int, f: Field) {
    0 <= i < |headers| && HeaderField(headers[i]) == Some(f)
  }

  predicate Marks(cols: seq<Option<Field>>, i: int, f: Field) {
    0 <= i < |cols| && cols[i] == Some(f)
  }

  lemma {:induction false} FirstColumnsFirst(cols: seq<Option<Field>>, f: Field)
    ensures f in FirstColumns(cols) <==> exists i :: Marks(cols, i, f)
    ensures f in FirstColumns(cols) ==>
      Marks(cols, FirstColumns(cols)[f], f) &&
      forall j :: 0 <= j < FirstColumns(cols)[f] ==> !Marks(cols, j, f)
    decreases |cols|
  {
    if cols != [] {
      var n := |cols| - 1;
      var prefix := cols[..n];
      FirstColumnsFirst(prefix, f);
      assert forall i :: Marks(prefix, i, f) <==> i < n && Marks(cols, i, f);
      if f !in FirstColumns(prefix) && cols[n] == Some(f) {
        assert Marks(cols, n, f);
      }
      if exists i :: Marks(cols, i, f) {
        var i :| Marks(cols, i, f);
        if i < n {
          assert Marks(prefix, i, f);
        }
      }
    }
  }

  /** A field is mapped exactly when some column is a spelling of it, and then it is mapped to
      the first such column; in particular every mapped index is a column of the header row. */
  lemma HeaderMappingFirst(headers: seq<string>, f: Field)
    ensures f in HeaderMapping(headers) <==> exists i :: ColumnFor(headers, i, f)
    ensures f in HeaderMapping(headers) ==>
      ColumnFor(headers, HeaderMapping(headers)[f], f) &&
      forall j :: 0 <= j < HeaderMapping(headers)[f] ==> !ColumnFor(headers, j, f)
  {
    var cols := ColumnFields(headers);
    HeaderMappingColumns(headers);
    FirstColumnsFirst(cols, f);
    assert forall i :: Marks(cols, i, f) <==> ColumnFor(headers, i, f);
  }

  // ---------------------------------------------------------------------------------------
  // Cells and normalisers

  /** `getCell(row, index)`: the trimmed cell, or "" when the field is unmapped or the row
      is too short. */
  function GetCell(row: Row, index: Option<nat>): (r: string)
    ensures r == [] || (!IsJsSpace(r[0]) && !IsJsSpace(r[|r| - 1]))
    ensures index.Some? && index.value < |row| ==> r == Trim(row[index.value])
    ensures index.None? || index.value >= |row| ==> r == ""
  {
    if index.None? || index.value >= |row| then "" else Trim(row[index.value])
  }

  function Lookup(mapped: Mapping, f: Field): Option<nat> {
    if f in mapped then Some(mapped[f]) else None
  }

  /** `normalizePhone`: the digits of the value, in order. */
  function NormalizePhone(value: string): (r: string)
    ensures AllDigits(r)
  {
    DigitsOnly(value)
  }

  lemma NormalizePhoneIdempotent(value: string)
    ensures NormalizePhone(NormalizePhone(value)) == NormalizePhone(value)
  {
    DigitsOnlyIdempotent(value);
  }

  const MaleWords: set<string> := {"남", "남자", "male", "m"}
  const FemaleWords: set<string> := {"여", "여자", "female", "f"}

  /** `normalizeGender` of the importer: the trimmed, lower-cased value looked up in the two
      word lists. */
  function NormalizeGender(value: string): (r: Option<Gender>)
    ensures r == Some(Male) <==> ToLower(Trim(value)) in MaleWords
    ensures r == Some(Female) <==> ToLower(Trim(value)) in FemaleWords
  {
    var normalized := ToLower(Trim(value));
    if normalized in MaleWords then Some(Male)
    else if normalized in FemaleWords then Some(Female)
    else None
  }

  /** Letter case does not matter: "MALE", "Male" and "male" are the same gender. */
  lemma GenderIgnoresCase(value: string)
    ensures NormalizeGender(ToUpper(value)) == NormalizeGender(value)
  {
    TrimUpper(value);
    LowerOfUpper(Trim(value));
  }

  lemma TrimPadded(w: string)
    requires w != [] && !IsJsSpace(w[0]) && !IsJsSpace(w[|w| - 1])
    ensures Trim(" " + w + " ") == w
  {
    var s := " " + w + " ";
    var t := w + " ";
    assert s[0] == ' ' && s[1..] == t;
    assert t[0] == w[0];
    assert TrimStart(t) == t;
    assert TrimStart(s) == t;
    assert t[|t| - 1] == ' ' && t[..|t| - 1] == w;
    assert TrimEnd(t) == TrimEnd(w);
  }

  lemma WordsAreLowerCase(w: string)
    requires w in MaleWords + FemaleWords
    ensures w != [] && !IsJsSpace(w[0]) && !IsJsSpace(w[|w| - 1]) && ToLower(w) == w
  {
    WordsArePlain();
    assert PlainWord(w);
    ToLowerKeeps(w);
  }

  /** Not empty, no blank at either end, no upper-case letter. */
  predicate PlainWord(w: string) {
    w != [] && !IsJsSpace(w[0]) && !IsJsSpace(w[|w| - 1]) && NoUpper(w)
  }

  lemma WordsArePlain()
    ensures forall w | w in MaleWords + FemaleWords :: PlainWord(w)
  {
    assert PlainWord("남") && PlainWord("남자") && PlainWord("male") && PlainWord("m");
    assert PlainWord("여") && PlainWord("여자") && PlainWord("female") && PlainWord("f");
  }

  /** Every listed word, with a blank on each side, is recognised. */
  lemma GenderWordsRecognised(w: string)
    requires w in MaleWords + FemaleWords
    ensures NormalizeGender(" " + w + " ") == Some(if w in MaleWords then Male else Female)
  {
    WordsAreLowerCase(w);
    TrimPadded(w);
  }

  // ---------------------------------------------------------------------------------------
  // Row validation

  const MissingName := "이름 누락"
  const MissingPhone := "전화번호 누락"
  const BadGender := "성별은 남/여만 허용"
  const MissingExpire := "만료일 누락"
  const BadExpire := "만료일 형식 오류(YYYY-MM-DD)"
  const BadStart := "시작일 형식 오류(YYYY-MM-DD)"

  /** `CsvMemberPayload` */
  datatype Payload = Payload(
    row: int, name: string, phone: string, gender: Gender,
    startDate: Option<string>, expireDate: string, memo: Option<string>)

  /** `CsvError` */
  datatype CsvError = CsvError(row: int, reason: string)

  /** The cells `validateCsvRow` reads, the phone already reduced to its digits. */
  datatype Cells = Cells(
    name: string, phone: string, genderRaw: string, start: string, expire: string, memo: string)

  function RowCells(row: Row, mapped: Mapping): Cells {
    Cells(
      GetCell(row, Lookup(mapped, Name)),
      NormalizePhone(GetCell(row, Lookup(mapped, Phone))),
      GetCell(row, Lookup(mapped, GenderField)),
      GetCell(row, Lookup(mapped, StartDate)),
      GetCell(row, Lookup(mapped, ExpireDate)),
      GetCell(row, Lookup(mapped, Memo)))
  }

  /** Every check the row fails, listed in the order `validateCsvRow` makes them. */
  function Problems(c: Cells): seq<string> {
    (if c.name == "" then [MissingName] else []) +
    (if c.phone == "" then [MissingPhone] else []) +
    (if NormalizeGender(c.genderRaw).None? then [BadGender] else []) +
    (if c.expire == "" then [MissingExpire] else if !IsDateFormat(c.expire) then [BadExpire] else []) +
    (if c.start != "" && !IsDateFormat(c.start) then [BadStart] else [])
  }

  /** `validateCsvRow(row, mapped, rowNumber)`: a row is accepted exactly when it has no
      problem; otherwise the error carries the first problem in check order. An accepted
      row has a name, a digits-only phone, a known gender and a `YYYY-MM-DD` expire date, and
      its start date and memo are `null` exactly when their cells are blank. */
  function ValidateCsvRow(row: Row, mapped: Mapping, rowNumber: int): (r: Result<Payload, CsvError>)
    ensures var c := RowCells(row, mapped);
      && (r.Success? <==> Problems(c) == [])
      && (r.Failure? ==> r.error == CsvError(rowNumber, Problems(c)[0]))
      && (r.Success? ==>
        && r.value.row == rowNumber
        && r.value.name == c.name != ""
        && r.value.phone == c.phone != "" && AllDigits(r.value.phone)
        && NormalizeGender(c.genderRaw) == Some(r.value.gender)
        && r.value.expireDate == c.expire && IsDateFormat(c.expire)
        && (r.value.startDate.None? <==> c.start == "")
        && (r.value.startDate.Some? ==> r.value.startDate.value == c.start && IsDateFormat(c.start))
        && (r.value.memo.None? <==> c.memo == "")
        && (r.value.memo.Some? ==> r.value.memo.value == c.memo))
  {
    var c := RowCells(row, mapped);
    var gender := NormalizeGender(c.genderRaw);
    if c.name == "" then Failure(CsvError(rowNumber, MissingName))
    else if c.phone == "" then Failure(CsvError(rowNumber, MissingPhone))
    else if gender.None? then Failure(CsvError(rowNumber, BadGender))
    else if c.expire == "" then Failure(CsvError(rowNumber, MissingExpire))
    else if !IsDateFormat(c.expire) then Failure(CsvError(rowNumber, BadExpire))
    else if c.start != "" && !IsDateFormat(c.start) then Failure(CsvError(rowNumber, BadStart))
    else Success(Payload(
      rowNumber, c.name, c.phone, gender.value,
      if c.start == "" then None else Some(c.start), c.expire,
      if c.memo == "" then None else Some(c.memo)))
  }

  // ---------------------------------------------------------------------------------------
  // The pass over the data rows

  /** `row.every((cell) => cell.trim() === "")` */
  predicate IsBlankRow(row: Row) {
    forall i :: 0 <= i < |row| ==> Trim(row[i]) == ""
  }

  datatype Batch = Batch(payloads: seq<Payload>, errors: seq<CsvError>)

  /** A row check taking the row and its row number. */
  type Validator = (Row, int) -> Result<Payload, CsvError>

  function RowValidator(mapped: Mapping): Validator {
    (row: Row, rowNumber: int) => ValidateCsvRow(row, mapped, rowNumber)
  }

  /** The payloads and errors after the first `|dataRows|` data rows; data row `i` is row
      `i + 2` of the file (counting from 1, after the header). */
  function Triage(dataRows: seq<Row>, validate: Validator): Batch
    decreases |dataRows|
  {
    if dataRows == [] then Batch([], [])
    else
      var n := |dataRows| - 1;
      var b := Triage(dataRows[..n], validate);
      if IsBlankRow(dataRows[n]) then b
      else match validate(dataRows[n], n + 2)
        case Success(p) => b.(payloads := b.payloads + [p])
        case Failure(e) => b.(errors := b.errors + [e])
  }

  /** The `rows.slice(1).forEach` loop of the import handler. */
  method CollectRows(dataRows: seq<Row>, mapped: Mapping) returns (payloads: seq<Payload>, errors: seq<CsvError>)
    ensures Batch(payloads, errors) == Triage(dataRows, RowValidator(mapped))
  {
    ghost var validate := RowValidator(mapped);
    payloads, errors := [], [];
    var index := 0;
    while index < |dataRows|
      invariant 0 <= index <= |dataRows|
      invariant Batch(payloads, errors) == Triage(dataRows[..index], validate)
    {
      assert dataRows[..index + 1][..index] == dataRows[..index];
      var row := dataRows[index];
      var rowNumber := index + 2;
      if !IsBlankRow(row) {
        var validated := ValidateCsvRow(row, mapped, rowNumber);
        assert validated == validate(row, rowNumber);
        if validated.Failure? {
          errors := errors + [validated.error];
        } else {
          payloads := payloads + [validated.value];
        }
      }
      index := index + 1;
    }
    assert dataRows[..index] == dataRows;
  }

  /** The number of data rows that are not blank. */
  function NonBlank(dataRows: seq<Row>): nat
    decreases |dataRows|
  {
    if dataRows == [] then 0
    else NonBlank(dataRows[..|dataRows| - 1]) + (if IsBlankRow(dataRows[|dataRows| - 1]) then 0 else 1)
  }

  /** The validator stamps its verdict with the row number it is given. */
  ghost predicate Stamps(validate: Validator) {
    forall row: Row, n: int :: match validate(row, n)
      case Success(p) => p.row == n
      case Failure(e) => e.row == n
  }

  /** The payload is data row `row - 2` validated as row `row`, and that row is not blank. */
  predicate PayloadFrom(dataRows: seq<Row>, validate: Validator, p: Payload) {
    2 <= p.row < |dataRows| + 2 && !IsBlankRow(dataRows[p.row - 2]) &&
    validate(dataRows[p.row - 2], p.row) == Success(p)
  }

  predicate ErrorFrom(dataRows: seq<Row>, validate: Validator, e: CsvError) {
    2 <= e.row < |dataRows| + 2 && !IsBlankRow(dataRows[e.row - 2]) &&
    validate(dataRows[e.row - 2], e.row) == Failure(e)
  }

  predicate IncreasingPayloadRows(ps: seq<Payload>) {
    forall i, j :: 0 <= i < j < |ps| ==> ps[i].row < ps[j].row
  }

  predicate IncreasingErrorRows(es: seq<CsvError>) {
    forall i, j :: 0 <= i < j < |es| ==> es[i].row < es[j].row
  }

  /** Every non-blank data row ends up either as a payload or as an error, and blank rows in
      neither; each entry is its own row's verdict under its row number, in file order. */
  lemma {:induction false} TriageAccounts(dataRows: seq<Row>, validate: Validator)
    requires Stamps(validate)
    ensures var b := Triage(dataRows, validate);
      && |b.payloads| + |b.errors| == NonBlank(dataRows)
      && (forall k :: 0 <= k < |b.payloads| ==> PayloadFrom(dataRows, validate, b.payloads[k]))
      && (forall k :: 0 <= k < |b.errors| ==> ErrorFrom(dataRows, validate, b.errors[k]))
      && IncreasingPayloadRows(b.payloads) && IncreasingErrorRows(b.errors)
    decreases |dataRows|
  {
    if dataRows != [] {
      var n := |dataRows| - 1;
      var prefix := dataRows[..n];
      TriageAccounts(prefix, validate);
      var b := Triage(prefix, validate);
      forall k | 0 <= k < |b.payloads|
        ensures PayloadFrom(dataRows, validate, b.payloads[k]) && b.payloads[k].row < n + 2
      {
        assert PayloadFrom(prefix, validate, b.payloads[k]);
        assert dataRows[b.payloads[k].row - 2] == prefix[b.payloads[k].row - 2];
      }
      forall k | 0 <= k < |b.errors|
        ensures ErrorFrom(dataRows, validate, b.errors[k]) && b.errors[k].row < n + 2
      {
        assert ErrorFrom(prefix, validate, b.errors[k]);
        assert dataRows[b.errors[k].row - 2] == prefix[b.errors[k].row - 2];
      }
      if !IsBlankRow(dataRows[n]) {
        var v := validate(dataRows[n], n + 2);
        assert v.Success? ==> v.value.row == n + 2;
        assert v.Failure? ==> v.error.row == n + 2;
      }
    }
  }

  /** The import's own row check stamps its row numbers. */
  lemma ImportValidatorStamps(mapped: Mapping)
    ensures Stamps(RowValidator(mapped))
  {
  }
}
