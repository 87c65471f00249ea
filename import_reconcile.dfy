/**
  The import handler (`POST /api/import/members`) after authentication: the whole-file
  rejections, the pass over the data rows, the lookup of existing members by phone, and the
  reconciliation loop that updates a member whose phone is known and inserts one otherwise.
  The member store is abstract: the lookup query and every insert or update are answered by
  functions given as parameters.
 */
module ImportMembers {
  import opened Wrappers
  import opened Text
  import opened CsvTokenizer
  import opened ImportRows

  // ---------------------------------------------------------------------------------------
  // The store

  /** The five columns an update writes; an insert writes these and the phone. */
  datatype MemberPatch = MemberPatch(
    name: string, gender: Gender, startDate: Option<string>, expireDate: string, memo: Option<string>)

  function PatchOf(p: Payload): MemberPatch {
    MemberPatch(p.name, p.gender, p.startDate, p.expireDate, p.memo)
  }

  /** A `(id, phone)` row as the store returns it. */
  datatype StoredRow = StoredRow(id: string, phone: string)

  datatype StoreCall =
    | UpdateMember(id: string, patch: MemberPatch)
    | InsertMember(phone: string, patch: MemberPatch)

  /** The answer to a call: success, with the inserted row when the store returned one, or
      an error message. */
  datatype StoreReply = Saved(row: Option<StoredRow>) | StoreError(message: string)

  /** How the store answers the call made for the payload at a given position. */
  type Store = (nat, StoreCall) -> StoreReply

  /** The answer to the query for the live members with the given phones. */
  datatype LookupReply = Found(rows: seq<StoredRow>) | LookupFailed(message: string)

  type Lookup = seq<string> -> LookupReply

  // ---------------------------------------------------------------------------------------
  // Lookup of existing members

  /** `Array.from(new Set(xs))`: the values in order of first appearance. */
  function Distinct(xs: seq<string>): (r: seq<string>)
    ensures forall x :: x in r <==> x in xs
    ensures forall i, j :: 0 <= i < j < |r| ==> r[i] != r[j]
    decreases |xs|
  {
    if xs == [] then []
    else
      var r := Distinct(xs[..|xs| - 1]);
      assert forall x :: x in xs <==> x in xs[..|xs| - 1] || x == xs[|xs| - 1];
      if xs[|xs| - 1] in r then r else r + [xs[|xs| - 1]]
  }

  function Phones(payloads: seq<Payload>): (r: seq<string>)
    ensures |r| == |payloads| && forall i :: 0 <= i < |r| ==> r[i] == payloads[i].phone
  {
    seq(|payloads|, i requires 0 <= i < |payloads| => payloads[i].phone)
  }

  /** A phone → id index; `existingMap.get(phone)` is truthy only for a non-empty id. */
  type PhoneIndex = map<string, string>

  predicate Known(index: PhoneIndex, phone: string) {
    phone in index && index[phone] != ""
  }

  /** `new Map(rows.map((m) => [m.phone, m.id]))`: a later row with the same phone wins. */
  function IndexByPhone(rows: seq<StoredRow>): PhoneIndex
    decreases |rows|
  {
    if rows == [] then map[]
    else
      var n := |rows| - 1;
      IndexByPhone(rows[..n])[rows[n].phone := rows[n].id]
  }

  /** Row `i` is the last row with its phone. */
  predicate LastWithPhone(rows: seq<StoredRow>, i: int) {
    0 <= i < |rows| && forall j :: i < j < |rows| ==> rows[j].phone != rows[i].phone
  }

  /** The index has exactly the returned phones, each with the id of its last row. */
  lemma {:induction false} IndexByPhoneLast(rows: seq<StoredRow>, phone: string)
    ensures phone in IndexByPhone(rows) <==> exists i :: 0 <= i < |rows| && rows[i].phone == phone
    ensures phone in IndexByPhone(rows) ==>
      exists i :: LastWithPhone(rows, i) && rows[i] == StoredRow(IndexByPhone(rows)[phone], phone)
    decreases |rows|
  {
    if rows != [] {
      var n := |rows| - 1;
      var prefix := rows[..n];
      IndexByPhoneLast(prefix, phone);
      if rows[n].phone == phone {
        assert LastWithPhone(rows, n);
      } else if phone in IndexByPhone(prefix) {
        var i :| LastWithPhone(prefix, i) && prefix[i] == StoredRow(IndexByPhone(prefix)[phone], phone);
        assert LastWithPhone(rows, i);
      }
      if exists i :: 0 <= i < |rows| && rows[i].phone == phone {
        var i :| 0 <= i < |rows| && rows[i].phone == phone;
        assert i < n ==> prefix[i].phone == phone;
      }
    }
  }

  // ---------------------------------------------------------------------------------------
  // Reconciliation

  /** The call made for a payload: an update of the known member, else an insert. */
  function CallFor(index: PhoneIndex, p: Payload): StoreCall {
    if Known(index, p.phone) then UpdateMember(index[p.phone], PatchOf(p))
    else InsertMember(p.phone, PatchOf(p))
  }

  /** The loop variables of the reconciliation, and the calls made so far. */
  datatype Tally = Tally(
    index: PhoneIndex, created: nat, updated: nat, failed: nat,
    errors: seq<CsvError>, calls: seq<StoreCall>)

  /** The effect of the reply to the call made for payload `p`. */
  function Apply(t: Tally, p: Payload, call: StoreCall, reply: StoreReply): Tally {
    var t1 := t.(calls := t.calls + [call]);
    match reply
    case StoreError(message) =>
      t1.(failed := t.failed + 1, errors := t.errors + [CsvError(p.row, message)])
    case Saved(row) =>
      if call.UpdateMember? then t1.(updated := t.updated + 1)
      else if row.Some? && row.value.phone != "" && row.value.id != "" then
        t1.(created := t.created + 1, index := t.index[row.value.phone := row.value.id])
      else t1.(created := t.created + 1)
  }

  /** The tally after the reconciliation loop has visited `payloads`, starting from the
      existing-member index and the validation errors. */
  function Reconciled(payloads: seq<Payload>, index0: PhoneIndex, errors0: seq<CsvError>, store: Store): Tally
    decreases |payloads|
  {
    if payloads == [] then Tally(index0, 0, 0, |errors0|, errors0, [])
    else
      var n := |payloads| - 1;
      var t := Reconciled(payloads[..n], index0, errors0, store);
      var call := CallFor(t.index, payloads[n]);
      Apply(t, payloads[n], call, store(n, call))
  }

  /** The `for (const payload of payloads)` loop of the import handler. */
  method Reconcile(payloads: seq<Payload>, existing: PhoneIndex, validationErrors: seq<CsvError>, store: Store)
    returns (created: nat, updated: nat, failed: nat, errors: seq<CsvError>, calls: seq<StoreCall>)
    ensures var t := Reconciled(payloads, existing, validationErrors, store);
      created == t.created && updated == t.updated && failed == t.failed &&
      errors == t.errors && calls == t.calls
  {
    var existingMap := existing;
    created, updated, failed, errors, calls := 0, 0, |validationErrors|, validationErrors, [];
    var i := 0;
    while i < |payloads|
      invariant 0 <= i <= |payloads|
      invariant Tally(existingMap, created, updated, failed, errors, calls)
             == Reconciled(payloads[..i], existing, validationErrors, store)
    {
      assert payloads[..i + 1][..i] == payloads[..i];
      var payload := payloads[i];
      if payload.phone in existingMap && existingMap[payload.phone] != "" {
        var memberId := existingMap[payload.phone];
        var call := UpdateMember(memberId, PatchOf(payload));
        var reply := store(i, call);
        calls := calls + [call];
        if reply.StoreError? {
          failed := failed + 1;
          errors := errors + [CsvError(payload.row, reply.message)];
        } else {
          updated := updated + 1;
        }
      } else {
        var call := InsertMember(payload.phone, PatchOf(payload));
        var reply := store(i, call);
        calls := calls + [call];
        if reply.StoreError? {
          failed := failed + 1;
          errors := errors + [CsvError(payload.row, reply.message)];
        } else {
          created := created + 1;
          var inserted := reply.row;
          if inserted.Some? && inserted.value.phone != "" && inserted.value.id != "" {
            existingMap := existingMap[inserted.value.phone := inserted.value.id];
          }
        }
      }
      i := i + 1;
    }
    assert payloads[..i] == payloads;
  }

  /** The call made for payload `i` and the reply to it. */
  predicate CallMatches(payloads: seq<Payload>, calls: seq<StoreCall>, i: int) {
    0 <= i < |payloads| && i < |calls| &&
    calls[i].patch == PatchOf(payloads[i]) &&
    (calls[i].InsertMember? ==> calls[i].phone == payloads[i].phone)
  }

  /** One call per payload, writing only that payload's five columns (and its phone on an
      insert); every payload ends up created, updated or failed; `failed` counts the
      validation errors and then one per store error, and is the length of the error list,
      which starts with the validation errors. */
  lemma {:induction false} ReconciledCounts(payloads: seq<Payload>, index0: PhoneIndex, errors0: seq<CsvError>, store: Store)
    ensures var t := Reconciled(payloads, index0, errors0, store);
      && |t.calls| == |payloads|
      && (forall i :: 0 <= i < |payloads| ==> CallMatches(payloads, t.calls, i))
      && t.failed >= |errors0|
      && t.created + t.updated + (t.failed - |errors0|) == |payloads|
      && |t.errors| == t.failed
      && t.errors[..|errors0|] == errors0
    decreases |payloads|
  {
    if payloads != [] {
      var n := |payloads| - 1;
      var prefix := payloads[..n];
      ReconciledCounts(prefix, index0, errors0, store);
      var t := Reconciled(prefix, index0, errors0, store);
      var t' := Reconciled(payloads, index0, errors0, store);
      assert t'.calls == t.calls + [CallFor(t.index, payloads[n])];
      forall i | 0 <= i < |payloads|
        ensures CallMatches(payloads, t'.calls, i)
      {
        if i < n {
          assert CallMatches(prefix, t.calls, i);
          assert t'.calls[i] == t.calls[i];
        }
      }
      assert t'.errors == t.errors || t'.errors == t.errors + [t'.errors[|t.errors|]];
      assert t.errors[..|errors0|] == errors0;
    } else {
      assert errors0[..|errors0|] == errors0;
    }
  }

  // What the store answered, call by call.

  /** The number of calls among the first |calls| that are of the given kind and were saved. */
  function SavedCalls(calls: seq<StoreCall>, store: Store, insert: bool): nat
    decreases |calls|
  {
    if calls == [] then 0
    else
      var n := |calls| - 1;
      SavedCalls(calls[..n], store, insert) +
      (if calls[n].InsertMember? == insert && store(n, calls[n]).Saved? then 1 else 0)
  }

  /** One error per call the store refused, carrying the payload's row and the store's
      message, in call order. */
  function RefusedCalls(payloads: seq<Payload>, calls: seq<StoreCall>, store: Store): seq<CsvError>
    requires |payloads| == |calls|
    decreases |calls|
  {
    if calls == [] then []
    else
      var n := |calls| - 1;
      RefusedCalls(payloads[..n], calls[..n], store) + RefusedAs(payloads[n], store(n, calls[n]))
  }

  /** The reply to a call, as the error it adds, if any. */
  function RefusedAs(p: Payload, reply: StoreReply): seq<CsvError> {
    match reply
    case StoreError(message) => [CsvError(p.row, message)]
    case Saved(_) => []
  }

  lemma SavedCallsSnoc(calls: seq<StoreCall>, c: StoreCall, store: Store, insert: bool)
    ensures SavedCalls(calls + [c], store, insert)
         == SavedCalls(calls, store, insert) + (if c.InsertMember? == insert && store(|calls|, c).Saved? then 1 else 0)
  {
    assert (calls + [c])[..|calls|] == calls;
  }

  lemma RefusedCallsSnoc(ps: seq<Payload>, p: Payload, calls: seq<StoreCall>, c: StoreCall, store: Store)
    requires |ps| == |calls|
    ensures RefusedCalls(ps + [p], calls + [c], store) == RefusedCalls(ps, calls, store) + RefusedAs(p, store(|calls|, c))
  {
    assert (ps + [p])[..|ps|] == ps;
    assert (calls + [c])[..|calls|] == calls;
  }

  /** One more payload: the tally's counters and errors move as its reply says. */
  lemma ApplyReply(t: Tally, p: Payload, call: StoreCall, reply: StoreReply)
    requires call.InsertMember? || call.UpdateMember?
    ensures var t' := Apply(t, p, call, reply);
      && t'.calls == t.calls + [call]
      && t'.created == t.created + (if call.InsertMember? && reply.Saved? then 1 else 0)
      && t'.updated == t.updated + (if call.UpdateMember? && reply.Saved? then 1 else 0)
      && t'.errors == t.errors + RefusedAs(p, reply)
      && t'.failed == t.failed + |RefusedAs(p, reply)|
  {
  }

  /** The counters follow the store's replies: `created` counts the saved inserts, `updated`
      the saved updates, and after the validation errors the error list holds one entry per
      refused call, with that payload's row and the store's message; `failed` adds those to
      the validation errors. */
  lemma {:induction false} ReconciledReplies(payloads: seq<Payload>, index0: PhoneIndex, errors0: seq<CsvError>, store: Store)
    ensures var t := Reconciled(payloads, index0, errors0, store);
      && |t.calls| == |payloads|
      && t.created == SavedCalls(t.calls, store, true)
      && t.updated == SavedCalls(t.calls, store, false)
      && t.errors == errors0 + RefusedCalls(payloads, t.calls, store)
      && t.failed == |errors0| + |RefusedCalls(payloads, t.calls, store)|
    decreases |payloads|
  {
    if payloads == [] {
      assert errors0 + [] == errors0;
    } else {
      var n := |payloads| - 1;
      var prefix := payloads[..n];
      ReconciledReplies(prefix, index0, errors0, store);
      var t := Reconciled(prefix, index0, errors0, store);
      var call := CallFor(t.index, payloads[n]);
      var reply := store(n, call);
      assert Reconciled(payloads, index0, errors0, store) == Apply(t, payloads[n], call, reply);
      ApplyReply(t, payloads[n], call, reply);
      SavedCallsSnoc(t.calls, call, store, true);
      SavedCallsSnoc(t.calls, call, store, false);
      RefusedCallsSnoc(prefix, payloads[n], t.calls, call, store);
      assert prefix + [payloads[n]] == payloads;
      assert errors0 + RefusedCalls(prefix, t.calls, store) + RefusedAs(payloads[n], reply)
          == errors0 + (RefusedCalls(prefix, t.calls, store) + RefusedAs(payloads[n], reply));
    }
  }

  lemma {:induction false} CallsLength(payloads: seq<Payload>, index0: PhoneIndex, errors0: seq<CsvError>, store: Store)
    ensures |Reconciled(payloads, index0, errors0, store).calls| == |payloads|
    decreases |payloads|
  {
    if payloads != [] {
      CallsLength(payloads[..|payloads| - 1], index0, errors0, store);
    }
  }

  /** The call the loop makes for payload `k`: decided by the index held after the first `k`
      payloads. */
  function CallAt(payloads: seq<Payload>, k: nat, index0: PhoneIndex, errors0: seq<CsvError>, store: Store): StoreCall
    requires k < |payloads|
  {
    CallFor(Reconciled(payloads[..k], index0, errors0, store).index, payloads[k])
  }

  /** The reconciliation of a longer list keeps the calls of its prefix. */
  lemma {:induction false} ReconciledPrefix(payloads: seq<Payload>, k: nat, index0: PhoneIndex, errors0: seq<CsvError>, store: Store)
    requires k < |payloads|
    ensures |Reconciled(payloads, index0, errors0, store).calls| == |payloads|
    ensures Reconciled(payloads, index0, errors0, store).calls[k] == CallAt(payloads, k, index0, errors0, store)
    decreases |payloads|
  {
    var n := |payloads| - 1;
    var prefix := payloads[..n];
    CallsLength(payloads, index0, errors0, store);
    CallsLength(prefix, index0, errors0, store);
    var t := Reconciled(prefix, index0, errors0, store);
    assert Reconciled(payloads, index0, errors0, store).calls == t.calls + [CallFor(t.index, payloads[n])];
    if k < n {
      ReconciledPrefix(prefix, k, index0, errors0, store);
      assert prefix[..k] == payloads[..k];
    } else {
      assert prefix == payloads[..k];
    }
  }

  /** A known phone stays known: the index only gains entries with non-empty ids. */
  lemma {:induction false} KnownPersists(payloads: seq<Payload>, k: nat, phone: string, index0: PhoneIndex, errors0: seq<CsvError>, store: Store)
    requires k <= |payloads|
    requires Known(Reconciled(payloads[..k], index0, errors0, store).index, phone)
    ensures Known(Reconciled(payloads, index0, errors0, store).index, phone)
    decreases |payloads|
  {
    if k < |payloads| {
      var n := |payloads| - 1;
      var prefix := payloads[..n];
      assert prefix[..k] == payloads[..k];
      KnownPersists(prefix, k, phone, index0, errors0, store);
    } else {
      assert payloads[..k] == payloads;
    }
  }

  /** A phone inserted earlier in the file sends later rows with that phone down the update
      path, provided the store returned the inserted row with its id and phone. */
  lemma InsertedPhoneIsUpdatedLater(payloads: seq<Payload>, i: nat, j: nat, id: string,
                                    index0: PhoneIndex, errors0: seq<CsvError>, store: Store)
    requires i < j < |payloads| && payloads[i].phone == payloads[j].phone != "" && id != ""
    requires var call := CallAt(payloads, i, index0, errors0, store);
      call.InsertMember? ==> store(i, call) == Saved(Some(StoredRow(id, payloads[i].phone)))
    ensures CallAt(payloads, j, index0, errors0, store).UpdateMember?
  {
    var phone := payloads[i].phone;
    var ti := Reconciled(payloads[..i], index0, errors0, store);
    var after := payloads[..i + 1];
    assert after[..i] == payloads[..i] && after[i] == payloads[i];
    if Known(ti.index, phone) {
      KnownPersists(after, i, phone, index0, errors0, store);
    } else {
      var call := CallAt(payloads, i, index0, errors0, store);
      assert Reconciled(after, index0, errors0, store) == Apply(ti, payloads[i], call, store(i, call));
    }
    var before := payloads[..j];
    assert before[..i + 1] == after;
    KnownPersists(before, i + 1, phone, index0, errors0, store);
  }

  // ---------------------------------------------------------------------------------------
  // The handler

  const EmptyFile := "CSV file is empty"
  const TooFewRows := "CSV must include header + data rows"
  const MissingHeadersPrefix := "Missing required headers: "

  /** At most this many errors are returned. */
  const ErrorLimit := 20

  /** `requiredHeaders`, in the order the message lists them. */
  const Required: seq<Field> := [Name, Phone, GenderField, ExpireDate]

  /** The required fields `mapHeaders` found no column for, in the order of `Required`. */
  function MissingHeaders(mapped: Mapping): (r: seq<Field>)
    ensures forall f :: f in r <==> f in Required && f !in mapped
  {
    (if Name in mapped then [] else [Name]) +
    (if Phone in mapped then [] else [Phone]) +
    (if GenderField in mapped then [] else [GenderField]) +
    (if ExpireDate in mapped then [] else [ExpireDate])
  }

  function Keys(fields: seq<Field>): (r: seq<string>)
    ensures |r| == |fields| && forall i :: 0 <= i < |r| ==> r[i] == FieldKey(fields[i])
  {
    seq(|fields|, i requires 0 <= i < |fields| => FieldKey(fields[i]))
  }

  /** `errors.slice(0, 20)` */
  function Capped(errors: seq<CsvError>): (r: seq<CsvError>)
    ensures |r| == Min(ErrorLimit, |errors|) && r == errors[..|r|]
  {
    errors[..Min(ErrorLimit, |errors|)]
  }

  datatype Response =
    | Rejected(status: nat, message: string)
    | Summary(total: nat, created: nat, updated: nat, failed: nat, errors: seq<CsvError>)

  /** The import handler from the uploaded text on. A blank file, a file without a data row
      and a header row missing a required field are rejected with 400 before any row is
      looked at and before any store call. A file without a valid row is summarised without
      touching the store. Otherwise the phones of the payloads are looked up once: a failed
      lookup is a 500 with its message, and else the summary is the reconciliation's tally
      from the existing members' index and the validation errors, with the first 20 errors;
      it counts every payload once as created, updated or failed. */
  method ImportCsv(content: string, lookup: Lookup, store: Store) returns (response: Response, calls: seq<StoreCall>)
    ensures Trim(content) == "" ==> response == Rejected(400, EmptyFile) && calls == []
    ensures Trim(content) != "" && |Rows(content)| < 2 ==> response == Rejected(400, TooFewRows) && calls == []
    ensures (Trim(content) != "" && |Rows(content)| >= 2 &&
      MissingHeaders(HeaderMapping(Rows(content)[0])) != []) ==>
        response == Rejected(400, MissingHeadersPrefix + Join(Keys(MissingHeaders(HeaderMapping(Rows(content)[0]))), ", "))
        && calls == []
    ensures response.Rejected? && response.status == 500 ==> calls == []
    ensures response.Rejected? ==> response.status in {400, 500}
    ensures response.Summary? ==>
      && Trim(content) != "" && |Rows(content)| >= 2
      && MissingHeaders(HeaderMapping(Rows(content)[0])) == []
      && var mapped := HeaderMapping(Rows(content)[0]);
         var batch := Triage(Rows(content)[1..], RowValidator(mapped));
         && response.total == |batch.payloads| == |calls|
         && response.failed >= |batch.errors|
         && response.created + response.updated + (response.failed - |batch.errors|) == response.total
         && |response.errors| == Min(ErrorLimit, response.failed)
         && (forall i :: 0 <= i < |calls| ==> CallMatches(batch.payloads, calls, i))
         && response.created == SavedCalls(calls, store, true)
         && response.updated == SavedCalls(calls, store, false)
         && response.failed == |batch.errors| + |RefusedCalls(batch.payloads, calls, store)|
    ensures (Trim(content) != "" && |Rows(content)| >= 2 &&
      MissingHeaders(HeaderMapping(Rows(content)[0])) == []) ==>
      var batch := Triage(Rows(content)[1..], RowValidator(HeaderMapping(Rows(content)[0])));
      && (batch.payloads == [] ==>
           response == Summary(0, 0, 0, |batch.errors|, Capped(batch.errors)) && calls == [])
      && (batch.payloads != [] ==>
           match lookup(Distinct(Phones(batch.payloads)))
           case LookupFailed(message) => response == Rejected(500, message) && calls == []
           case Found(rows) =>
             var t := Reconciled(batch.payloads, IndexByPhone(rows), batch.errors, store);
             response == Summary(|batch.payloads|, t.created, t.updated, t.failed, Capped(t.errors))
             && calls == t.calls)
  {
    if Trim(content) == "" {
      return Rejected(400, EmptyFile), [];
    }
    var rows := ParseCsv(content);
    if |rows| < 2 {
      return Rejected(400, TooFewRows), [];
    }
    var mapped := MapHeaders(rows[0]);
    var missing := MissingHeaders(mapped);
    if |missing| > 0 {
      return Rejected(400, MissingHeadersPrefix + Join(Keys(missing), ", ")), [];
    }
    var payloads, errors := CollectRows(rows[1..], mapped);
    if |payloads| == 0 {
      return Summary(0, 0, 0, |errors|, Capped(errors)), [];
    }
    var phones := Distinct(Phones(payloads));
    var found := lookup(phones);
    if found.LookupFailed? {
      return Rejected(500, found.message), [];
    }
    var existing := IndexByPhone(found.rows);
    var created, updated, failed, allErrors;
    created, updated, failed, allErrors, calls := Reconcile(payloads, existing, errors, store);
    ReconciledCounts(payloads, existing, errors, store);
    ReconciledReplies(payloads, existing, errors, store);
    response := Summary(|payloads|, created, updated, failed, Capped(allErrors));
  }
}
