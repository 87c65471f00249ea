/**
  The hand-written CSV tokenizer of the member import (`parseCsv`): a character loop with a
  quoted mode in which `""` is a literal quote, and `,` and line breaks are field text; outside
  quotes `,` ends a field, `\n` ends a row and `\r` is dropped.
 */
module CsvTokenizer {

  type Row = seq<string>

  /** The loop variables of the tokenizer: finished rows, the current row and field, the mode. */
  datatype ScanState = ScanState(rows: seq<Row>, row: Row, field: string, inQuotes: bool)

  const Start := ScanState([], [], "", false)

  /** The effect of one character that is not the first half of an escaped quote. */
  function Consume(st: ScanState, ch: char): ScanState {
    if st.inQuotes then
      if ch == '"' then st.(inQuotes := false) else st.(field := st.field + [ch])
    else if ch == '"' then st.(inQuotes := true)
    else if ch == ',' then st.(row := st.row + [st.field], field := "")
    else if ch == '\n' then st.(rows := st.rows + [st.row + [st.field]], row := [], field := "")
    else if ch == '\r' then st
    else st.(field := st.field + [ch])
  }

  /** The state after tokenizing `rest` from `st`. */
  function Scan(rest: string, st: ScanState): ScanState
    decreases |rest|
  {
    if rest == [] then st
    else if st.inQuotes && rest[0] == '"' && |rest| > 1 && rest[1] == '"' then
      Scan(rest[2..], st.(field := st.field + "\""))
    else
      Scan(rest[1..], Consume(st, rest[0]))
  }

  /** The pending row is emitted only when its last field or the row itself is non-empty. */
  function Finish(st: ScanState): seq<Row> {
    if |st.field| > 0 || |st.row| > 0 then st.rows + [st.row + [st.field]] else st.rows
  }

  /** The rows `parseCsv` returns for `content`. */
  function Rows(content: string): seq<Row> {
    Finish(Scan(content, Start))
  }

  /** `parseCsv(content)` */
  method ParseCsv(content: string) returns (rows: seq<Row>)
    ensures rows == Rows(content)
  {
    rows := [];
    var row: Row := [];
    var field := "";
    var inQuotes := false;
    var index := 0;
    while index < |content|
      invariant 0 <= index <= |content|
      invariant Scan(content[index..], ScanState(rows, row, field, inQuotes)) == Scan(content, Start)
    {
      ghost var before := ScanState(rows, row, field, inQuotes);
      assert content[index..][0] == content[index];
      assert content[index..][1..] == content[index + 1..];
      var ch := content[index];
      if inQuotes {
        if ch == '"' {
          if index + 1 < |content| && content[index + 1] == '"' {
            assert content[index..][2..] == content[index + 2..];
            field := field + "\"";
            index := index + 1;
          } else {
            inQuotes := false;
          }
        } else {
          field := field + [ch];
        }
      } else if ch == '"' {
        inQuotes := true;
      } else if ch == ',' {
        row := row + [field];
        field := "";
      } else if ch == '\n' {
        rows := rows + [row + [field]];
        row := [];
        field := "";
      } else if ch == '\r' {
      } else {
        field := field + [ch];
      }
      index := index + 1;
    }
    if |field| > 0 || |row| > 0 {
      rows := rows + [row + [field]];
    }
  }

  // ---------------------------------------------------------------------------------------
  // Properties of the tokenizer

  /** Every row the tokenizer produces has at least one field. */
  predicate RowsHaveFields(rows: seq<Row>) {
    forall i :: 0 <= i < |rows| ==> |rows[i]| >= 1
  }

  lemma {:induction false} ScanKeepsRowsNonEmpty(rest: string, st: ScanState)
    requires RowsHaveFields(st.rows)
    ensures RowsHaveFields(Scan(rest, st).rows)
    decreases |rest|
  {
    if rest == [] {
    } else if st.inQuotes && rest[0] == '"' && |rest| > 1 && rest[1] == '"' {
      ScanKeepsRowsNonEmpty(rest[2..], st.(field := st.field + "\""));
    } else {
      ScanKeepsRowsNonEmpty(rest[1..], Consume(st, rest[0]));
    }
  }

  lemma RowsNonEmpty(content: string)
    ensures RowsHaveFields(Rows(content))
  {
    ScanKeepsRowsNonEmpty(content, Start);
  }

  /** Tokenizing one more character that is not a quote takes one more step. */
  lemma {:induction false} ScanSnoc(s: string, c: char, st: ScanState)
    requires c != '"'
    ensures Scan(s + [c], st) == Consume(Scan(s, st), c)
    decreases |s|
  {
    if s == [] {
      assert [] + [c] == [c];
    } else if st.inQuotes && s[0] == '"' && |s| > 1 && s[1] == '"' {
      assert (s + [c])[2..] == s[2..] + [c];
      ScanSnoc(s[2..], c, st.(field := st.field + "\""));
    } else {
      assert (s + [c])[0] == s[0];
      assert |s| == 1 ==> (s + [c])[1] == c;
      assert |s| > 1 ==> (s + [c])[1] == s[1];
      assert (s + [c])[1..] == s[1..] + [c];
      ScanSnoc(s[1..], c, Consume(st, s[0]));
    }
  }

  /** A newline after a pending row, outside quotes, changes nothing: the newline emits
      the row that the end of input would have emitted, and then nothing is pending. */
  lemma TrailingNewline(s: string)
    requires !Scan(s, Start).inQuotes
    ensures Rows(s + "\n") == Scan(s + "\n", Start).rows
    ensures |Scan(s, Start).field| > 0 || |Scan(s, Start).row| > 0 ==> Rows(s + "\n") == Rows(s)
  {
    ScanSnoc(s, '\n', Start);
  }

  // Serialising rows, quoting only the fields that need it.

  /** A field that can be written without quotes. */
  predicate Plain(f: string) {
    forall i :: 0 <= i < |f| ==> f[i] != '"' && f[i] != ',' && f[i] != '\r' && f[i] != '\n'
  }

  /** Doubles every quote. */
  function Escape(f: string): string {
    if f == [] then [] else (if f[0] == '"' then "\"\"" else [f[0]]) + Escape(f[1..])
  }

  function EncodeField(f: string): string {
    if Plain(f) then f else "\"" + Escape(f) + "\""
  }

  function EncodeRow(row: Row): string
    requires |row| >= 1
  {
    if |row| == 1 then EncodeField(row[0]) else EncodeField(row[0]) + "," + EncodeRow(row[1..])
  }

  function LineEnd(crlf: bool): string { if crlf then "\r\n" else "\n" }

  /** Every row written as its encoded fields joined by `,`, each row ended by a line end. */
  function Serialize(rows: seq<Row>, crlf: bool): string
    requires RowsHaveFields(rows)
  {
    if rows == [] then "" else EncodeRow(rows[0]) + LineEnd(crlf) + Serialize(rows[1..], crlf)
  }

  function StartsWithQuote(s: string): bool { s != [] && s[0] == '"' }

  /** Outside quotes a plain field is appended to the current field. */
  lemma {:induction false} ScanPlain(f: string, rest: string, st: ScanState)
    requires Plain(f) && !st.inQuotes
    ensures Scan(f + rest, st) == Scan(rest, st.(field := st.field + f))
    decreases |f|
  {
    if f == [] {
      assert f + rest == rest;
      assert st.(field := st.field + f) == st;
    } else {
      assert (f + rest)[0] == f[0];
      assert (f + rest)[1..] == f[1..] + rest;
      assert Plain(f[1..]);
      ScanPlain(f[1..], rest, st.(field := st.field + [f[0]]));
      assert st.field + [f[0]] + f[1..] == st.field + f;
    }
  }

  /** Inside quotes an escaped field and its closing quote are read as the field's own text:
      `""` gives one `"`, and `,`, `\r` and `\n` are kept. */
  lemma {:induction false} ScanEscaped(f: string, rest: string, st: ScanState)
    requires st.inQuotes && !StartsWithQuote(rest)
    ensures Scan(Escape(f) + "\"" + rest, st) == Scan(rest, st.(field := st.field + f, inQuotes := false))
    decreases |f|
  {
    var s := Escape(f) + "\"" + rest;
    if f == [] {
      assert s == "\"" + rest;
      assert s[1..] == rest;
      assert |s| > 1 ==> s[1] == rest[0];
      assert st.field + f == st.field;
    } else if f[0] == '"' {
      assert s == "\"\"" + (Escape(f[1..]) + "\"" + rest);
      assert s[2..] == Escape(f[1..]) + "\"" + rest;
      ScanEscaped(f[1..], rest, st.(field := st.field + "\""));
      assert st.field + "\"" + f[1..] == st.field + f;
    } else {
      assert s == [f[0]] + (Escape(f[1..]) + "\"" + rest);
      assert s[1..] == Escape(f[1..]) + "\"" + rest;
      ScanEscaped(f[1..], rest, st.(field := st.field + [f[0]]));
      assert st.field + [f[0]] + f[1..] == st.field + f;
    }
  }

  /** An encoded field followed by anything but a quote reads back as the field. */
  lemma ScanField(f: string, rest: string, st: ScanState)
    requires !st.inQuotes && !StartsWithQuote(rest)
    ensures Scan(EncodeField(f) + rest, st) == Scan(rest, st.(field := st.field + f))
  {
    if Plain(f) {
      ScanPlain(f, rest, st);
    } else {
      var s := EncodeField(f) + rest;
      assert s == "\"" + (Escape(f) + "\"" + rest);
      assert s[1..] == Escape(f) + "\"" + rest;
      ScanEscaped(f, rest, st.(inQuotes := true));
    }
  }

  /** A line end outside quotes finishes the current row. */
  lemma ScanLineEnd(crlf: bool, rest: string, st: ScanState)
    requires !st.inQuotes
    ensures Scan(LineEnd(crlf) + rest, st) == Scan(rest, ScanState(st.rows + [st.row + [st.field]], [], "", false))
  {
    var s := LineEnd(crlf) + rest;
    if crlf {
      assert s[0] == '\r' && s[1..] == "\n" + rest;
      assert s[1..][1..] == rest;
    } else {
      assert s[0] == '\n' && s[1..] == rest;
    }
  }

  /** A comma outside quotes finishes the current field. */
  lemma ScanComma(rest: string, st: ScanState)
    requires !st.inQuotes
    ensures Scan("," + rest, st) == Scan(rest, st.(row := st.row + [st.field], field := ""))
  {
    assert ("," + rest)[0] == ',' && ("," + rest)[1..] == rest;
  }

  /** The last field of a row and the line end. */
  lemma ScanLastField(f: string, crlf: bool, rest: string, st: ScanState)
    requires !st.inQuotes && st.field == ""
    ensures Scan(EncodeField(f) + LineEnd(crlf) + rest, st)
         == Scan(rest, ScanState(st.rows + [st.row + [f]], [], "", false))
  {
    var tail := LineEnd(crlf) + rest;
    assert EncodeField(f) + LineEnd(crlf) + rest == EncodeField(f) + tail;
    ScanField(f, tail, st);
    assert st.field + f == f;
    ScanLineEnd(crlf, rest, st.(field := f));
  }

  lemma ScanFieldComma(f: string, more: string, st: ScanState)
    requires !st.inQuotes && st.field == ""
    ensures Scan(EncodeField(f) + ("," + more), st) == Scan(more, st.(row := st.row + [f]))
  {
    var st1 := st.(field := st.field + f);
    ScanField(f, "," + more, st);
    ScanComma(more, st1);
    assert st.field + f == f;
    assert st1.(row := st1.row + [st1.field], field := "") == st.(row := st.row + [f]);
  }

  lemma ConcatRow(a: string, b: string, c: string)
    ensures a + "," + b + c == a + ("," + (b + c))
  {
  }

  /** The first field of a longer row and its comma. */
  lemma ScanRowHead(row: Row, crlf: bool, rest: string, st: ScanState)
    requires |row| >= 2 && !st.inQuotes && st.field == ""
    ensures Scan(EncodeRow(row) + LineEnd(crlf) + rest, st)
         == Scan(EncodeRow(row[1..]) + LineEnd(crlf) + rest, st.(row := st.row + [row[0]]))
  {
    var e, r, t := EncodeField(row[0]), EncodeRow(row[1..]), LineEnd(crlf) + rest;
    assert EncodeRow(row) == e + "," + r;
    ConcatRow(e, r, t);
    assert EncodeRow(row) + LineEnd(crlf) + rest == e + ("," + (r + t));
    assert r + t == EncodeRow(row[1..]) + LineEnd(crlf) + rest;
    ScanFieldComma(row[0], r + t, st);
  }

  lemma RowAfterHead(row: Row, st: ScanState)
    requires |row| >= 2
    ensures var st1 := st.(row := st.row + [row[0]]);
      ScanState(st1.rows + [st1.row + row[1..]], [], "", false) == ScanState(st.rows + [st.row + row], [], "", false)
  {
    assert st.row + [row[0]] + row[1..] == st.row + row;
  }

  /** An encoded row and its line end read back as one finished row. */
  lemma {:induction false} ScanRow(row: Row, crlf: bool, rest: string, st: ScanState)
    requires |row| >= 1 && !st.inQuotes && st.field == ""
    ensures Scan(EncodeRow(row) + LineEnd(crlf) + rest, st)
         == Scan(rest, ScanState(st.rows + [st.row + row], [], "", false))
    decreases |row|
  {
    if |row| == 1 {
      ScanLastField(row[0], crlf, rest, st);
      assert [row[0]] == row;
    } else {
      ScanRowHead(row, crlf, rest, st);
      ScanRow(row[1..], crlf, rest, st.(row := st.row + [row[0]]));
      RowAfterHead(row, st);
    }
  }

  lemma RowsHaveFieldsTail(rows: seq<Row>)
    requires rows != [] && RowsHaveFields(rows)
    ensures RowsHaveFields(rows[1..]) && |rows[0]| >= 1
  {
    forall i | 0 <= i < |rows| - 1 ensures |rows[1..][i]| >= 1 {
      assert rows[1..][i] == rows[i + 1];
    }
  }

  /** The first written row reads back as one more finished row. */
  lemma ScanFirstRow(rows: seq<Row>, crlf: bool, done: seq<Row>)
    requires rows != [] && RowsHaveFields(rows)
    ensures RowsHaveFields(rows[1..])
    ensures Scan(Serialize(rows, crlf), ScanState(done, [], "", false))
         == Scan(Serialize(rows[1..], crlf), ScanState(done + [rows[0]], [], "", false))
  {
    RowsHaveFieldsTail(rows);
    var later := Serialize(rows[1..], crlf);
    var st := ScanState(done, [], "", false);
    ScanRow(rows[0], crlf, later, st);
    assert [] + rows[0] == rows[0];
  }

  lemma {:induction false} ScanSerialized(rows: seq<Row>, crlf: bool, done: seq<Row>)
    requires RowsHaveFields(rows)
    ensures Scan(Serialize(rows, crlf), ScanState(done, [], "", false)) == ScanState(done + rows, [], "", false)
    decreases |rows|
  {
    if rows == [] {
      assert done + rows == done;
    } else {
      ScanFirstRow(rows, crlf, done);
      ScanSerialized(rows[1..], crlf, done + [rows[0]]);
      assert done + [rows[0]] + rows[1..] == done + rows;
    }
  }

  /** Round trip: rows written with minimal quoting and either line ending are read back
      exactly. For rows whose fields contain no `"`, `,`, `\r` or `\n` the written text is the
      fields joined by `,` with every row ended by a newline. */
  lemma RoundTrip(rows: seq<Row>, crlf: bool)
    requires RowsHaveFields(rows)
    ensures Rows(Serialize(rows, crlf)) == rows
  {
    ScanSerialized(rows, crlf, []);
    assert [] + rows == rows;
  }

  /** Without quotes, dropping every `\r` leaves the rows unchanged: CRLF and LF input give
      the same rows. */
  function DropCR(s: string): string {
    if s == [] then [] else (if s[0] == '\r' then [] else [s[0]]) + DropCR(s[1..])
  }

  lemma {:induction false} ScanDropCR(s: string, st: ScanState)
    requires '"' !in s && !st.inQuotes
    ensures Scan(s, st) == Scan(DropCR(s), st)
    decreases |s|
  {
    if s != [] {
      assert s[0] != '"' && '"' !in s[1..];
      ScanDropCR(s[1..], Consume(st, s[0]));
      if s[0] == '\r' {
        assert DropCR(s) == DropCR(s[1..]);
        ScanDropCR(s[1..], st);
      } else {
        var d := DropCR(s);
        assert d == [s[0]] + DropCR(s[1..]);
        assert d[0] == s[0] && d[1..] == DropCR(s[1..]);
      }
    }
  }

  lemma CarriageReturnsIgnored(s: string)
    requires '"' !in s
    ensures Rows(s) == Rows(DropCR(s))
  {
    ScanDropCR(s, Start);
  }
}
