/** CSV export, and a reader for section 2 of RFC 4180 that it round-trips through. The
    section ends records with CRLF and the export with LF; the reader takes both. */
module Csv {
  import opened Text
  import opened LogEntries

  // ---- writing ----

  predicate Special(c: char) { c == '"' || c == ',' || c == '\n' || c == '\r' }

  predicate NeedsQuotes(s: string) { exists i :: 0 <= i < |s| && Special(s[i]) }

  /** Every quote doubled. */
  function Doubled(s: string): string {
    if s == "" then "" else (if s[0] == '"' then "\"\"" else [s[0]]) + Doubled(s[1..])
  }

  function Field(s: string): string { if NeedsQuotes(s) then "\"" + Doubled(s) + "\"" else s }

  function Digits(n: nat): string {
    var d := [('0' as int + n % 10) as char];
    if n < 10 then d else Digits(n / 10) + d
  }

  function Decimal(n: int): string { if n < 0 then "-" + Digits(-n) else Digits(n) }

  /** One line of the format: parts between commas. */
  function Line(parts: seq<string>): string
    requires parts != []
  {
    Join(parts, ',') + "\n"
  }

  function AsFields(row: seq<string>): seq<string> {
    seq(|row|, i requires 0 <= i < |row| => Field(row[i]))
  }

  function Row(row: seq<string>): string
    requires row != []
  {
    Line(AsFields(row))
  }

  const HEADER: seq<string> := ["time", "user", "method", "host", "path", "outcome", "status",
                                "bytes_in", "bytes_out", "duration_ms", "client"]

  function Columns(e: LogEntry): (r: seq<string>)
    ensures |r| == |HEADER|
  {
    [e.time, e.user, e.verb, e.host, e.path, e.outcome, Decimal(e.status),
     Decimal(e.bytesIn), Decimal(e.bytesOut), Decimal(e.durationMs), e.client]
  }

  function Table(es: seq<LogEntry>): seq<seq<string>> {
    seq(|es|, i requires 0 <= i < |es| => Columns(es[i]))
  }

  function Rows(rows: seq<seq<string>>): string
    requires forall i :: 0 <= i < |rows| ==> rows[i] != []
  {
    if rows == [] then "" else Row(rows[0]) + Rows(rows[1..])
  }

  // ---- reading ----

  datatype Mode = Start | Plain | Quoted | QuoteSeen

  /** Reads on with the given field and record begun. */
  function Read(text: string, mode: Mode, field: string, row: seq<string>): seq<seq<string>>
    decreases |text|
  {
    if text == "" then if mode.Start? && row == [] then [] else [row + [field]]
    else
      var c, more := text[0], text[1..];
      if mode.Quoted? then
        if c == '"' then Read(more, QuoteSeen, field, row) else Read(more, Quoted, field + [c], row)
      else if c == '"' && mode.Start? then Read(more, Quoted, field, row)
      else if c == '"' && mode.QuoteSeen? then Read(more, Quoted, field + [c], row)
      else if c == ',' then Read(more, Start, "", row + [field])
      else if c == '\n' then [row + [field]] + Read(more, Start, "", [])
      else if c == '\r' && more != "" && more[0] == '\n' then [row + [field]] + Read(more[1..], Start, "", [])
      else Read(more, Plain, field + [c], row)
  }

  // ---- round trip ----

  /** What a delimiter does, whichever way the field before it was written. */
  predicate Delimited(rest: string) { rest != "" && (rest[0] == ',' || rest[0] == '\n') }

  function AfterField(rest: string, field: string, row: seq<string>): seq<seq<string>>
    requires Delimited(rest)
  {
    if rest[0] == ',' then Read(rest[1..], Start, "", row + [field])
    else [row + [field]] + Read(rest[1..], Start, "", [])
  }

  lemma {:induction false} PlainRead(s: string, rest: string, mode: Mode, field: string, row: seq<string>)
    requires Delimited(rest) && !NeedsQuotes(s) && (mode.Start? || mode.Plain?)
    ensures Read(s + rest, mode, field, row) == AfterField(rest, field + s, row)
    decreases |s|
  {
    if s == "" {
      assert s + rest == rest && field + s == field;
    } else {
      assert !Special(s[0]);
      assert (s + rest)[1..] == s[1..] + rest;
      assert field + [s[0]] + s[1..] == field + s;
      assert forall i :: 0 <= i < |s[1..]| ==> s[1..][i] == s[i + 1];
      PlainRead(s[1..], rest, Plain, field + [s[0]], row);
    }
  }

  lemma {:induction false} QuotedRead(s: string, rest: string, field: string, row: seq<string>)
    requires Delimited(rest)
    ensures Read(Doubled(s) + "\"" + rest, Quoted, field, row) == AfterField(rest, field + s, row)
    decreases |s|
  {
    var text := Doubled(s) + "\"" + rest;
    if s == "" {
      assert text[1..] == rest && field + s == field;
    } else {
      var more := Doubled(s[1..]) + "\"" + rest;
      assert field + [s[0]] + s[1..] == field + s;
      QuotedRead(s[1..], rest, field + [s[0]], row);
      if s[0] == '"' {
        assert text[0] == '"' && text[1] == '"' && text[1..][1..] == more;
      } else {
        assert text[1..] == more;
      }
    }
  }

  lemma FieldRead(s: string, rest: string, row: seq<string>)
    requires Delimited(rest)
    ensures Read(Field(s) + rest, Start, "", row) == AfterField(rest, s, row)
  {
    hide NeedsQuotes, Doubled;
    assert "" + s == s;
    if NeedsQuotes(s) {
      var text := Field(s) + rest;
      assert text[1..] == Doubled(s) + "\"" + rest;
      QuotedRead(s, rest, "", row);
    } else {
      PlainRead(s, rest, Start, "", row);
    }
  }

  lemma LineFirst(x: string, parts: seq<string>, rest: string)
    ensures Line([x]) + rest == x + ("\n" + rest)
    ensures parts != [] ==> Line([x] + parts) + rest == x + ("," + (Line(parts) + rest))
  {
    if parts != [] { JoinFirst(x, parts, ','); }
  }

  lemma {:induction false} RowRead(fields: seq<string>, rest: string, row: seq<string>)
    requires fields != []
    ensures Read(Row(fields) + rest, Start, "", row) == [row + fields] + Read(rest, Start, "", [])
    decreases |fields|
  {
    hide Line, Field;
    var f, more := fields[0], fields[1..];
    assert fields == [f] + more && AsFields(fields) == [Field(f)] + AsFields(more);
    LineFirst(Field(f), AsFields(more), rest);
    if more == [] {
      var after := "\n" + rest;
      assert fields == [f] && AsFields(fields) == [Field(f)] && after[1..] == rest;
      FieldRead(f, after, row);
    } else {
      var after := "," + (Row(more) + rest);
      assert after[1..] == Row(more) + rest;
      FieldRead(f, after, row);
      RowRead(more, rest, row + [f]);
      assert row + [f] + more == row + fields;
    }
  }

  /** Whatever the fields contain, a reader gets back exactly the rows written. */
  lemma {:induction false} RowsRoundTrip(rows: seq<seq<string>>)
    requires forall i :: 0 <= i < |rows| ==> rows[i] != []
    ensures Read(Rows(rows), Start, "", []) == rows
  {
    if rows != [] {
      RowRead(rows[0], Rows(rows[1..]), []);
      RowsRoundTrip(rows[1..]);
      assert [] + rows[0] == rows[0];
      assert rows == [rows[0]] + rows[1..];
    }
  }

  lemma {:induction false} DigitsPlain(n: nat)
    ensures !NeedsQuotes(Digits(n))
  {
    if n >= 10 { DigitsPlain(n / 10); }
  }

  /** Numbers are written as they are, and would not be quoted. */
  lemma DecimalPlain(n: int)
    ensures !NeedsQuotes(Decimal(n)) && Field(Decimal(n)) == Decimal(n)
  {
    DigitsPlain(if n < 0 then -n else n);
  }

  /** The number that decimal digits stand for. */
  function Value(s: string): int {
    if s == "" then 0 else Value(s[..|s| - 1]) * 10 + (s[|s| - 1] as int - 48)
  }

  function Number(s: string): int { if s != "" && s[0] == '-' then -Value(s[1..]) else Value(s) }

  lemma {:induction false} DigitsValue(n: nat)
    ensures Value(Digits(n)) == n && Digits(n) != "" && Digits(n)[0] != '-'
  {
    var d := [('0' as int + n % 10) as char];
    assert d[..0] == "" && Value(d) == n % 10;
    if n >= 10 {
      DigitsValue(n / 10);
      var s := Digits(n / 10) + d;
      assert s[..|s| - 1] == Digits(n / 10) && s[|s| - 1] == d[0];
    }
  }

  /** Numbers read back as they were. */
  lemma NumberReadsBack(n: int)
    ensures Number(Decimal(n)) == n
  {
    DigitsValue(if n < 0 then -n else n);
    if n < 0 { assert ("-" + Digits(-n))[1..] == Digits(-n); }
  }

  /** Each column holds the field that the header names. */
  lemma ColumnsNamed(e: LogEntry)
    ensures var c := Columns(e);
            && HEADER[0] == "time" && c[0] == e.time && HEADER[1] == "user" && c[1] == e.user
            && HEADER[2] == "method" && c[2] == e.verb && HEADER[3] == "host" && c[3] == e.host
            && HEADER[4] == "path" && c[4] == e.path && HEADER[5] == "outcome" && c[5] == e.outcome
            && HEADER[6] == "status" && Number(c[6]) == e.status
            && HEADER[7] == "bytes_in" && Number(c[7]) == e.bytesIn
            && HEADER[8] == "bytes_out" && Number(c[8]) == e.bytesOut
            && HEADER[9] == "duration_ms" && Number(c[9]) == e.durationMs
            && HEADER[10] == "client" && c[10] == e.client && |HEADER| == |c| == 11
  {
    hide Decimal, Number;
    NumberReadsBack(e.status);
    NumberReadsBack(e.bytesIn);
    NumberReadsBack(e.bytesOut);
    NumberReadsBack(e.durationMs);
  }

  function Export(es: seq<LogEntry>): string { Row(HEADER) + Rows(Table(es)) }

  /** The exported text reads back as the header and one record per entry. */
  lemma ExportReadsBack(es: seq<LogEntry>)
    ensures Read(Export(es), Start, "", []) == [HEADER] + Table(es)
  {
    RowRead(HEADER, Rows(Table(es)), []);
    RowsRoundTrip(Table(es));
    assert [] + HEADER == HEADER;
  }

  /** A field is passed through unless it contains a quote, a comma or a line break, and then
      it stands between quotes with its own doubled. */
  lemma FieldExact(s: string)
    ensures var special := exists i :: 0 <= i < |s| && (s[i] == '"' || s[i] == ',' || s[i] == '\n' || s[i] == '\r');
            Field(s) == if special then "\"" + Doubled(s) + "\"" else s
  {
    if i :| 0 <= i < |s| && (s[i] == '"' || s[i] == ',' || s[i] == '\n' || s[i] == '\r') { assert Special(s[i]); }
  }

  /** Why a carriage return has to be quoted: at the end of a row it would be read as part of
      the line break. */
  lemma BareReturnIsLost()
    ensures NeedsQuotes("\r") && Read("\r" + "\n", Start, "", []) == [[""]]
  {
    var text, empty: seq<string> := "\r" + "\n", [];
    assert text[0] == '\r' && text[1..][0] == '\n' && text[1..][1..] == "";
    assert Read(text, Start, "", []) == [empty + [""]] + Read("", Start, "", []);
    assert empty + [""] == [""] && Read("", Start, "", []) == [];
    assert "\r"[0] == '\r';
  }

  lemma {:induction false} RowsAppend(rows: seq<seq<string>>, row: seq<string>)
    requires row != [] && forall i :: 0 <= i < |rows| ==> rows[i] != []
    ensures Rows(rows + [row]) == Rows(rows) + Row(row)
  {
    if rows == [] {
      assert [row][1..] == [] && rows + [row] == [row];
      assert Row(row) + "" == "" + Row(row);
    } else {
      assert (rows + [row])[1..] == rows[1..] + [row];
      RowsAppend(rows[1..], row);
      Regroup(Row(rows[0]), Rows(rows[1..]), Row(row));
    }
  }

  lemma ExportGrows(es: seq<LogEntry>, e: LogEntry)
    ensures Export(es + [e]) == Export(es) + Row(Columns(e))
  {
    hide Columns, Row, Rows;
    assert Table(es + [e]) == Table(es) + [Columns(e)];
    RowsAppend(Table(es), Columns(e));
    Regroup(Row(HEADER), Rows(Table(es)), Row(Columns(e)));
  }

  lemma ExportNone()
    ensures Export([]) == Line(HEADER)
  {
    hide Row, Line, Columns;
    HeaderPlain();
    assert Table([]) == [] && Line(HEADER) + "" == Line(HEADER);
  }

  method CSV(entries: seq<LogEntry>) returns (b: string)
    ensures b == Export(entries)
  {
    hide Export, Line, Row, Columns, Field, Decimal;
    b := Line(HEADER);
    ExportNone();
    for i := 0 to |entries|
      invariant b == Export(entries[..i])
    {
      var e := entries[i];
      assert entries[..i + 1] == entries[..i] + [e];
      ExportGrows(entries[..i], e);
      LineOfEntry(e);
      b := b + Line([Field(e.time), Field(e.user), Field(e.verb), Field(e.host), Field(e.path), Field(e.outcome),
                     Decimal(e.status), Decimal(e.bytesIn), Decimal(e.bytesOut), Decimal(e.durationMs), Field(e.client)]);
    }
    assert entries[..|entries|] == entries;
  }

  lemma LineOfEntry(e: LogEntry)
    ensures Row(Columns(e)) ==
            Line([Field(e.time), Field(e.user), Field(e.verb), Field(e.host), Field(e.path), Field(e.outcome),
                  Decimal(e.status), Decimal(e.bytesIn), Decimal(e.bytesOut), Decimal(e.durationMs), Field(e.client)])
  {
    hide Field, Line, Decimal;
    DecimalPlain(e.status);
    DecimalPlain(e.bytesIn);
    DecimalPlain(e.bytesOut);
    DecimalPlain(e.durationMs);
    assert AsFields(Columns(e)) ==
           [Field(e.time), Field(e.user), Field(e.verb), Field(e.host), Field(e.path), Field(e.outcome),
            Decimal(e.status), Decimal(e.bytesIn), Decimal(e.bytesOut), Decimal(e.durationMs), Field(e.client)];
  }

  lemma HeaderPlain()
    ensures Row(HEADER) == Line(HEADER)
  {
    assert !NeedsQuotes("time") && !NeedsQuotes("user");
    assert !NeedsQuotes("method") && !NeedsQuotes("host");
    assert !NeedsQuotes("path") && !NeedsQuotes("outcome");
    assert !NeedsQuotes("status") && !NeedsQuotes("bytes_in");
    assert !NeedsQuotes("bytes_out") && !NeedsQuotes("duration_ms");
    assert !NeedsQuotes("client");
    hide NeedsQuotes;
    assert AsFields(HEADER) == HEADER;
  }
}
