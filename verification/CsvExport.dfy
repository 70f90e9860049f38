/** CSV export: what is printed reads back, by the rules of RFC 4180, as the header row and the grid of cells. */
module CsvExport {
  import opened Whitespace
  import opened Wrappers

  /** What an accessor yields: nothing, a string, or any other value as it prints. */
  datatype Value = Missing | Text(text: string) | Other(printed: string)

  datatype Column<!T> = Column(header: string, accessor: T -> Value)

  datatype ExportError = EmptyColumns | EmptyHeader | DuplicateHeader(header: string)

  // ---------- Formula guard ----------

  predicate IsTrigger(c: char) {
    c in {'=', '+', '-', '@'}
  }

  /** A spreadsheet would take the text for a formula: white space, then a sign that starts one. */
  predicate LooksLikeFormula(text: string) {
    text != "" && (IsTrigger(text[0]) || (IsSpace(text[0]) && LooksLikeFormula(text[1..])))
  }

  function Sanitize(text: string): string {
    if LooksLikeFormula(text) then "'" + text else text
  }

  function CellText(value: Value): string {
    match value
    case Missing => ""
    case Text(text) => Sanitize(text)
    case Other(printed) => printed
  }

  // ---------- Validation ----------

  predicate RepeatsHeader<T>(columns: seq<Column<T>>, i: nat)
    requires i < |columns|
  {
    exists j :: 0 <= j < i && Sanitize(columns[j].header) == Sanitize(columns[i].header)
  }

  /** The headers of the first `n` columns have something in them and differ after sanitising. */
  predicate HeadersFine<T>(columns: seq<Column<T>>, n: nat)
    requires n <= |columns|
  {
    forall i :: 0 <= i < n ==> !IsBlank(columns[i].header) && !RepeatsHeader(columns, i)
  }

  /** The first column at fault decides the error. */
  method ValidateDefinition<T>(columns: seq<Column<T>>) returns (r: Option<ExportError>)
    ensures r == None <==> columns != [] && HeadersFine(columns, |columns|)
    ensures r == Some(EmptyColumns) <==> columns == []
    ensures r == Some(EmptyHeader) ==>
              exists i :: 0 <= i < |columns| && HeadersFine(columns, i) && IsBlank(columns[i].header)
    ensures r.Some? && r.value.DuplicateHeader? ==>
              exists i :: 0 <= i < |columns| && HeadersFine(columns, i) && !IsBlank(columns[i].header) &&
                          RepeatsHeader(columns, i) && r.value.header == columns[i].header
  {
    if |columns| == 0 {
      return Some(EmptyColumns);
    }
    var headers: set<string> := {};
    for i := 0 to |columns|
      invariant HeadersFine(columns, i)
      invariant forall h :: h in headers <==> exists j :: 0 <= j < i && Sanitize(columns[j].header) == h
    {
      if IsBlank(columns[i].header) {
        return Some(EmptyHeader);
      }
      var safeHeader := Sanitize(columns[i].header);
      if safeHeader in headers {
        assert RepeatsHeader(columns, i);
        return Some(DuplicateHeader(columns[i].header));
      }
      headers := headers + {safeHeader};
    }
    r := None;
  }

  // ---------- Printing ----------

  predicate IsSpecial(c: char) {
    c == ',' || c == '"' || c == '\n' || c == '\r'
  }

  predicate NeedsQuotes(text: string) {
    exists i :: 0 <= i < |text| && IsSpecial(text[i])
  }

  function DoubleQuotes(text: string): string {
    if text == "" then "" else (if text[0] == '"' then "\"\"" else text[..1]) + DoubleQuotes(text[1..])
  }

  function EscapeCsv(text: string): string {
    if NeedsQuotes(text) then "\"" + DoubleQuotes(text) + "\"" else text
  }

  function Join(parts: seq<string>, separator: string): string {
    if parts == [] then ""
    else if |parts| == 1 then parts[0]
    else parts[0] + separator + Join(parts[1..], separator)
  }

  function PrintRow(row: seq<string>): string {
    Join(seq(|row|, i requires 0 <= i < |row| => EscapeCsv(row[i])), ",")
  }

  function Print(rows: seq<seq<string>>): string {
    Join(seq(|rows|, i requires 0 <= i < |rows| => PrintRow(rows[i])), "\r\n")
  }

  /** The header row and one row for each record, as the cells should read. */
  function Grid<T>(records: seq<T>, columns: seq<Column<T>>): (rows: seq<seq<string>>)
    ensures |rows| == 1 + |records| && forall i :: 0 <= i < |rows| ==> |rows[i]| == |columns|
  {
    [seq(|columns|, c requires 0 <= c < |columns| => Sanitize(columns[c].header))] +
    seq(|records|, r requires 0 <= r < |records| =>
          seq(|columns|, c requires 0 <= c < |columns| => CellText(columns[c].accessor(records[r]))))
  }

  // ---------- Reading by section 2 of RFC 4180 ----------

  /** A comma, a quote, or either character of a line break. */
  predicate EndsPlain(c: char) {
    c as int == 44 || c as int == 34 || c as int == 10 || c as int == 13
  }

  /** An unquoted field runs up to the next of these. */
  function ReadPlain(text: string): (r: (string, string))
    ensures text == r.0 + r.1
  {
    if text == "" || EndsPlain(text[0]) then ("", text)
    else
      var (field, rest) := ReadPlain(text[1..]);
      (text[..1] + field, rest)
  }

  /** After the opening quote: up to a quote that is not doubled. */
  function ReadQuoted(text: string): (r: Option<(string, string)>)
    ensures r.Some? ==> |r.value.1| < |text|
  {
    if text == "" then None
    else if text[0] != '"' then
      var rest := ReadQuoted(text[1..]);
      if rest.None? then None else Some((text[..1] + rest.value.0, rest.value.1))
    else if |text| > 1 && text[1] == '"' then
      var rest := ReadQuoted(text[2..]);
      if rest.None? then None else Some(("\"" + rest.value.0, rest.value.1))
    else Some(("", text[1..]))
  }

  function ReadField(text: string): (r: Option<(string, string)>)
    ensures r.Some? ==> |r.value.1| <= |text|
  {
    if text != "" && text[0] == '"' then ReadQuoted(text[1..]) else Some(ReadPlain(text))
  }

  /** Fields with commas between them. */
  function ReadRecord(text: string): (r: Option<(seq<string>, string)>)
    ensures r.Some? ==> |r.value.1| <= |text| && r.value.0 != []
    decreases |text|
  {
    var field := ReadField(text);
    if field.None? then None
    else if field.value.1 != "" && field.value.1[0] == ',' then
      var more := ReadRecord(field.value.1[1..]);
      if more.None? then None else Some(([field.value.0] + more.value.0, more.value.1))
    else Some(([field.value.0], field.value.1))
  }

  /**
    * Records with CRLF between them. The last record may or may not end in a line break: `lenient` reads one there as
    * an ending, otherwise every CRLF stands between two records.
    */
  function ReadFile(text: string, lenient: bool): Option<seq<seq<string>>>
    decreases |text|
  {
    var record := ReadRecord(text);
    if record.None? then None
    else
      var rest := record.value.1;
      if rest == "" || (lenient && rest == "\r\n") then Some([record.value.0])
      else if "\r\n" <= rest then
        var more := ReadFile(rest[2..], lenient);
        if more.None? then None else Some([record.value.0] + more.value)
      else None
  }

  // ---------- Printing and reading ----------

  /** Where a field can end. */
  predicate EndsField(tail: string) {
    tail == "" || tail[0] == ',' || tail[0] == '\r'
  }

  /** What calls for quotes is what ends an unquoted field. */
  lemma SpecialsEndPlain(c: char)
    ensures IsSpecial(c) <==> EndsPlain(c)
  {
  }

  lemma FieldEndsEndPlain(tail: string)
    requires EndsField(tail)
    ensures ReadPlain(tail) == ("", tail)
  {
  }

  lemma {:induction false} PlainReadsBack(text: string, tail: string)
    requires !NeedsQuotes(text) && EndsField(tail)
    ensures ReadPlain(text + tail) == (text, tail)
  {
    hide IsSpecial, EndsPlain, EndsField;
    if text == "" {
      assert text + tail == tail;
      FieldEndsEndPlain(tail);
    } else {
      SpecialsEndPlain(text[0]);
      assert !IsSpecial(text[0]);
      assert (text + tail)[1..] == text[1..] + tail;
      assert (text + tail)[..1] == text[..1];
      assert !NeedsQuotes(text[1..]) by {
        forall i | 0 <= i < |text| - 1 ensures !IsSpecial(text[1..][i]) {
          assert text[1..][i] == text[i + 1];
        }
      }
      PlainReadsBack(text[1..], tail);
      assert text[..1] + text[1..] == text;
    }
  }

  lemma {:induction false} QuotedReadsBack(text: string, tail: string)
    requires EndsField(tail)
    ensures ReadQuoted(DoubleQuotes(text) + "\"" + tail) == Some((text, tail))
  {
    if text == "" {
      assert DoubleQuotes(text) + "\"" + tail == "\"" + tail;
    } else {
      QuotedReadsBack(text[1..], tail);
      var rest := DoubleQuotes(text[1..]) + "\"" + tail;
      var first := if text[0] == '"' then "\"\"" else text[..1];
      var printed := first + rest;
      assert DoubleQuotes(text) + "\"" + tail == printed;
      assert printed[|first|..] == rest;
      assert text[..1] + text[1..] == text;
      if text[0] == '"' {
        assert text[..1] == "\"";
      } else {
        assert printed[..1] == text[..1];
      }
    }
  }

  lemma FieldReadsBack(text: string, tail: string)
    requires EndsField(tail)
    ensures ReadField(EscapeCsv(text) + tail) == Some((text, tail))
  {
    hide ReadPlain, ReadQuoted, DoubleQuotes;
    if NeedsQuotes(text) {
      QuotedReadsBack(text, tail);
      var printed := DoubleQuotes(text) + "\"" + tail;
      assert EscapeCsv(text) + tail == "\"" + printed;
      assert ("\"" + printed)[1..] == printed;
    } else {
      PlainReadsBack(text, tail);
      if text != "" {
        assert !IsSpecial(text[0]);
      }
    }
  }

  lemma PrintRowSteps(row: seq<string>)
    requires row != []
    ensures PrintRow(row) ==
            EscapeCsv(row[0]) + if |row| == 1 then "" else "," + PrintRow(row[1..])
  {
    var parts := seq(|row|, i requires 0 <= i < |row| => EscapeCsv(row[i]));
    var rest := row[1..];
    assert parts[1..] == seq(|rest|, i requires 0 <= i < |rest| => EscapeCsv(rest[i]));
  }

  lemma PrintSteps(rows: seq<seq<string>>)
    requires rows != []
    ensures Print(rows) == PrintRow(rows[0]) + if |rows| == 1 then "" else "\r\n" + Print(rows[1..])
  {
    var parts := seq(|rows|, i requires 0 <= i < |rows| => PrintRow(rows[i]));
    var rest := rows[1..];
    assert parts[1..] == seq(|rest|, i requires 0 <= i < |rest| => PrintRow(rest[i]));
  }

  lemma {:induction false} RowReadsBack(row: seq<string>, tail: string)
    requires row != [] && (tail == "" || tail[0] == '\r')
    ensures ReadRecord(PrintRow(row) + tail) == Some((row, tail))
  {
    hide PrintRow, ReadField;
    PrintRowSteps(row);
    if |row| == 1 {
      assert PrintRow(row) + tail == EscapeCsv(row[0]) + tail;
      FieldReadsBack(row[0], tail);
      assert [row[0]] == row;
    } else {
      var rest := PrintRow(row[1..]) + tail;
      assert PrintRow(row) + tail == EscapeCsv(row[0]) + ("," + rest);
      FieldReadsBack(row[0], "," + rest);
      RowReadsBack(row[1..], tail);
      assert ("," + rest)[1..] == rest;
      assert [row[0]] + row[1..] == row;
    }
  }

  /** The first row is read off, and the rest is read as a file of its own unless only its line break is left. */
  lemma FirstRowReadsBack(rows: seq<seq<string>>, lenient: bool)
    requires rows != [] && rows[0] != []
    ensures |rows| == 1 ==> ReadFile(Print(rows), lenient) == Some(rows)
    ensures |rows| > 1 && lenient && Print(rows[1..]) == "" ==> ReadFile(Print(rows), lenient) == Some([rows[0]])
    ensures |rows| > 1 && !(lenient && Print(rows[1..]) == "") && ReadFile(Print(rows[1..]), lenient).Some? ==>
              ReadFile(Print(rows), lenient) == Some([rows[0]] + ReadFile(Print(rows[1..]), lenient).value)
  {
    hide Print, PrintRow, ReadRecord;
    PrintSteps(rows);
    if |rows| == 1 {
      RowReadsBack(rows[0], "");
      assert PrintRow(rows[0]) + "" == PrintRow(rows[0]);
      assert [rows[0]] == rows;
    } else {
      var rest := "\r\n" + Print(rows[1..]);
      RowReadsBack(rows[0], rest);
      assert rest[2..] == Print(rows[1..]);
      assert rest == "\r\n" ==> Print(rows[1..]) == "";
    }
  }

  /** Every CRLF taken as a separator, printing and reading are inverse for all cells and any number of columns. */
  lemma {:induction false} PrintReadsBack(rows: seq<seq<string>>)
    requires rows != [] && forall i :: 0 <= i < |rows| ==> rows[i] != []
    ensures ReadFile(Print(rows), false) == Some(rows)
  {
    hide Print, ReadFile;
    FirstRowReadsBack(rows, false);
    if |rows| > 1 {
      PrintReadsBack(rows[1..]);
      assert [rows[0]] + rows[1..] == rows;
    }
  }

  /**
    * Read leniently, everything but an empty last row of a single column comes back: that row and the line break
    * before it read as a file whose last record ends in a line break.
    */
  lemma {:induction false} LenientReadsBackUnlessLastRowEmpty(rows: seq<seq<string>>)
    requires rows != [] && forall i :: 0 <= i < |rows| ==> rows[i] != []
    ensures ReadFile(Print(rows), true) ==
            Some(if |rows| > 1 && rows[|rows| - 1] == [""] then rows[..|rows| - 1] else rows)
  {
    hide Print, ReadFile;
    FirstRowReadsBack(rows, true);
    if |rows| > 1 {
      var more := rows[1..];
      EmptyPrint(more);
      LenientReadsBackUnlessLastRowEmpty(more);
      assert more[|more| - 1] == rows[|rows| - 1];
      assert [rows[0]] + more == rows;
      assert [rows[0]] + more[..|more| - 1] == rows[..|rows| - 1];
      if Print(more) == "" {
        assert rows[..|rows| - 1] == [rows[0]];
      } else if |more| == 1 {
        assert more == [more[0]];
      }
    }
  }

  /** Only a single empty field prints as nothing. */
  lemma EmptyPrint(rows: seq<seq<string>>)
    requires rows != [] && forall i :: 0 <= i < |rows| ==> rows[i] != []
    ensures Print(rows) == "" <==> rows == [[""]]
  {
    hide Print, PrintRow;
    PrintSteps(rows);
    PrintRowSteps(rows[0]);
    if Print(rows) == "" {
      assert rows[0] == [""];
      assert rows == [rows[0]];
    }
  }

  // ---------- The export ----------

  lemma BlankStart(text: string, n: nat)
    requires n < |text|
    ensures IsBlank(text[..n + 1]) <==> IsSpace(text[0]) && IsBlank(text[1..][..n])
  {
    var longer, shorter := text[..n + 1], text[1..][..n];
    assert longer == [text[0]] + shorter;
    if IsSpace(text[0]) && IsBlank(shorter) {
      assert forall k :: 0 <= k <= n && k > 0 ==> longer[k] == shorter[k - 1];
    }
    if IsBlank(longer) {
      assert IsSpace(longer[0]);
      forall k | 0 <= k < n ensures IsSpace(shorter[k]) {
        assert shorter[k] == longer[k + 1];
      }
    }
  }

  /** What makes a text look like a formula: a sign that starts one, with nothing but white space before it. */
  lemma {:induction false} FormulaMeansSignAfterBlank(text: string)
    ensures LooksLikeFormula(text) <==>
            exists i :: 0 <= i < |text| && IsTrigger(text[i]) && IsBlank(text[..i])
  {
    if text != "" {
      var rest := text[1..];
      FormulaMeansSignAfterBlank(rest);
      if IsTrigger(text[0]) {
        assert IsBlank(text[..0]);
      } else if LooksLikeFormula(text) {
        var i :| 0 <= i < |rest| && IsTrigger(rest[i]) && IsBlank(rest[..i]);
        BlankStart(text, i);
        assert IsTrigger(text[i + 1]) && IsBlank(text[..i + 1]);
      }
    }
    forall i | 0 <= i < |text| && IsTrigger(text[i]) && IsBlank(text[..i]) ensures LooksLikeFormula(text) {
      SignAfterBlank(text, i);
    }
  }

  lemma {:induction false} SignAfterBlank(text: string, i: nat)
    requires i < |text| && IsTrigger(text[i]) && IsBlank(text[..i])
    ensures LooksLikeFormula(text)
  {
    if i > 0 {
      BlankStart(text, i - 1);
      SignAfterBlank(text[1..], i - 1);
    }
  }

  /** No sanitised text reads as a formula; what did not look like one is left as it was. */
  lemma SanitizedIsNoFormula(text: string)
    ensures !LooksLikeFormula(Sanitize(text))
    ensures Sanitize(Sanitize(text)) == Sanitize(text)
    ensures !LooksLikeFormula(text) ==> Sanitize(text) == text
    ensures LooksLikeFormula(text) ==> Sanitize(text)[1..] == text
  {
  }

  /** A single column whose last record has nothing to show. */
  predicate LastCellVanishes<T>(records: seq<T>, columns: seq<Column<T>>) {
    |columns| == 1 && records != [] && CellText(columns[0].accessor(records[|records| - 1])) == ""
  }

  /** No header and no cell that was a string reads as a formula. */
  predicate StringsAreNoFormulas<T>(records: seq<T>, columns: seq<Column<T>>) {
    forall c :: 0 <= c < |columns| ==>
      && !LooksLikeFormula(Grid(records, columns)[0][c])
      && forall i :: 0 <= i < |records| && columns[c].accessor(records[i]).Text? ==>
           !LooksLikeFormula(Grid(records, columns)[i + 1][c])
  }

  /**
    * Whatever commas, quotes and line breaks the cells hold, the exported text reads back as the header row and the
    * grid, leniently so exactly when no last cell vanishes.
    */
  method ToCsv<T>(records: seq<T>, columns: seq<Column<T>>) returns (r: Result<string, ExportError>)
    ensures r.Success? <==> columns != [] && HeadersFine(columns, |columns|)
    ensures r.Success? ==> r.value == Print(Grid(records, columns))
    ensures r.Success? ==> ReadFile(r.value, false) == Some(Grid(records, columns))
    ensures r.Success? ==>
              (ReadFile(r.value, true) == Some(Grid(records, columns)) <==> !LastCellVanishes(records, columns))
    ensures StringsAreNoFormulas(records, columns)
  {
    hide Print, ReadFile, HeadersFine, StringsAreNoFormulas, LastCellVanishes;
    ExportHasNoFormula(records, columns);
    var invalid := ValidateDefinition(columns);
    if invalid.Some? {
      return Failure(invalid.value);
    }
    ExportReadsBack(records, columns);
    r := Success(Print(Grid(records, columns)));
  }

  lemma ExportReadsBack<T>(records: seq<T>, columns: seq<Column<T>>)
    requires columns != []
    ensures var rows := Grid(records, columns);
            && ReadFile(Print(rows), false) == Some(rows)
            && (ReadFile(Print(rows), true) == Some(rows) <==> !LastCellVanishes(records, columns))
  {
    hide Print, ReadFile;
    var rows := Grid(records, columns);
    PrintReadsBack(rows);
    LenientReadsBackUnlessLastRowEmpty(rows);
    var last := rows[|rows| - 1];
    assert last == [""] <==> |last| == 1 && last[0] == "";
  }

  lemma ExportHasNoFormula<T>(records: seq<T>, columns: seq<Column<T>>)
    ensures StringsAreNoFormulas(records, columns)
  {
    forall c | 0 <= c < |columns|
      ensures !LooksLikeFormula(Grid(records, columns)[0][c])
      ensures forall i :: 0 <= i < |records| && columns[c].accessor(records[i]).Text? ==>
                !LooksLikeFormula(Grid(records, columns)[i + 1][c])
    {
      SanitizedIsNoFormula(columns[c].header);
      forall i | 0 <= i < |records| && columns[c].accessor(records[i]).Text?
        ensures !LooksLikeFormula(Grid(records, columns)[i + 1][c])
      {
        SanitizedIsNoFormula(columns[c].accessor(records[i]).text);
      }
    }
  }
}
