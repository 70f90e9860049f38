/** The exported text is the shortest that reads as its grid: nothing is quoted or doubled without need. */
module CsvShortest {
  import opened CsvExport
  import opened Wrappers

  /** `printed` and then `tail` is no longer than `s`, and is `s` if as long. */
  ghost predicate Shortest(s: string, printed: string, tail: string) {
    |printed| + |tail| <= |s| && (|printed| + |tail| == |s| ==> s == printed + tail)
  }

  lemma ShortestInTurn(s: string, a: string, rest: string, b: string, tail: string)
    requires Shortest(s, a, rest) && Shortest(rest, b, tail)
    ensures Shortest(s, a + b, tail)
  {
    assert a + (b + tail) == a + b + tail;
  }

  lemma ShortestAfter(first: string, rest: string, printed: string, tail: string)
    requires Shortest(rest, printed, tail)
    ensures Shortest(first + rest, first + printed, tail)
  {
    assert first + (printed + tail) == first + printed + tail;
  }

  /** An unquoted field has nothing in it that would call for quotes. */
  lemma {:induction false} PlainNeedsNoQuotes(text: string)
    ensures !NeedsQuotes(ReadPlain(text).0)
  {
    hide IsSpecial, EndsPlain;
    if text != "" && !EndsPlain(text[0]) {
      SpecialsEndPlain(text[0]);
      PlainNeedsNoQuotes(text[1..]);
      var (field, rest) := ReadPlain(text[1..]);
      assert ReadPlain(text).0 == text[..1] + field;
      forall i | 0 <= i < 1 + |field| ensures !IsSpecial((text[..1] + field)[i]) {
        assert i > 0 ==> (text[..1] + field)[i] == field[i - 1];
      }
    }
  }

  /** A quoted field is read from its own text with every quote doubled. */
  lemma {:induction false} QuotedIsDoubled(text: string)
    requires ReadQuoted(text).Some?
    ensures var (field, rest) := ReadQuoted(text).value; text == DoubleQuotes(field) + "\"" + rest
  {
    hide DoubleQuotes;
    if text[0] != '"' {
      QuotedIsDoubled(text[1..]);
      var (field, rest) := ReadQuoted(text[1..]).value;
      assert text == [text[0]] + text[1..] && text[..1] == [text[0]];
      DoubledFirst(text[0], field);
      Regroup([text[0]], DoubleQuotes(field), rest);
    } else if |text| > 1 && text[1] == '"' {
      QuotedIsDoubled(text[2..]);
      var (field, rest) := ReadQuoted(text[2..]).value;
      assert text == "\"\"" + text[2..] && ['"'] == "\"";
      DoubledFirst('"', field);
      Regroup("\"\"", DoubleQuotes(field), rest);
    } else {
      NothingDoubled();
      assert text == "\"" + text[1..];
      assert "" + "\"" + text[1..] == "\"" + text[1..];
    }
  }

  lemma Regroup(a: string, b: string, rest: string)
    ensures a + (b + "\"" + rest) == a + b + "\"" + rest
  {
  }

  lemma NothingDoubled()
    ensures DoubleQuotes("") == ""
  {
  }

  lemma DoubledFirst(c: char, field: string)
    ensures DoubleQuotes([c] + field) == (if c == '"' then "\"\"" else [c]) + DoubleQuotes(field)
  {
    assert ([c] + field)[1..] == field && ([c] + field)[..1] == [c];
  }

  lemma {:induction false} DoublingIsNoShorter(text: string)
    ensures |text| <= |DoubleQuotes(text)|
  {
    if text != "" {
      DoublingIsNoShorter(text[1..]);
    }
  }

  lemma FieldIsShortest(text: string)
    requires ReadField(text).Some?
    ensures var (field, rest) := ReadField(text).value; Shortest(text, EscapeCsv(field), rest)
  {
    hide NeedsQuotes;
    if text != "" && text[0] == '"' {
      QuotedIsDoubled(text[1..]);
      var (field, rest) := ReadQuoted(text[1..]).value;
      DoublingIsNoShorter(field);
      assert text == "\"" + text[1..];
      assert "\"" + (DoubleQuotes(field) + "\"" + rest) == "\"" + DoubleQuotes(field) + "\"" + rest;
    } else {
      PlainNeedsNoQuotes(text);
    }
  }

  lemma {:induction false} RecordIsShortest(text: string)
    requires ReadRecord(text).Some?
    ensures var (row, rest) := ReadRecord(text).value; row != [] && Shortest(text, PrintRow(row), rest)
    decreases |text|
  {
    hide ReadField, EscapeCsv, PrintRow, Shortest;
    FieldIsShortest(text);
    var (field, rest) := ReadField(text).value;
    if rest != "" && rest[0] == ',' {
      RecordIsShortest(rest[1..]);
      var (more, tail) := ReadRecord(rest[1..]).value;
      assert rest == "," + rest[1..];
      ShortestAfter(",", rest[1..], PrintRow(more), tail);
      ShortestInTurn(text, EscapeCsv(field), rest, "," + PrintRow(more), tail);
      PrintRowSteps([field] + more);
      assert ([field] + more)[1..] == more;
    } else {
      PrintRowSteps([field]);
      assert EscapeCsv(field) + "" == EscapeCsv(field);
    }
  }

  lemma {:induction false} FileIsShortest(text: string)
    requires ReadFile(text, false).Some?
    ensures var rows := ReadFile(text, false).value; rows != [] && Shortest(text, Print(rows), "")
    decreases |text|
  {
    hide ReadRecord, PrintRow, Print, Shortest;
    RecordIsShortest(text);
    var (row, rest) := ReadRecord(text).value;
    if rest == "" {
      PrintSteps([row]);
      assert PrintRow(row) + "" == PrintRow(row);
    } else {
      FileIsShortest(rest[2..]);
      var more := ReadFile(rest[2..], false).value;
      assert rest == "\r\n" + rest[2..];
      ShortestAfter("\r\n", rest[2..], Print(more), "");
      ShortestInTurn(text, PrintRow(row), rest, "\r\n" + Print(more), "");
      PrintSteps([row] + more);
      assert ([row] + more)[1..] == more;
    }
  }

  /** Of all texts that read as some rows, what is printed for them is the shortest, and no other is as short. */
  lemma PrintIsShortest(text: string, rows: seq<seq<string>>)
    requires ReadFile(text, false) == Some(rows)
    ensures |Print(rows)| <= |text|
    ensures |text| == |Print(rows)| ==> text == Print(rows)
  {
    hide Print, ReadFile;
    FileIsShortest(text);
    assert Print(rows) + "" == Print(rows);
  }

  /** The cells, one by one: nothing for a missing value, other values as they print, texts and headers guarded. */
  lemma GridCellByCell<T>(records: seq<T>, columns: seq<Column<T>>, i: nat, c: nat)
    requires i < |records| && c < |columns|
    ensures Grid(records, columns)[0][c] == Guarded(columns[c].header)
    ensures Grid(records, columns)[i + 1][c] ==
            match columns[c].accessor(records[i])
            case Missing => ""
            case Text(text) => Guarded(text)
            case Other(printed) => printed
  {
  }

  /** An apostrophe before what a spreadsheet would take for a formula. */
  function Guarded(text: string): string {
    if LooksLikeFormula(text) then ['\''] + text else text
  }
}
