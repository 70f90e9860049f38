/** What `JSON.stringify` prints is the shortest text that is read as the value, and the only one so short. */
module JsonShortest {
  import opened JsonText
  import opened Utf8
  import opened Wrappers

  /** What was read of one character is no shorter than what is printed for it, and the same if as short. */
  lemma UnitIsShortest(s: seq<Scalar>)
    requires s != [] && s[0] != QUOTE && ReadChar(s).Some? && |ReadChar(s).value.0| == 1
    ensures var (units, rest) := ReadChar(s).value;
            && |PrintUnit(units[0])| + |rest| <= |s|
            && (|PrintUnit(units[0])| + |rest| == |s| ==> s == PrintUnit(units[0]) + rest)
  {
    hide ReadHex, Unescape, HexDigit;
    if s[0] != BACKSLASH {
      assert s == [s[0]] + s[1..];
    } else if |s| >= 6 && s[1] == LETTER_U {
      EscapedIsShortest(s);
    } else {
      EscapeIsShortest(s);
    }
  }

  lemma EscapedIsShortest(s: seq<Scalar>)
    requires |s| >= 6 && s[0] == BACKSLASH && s[1] == LETTER_U && ReadHex(s[2..6]).Some?
    ensures var u := ReadHex(s[2..6]).value;
            && |PrintUnit(u)| <= 6
            && (|PrintUnit(u)| == 6 ==> s == PrintUnit(u) + s[6..])
  {
    var u := ReadHex(s[2..6]).value;
    HexIsUnique(s[2], s[3], s[4], s[5]);
    assert s[2..6] == [s[2], s[3], s[4], s[5]];
    assert s == [s[0], s[1], s[2], s[3], s[4], s[5]] + s[6..];
  }

  /** A number has one hexadecimal form of four digits. */
  lemma HexIsUnique(a: Scalar, b: Scalar, c: Scalar, d: Scalar)
    requires ReadHex([a, b, c, d]).Some?
    ensures UnicodeEscape(ReadHex([a, b, c, d]).value) == [BACKSLASH, LETTER_U, a, b, c, d]
  {
    hide HexValue, HexDigit;
    DigitIsUnique(a);
    DigitIsUnique(b);
    DigitIsUnique(c);
    DigitIsUnique(d);
    NibblesOf(HexValue(a).value, HexValue(b).value, HexValue(c).value, HexValue(d).value);
  }

  lemma DigitIsUnique(c: Scalar)
    ensures HexValue(c).Some? ==> HexValue(c).value < 16 && HexDigit(HexValue(c).value) == c
  {
  }

  lemma NibblesOf(a: nat, b: nat, c: nat, d: nat)
    requires a < 16 && b < 16 && c < 16 && d < 16
    ensures var u := a * 0x1000 + b * 0x100 + c * 16 + d;
            u / 0x1000 == a && u / 0x100 % 16 == b && u / 16 % 16 == c && u % 16 == d
  {
    var u := a * 0x1000 + b * 0x100 + c * 16 + d;
    assert u / 16 == a * 0x100 + b * 16 + c;
    assert u / 0x100 == a * 16 + b;
  }

  lemma EscapeIsShortest(s: seq<Scalar>)
    requires |s| >= 2 && s[0] == BACKSLASH && Unescape(s[1]).Some?
    ensures var u := Unescape(s[1]).value;
            |PrintUnit(u)| <= 2 && (|PrintUnit(u)| == 2 ==> s == PrintUnit(u) + s[2..])
  {
    assert s == [s[0], s[1]] + s[2..];
  }

  /** A surrogate, on its own, takes an escape of six; a pair is read from one scalar. */
  lemma SurrogatesAreLong(u: CodeUnit)
    requires IsHigh(u) || IsLow(u)
    ensures |PrintUnit(u)| == 6
  {
  }

  lemma WideIsPair(s: seq<Scalar>)
    requires s != [] && ReadChar(s).Some? && |ReadChar(s).value.0| != 1
    ensures var (units, rest) := ReadChar(s).value;
            && |units| == 2 && IsHigh(units[0]) && IsLow(units[1])
            && s == [Combine(units[0], units[1])] + rest
  {
    hide ReadHex, Unescape;
    var c: int := s[0];
    assert c >= 0x1_0000 ==> 0 <= (c - 0x1_0000) / 0x400 < 0x400;
    assert s == [c] + s[1..];
  }

  lemma ReadCharsSteps(s: seq<Scalar>)
    requires s != [] && s[0] != QUOTE && ReadChars(s).Some?
    ensures ReadChar(s).Some? && ReadChars(ReadChar(s).value.1).Some?
    ensures ReadChars(s).value.0 == ReadChar(s).value.0 + ReadChars(ReadChar(s).value.1).value.0
    ensures ReadChars(s).value.1 == ReadChars(ReadChar(s).value.1).value.1
  {
    hide ReadChar;
  }

  lemma ReadCharsEnd(s: seq<Scalar>)
    requires ReadChars(s).Some?
    ensures s != [] && (s[0] == QUOTE ==> ReadChars(s).value == ([], s[1..]))
  {
  }

  /** Escaping the halves of a pair one by one costs more than printing the pair. */
  lemma PairIsShorter(text: Text)
    requires StartsWithPair(text)
    ensures |PrintChars(text)| + 10 < |PrintUnit(text[0])| + |PrintChars(text[1..])|
  {
    hide PrintUnit, Combine;
    SurrogatesAreLong(text[0]);
    SurrogatesAreLong(text[1]);
    PrintCharsSteps(text);
    PrintCharsSteps(text[1..]);
    assert text[1..][1..] == text[2..] && text[1..][0] == text[1];
  }

  /** Whatever is read as a text, up to its closing quote. */
  lemma {:induction false} CharsAreShortest(s: seq<Scalar>)
    requires ReadChars(s).Some?
    ensures var (text, tail) := ReadChars(s).value;
            && |PrintChars(text)| + 1 + |tail| <= |s|
            && (|PrintChars(text)| + 1 + |tail| == |s| ==> s == PrintChars(text) + [QUOTE] + tail)
    decreases |s|
  {
    hide PrintChars, PrintUnit, ReadChar, ReadChars, Combine;
    ReadCharsEnd(s);
    if s[0] == QUOTE {
      NothingPrinted();
      assert s == [] + [QUOTE] + s[1..];
    } else {
      ReadCharsSteps(s);
      var (units, rest) := ReadChar(s).value;
      CharsAreShortest(rest);
      var (text, tail) := ReadChars(rest).value;
      if |units| == 1 {
        UnitIsShortest(s);
        FirstUnit(units, text);
        assert PrintUnit(units[0]) + (PrintChars(text) + [QUOTE] + tail)
            == PrintUnit(units[0]) + PrintChars(text) + [QUOTE] + tail;
      } else {
        WideIsPair(s);
        FirstPair(units, text);
        assert [Combine(units[0], units[1])] + (PrintChars(text) + [QUOTE] + tail)
            == [Combine(units[0], units[1])] + PrintChars(text) + [QUOTE] + tail;
      }
    }
  }

  lemma NothingPrinted()
    ensures PrintChars([]) == []
  {
  }

  lemma FirstUnit(units: Text, text: Text)
    requires |units| == 1
    ensures PrintChars(units + text) == PrintUnit(units[0]) + PrintChars(text)
            || |PrintChars(units + text)| < |PrintUnit(units[0])| + |PrintChars(text)|
  {
    hide PrintUnit, Combine;
    PrintCharsSteps(units + text);
    assert (units + text)[1..] == text && (units + text)[0] == units[0];
    if StartsWithPair(units + text) {
      PairIsShorter(units + text);
    }
  }

  lemma FirstPair(units: Text, text: Text)
    requires |units| == 2 && IsHigh(units[0]) && IsLow(units[1])
    ensures PrintChars(units + text) == [Combine(units[0], units[1])] + PrintChars(text)
  {
    hide PrintUnit, Combine;
    PrintCharsSteps(units + text);
    assert (units + text)[2..] == text && (units + text)[0] == units[0] && (units + text)[1] == units[1];
  }

  // ---------- Whole values ----------

  /** `printed` and then `tail` is no longer than `s`, and is `s` if as long. */
  ghost predicate Shortest(s: seq<Scalar>, printed: seq<Scalar>, tail: seq<Scalar>) {
    |printed| + |tail| <= |s| && (|printed| + |tail| == |s| ==> s == printed + tail)
  }

  lemma ShortestAfter(first: seq<Scalar>, rest: seq<Scalar>, printed: seq<Scalar>, tail: seq<Scalar>)
    requires Shortest(rest, printed, tail)
    ensures Shortest(first + rest, first + printed, tail)
  {
    assert first + (printed + tail) == first + printed + tail;
  }

  /** Two parts printed one after the other. */
  lemma ShortestInTurn(s: seq<Scalar>, a: seq<Scalar>, rest: seq<Scalar>, b: seq<Scalar>, tail: seq<Scalar>)
    requires Shortest(s, a, rest) && Shortest(rest, b, tail)
    ensures Shortest(s, a + b, tail)
  {
    assert a + (b + tail) == a + b + tail;
  }

  lemma ShortestText(s: seq<Scalar>)
    requires s != [] && s[0] == QUOTE && ReadChars(s[1..]).Some?
    ensures var (text, tail) := ReadChars(s[1..]).value; Shortest(s, PrintText(text), tail)
  {
    hide ReadChars, PrintChars;
    CharsAreShortest(s[1..]);
    var (text, tail) := ReadChars(s[1..]).value;
    assert s == [QUOTE] + s[1..];
    assert PrintText(text) == [QUOTE] + (PrintChars(text) + [QUOTE]);
    ShortestAfter([QUOTE], s[1..], PrintChars(text) + [QUOTE], tail);
  }

  lemma ShortestLiteral(s: seq<Scalar>, literal: seq<Scalar>)
    requires literal <= s
    ensures Shortest(s, literal, s[|literal|..])
  {
    assert s == s[..|literal|] + s[|literal|..];
  }

  /** What is read of a value that is no text, array or object. */
  lemma PlainIsShortest(s: seq<Scalar>)
    requires ReadValue(s).Some? && s[0] !in {QUOTE, ARRAY_OPEN, OBJECT_OPEN}
    ensures var (v, tail) := ReadValue(s).value; Shortest(s, Print(v), tail)
  {
    hide ReadChars, ReadItems, ReadMembers, Shortest, NumberLength;
    if NULL_TEXT <= s {
      ShortestLiteral(s, NULL_TEXT);
    } else if TRUE_TEXT <= s {
      ShortestLiteral(s, TRUE_TEXT);
    } else if FALSE_TEXT <= s {
      ShortestLiteral(s, FALSE_TEXT);
    } else {
      ShortestLiteral(s, s[..NumberLength(s)]);
    }
  }

  lemma NoLiteral(s: seq<Scalar>)
    requires s != [] && s[0] in {QUOTE, ARRAY_OPEN, OBJECT_OPEN}
    ensures !(NULL_TEXT <= s) && !(TRUE_TEXT <= s) && !(FALSE_TEXT <= s)
  {
    assert NULL_TEXT[0] == 110 && TRUE_TEXT[0] == 116 && FALSE_TEXT[0] == 102;
  }

  lemma ReadsArray(s: seq<Scalar>)
    requires s != [] && s[0] == ARRAY_OPEN && ReadValue(s).Some?
    ensures if |s| > 1 && s[1] == ARRAY_CLOSE then ReadValue(s).value == (Arr([]), s[2..])
            else ReadItems(s[1..]).Some?
                 && ReadValue(s).value == (Arr(ReadItems(s[1..]).value.0), ReadItems(s[1..]).value.1)
  {
    hide ReadChars, ReadItems, ReadMembers, NumberLength;
    NoLiteral(s);
  }

  lemma ReadsObject(s: seq<Scalar>)
    requires s != [] && s[0] == OBJECT_OPEN && ReadValue(s).Some?
    ensures if |s| > 1 && s[1] == OBJECT_CLOSE then ReadValue(s).value == (Obj([]), s[2..])
            else ReadMembers(s[1..]).Some?
                 && ReadValue(s).value == (Obj(ReadMembers(s[1..]).value.0), ReadMembers(s[1..]).value.1)
  {
    hide ReadChars, ReadItems, ReadMembers, NumberLength;
    NoLiteral(s);
  }

  lemma EmptyIsShortest(s: seq<Scalar>)
    requires |s| > 1
    ensures s[0] == ARRAY_OPEN && s[1] == ARRAY_CLOSE ==> Shortest(s, Print(Arr([])), s[2..])
    ensures s[0] == OBJECT_OPEN && s[1] == OBJECT_CLOSE ==> Shortest(s, Print(Obj([])), s[2..])
  {
    assert Print(Arr([])) == [ARRAY_OPEN, ARRAY_CLOSE] && Print(Obj([])) == [OBJECT_OPEN, OBJECT_CLOSE];
    assert s == [s[0], s[1]] + s[2..];
  }

  /** Whatever text is read as a value: what is printed for the value is no longer, and is that text if as long. */
  lemma {:induction false} ValueIsShortest(s: seq<Scalar>)
    requires ReadValue(s).Some?
    ensures var (v, tail) := ReadValue(s).value; Shortest(s, Print(v), tail)
    decreases |s|, 0
  {
    hide ReadValue, ReadItems, ReadMembers, ReadChars, PrintItems, PrintMembers, PrintText, Shortest;
    SomethingIsRead(s);
    if s[0] == QUOTE {
      ReadsText(s);
      ShortestText(s);
    } else if s[0] == ARRAY_OPEN {
      ReadsArray(s);
      if |s| > 1 && s[1] == ARRAY_CLOSE {
        EmptyIsShortest(s);
      } else {
        ItemsAreShortest(s[1..]);
        var (items, tail) := ReadItems(s[1..]).value;
        assert s == [ARRAY_OPEN] + s[1..];
        ShortestAfter([ARRAY_OPEN], s[1..], PrintItems(items) + [ARRAY_CLOSE], tail);
        assert Print(Arr(items)) == [ARRAY_OPEN] + (PrintItems(items) + [ARRAY_CLOSE]);
      }
    } else if s[0] == OBJECT_OPEN {
      ReadsObject(s);
      if |s| > 1 && s[1] == OBJECT_CLOSE {
        EmptyIsShortest(s);
      } else {
        MembersAreShortest(s[1..]);
        var (members, tail) := ReadMembers(s[1..]).value;
        assert s == [OBJECT_OPEN] + s[1..];
        ShortestAfter([OBJECT_OPEN], s[1..], PrintMembers(members) + [OBJECT_CLOSE], tail);
        assert Print(Obj(members)) == [OBJECT_OPEN] + (PrintMembers(members) + [OBJECT_CLOSE]);
      }
    } else {
      PlainIsShortest(s);
    }
  }

  lemma SomethingIsRead(s: seq<Scalar>)
    requires ReadValue(s).Some?
    ensures s != []
  {
  }

  lemma ItemsUnfold(s: seq<Scalar>)
    requires ReadItems(s).Some?
    ensures ReadValue(s).Some? && ReadValue(s).value.1 != []
    ensures var (item, rest) := ReadValue(s).value;
            || (rest[0] == ARRAY_CLOSE && ReadItems(s).value == ([item], rest[1..]))
            || (&& rest[0] == COMMA && ReadItems(rest[1..]).Some?
                && ReadItems(s).value == ([item] + ReadItems(rest[1..]).value.0, ReadItems(rest[1..]).value.1))
  {
    hide ReadValue;
  }

  lemma PrintOneItem(item: Json)
    ensures PrintItems([item]) == Print(item)
  {
    hide Print;
    assert PrintItems([item]) == Print(item) + [];
  }

  lemma PrintMoreItems(item: Json, more: seq<Json>)
    requires more != []
    ensures PrintItems([item] + more) == Print(item) + ([COMMA] + PrintItems(more))
  {
    hide Print;
    assert ([item] + more)[1..] == more;
  }

  lemma {:induction false} ItemsAreShortest(s: seq<Scalar>)
    requires ReadItems(s).Some?
    ensures ReadItems(s).value.0 != []
    ensures var (items, tail) := ReadItems(s).value; Shortest(s, PrintItems(items) + [ARRAY_CLOSE], tail)
    decreases |s|, 1
  {
    hide ReadValue, ReadItems, Print, PrintItems, Shortest;
    ItemsUnfold(s);
    ValueIsShortest(s);
    var (item, rest) := ReadValue(s).value;
    assert rest == [rest[0]] + rest[1..];
    if rest[0] == ARRAY_CLOSE {
      PrintOneItem(item);
      AllOf([ARRAY_CLOSE], rest[1..]);
      ShortestInTurn(s, Print(item), rest, [ARRAY_CLOSE], rest[1..]);
    } else {
      ItemsAreShortest(rest[1..]);
      var (more, tail) := ReadItems(rest[1..]).value;
      PrintMoreItems(item, more);
      ShortestAfter([COMMA], rest[1..], PrintItems(more) + [ARRAY_CLOSE], tail);
      ShortestInTurn(s, Print(item), rest, [COMMA] + (PrintItems(more) + [ARRAY_CLOSE]), tail);
      assert Print(item) + ([COMMA] + (PrintItems(more) + [ARRAY_CLOSE]))
          == Print(item) + ([COMMA] + PrintItems(more)) + [ARRAY_CLOSE];
    }
  }

  lemma AllOf(a: seq<Scalar>, tail: seq<Scalar>)
    ensures Shortest(a + tail, a, tail)
  {
  }

  lemma MembersUnfold(s: seq<Scalar>)
    requires ReadMembers(s).Some?
    ensures s != [] && s[0] == QUOTE && ReadChars(s[1..]).Some?
    ensures var colon := ReadChars(s[1..]).value.1;
            && colon != [] && colon[0] == COLON && ReadValue(colon[1..]).Some? && ReadValue(colon[1..]).value.1 != []
            && var member := Member(ReadChars(s[1..]).value.0, ReadValue(colon[1..]).value.0);
               var rest := ReadValue(colon[1..]).value.1;
               || (rest[0] == OBJECT_CLOSE && ReadMembers(s).value == ([member], rest[1..]))
               || (&& rest[0] == COMMA && ReadMembers(rest[1..]).Some?
                   && ReadMembers(s).value
                      == ([member] + ReadMembers(rest[1..]).value.0, ReadMembers(rest[1..]).value.1))
  {
    hide ReadValue, ReadChars;
  }

  function PrintMember(m: Member): seq<Scalar> {
    PrintText(m.key) + [COLON] + Print(m.value)
  }

  lemma PrintOneMember(m: Member)
    ensures PrintMembers([m]) == PrintMember(m)
  {
    hide Print, PrintText;
    assert PrintMembers([m]) == PrintMember(m) + [];
  }

  lemma PrintMoreMembers(m: Member, more: seq<Member>)
    requires more != []
    ensures PrintMembers([m] + more) == PrintMember(m) + ([COMMA] + PrintMembers(more))
  {
    hide Print, PrintText;
    assert ([m] + more)[1..] == more;
    PrintMembersUnfolds([m] + more);
  }

  lemma {:induction false} MembersAreShortest(s: seq<Scalar>)
    requires ReadMembers(s).Some?
    ensures ReadMembers(s).value.0 != []
    ensures var (members, tail) := ReadMembers(s).value; Shortest(s, PrintMembers(members) + [OBJECT_CLOSE], tail)
    decreases |s|, 1
  {
    hide ReadValue, ReadMembers, ReadChars, Print, PrintText, PrintMembers, PrintMember, Shortest;
    MembersUnfold(s);
    ShortestText(s);
    var (key, colon) := ReadChars(s[1..]).value;
    var (value, rest) := ReadValue(colon[1..]).value;
    ValueIsShortest(colon[1..]);
    MemberIsShortest(s, key, colon, value, rest);
    var m := Member(key, value);
    assert rest == [rest[0]] + rest[1..];
    if rest[0] == OBJECT_CLOSE {
      PrintOneMember(m);
      AllOf([OBJECT_CLOSE], rest[1..]);
      ShortestInTurn(s, PrintMember(m), rest, [OBJECT_CLOSE], rest[1..]);
    } else {
      MembersAreShortest(rest[1..]);
      var (more, tail) := ReadMembers(rest[1..]).value;
      PrintMoreMembers(m, more);
      ShortestAfter([COMMA], rest[1..], PrintMembers(more) + [OBJECT_CLOSE], tail);
      ShortestInTurn(s, PrintMember(m), rest, [COMMA] + (PrintMembers(more) + [OBJECT_CLOSE]), tail);
      assert PrintMember(m) + ([COMMA] + (PrintMembers(more) + [OBJECT_CLOSE]))
          == PrintMember(m) + ([COMMA] + PrintMembers(more)) + [OBJECT_CLOSE];
    }
  }

  lemma MemberIsShortest(s: seq<Scalar>, key: Text, colon: seq<Scalar>, value: Json, rest: seq<Scalar>)
    requires Shortest(s, PrintText(key), colon)
    requires colon != [] && colon[0] == COLON && Shortest(colon[1..], Print(value), rest)
    ensures Shortest(s, PrintMember(Member(key, value)), rest)
  {
    hide Shortest, PrintText, Print;
    assert colon == [COLON] + colon[1..];
    ShortestAfter([COLON], colon[1..], Print(value), rest);
    ShortestInTurn(s, PrintText(key), colon, [COLON] + Print(value), rest);
    assert PrintText(key) + ([COLON] + Print(value)) == PrintMember(Member(key, value));
  }

  /**
    * Of all texts without white space that are read as a value, what is printed for it is the shortest, and no other
    * is as short.
    */
  lemma PrintIsShortest(s: seq<Scalar>, v: Json)
    requires ReadValue(s) == Some((v, []))
    ensures |Print(v)| <= |s|
    ensures |s| == |Print(v)| ==> s == Print(v)
  {
    hide ReadValue, Print;
    ValueIsShortest(s);
    assert Print(v) + [] == Print(v);
  }
}
