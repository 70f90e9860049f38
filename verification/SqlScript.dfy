/** Splits a SQL script into executable statements. */
module SqlScript {
  import opened Whitespace
  import opened Wrappers

  // ---------- Character classes ----------

  predicate IsWordStart(c: char) {
    'A' <= c <= 'Z' || 'a' <= c <= 'z' || c == '_'
  }

  predicate IsWordPart(c: char) {
    IsWordStart(c) || '0' <= c <= '9'
  }

  function Upper(word: string): (r: string)
    ensures |r| == |word|
  {
    seq(|word|, i requires 0 <= i < |word| =>
      if 'a' <= word[i] <= 'z' then 'A' + (word[i] - 'a') else word[i])
  }

  /** Letters of the alphabet become capitals, 32 code points down; everything else stays. */
  lemma UpperByCharacter(word: string, i: nat)
    requires i < |word|
    ensures Upper(word)[i] as int == word[i] as int - if 97 <= word[i] as int <= 122 then 32 else 0
  {
  }

  // ---------- Lexemes: where the unit of text starting at a position ends ----------

  function LineEnd(s: string, i: nat): (e: nat)
    requires i <= |s|
    ensures i <= e <= |s|
    decreases |s| - i
  {
    if i == |s| then i
    else if s[i] == '\n' || s[i] == '\r' then i + 1
    else LineEnd(s, i + 1)
  }

  function BlockEnd(s: string, i: nat): (e: nat)
    requires i <= |s|
    ensures i <= e <= |s|
    decreases |s| - i
  {
    if i == |s| then i
    else if s[i] == '*' && i + 1 < |s| && s[i + 1] == '/' then i + 2
    else BlockEnd(s, i + 1)
  }

  /** A doubled closing quote stands for itself, except for the closing bracket. */
  function QuoteEnd(s: string, i: nat, close: char): (e: nat)
    requires i <= |s|
    ensures i <= e <= |s|
    decreases |s| - i
  {
    if i == |s| then i
    else if s[i] != close then QuoteEnd(s, i + 1, close)
    else if i + 1 < |s| && s[i + 1] == close && close != ']' then QuoteEnd(s, i + 2, close)
    else i + 1
  }

  function WordEnd(s: string, i: nat): (e: nat)
    requires i <= |s|
    ensures i <= e <= |s|
    decreases |s| - i
  {
    if i < |s| && IsWordPart(s[i]) then WordEnd(s, i + 1) else i
  }

  datatype Kind = LineComment | BlockComment | Quoted(close: char) | Word | Space | Semicolon | Symbol

  function KindAt(s: string, i: nat): Kind
    requires i < |s|
  {
    var next := if i + 1 < |s| then Some(s[i + 1]) else None;
    if s[i] == '-' && next == Some('-') then LineComment
    else if s[i] == '/' && next == Some('*') then BlockComment
    else if s[i] == '\'' || s[i] == '"' || s[i] == '`' then Quoted(s[i])
    else if s[i] == '[' then Quoted(']')
    else if s[i] == ';' then Semicolon
    else if IsWordStart(s[i]) then Word
    else if IsSpace(s[i]) then Space
    else Symbol
  }

  function LexemeEnd(s: string, i: nat): (e: nat)
    requires i < |s|
    ensures i < e <= |s|
    ensures KindAt(s, i).Semicolon? ==> e == i + 1
  {
    match KindAt(s, i)
    case LineComment => LineEnd(s, i + 2)
    case BlockComment => BlockEnd(s, i + 2)
    case Quoted(close) => QuoteEnd(s, i + 1, close)
    case Word => WordEnd(s, i + 1)
    case _ => i + 1
  }

  // ---------- Trigger bodies ----------

  /** What is remembered of the current statement: its first words and how deep in a trigger it is. */
  datatype Head = Head(words: seq<string>, isTrigger: bool, inBody: bool, caseDepth: nat)

  const FreshHead := Head([], false, false, 0)

  predicate StartsTrigger(words: seq<string>) {
    && |words| >= 2
    && words[0] == "CREATE"
    && (|| words[1] == "TRIGGER"
        || (|words| >= 3 && (words[1] == "TEMP" || words[1] == "TEMPORARY") && words[2] == "TRIGGER"))
  }

  function RecordWord(h: Head, word: string): Head {
    var w := Upper(word);
    var h := if !h.inBody && |h.words| < 3
             then h.(words := h.words + [w], isTrigger := StartsTrigger(h.words + [w]))
             else h;
    if !h.isTrigger then h
    else if !h.inBody then h.(inBody := w == "BEGIN")
    else if w == "CASE" then h.(caseDepth := h.caseDepth + 1)
    else if w == "END" then
      if h.caseDepth > 0 then h.(caseDepth := h.caseDepth - 1) else h.(inBody := false)
    else h
  }

  function Advance(s: string, i: nat, h: Head): Head
    requires i < |s|
  {
    if KindAt(s, i).Word? then RecordWord(h, s[i..LexemeEnd(s, i)]) else h
  }

  /** A semicolon outside a trigger body ends the statement. */
  predicate Ends(s: string, i: nat, h: Head)
    requires i < |s|
  {
    KindAt(s, i).Semicolon? && !h.inBody
  }

  /** Everything but white space and comments makes a statement worth executing. */
  predicate IsToken(s: string, i: nat)
    requires i < |s|
  {
    !(KindAt(s, i).LineComment? || KindAt(s, i).BlockComment? || KindAt(s, i).Space?)
  }

  // ---------- The split ----------

  /** A stretch of the script up to and including the semicolon that ends it, or to the end of the script. */
  datatype Slice = Slice(lo: nat, hi: nat, executable: bool)

  function SlicesFrom(s: string, i: nat, lo: nat, h: Head, executable: bool): (slices: seq<Slice>)
    requires lo <= i <= |s|
    ensures |slices| > 0
    decreases |s| - i
  {
    if i == |s| then [Slice(lo, i, executable)]
    else if Ends(s, i, h) then [Slice(lo, i + 1, executable)] + SlicesFrom(s, i + 1, i + 1, FreshHead, false)
    else SlicesFrom(s, LexemeEnd(s, i), lo, Advance(s, i, h), executable || IsToken(s, i))
  }

  function Texts(s: string, slices: seq<Slice>): seq<string>
    requires forall k :: 0 <= k < |slices| ==> slices[k].lo <= slices[k].hi <= |s|
  {
    if slices == [] then []
    else (if slices[0].executable then [s[slices[0].lo..slices[0].hi]] else []) + Texts(s, slices[1..])
  }

  lemma {:induction false} SlicesCover(s: string, i: nat, lo: nat, h: Head, executable: bool)
    requires lo <= i <= |s|
    ensures var slices := SlicesFrom(s, i, lo, h, executable);
            && slices[0].lo == lo
            && slices[|slices| - 1].hi == |s|
            && (forall k :: 0 <= k < |slices| ==> slices[k].lo <= slices[k].hi <= |s|)
            && (forall k :: 0 <= k < |slices| - 1 ==> slices[k].hi == slices[k + 1].lo)
    decreases |s| - i
  {
    hide LexemeEnd, KindAt, RecordWord;
    if i < |s| {
      if Ends(s, i, h) {
        SlicesCover(s, i + 1, i + 1, FreshHead, false);
      } else {
        SlicesCover(s, LexemeEnd(s, i), lo, Advance(s, i, h), executable || IsToken(s, i));
      }
    }
  }

  function SplitFrom(s: string, i: nat, lo: nat, h: Head, executable: bool): seq<string>
    requires lo <= i <= |s|
  {
    SlicesCover(s, i, lo, h, executable);
    Texts(s, SlicesFrom(s, i, lo, h, executable))
  }

  function Split(s: string): seq<string> {
    SplitFrom(s, 0, 0, FreshHead, false)
  }

  lemma SplitAtEnd(s: string, lo: nat, h: Head, executable: bool)
    requires lo <= |s|
    ensures SplitFrom(s, |s|, lo, h, executable) == if executable then [s[lo..]] else []
  {
    var last := Slice(lo, |s|, executable);
    assert s[lo..|s|] == s[lo..];
    assert SlicesFrom(s, |s|, lo, h, executable) == [last];
    assert Texts(s, [last][1..]) == [];
  }

  lemma SplitStep(s: string, i: nat, lo: nat, h: Head, executable: bool)
    requires lo <= i < |s|
    ensures SplitFrom(s, i, lo, h, executable)
         == if Ends(s, i, h)
            then (if executable then [s[lo..i + 1]] else []) + SplitFrom(s, i + 1, i + 1, FreshHead, false)
            else SplitFrom(s, LexemeEnd(s, i), lo, Advance(s, i, h), executable || IsToken(s, i))
  {
    if Ends(s, i, h) {
      var rest := SlicesFrom(s, i + 1, i + 1, FreshHead, false);
      assert ([Slice(lo, i + 1, executable)] + rest)[1..] == rest;
    }
  }

  // ---------- The scanner, character by character ----------

  /** Where the comment or quotation that the flags say we are in ends. */
  ghost function PendingEnd(s: string, i: nat, inLine: bool, inBlock: bool, quoteEnd: Option<char>): (e: nat)
    requires i <= |s|
    ensures i <= e <= |s|
  {
    if inLine then LineEnd(s, i)
    else if inBlock then BlockEnd(s, i)
    else match quoteEnd case Some(close) => QuoteEnd(s, i, close) case None => i
  }

  lemma LineStep(s: string, i: nat)
    requires i < |s|
    ensures LineEnd(s, i) == if s[i] == '\n' || s[i] == '\r' then i + 1 else LineEnd(s, i + 1)
  {
  }

  lemma BlockStep(s: string, i: nat)
    requires i < |s|
    ensures BlockEnd(s, i) ==
            if s[i] == '*' && i + 1 < |s| && s[i + 1] == '/' then i + 2 else BlockEnd(s, i + 1)
  {
  }

  lemma QuoteStep(s: string, i: nat, close: char)
    requires i < |s|
    ensures QuoteEnd(s, i, close) ==
            if s[i] != close then QuoteEnd(s, i + 1, close)
            else if i + 1 < |s| && s[i + 1] == close && close != ']' then QuoteEnd(s, i + 2, close)
            else i + 1
  {
  }

  lemma WordStep(s: string, i: nat)
    requires i <= |s|
    ensures WordEnd(s, i) == if i < |s| && IsWordPart(s[i]) then WordEnd(s, i + 1) else i
  {
  }

  lemma NothingPending(s: string)
    ensures LineEnd(s, |s|) == BlockEnd(s, |s|) == |s|
    ensures forall close :: QuoteEnd(s, |s|, close) == |s|
  {
  }

  /** What the scanner tells apart by its first two characters. */
  lemma LexemeByCharacters(s: string, i: nat, h: Head)
    requires i < |s|
    ensures var c, next := s[i], if i + 1 < |s| then Some(s[i + 1]) else None;
            if c == '-' && next == Some('-') then
              !Ends(s, i, h) && !IsToken(s, i) && Advance(s, i, h) == h && LexemeEnd(s, i) == LineEnd(s, i + 2)
            else if c == '/' && next == Some('*') then
              !Ends(s, i, h) && !IsToken(s, i) && Advance(s, i, h) == h && LexemeEnd(s, i) == BlockEnd(s, i + 2)
            else if c == '\'' || c == '"' || c == '`' then
              !Ends(s, i, h) && IsToken(s, i) && Advance(s, i, h) == h && LexemeEnd(s, i) == QuoteEnd(s, i + 1, c)
            else if c == '[' then
              !Ends(s, i, h) && IsToken(s, i) && Advance(s, i, h) == h && LexemeEnd(s, i) == QuoteEnd(s, i + 1, ']')
            else if IsWordStart(c) then
              && !Ends(s, i, h) && IsToken(s, i) && LexemeEnd(s, i) == WordEnd(s, i + 1)
              && Advance(s, i, h) == RecordWord(h, s[i..WordEnd(s, i + 1)])
            else
              && (Ends(s, i, h) <==> c == ';' && !h.inBody)
              && (IsToken(s, i) <==> !IsSpace(c)) && Advance(s, i, h) == h && LexemeEnd(s, i) == i + 1
  {
    hide LineEnd, BlockEnd, QuoteEnd, WordEnd, RecordWord;
  }

  method SplitSqlScript(script: string) returns (statements: seq<string>)
    ensures statements == Split(script)
  {
    hide SplitFrom, RecordWord, LineEnd, BlockEnd, QuoteEnd, WordEnd, KindAt, LexemeEnd, Ends, Advance, IsToken;
    statements := [];
    NothingPending(script);
    var head := FreshHead;
    var start, index := 0, 0;
    var hasSqlToken, inLineComment, inBlockComment := false, false, false;
    var quoteEnd: Option<char> := None;
    ghost var pending: nat := 0;
    while index < |script|
      invariant start <= index <= |script|
      invariant !inLineComment || (!inBlockComment && quoteEnd.None?)
      invariant !inBlockComment || quoteEnd.None?
      invariant pending == PendingEnd(script, index, inLineComment, inBlockComment, quoteEnd)
      invariant Split(script) == statements + SplitFrom(script, pending, start, head, hasSqlToken)
      decreases |script| - index
    {
      var current := script[index];
      var next := if index + 1 < |script| then Some(script[index + 1]) else None;
      if inLineComment {
        LineStep(script, index);
        if current == '\n' || current == '\r' {
          inLineComment := false;
        }
        index := index + 1;
      } else if inBlockComment {
        BlockStep(script, index);
        if current == '*' && next == Some('/') {
          inBlockComment := false;
          index := index + 2;
        } else {
          index := index + 1;
        }
      } else if quoteEnd.Some? {
        QuoteStep(script, index, quoteEnd.value);
        if current == quoteEnd.value {
          if next == quoteEnd && quoteEnd != Some(']') {
            index := index + 2;
          } else {
            quoteEnd := None;
            index := index + 1;
          }
        } else {
          index := index + 1;
        }
      } else {
        SplitStep(script, index, start, head, hasSqlToken);
        LexemeByCharacters(script, index, head);
        pending := LexemeEnd(script, index);
        if current == '-' && next == Some('-') {
          inLineComment := true;
          index := index + 2;
        } else if current == '/' && next == Some('*') {
          inBlockComment := true;
          index := index + 2;
        } else if current == '\'' || current == '"' || current == '`' {
          hasSqlToken := true;
          quoteEnd := Some(current);
          index := index + 1;
        } else if current == '[' {
          hasSqlToken := true;
          quoteEnd := Some(']');
          index := index + 1;
        } else if current == ';' && !head.inBody {
          if hasSqlToken {
            statements := statements + [script[start..index + 1]];
          }
          start, hasSqlToken, head := index + 1, false, FreshHead;
          index := index + 1;
        } else if IsWordStart(current) {
          var wordStart := index;
          index := index + 1;
          while index < |script| && IsWordPart(script[index])
            invariant wordStart < index <= |script|
            invariant WordEnd(script, wordStart + 1) == WordEnd(script, index)
          {
            WordStep(script, index);
            index := index + 1;
          }
          WordStep(script, index);
          hasSqlToken := true;
          head := RecordWord(head, script[wordStart..index]);
        } else {
          if !IsSpace(current) {
            hasSqlToken := true;
          }
          index := index + 1;
        }
      }
    }
    SplitAtEnd(script, start, head, hasSqlToken);
    if hasSqlToken {
      statements := statements + [script[start..]];
    }
  }

  // ---------- Where the cuts fall ----------

  /**
    * From a lexeme boundary with head `h`, the first semicolon outside a trigger body is the last character
    * before `hi`; only the end of the script stands in for a missing one.
    */
  ghost predicate OneStatement(s: string, i: nat, hi: nat, h: Head)
    requires i <= hi <= |s|
    decreases hi - i
  {
    if i == hi then hi == |s|
    else if Ends(s, i, h) then i + 1 == hi
    else LexemeEnd(s, i) <= hi && OneStatement(s, LexemeEnd(s, i), hi, Advance(s, i, h))
  }

  /** Nothing from `i` to `hi` but white space, comments and a closing semicolon. */
  ghost predicate Blank(s: string, i: nat, hi: nat)
    requires i <= hi <= |s|
    decreases hi - i
  {
    i == hi
    || (&& (!IsToken(s, i) || (KindAt(s, i).Semicolon? && i + 1 == hi))
        && LexemeEnd(s, i) <= hi
        && Blank(s, LexemeEnd(s, i), hi))
  }

  /** Every cut follows the first semicolon outside quotations, comments and trigger bodies. */
  lemma {:induction false} CutsFollowStatements(s: string, i: nat, lo: nat, h: Head, executable: bool)
    requires lo <= i <= |s|
    ensures var slices := SlicesFrom(s, i, lo, h, executable);
            && i <= slices[0].hi <= |s| && OneStatement(s, i, slices[0].hi, h)
            && forall k :: 1 <= k < |slices| ==>
                 slices[k].lo <= slices[k].hi <= |s| && OneStatement(s, slices[k].lo, slices[k].hi, FreshHead)
    decreases |s| - i
  {
    hide LexemeEnd, KindAt, RecordWord;
    if i < |s| {
      if Ends(s, i, h) {
        CutsFollowStatements(s, i + 1, i + 1, FreshHead, false);
        SlicesCover(s, i + 1, i + 1, FreshHead, false);
        var rest := SlicesFrom(s, i + 1, i + 1, FreshHead, false);
        var slices := SlicesFrom(s, i, lo, h, executable);
        assert forall k :: 1 <= k < |slices| ==> slices[k] == rest[k - 1];
      } else {
        CutsFollowStatements(s, LexemeEnd(s, i), lo, Advance(s, i, h), executable || IsToken(s, i));
      }
    }
  }

  /** A slice is dropped exactly when it holds no more than white space, comments and its semicolon. */
  lemma {:induction false} DroppedSlicesAreBlank(s: string, i: nat, lo: nat, h: Head, executable: bool)
    requires lo <= i <= |s|
    requires h.inBody ==> executable
    ensures var slices := SlicesFrom(s, i, lo, h, executable);
            && i <= slices[0].hi <= |s|
            && (slices[0].executable <==> executable || !Blank(s, i, slices[0].hi))
            && forall k :: 1 <= k < |slices| ==>
                 && slices[k].lo <= slices[k].hi <= |s|
                 && (slices[k].executable <==> !Blank(s, slices[k].lo, slices[k].hi))
    decreases |s| - i
  {
    hide LexemeEnd, KindAt, RecordWord;
    if i < |s| {
      if Ends(s, i, h) {
        DroppedSlicesAreBlank(s, i + 1, i + 1, FreshHead, false);
        SlicesCover(s, i + 1, i + 1, FreshHead, false);
        var rest := SlicesFrom(s, i + 1, i + 1, FreshHead, false);
        var slices := SlicesFrom(s, i, lo, h, executable);
        assert forall k :: 1 <= k < |slices| ==> slices[k] == rest[k - 1];
      } else {
        DroppedSlicesAreBlank(s, LexemeEnd(s, i), lo, Advance(s, i, h), executable || IsToken(s, i));
      }
    }
  }

  // ---------- Splitting part by part ----------

  lemma {:induction false} LineEndPrefix(y: string, t: string, i: nat)
    requires i <= |y|
    ensures LineEnd(y, i) < |y| ==> LineEnd(y + t, i) == LineEnd(y, i)
    ensures LineEnd(y, i) <= LineEnd(y + t, i)
    decreases |y| - i
  {
    if i < |y| { LineEndPrefix(y, t, i + 1); }
  }

  lemma {:induction false} BlockEndPrefix(y: string, t: string, i: nat)
    requires i <= |y|
    ensures BlockEnd(y, i) < |y| ==> BlockEnd(y + t, i) == BlockEnd(y, i)
    ensures BlockEnd(y, i) <= BlockEnd(y + t, i)
    decreases |y| - i
  {
    if i < |y| { BlockEndPrefix(y, t, i + 1); }
  }

  lemma {:induction false} QuoteEndPrefix(y: string, t: string, i: nat, close: char)
    requires i <= |y|
    ensures QuoteEnd(y, i, close) < |y| ==> QuoteEnd(y + t, i, close) == QuoteEnd(y, i, close)
    ensures QuoteEnd(y, i, close) <= QuoteEnd(y + t, i, close)
    decreases |y| - i
  {
    if i < |y| {
      QuoteEndPrefix(y, t, i + 1, close);
      if i + 1 < |y| { QuoteEndPrefix(y, t, i + 2, close); }
    }
  }

  lemma {:induction false} WordEndPrefix(y: string, t: string, i: nat)
    requires i <= |y|
    ensures WordEnd(y, i) < |y| ==> WordEnd(y + t, i) == WordEnd(y, i)
    ensures WordEnd(y, i) <= WordEnd(y + t, i)
    decreases |y| - i
  {
    if i < |y| { WordEndPrefix(y, t, i + 1); }
  }

  /** A lexeme that ends before the text does is not affected by what is appended. */
  lemma LexemePrefix(y: string, t: string, i: nat)
    requires i < |y|
    ensures LexemeEnd(y, i) < |y| ==> KindAt(y + t, i) == KindAt(y, i) && LexemeEnd(y + t, i) == LexemeEnd(y, i)
    ensures LexemeEnd(y, i) <= LexemeEnd(y + t, i)
    ensures KindAt(y, i).Semicolon? <==> KindAt(y + t, i).Semicolon?
  {
    hide LineEnd, BlockEnd, QuoteEnd, WordEnd;
    if i + 1 < |y| {
      assert KindAt(y + t, i) == KindAt(y, i);
      LineEndPrefix(y, t, i + 2);
      BlockEndPrefix(y, t, i + 2);
      WordEndPrefix(y, t, i + 1);
      match KindAt(y, i) {
        case Quoted(close) => QuoteEndPrefix(y, t, i + 1, close);
        case _ =>
      }
    }
  }

  lemma {:induction false} LineEndShift(y: string, t: string, i: nat)
    requires i <= |t|
    ensures LineEnd(y + t, |y| + i) == |y| + LineEnd(t, i)
    decreases |t| - i
  {
    if i < |t| { LineEndShift(y, t, i + 1); }
  }

  lemma {:induction false} BlockEndShift(y: string, t: string, i: nat)
    requires i <= |t|
    ensures BlockEnd(y + t, |y| + i) == |y| + BlockEnd(t, i)
    decreases |t| - i
  {
    if i < |t| { BlockEndShift(y, t, i + 1); }
  }

  lemma {:induction false} QuoteEndShift(y: string, t: string, i: nat, close: char)
    requires i <= |t|
    ensures QuoteEnd(y + t, |y| + i, close) == |y| + QuoteEnd(t, i, close)
    decreases |t| - i
  {
    if i < |t| {
      QuoteEndShift(y, t, i + 1, close);
      if i + 1 < |t| && t[i + 1] == close { QuoteEndShift(y, t, i + 2, close); }
    }
  }

  lemma {:induction false} WordEndShift(y: string, t: string, i: nat)
    requires i <= |t|
    ensures WordEnd(y + t, |y| + i) == |y| + WordEnd(t, i)
    decreases |t| - i
  {
    if i < |t| { WordEndShift(y, t, i + 1); }
  }

  lemma KindShift(y: string, t: string, i: nat)
    requires i < |t|
    ensures KindAt(y + t, |y| + i) == KindAt(t, i)
  {
    assert (y + t)[|y| + i] == t[i];
    assert i + 1 < |t| ==> (y + t)[|y| + i + 1] == t[i + 1];
  }

  lemma LexemeEndShift(y: string, t: string, i: nat)
    requires i < |t|
    ensures LexemeEnd(y + t, |y| + i) == |y| + LexemeEnd(t, i)
  {
    hide LineEnd, BlockEnd, QuoteEnd, WordEnd;
    KindShift(y, t, i);
    WordEndShift(y, t, i + 1);
    if i + 1 < |t| {
      LineEndShift(y, t, i + 2);
      BlockEndShift(y, t, i + 2);
    }
    match KindAt(t, i) {
      case Quoted(close) => QuoteEndShift(y, t, i + 1, close);
      case _ =>
    }
  }

  lemma LexemeShift(y: string, t: string, i: nat)
    requires i < |t|
    ensures KindAt(y + t, |y| + i) == KindAt(t, i)
    ensures LexemeEnd(y + t, |y| + i) == |y| + LexemeEnd(t, i)
    ensures (y + t)[|y| + i..LexemeEnd(y + t, |y| + i)] == t[i..LexemeEnd(t, i)]
  {
    hide LexemeEnd, KindAt;
    KindShift(y, t, i);
    LexemeEndShift(y, t, i);
  }

  /** Starting at a statement, what precedes it in the script does not matter. */
  lemma {:induction false} SplitShift(y: string, t: string, i: nat, lo: nat, h: Head, executable: bool)
    requires lo <= i <= |t|
    ensures SplitFrom(y + t, |y| + i, |y| + lo, h, executable) == SplitFrom(t, i, lo, h, executable)
    decreases |t| - i
  {
    hide SplitFrom, LexemeEnd, KindAt, RecordWord;
    if i == |t| {
      SplitAtEnd(t, lo, h, executable);
      SplitAtEnd(y + t, |y| + lo, h, executable);
      assert (y + t)[|y| + lo..] == t[lo..];
    } else {
      LexemeShift(y, t, i);
      SplitStep(t, i, lo, h, executable);
      SplitStep(y + t, |y| + i, |y| + lo, h, executable);
      if Ends(t, i, h) {
        SplitShift(y, t, i + 1, i + 1, FreshHead, false);
        assert (y + t)[|y| + lo..|y| + i + 1] == t[lo..i + 1];
      } else {
        SplitShift(y, t, LexemeEnd(t, i), lo, Advance(t, i, h), executable || IsToken(t, i));
      }
    }
  }

  /** The scan from `i` reaches the end of the text right behind a statement's semicolon. */
  ghost predicate EndsAtCut(s: string, i: nat, lo: nat, h: Head)
    requires lo <= i <= |s|
    decreases |s| - i
  {
    if i == |s| then lo == i
    else if Ends(s, i, h) then EndsAtCut(s, i + 1, i + 1, FreshHead)
    else EndsAtCut(s, LexemeEnd(s, i), lo, Advance(s, i, h))
  }

  ghost predicate Complete(s: string) {
    EndsAtCut(s, 0, 0, FreshHead)
  }

  lemma {:induction false} SplitAppendFrom(y: string, t: string, i: nat, lo: nat, h: Head, executable: bool)
    requires lo <= i <= |y| && EndsAtCut(y, i, lo, h)
    requires lo == i ==> h == FreshHead && !executable
    ensures SplitFrom(y + t, i, lo, h, executable)
         == SplitFrom(y, i, lo, h, executable) + SplitFrom(y + t, |y|, |y|, FreshHead, false)
    decreases |y| - i
  {
    hide SplitFrom, LexemeEnd, KindAt, RecordWord;
    if i == |y| {
      SplitAtEnd(y, lo, h, executable);
    } else {
      LexemePrefix(y, t, i);
      SplitStep(y, i, lo, h, executable);
      SplitStep(y + t, i, lo, h, executable);
      if Ends(y, i, h) {
        SplitAppendFrom(y, t, i + 1, i + 1, FreshHead, false);
        assert (y + t)[lo..i + 1] == y[lo..i + 1];
      } else {
        var e := LexemeEnd(y, i);
        assert e < |y|;
        assert (y + t)[i..e] == y[i..e];
        SplitAppendFrom(y, t, e, lo, Advance(y, i, h), executable || IsToken(y, i));
      }
    }
  }

  /** Behind a complete text the split starts afresh: splitting is a homomorphism at every cut. */
  lemma SplitAppend(y: string, t: string)
    requires Complete(y)
    ensures Split(y + t) == Split(y) + Split(t)
  {
    SplitAppendFrom(y, t, 0, 0, FreshHead, false);
    SplitShift(y, t, 0, 0, FreshHead, false);
  }

  /** The first cut found from `i`, if there is one. */
  ghost function FirstCut(s: string, i: nat, h: Head): (cut: Option<nat>)
    requires i <= |s|
    ensures cut.Some? ==> i < cut.value <= |s|
    decreases |s| - i
  {
    if i == |s| then None
    else if Ends(s, i, h) then Some(i + 1)
    else FirstCut(s, LexemeEnd(s, i), Advance(s, i, h))
  }

  lemma {:induction false} FirstCutIsFirstSlice(s: string, i: nat, lo: nat, h: Head, executable: bool)
    requires lo <= i <= |s|
    ensures var slices := SlicesFrom(s, i, lo, h, executable);
            match FirstCut(s, i, h)
            case Some(cut) => |slices| > 1 && slices[0].hi == cut
            case None => |slices| == 1
    decreases |s| - i
  {
    if i < |s| && !Ends(s, i, h) {
      FirstCutIsFirstSlice(s, LexemeEnd(s, i), lo, Advance(s, i, h), executable || IsToken(s, i));
    }
  }

  lemma {:induction false} UncutText(s: string, i: nat, h: Head, executable: bool)
    requires i <= |s| && FirstCut(s, i, h).None?
    ensures SplitFrom(s, i, 0, h, executable) == [s] || SplitFrom(s, i, 0, h, executable) == []
    decreases |s| - i
  {
    hide SplitFrom;
    if i == |s| {
      SplitAtEnd(s, 0, h, executable);
      assert s[0..] == s;
    } else {
      SplitStep(s, i, 0, h, executable);
      UncutText(s, LexemeEnd(s, i), Advance(s, i, h), executable || IsToken(s, i));
    }
  }

  /** The text up to the first cut is complete by itself and is one statement or none. */
  lemma {:induction false} TextToFirstCut(y: string, t: string, i: nat, h: Head, executable: bool)
    requires i < |y| && FirstCut(y + t, i, h) == Some(|y|)
    ensures EndsAtCut(y, i, 0, h)
    ensures SplitFrom(y, i, 0, h, executable) == [y] || SplitFrom(y, i, 0, h, executable) == []
    decreases |y| - i
  {
    hide SplitFrom, LexemeEnd, KindAt, RecordWord;
    LexemePrefix(y, t, i);
    SplitStep(y, i, 0, h, executable);
    if Ends(y + t, i, h) {
      SplitAtEnd(y, |y|, FreshHead, false);
      assert y[0..|y|] == y;
    } else {
      var e := LexemeEnd(y + t, i);
      assert e < |y|;
      assert (y + t)[i..e] == y[i..e];
      TextToFirstCut(y, t, e, Advance(y, i, h), executable || IsToken(y, i));
    }
  }

  function Join(parts: seq<string>): string {
    if parts == [] then "" else parts[0] + Join(parts[1..])
  }

  lemma JoinCons(x: string, parts: seq<string>)
    ensures Join([x] + parts) == x + Join(parts)
  {
    assert ([x] + parts)[1..] == parts;
  }

  lemma CompleteToFirstCut(y: string, t: string)
    requires y != "" && FirstCut(y + t, 0, FreshHead) == Some(|y|)
    ensures Complete(y)
    ensures Split(y) == [y] || Split(y) == []
  {
    hide SplitFrom, FirstCut, EndsAtCut;
    TextToFirstCut(y, t, 0, FreshHead, false);
  }

  /** Cutting at the first statement and splitting both sides is splitting the whole. */
  lemma SplitAtFirstCut(s: string, cut: nat)
    requires FirstCut(s, 0, FreshHead) == Some(cut)
    ensures 0 < cut <= |s|
    ensures Complete(s[..cut])
    ensures Split(s[..cut]) == [s[..cut]] || Split(s[..cut]) == []
    ensures Split(s) == Split(s[..cut]) + Split(s[cut..])
  {
    hide SplitFrom, FirstCut, EndsAtCut;
    var y, t := s[..cut], s[cut..];
    assert s == y + t;
    CompleteToFirstCut(y, t);
    SplitAppend(y, t);
  }

  /** Splitting the concatenation of the statements gives the statements back. */
  lemma {:induction false} SplitOfJoin(s: string)
    ensures Split(Join(Split(s))) == Split(s)
    decreases |s|
  {
    hide SplitFrom;
    match FirstCut(s, 0, FreshHead)
    case None =>
      UncutText(s, 0, FreshHead, false);
      if Split(s) == [s] {
        JoinCons(s, []);
        assert [s] + [] == [s] && s + "" == s;
      } else {
        SplitAtEnd("", 0, FreshHead, false);
      }
    case Some(cut) =>
      SplitAtFirstCut(s, cut);
      var y, z := s[..cut], s[cut..];
      SplitOfJoin(z);
      if Split(y) == [y] {
        JoinCons(y, Split(z));
        SplitAppend(y, Join(Split(z)));
      } else {
        assert Split(s) == Split(z);
      }
  }

  // ---------- What counts as a trigger body ----------

  /** What is remembered after reading the words `ws`. */
  function HeadAfter(h: Head, ws: seq<string>): Head
    decreases |ws|
  {
    if ws == [] then h else HeadAfter(RecordWord(h, ws[0]), ws[1..])
  }

  function WordsIn(s: string, i: nat, hi: nat): seq<string>
    requires i <= hi <= |s|
    decreases hi - i
  {
    if i == hi || LexemeEnd(s, i) > hi then []
    else (if KindAt(s, i).Word? then [s[i..LexemeEnd(s, i)]] else []) + WordsIn(s, LexemeEnd(s, i), hi)
  }

  /** A position reached from `i` lexeme by lexeme. */
  ghost predicate Boundary(s: string, i: nat, p: nat)
    requires i <= p <= |s|
    decreases p - i
  {
    i == p || (LexemeEnd(s, i) <= p && Boundary(s, LexemeEnd(s, i), p))
  }

  /** Inside a slice, a semicolon is kept exactly when the words before it leave a trigger body open. */
  lemma {:induction false} KeptSemicolons(s: string, i: nat, p: nat, hi: nat, h: Head)
    requires i <= p < hi <= |s|
    requires OneStatement(s, i, hi, h) && Boundary(s, i, p) && KindAt(s, p).Semicolon?
    ensures p + 1 < hi ==> HeadAfter(h, WordsIn(s, i, p)).inBody
    ensures p + 1 == hi && hi < |s| ==> !HeadAfter(h, WordsIn(s, i, p)).inBody
    decreases p - i
  {
    if i < p {
      var e := LexemeEnd(s, i);
      KeptSemicolons(s, e, p, hi, Advance(s, i, h));
      var rest := WordsIn(s, e, p);
      if KindAt(s, i).Word? {
        assert ([s[i..e]] + rest)[1..] == rest;
      } else {
        assert [] + rest == rest;
      }
    }
  }

  function UpperAll(ws: seq<string>): (r: seq<string>)
    ensures |r| == |ws|
    ensures forall k :: 0 <= k < |r| ==> r[k] == Upper(ws[k])
  {
    seq(|ws|, k requires 0 <= k < |ws| => Upper(ws[k]))
  }

  function FirstThree(ws: seq<string>): seq<string> {
    if |ws| <= 3 then ws else ws[..3]
  }

  lemma {:induction false} HeadAfterAppend(h: Head, ws: seq<string>, w: string)
    ensures HeadAfter(h, ws + [w]) == RecordWord(HeadAfter(h, ws), w)
    decreases |ws|
  {
    if ws == [] {
      assert (ws + [w])[1..] == [];
    } else {
      assert (ws + [w])[1..] == ws[1..] + [w];
      HeadAfterAppend(RecordWord(h, ws[0]), ws[1..], w);
    }
  }

  /** Only a statement that opens with CREATE [TEMP | TEMPORARY] TRIGGER can have a body. */
  lemma {:induction false} OnlyTriggersHaveBodies(ws: seq<string>)
    ensures var h := HeadAfter(FreshHead, ws);
            && h.words == FirstThree(UpperAll(ws))
            && h.isTrigger == StartsTrigger(FirstThree(UpperAll(ws)))
            && (h.inBody ==> h.isTrigger && |h.words| == 3)
  {
    if ws != [] {
      var init, w := ws[..|ws| - 1], ws[|ws| - 1];
      assert ws == init + [w];
      HeadAfterAppend(FreshHead, init, w);
      OnlyTriggersHaveBodies(init);
      assert UpperAll(ws) == UpperAll(init) + [Upper(w)];
    }
  }

  /** Words whose CASEs and ENDs balance from depth `d`, never closing more than is open. */
  ghost predicate Balanced(ws: seq<string>, d: nat) {
    if ws == [] then d == 0
    else if Upper(ws[0]) == "CASE" then Balanced(ws[1..], d + 1)
    else if Upper(ws[0]) == "END" then d > 0 && Balanced(ws[1..], d - 1)
    else Balanced(ws[1..], d)
  }

  /** A balanced body keeps the trigger open up to its own END, which closes it. */
  lemma {:induction false} BalancedBodyStaysOpen(h: Head, body: seq<string>, end: string, k: nat)
    requires h.isTrigger && h.inBody && Balanced(body, h.caseDepth) && Upper(end) == "END"
    requires k <= |body|
    ensures HeadAfter(h, body[..k]).inBody
    ensures !HeadAfter(h, body + [end]).inBody
    decreases |body|
  {
    if body == [] {
      assert (body + [end])[1..] == [];
    } else {
      var h' := RecordWord(h, body[0]);
      assert (body + [end])[1..] == body[1..] + [end];
      BalancedBodyStaysOpen(h', body[1..], end, if k == 0 then 0 else k - 1);
      if k > 0 {
        assert body[..k][1..] == body[1..][..k - 1];
      }
    }
  }

  /** From the head of a trigger, words other than BEGIN lead to BEGIN, which opens the body. */
  lemma {:induction false} BeginOpensBody(h: Head, header: seq<string>, begin: string)
    requires h.isTrigger && !h.inBody && h.isTrigger == StartsTrigger(h.words)
    requires forall k :: 0 <= k < |header| ==> Upper(header[k]) != "BEGIN"
    requires Upper(begin) == "BEGIN"
    ensures var h' := HeadAfter(h, header + [begin]);
            h'.isTrigger && h'.inBody && h'.caseDepth == h.caseDepth
    decreases |header|
  {
    if header == [] {
      assert (header + [begin])[1..] == [];
    } else {
      var h1 := RecordWord(h, header[0]);
      assert h1.isTrigger;
      assert (header + [begin])[1..] == header[1..] + [begin];
      BeginOpensBody(h1, header[1..], begin);
    }
  }

  /**
    * A statement is a trigger if and only if its first two words are CREATE TRIGGER or its first three are CREATE TEMP
    * TRIGGER or CREATE TEMPORARY TRIGGER, in any case; and only a trigger has a body.
    */
  lemma TriggersExactly(ws: seq<string>)
    ensures HeadAfter(FreshHead, ws).isTrigger <==>
            || (|ws| >= 2 && Upper(ws[0]) == "CREATE" && Upper(ws[1]) == "TRIGGER")
            || (&& |ws| >= 3 && Upper(ws[0]) == "CREATE" && Upper(ws[2]) == "TRIGGER"
                && (Upper(ws[1]) == "TEMP" || Upper(ws[1]) == "TEMPORARY"))
    ensures HeadAfter(FreshHead, ws).inBody ==> HeadAfter(FreshHead, ws).isTrigger
  {
    OnlyTriggersHaveBodies(ws);
    assert forall k :: 0 <= k < |FirstThree(UpperAll(ws))| ==> FirstThree(UpperAll(ws))[k] == Upper(ws[k]);
  }

  lemma {:induction false} HeadAfterConcat(h: Head, a: seq<string>, b: seq<string>)
    ensures HeadAfter(h, a + b) == HeadAfter(HeadAfter(h, a), b)
    decreases |a|
  {
    if a == [] {
      assert a + b == b;
    } else {
      assert (a + b)[1..] == a[1..] + b;
      HeadAfterConcat(RecordWord(h, a[0]), a[1..], b);
    }
  }

  /** Before BEGIN a trigger has no body and no CASE open. */
  lemma {:induction false} NoBodyBeforeBegin(h: Head, ws: seq<string>)
    requires !h.inBody && forall k :: 0 <= k < |ws| ==> Upper(ws[k]) != "BEGIN"
    ensures !HeadAfter(h, ws).inBody && HeadAfter(h, ws).caseDepth == h.caseDepth
    decreases |ws|
  {
    if ws != [] {
      NoBodyBeforeBegin(RecordWord(h, ws[0]), ws[1..]);
    }
  }

  /** The words that make a statement a trigger. */
  ghost predicate OpensTrigger(ws: seq<string>) {
    || (|ws| == 2 && Upper(ws[0]) == "CREATE" && Upper(ws[1]) == "TRIGGER")
    || (&& |ws| == 3 && Upper(ws[0]) == "CREATE" && Upper(ws[2]) == "TRIGGER"
        && (Upper(ws[1]) == "TEMP" || Upper(ws[1]) == "TEMPORARY"))
  }

  /**
    * CREATE TRIGGER, or either temporary form, any words other than BEGIN, then BEGIN: from there on the body is open
    * until its own END, behind which it is closed.
    */
  lemma TriggerBodyIsOpen(opening: seq<string>, header: seq<string>, begin: string, body: seq<string>, end: string,
                          k: nat)
    requires OpensTrigger(opening) && Upper(begin) == "BEGIN" && Upper(end) == "END"
    requires forall i :: 0 <= i < |header| ==> Upper(header[i]) != "BEGIN"
    requires Balanced(body, 0) && k <= |body|
    ensures !HeadAfter(FreshHead, opening + header).inBody
    ensures HeadAfter(FreshHead, opening + header + [begin] + body[..k]).inBody
    ensures !HeadAfter(FreshHead, opening + header + [begin] + body + [end]).inBody
  {
    hide HeadAfter, RecordWord, Balanced, Upper, OpensTrigger;
    var before := opening + header;
    OpeningMakesTrigger(opening, header);
    OpeningHasNoBegin(opening);
    assert forall i :: 0 <= i < |opening| ==> before[i] == opening[i];
    NoBodyBeforeBegin(FreshHead, before);
    var h := HeadAfter(FreshHead, before);
    OnlyTriggersHaveBodies(before);
    HeadAfterConcat(FreshHead, before, [begin]);
    BeginOpensBody(h, [], begin);
    assert [] + [begin] == [begin];
    BodyIsOpen(before + [begin], body, end, k);
  }

  lemma OpeningHasNoBegin(opening: seq<string>)
    requires OpensTrigger(opening)
    ensures forall i :: 0 <= i < |opening| ==> Upper(opening[i]) != "BEGIN"
  {
    hide Upper;
  }

  lemma OpeningMakesTrigger(opening: seq<string>, header: seq<string>)
    requires OpensTrigger(opening)
    ensures HeadAfter(FreshHead, opening + header).isTrigger
  {
    hide HeadAfter, Upper;
    TriggersExactly(opening + header);
    assert forall i :: 0 <= i < |opening| ==> (opening + header)[i] == opening[i];
  }

  lemma BodyIsOpen(before: seq<string>, body: seq<string>, end: string, k: nat)
    requires var h := HeadAfter(FreshHead, before); h.isTrigger && h.inBody && h.caseDepth == 0
    requires Balanced(body, 0) && Upper(end) == "END" && k <= |body|
    ensures HeadAfter(FreshHead, before + body[..k]).inBody
    ensures !HeadAfter(FreshHead, before + body + [end]).inBody
  {
    hide HeadAfter, Balanced, Upper;
    BalancedBodyStaysOpen(HeadAfter(FreshHead, before), body, end, k);
    HeadAfterConcat(FreshHead, before, body[..k]);
    HeadAfterConcat(FreshHead, before, body + [end]);
    assert before + (body + [end]) == before + body + [end];
  }
}
