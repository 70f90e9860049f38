/**
  * Scripts as they are written down, piece by piece: comments, quoted names and texts with their quotation marks
  * doubled, words, blanks and signs. Splitting a script so written gives back its statements.
  */
module SqlPieces {
  import opened SqlScript
  import opened Whitespace

  datatype Piece =
    | LineNote(text: string, end: char)
    | BlockNote(text: string)
    | Quote(mark: char, text: string)
    | Bracket(text: string)
    | WordOf(text: string)
    | Blank(c: char)
    | Sign(c: char)

  predicate IsLetter(c: char) {
    65 <= c as int <= 90 || 97 <= c as int <= 122 || c as int == 95
  }

  predicate IsLetterOrDigit(c: char) {
    IsLetter(c) || 48 <= c as int <= 57
  }

  predicate IsLineEnd(c: char) {
    c as int == 10 || c as int == 13
  }

  /** The quotation's mark is written twice wherever it stands inside. */
  function Doubled(text: string, mark: char): string {
    if text == "" then ""
    else (if text[0] == mark then [mark, mark] else [text[0]]) + Doubled(text[1..], mark)
  }

  function Written(p: Piece): (t: string)
    ensures t != ""
  {
    match p
    case LineNote(text, end) => "--" + (text + [end])
    case BlockNote(text) => "/*" + (text + "*/")
    case Quote(mark, text) => [mark] + (Doubled(text, mark) + [mark])
    case Bracket(text) => "[" + (text + "]")
    case WordOf(text) => if text == "" then "_" else text
    case Blank(c) => [c]
    case Sign(c) => [c]
  }

  /** What each kind of piece can hold. */
  predicate Fine(p: Piece) {
    match p
    case LineNote(text, end) => IsLineEnd(end) && forall k :: 0 <= k < |text| ==> !IsLineEnd(text[k])
    case BlockNote(text) => forall k :: 0 <= k < |text| - 1 ==> !(text[k] == '*' && text[k + 1] == '/')
    case Quote(mark, _) => mark == '\'' || mark == '"' || mark == '`'
    case Bracket(text) => forall k :: 0 <= k < |text| ==> text[k] != ']'
    case WordOf(text) => text != "" && IsLetter(text[0]) && forall k :: 0 <= k < |text| ==> IsLetterOrDigit(text[k])
    case Blank(c) => IsSpace(c)
    case Sign(c) => !IsSpace(c) && !IsLetter(c) && c != '\'' && c != '"' && c != '`' && c != '['
  }

  /** The piece does not run together with what is written after it. */
  predicate Apart(p: Piece, rest: string) {
    rest == "" ||
    match p
    case Quote(mark, _) => rest[0] != mark
    case WordOf(_) => !IsLetterOrDigit(rest[0])
    case Sign(c) => !(c == '-' && rest[0] == '-') && !(c == '/' && rest[0] == '*')
    case _ => true
  }

  function Script(pieces: seq<Piece>): string {
    if pieces == [] then "" else Written(pieces[0]) + Script(pieces[1..])
  }

  predicate WellWritten(pieces: seq<Piece>) {
    pieces == [] ||
    (Fine(pieces[0]) && Apart(pieces[0], Script(pieces[1..])) && WellWritten(pieces[1..]))
  }

  function KindOf(p: Piece): Kind {
    match p
    case LineNote(_, _) => LineComment
    case BlockNote(_) => BlockComment
    case Quote(mark, _) => Quoted(mark)
    case Bracket(_) => Quoted(']')
    case WordOf(_) => Word
    case Blank(_) => Space
    case Sign(c) => if c == ';' then Semicolon else Symbol
  }

  // ---------- Each piece is read back whole ----------

  lemma {:induction false} LineEndsAt(text: string, end: char, rest: string, s: string, i: nat)
    requires i <= |s| && s[i..] == text + ([end] + rest)
    requires IsLineEnd(end) && forall k :: 0 <= k < |text| ==> !IsLineEnd(text[k])
    ensures LineEnd(s, i) == i + |text| + 1
    decreases |text|
  {
    assert s[i] == s[i..][0];
    if text != "" {
      assert s[i + 1..] == s[i..][1..] == text[1..] + ([end] + rest);
      LineEndsAt(text[1..], end, rest, s, i + 1);
    }
  }

  lemma {:induction false} BlockEndsAt(text: string, rest: string, s: string, i: nat)
    requires i <= |s| && s[i..] == text + ("*/" + rest)
    requires forall k :: 0 <= k < |text| - 1 ==> !(text[k] == '*' && text[k + 1] == '/')
    ensures BlockEnd(s, i) == i + |text| + 2
    decreases |text|
  {
    assert s[i] == s[i..][0] && s[i + 1] == s[i..][1];
    if text != "" {
      assert s[i + 1..] == s[i..][1..] == text[1..] + ("*/" + rest);
      BlockEndsAt(text[1..], rest, s, i + 1);
    }
  }

  lemma {:induction false} QuoteEndsAt(text: string, mark: char, rest: string, s: string, i: nat)
    requires i <= |s| && s[i..] == Doubled(text, mark) + ([mark] + rest)
    requires mark != ']' && (rest == "" || rest[0] != mark)
    ensures QuoteEnd(s, i, mark) == i + |Doubled(text, mark)| + 1
    decreases |text|
  {
    assert s[i] == s[i..][0];
    if text == "" {
      assert i + 1 < |s| ==> s[i + 1] == s[i..][1] == rest[0];
    } else {
      var after := Doubled(text[1..], mark) + ([mark] + rest);
      if text[0] == mark {
        assert s[i + 1] == s[i..][1] == mark;
        assert s[i + 2..] == s[i..][2..] == after;
        QuoteEndsAt(text[1..], mark, rest, s, i + 2);
      } else {
        assert s[i + 1..] == s[i..][1..] == after;
        QuoteEndsAt(text[1..], mark, rest, s, i + 1);
      }
    }
  }

  lemma {:induction false} BracketEndsAt(text: string, rest: string, s: string, i: nat)
    requires i <= |s| && s[i..] == text + ("]" + rest)
    requires forall k :: 0 <= k < |text| ==> text[k] != ']'
    ensures QuoteEnd(s, i, ']') == i + |text| + 1
    decreases |text|
  {
    assert s[i] == s[i..][0];
    if text != "" {
      assert s[i + 1..] == s[i..][1..] == text[1..] + ("]" + rest);
      BracketEndsAt(text[1..], rest, s, i + 1);
    }
  }

  lemma {:induction false} WordEndsAt(text: string, rest: string, s: string, i: nat)
    requires i <= |s| && s[i..] == text + rest
    requires forall k :: 0 <= k < |text| ==> IsLetterOrDigit(text[k])
    requires rest == "" || !IsLetterOrDigit(rest[0])
    ensures WordEnd(s, i) == i + |text|
    decreases |text|
  {
    if text != "" {
      assert s[i] == s[i..][0];
      assert s[i + 1..] == s[i..][1..] == text[1..] + rest;
      WordEndsAt(text[1..], rest, s, i + 1);
    } else if rest != "" {
      assert s[i] == s[i..][0];
    }
  }

  ghost predicate IsLexeme(p: Piece, rest: string) {
    KindAt(Written(p) + rest, 0) == KindOf(p) && LexemeEnd(Written(p) + rest, 0) == |Written(p)|
  }

  lemma LineNoteIsLexeme(text: string, end: char, rest: string)
    requires Fine(LineNote(text, end)) && Apart(LineNote(text, end), rest)
    ensures IsLexeme(LineNote(text, end), rest)
  {
    hide LineEnd, BlockEnd, QuoteEnd, WordEnd;
    var s := Written(LineNote(text, end)) + rest;
    LettersStartWords(s[0]);
    assert s[2..] == text + ([end] + rest);
    LineEndsAt(text, end, rest, s, 2);
  }

  lemma BlockNoteIsLexeme(text: string, rest: string)
    requires Fine(BlockNote(text)) && Apart(BlockNote(text), rest)
    ensures IsLexeme(BlockNote(text), rest)
  {
    hide LineEnd, BlockEnd, QuoteEnd, WordEnd;
    var s := Written(BlockNote(text)) + rest;
    LettersStartWords(s[0]);
    assert s[2..] == text + ("*/" + rest);
    BlockEndsAt(text, rest, s, 2);
  }

  lemma QuoteIsLexeme(mark: char, text: string, rest: string)
    requires Fine(Quote(mark, text)) && Apart(Quote(mark, text), rest)
    ensures IsLexeme(Quote(mark, text), rest)
  {
    hide LineEnd, BlockEnd, QuoteEnd, WordEnd;
    var s := Written(Quote(mark, text)) + rest;
    LettersStartWords(s[0]);
    assert s[1..] == Doubled(text, mark) + ([mark] + rest);
    QuoteEndsAt(text, mark, rest, s, 1);
  }

  lemma BracketIsLexeme(text: string, rest: string)
    requires Fine(Bracket(text)) && Apart(Bracket(text), rest)
    ensures IsLexeme(Bracket(text), rest)
  {
    hide LineEnd, BlockEnd, QuoteEnd, WordEnd;
    var s := Written(Bracket(text)) + rest;
    LettersStartWords(s[0]);
    assert s[1..] == text + ("]" + rest);
    BracketEndsAt(text, rest, s, 1);
  }

  lemma WordIsLexeme(text: string, rest: string)
    requires Fine(WordOf(text)) && Apart(WordOf(text), rest)
    ensures IsLexeme(WordOf(text), rest)
  {
    hide LineEnd, BlockEnd, QuoteEnd, WordEnd;
    var s := Written(WordOf(text)) + rest;
    LettersStartWords(s[0]);
    assert s[1..] == text[1..] + rest;
    WordEndsAt(text[1..], rest, s, 1);
  }

  lemma SignIsLexeme(c: char, rest: string)
    requires Fine(Sign(c)) && Apart(Sign(c), rest)
    ensures IsLexeme(Sign(c), rest)
  {
    hide LineEnd, BlockEnd, QuoteEnd, WordEnd;
    var s := Written(Sign(c)) + rest;
    LettersStartWords(s[0]);
    assert rest != "" ==> s[1] == rest[0];
  }

  lemma BlankIsLexeme(c: char, rest: string)
    requires Fine(Blank(c)) && Apart(Blank(c), rest)
    ensures IsLexeme(Blank(c), rest)
  {
    hide LineEnd, BlockEnd, QuoteEnd, WordEnd;
    var s := Written(Blank(c)) + rest;
    LettersStartWords(s[0]);
  }

  /** A piece, followed by what it does not run together with, is one lexeme of its kind. */
  lemma PieceIsLexeme(p: Piece, rest: string)
    requires Fine(p) && Apart(p, rest)
    ensures IsLexeme(p, rest)
  {
    hide IsLexeme, Fine, Apart;
    match p
    case LineNote(text, end) => LineNoteIsLexeme(text, end, rest);
    case BlockNote(text) => BlockNoteIsLexeme(text, rest);
    case Quote(mark, text) => QuoteIsLexeme(mark, text, rest);
    case Bracket(text) => BracketIsLexeme(text, rest);
    case WordOf(text) => WordIsLexeme(text, rest);
    case Blank(c) => BlankIsLexeme(c, rest);
    case Sign(c) => SignIsLexeme(c, rest);
  }

  lemma LettersStartWords(c: char)
    ensures IsWordStart(c) <==> IsLetter(c)
    ensures IsSpace(c) ==> !IsLetter(c) && c !in {'-', '/', '\'', '"', '`', '[', ';'}
  {
  }

  // ---------- The script is split where it says ----------

  /** Everything but comments and blanks is worth executing. */
  predicate IsSubstance(p: Piece) {
    !p.LineNote? && !p.BlockNote? && !p.Blank?
  }

  function After(h: Head, p: Piece): Head {
    if p.WordOf? then RecordWord(h, p.text) else h
  }

  /** The statements, given what was written of the first one and what its words led to. */
  function Statements(pieces: seq<Piece>, h: Head, sofar: string, substance: bool): seq<string> {
    if pieces == [] then (if substance then [sofar] else [])
    else if pieces[0] == Sign(';') && !h.inBody then
      (if substance then [sofar + ";"] else []) + Statements(pieces[1..], FreshHead, "", false)
    else Statements(pieces[1..], After(h, pieces[0]), sofar + Written(pieces[0]), substance || IsSubstance(pieces[0]))
  }

  /** What the splitter sees of one piece. */
  lemma PieceInScript(before: string, p: Piece, rest: string, h: Head)
    requires Fine(p) && Apart(p, rest)
    ensures var s, i := before + (Written(p) + rest), |before|;
            && i < |s|
            && LexemeEnd(s, i) == i + |Written(p)|
            && (Ends(s, i, h) <==> p == Sign(';') && !h.inBody)
            && (IsToken(s, i) <==> IsSubstance(p))
            && Advance(s, i, h) == After(h, p)
  {
    hide KindAt, LexemeEnd, RecordWord, Written;
    var t := Written(p) + rest;
    PieceIsLexeme(p, rest);
    LexemeShift(before, t, 0);
    assert t[0..|Written(p)|] == Written(p);
    WordsAreWritten(p);
  }

  lemma WordsAreWritten(p: Piece)
    ensures Fine(p) && p.WordOf? ==> Written(p) == p.text
  {
  }

  lemma {:induction false} SplitsAsWritten(before: string, pieces: seq<Piece>, lo: nat, h: Head, substance: bool)
    requires WellWritten(pieces) && lo <= |before|
    ensures SplitFrom(before + Script(pieces), |before|, lo, h, substance) ==
            Statements(pieces, h, before[lo..], substance)
    decreases |pieces|
  {
    hide SplitFrom, Ends, IsToken, Advance, LexemeEnd, After, RecordWord, Fine, Apart, Written;
    var s := before + Script(pieces);
    if pieces == [] {
      assert s == before;
      SplitAtEnd(s, lo, h, substance);
    } else {
      var p, rest := pieces[0], Script(pieces[1..]);
      PieceInScript(before, p, rest, h);
      SplitStep(s, |before|, lo, h, substance);
      var further := before + Written(p);
      assert further + rest == s;
      assert further[lo..] == before[lo..] + Written(p);
      if p == Sign(';') && !h.inBody {
        SemicolonIsWritten();
        assert s[lo..|before| + 1] == before[lo..] + ";";
        SplitsAsWritten(further, pieces[1..], |further|, FreshHead, false);
        assert further[|further|..] == "";
      } else {
        SplitsAsWritten(further, pieces[1..], lo, After(h, p), substance || IsSubstance(p));
      }
    }
  }

  lemma SemicolonIsWritten()
    ensures Written(Sign(';')) == ";"
  {
  }

  lemma SplitOfWritten(pieces: seq<Piece>)
    requires WellWritten(pieces)
    ensures Split(Script(pieces)) == Statements(pieces, FreshHead, "", false)
  {
    hide Statements;
    SplitsAsWritten("", pieces, 0, FreshHead, false);
    assert "" + Script(pieces) == Script(pieces);
  }

  // ---------- Statement by statement ----------

  function Words(pieces: seq<Piece>): seq<string> {
    if pieces == [] then [] else WordsOf(pieces[0]) + Words(pieces[1..])
  }

  function WordsOf(p: Piece): seq<string> {
    if p.WordOf? then [p.text] else []
  }

  predicate HasSubstance(pieces: seq<Piece>) {
    exists k :: 0 <= k < |pieces| && IsSubstance(pieces[k])
  }

  /** One statement without its semicolon: it has substance, and semicolons only inside the body of a trigger. */
  ghost predicate IsStatement(pieces: seq<Piece>) {
    && HasSubstance(pieces)
    && (forall k :: 0 <= k < |pieces| && pieces[k] == Sign(';') ==> HeadAfter(FreshHead, Words(pieces[..k])).inBody)
    && !HeadAfter(FreshHead, Words(pieces)).inBody
  }

  /** Statements one after the other, each with its semicolon. */
  function Joined(statements: seq<seq<Piece>>): seq<Piece> {
    if statements == [] then [] else statements[0] + ([Sign(';')] + Joined(statements[1..]))
  }

  lemma {:induction false} ScriptConcat(a: seq<Piece>, b: seq<Piece>)
    ensures Script(a + b) == Script(a) + Script(b)
  {
    hide Written;
    if a == [] {
      assert a + b == b;
    } else {
      ScriptConcat(a[1..], b);
      assert (a + b)[1..] == a[1..] + b;
    }
  }

  /** The pieces up to the semicolon make one statement. */
  lemma {:induction false} OneStatementIsRead(done: seq<Piece>, todo: seq<Piece>, rest: seq<Piece>)
    requires IsStatement(done + todo)
    ensures Statements(todo + ([Sign(';')] + rest), HeadAfter(FreshHead, Words(done)), Script(done), HasSubstance(done))
         == [Script(done + todo) + ";"] + Statements(rest, FreshHead, "", false)
    decreases |todo|
  {
    hide Written, RecordWord, IsSubstance, HeadAfter, After, Words, Script;
    var h, pieces := HeadAfter(FreshHead, Words(done)), todo + ([Sign(';')] + rest);
    if todo == [] {
      assert done + todo == done;
      assert pieces[1..] == rest;
    } else {
      var p := todo[0];
      var further := done + [p];
      assert further + todo[1..] == done + todo;
      assert pieces[1..] == todo[1..] + ([Sign(';')] + rest);
      assert (done + todo)[..|done|] == done && (done + todo)[|done|] == p;
      OneStatementIsRead(further, todo[1..], rest);
      WordsNext(done, p);
      ScriptConcat(done, [p]);
      ScriptOfOne(p);
      SubstanceNext(done, p);
    }
  }

  lemma SubstanceNext(done: seq<Piece>, p: Piece)
    ensures HasSubstance(done + [p]) <==> HasSubstance(done) || IsSubstance(p)
  {
    hide IsSubstance;
    var further := done + [p];
    assert further[|done|] == p;
    assert forall k :: 0 <= k < |done| ==> further[k] == done[k];
  }

  lemma ScriptOfOne(p: Piece)
    ensures Script([p]) == Written(p)
  {
    assert Script([p][1..]) == "";
  }

  lemma WordsNext(done: seq<Piece>, p: Piece)
    ensures HeadAfter(FreshHead, Words(done + [p])) == After(HeadAfter(FreshHead, Words(done)), p)
  {
    WordsConcat(done, [p]);
    assert Words([p]) == WordsOf(p) by {
      assert [p][1..] == [];
    }
    if p.WordOf? {
      HeadAfterAppend(FreshHead, Words(done), p.text);
    } else {
      assert Words(done) + [] == Words(done);
    }
  }

  lemma {:induction false} WordsConcat(a: seq<Piece>, b: seq<Piece>)
    ensures Words(a + b) == Words(a) + Words(b)
  {
    hide WordsOf;
    if a == [] {
      assert a + b == b;
    } else {
      WordsConcat(a[1..], b);
      assert (a + b)[1..] == a[1..] + b;
    }
  }

  lemma NothingDone()
    ensures Words([]) == [] && Script([]) == "" && !HasSubstance([])
  {
  }

  lemma FirstStatementIsRead(first: seq<Piece>, rest: seq<Piece>)
    requires IsStatement(first)
    ensures Statements(first + ([Sign(';')] + rest), FreshHead, "", false) ==
            [Script(first) + ";"] + Statements(rest, FreshHead, "", false)
  {
    hide IsStatement, Statements, Script, Words, HasSubstance;
    NothingDone();
    assert [] + first == first;
    OneStatementIsRead([], first, rest);
  }

  lemma {:induction false} JoinedStatements(statements: seq<seq<Piece>>)
    requires forall k :: 0 <= k < |statements| ==> IsStatement(statements[k])
    ensures Statements(Joined(statements), FreshHead, "", false) == Finished(statements)
  {
    hide IsStatement, Script;
    if statements != [] {
      hide Statements;
      JoinedStatements(statements[1..]);
      FirstStatementIsRead(statements[0], Joined(statements[1..]));
    }
  }

  /** Each statement as written, with its semicolon. */
  function Finished(statements: seq<seq<Piece>>): seq<string> {
    if statements == [] then [] else [Script(statements[0]) + ";"] + Finished(statements[1..])
  }

  lemma {:induction false} FinishedAt(statements: seq<seq<Piece>>, k: nat)
    requires k < |statements|
    ensures |Finished(statements)| == |statements| && Finished(statements)[k] == Script(statements[k]) + ";"
  {
    hide Script;
    if |statements| > 1 {
      FinishedAt(statements[1..], if k == 0 then 0 else k - 1);
    }
  }

  /**
    * However statements are written, with comments, quotations, brackets and trigger bodies anywhere in them: put one
    * after the other with semicolons between, the splitter returns each of them as it was written.
    */
  lemma StatementsComeApart(statements: seq<seq<Piece>>)
    requires forall k :: 0 <= k < |statements| ==> IsStatement(statements[k])
    requires WellWritten(Joined(statements))
    ensures var split := Split(Script(Joined(statements)));
            && |split| == |statements|
            && forall k :: 0 <= k < |statements| ==> split[k] == Script(statements[k]) + ";"
  {
    hide Split, IsStatement, WellWritten, Finished;
    SplitOfWritten(Joined(statements));
    JoinedStatements(statements);
    if statements == [] {
      NoneFinished();
    } else {
      FinishedAt(statements, 0);
    }
    forall k | 0 <= k < |statements| ensures Finished(statements)[k] == Script(statements[k]) + ";" {
      FinishedAt(statements, k);
    }
  }

  lemma NoneFinished()
    ensures Finished([]) == []
  {
  }
}
