/** Plain JSON values as ECMAScript holds them, what `JSON.stringify` prints, and reading it back. */
module JsonText {
  import opened Utf8
  import opened Wrappers

  /** Strings are UTF-16 code units, surrogates paired or not. */
  type CodeUnit = u: int | 0 <= u < 0x1_0000

  type Text = seq<CodeUnit>

  /** A number is known by the text it prints as; an object's members stand in the order they are enumerated. */
  datatype Json =
    | Null
    | Bool(value: bool)
    | Num(digits: seq<Scalar>)
    | Str(text: Text)
    | Arr(items: seq<Json>)
    | Obj(members: seq<Member>)

  datatype Member = Member(key: Text, value: Json)

  const QUOTE := 34
  const BACKSLASH := 92
  const SOLIDUS := 47
  const COMMA := 44
  const COLON := 58
  const ARRAY_OPEN := 91
  const ARRAY_CLOSE := 93
  const OBJECT_OPEN := 123
  const OBJECT_CLOSE := 125
  const LETTER_B := 98
  const LETTER_E := 101
  const LETTER_F := 102
  const LETTER_N := 110
  const LETTER_R := 114
  const LETTER_T := 116
  const LETTER_U := 117
  const NULL_TEXT: seq<Scalar> := [110, 117, 108, 108]
  const TRUE_TEXT: seq<Scalar> := [116, 114, 117, 101]
  const FALSE_TEXT: seq<Scalar> := [102, 97, 108, 115, 101]

  /** A digit, a sign, a point or an exponent mark. */
  predicate IsNumberChar(c: Scalar) {
    48 <= c <= 57 || c == 43 || c == 45 || c == 46 || c == LETTER_E
  }

  predicate IsNumberText(digits: seq<Scalar>) {
    digits != [] && forall i :: 0 <= i < |digits| ==> IsNumberChar(digits[i])
  }

  /** Numbers are finite and an object has each key once. */
  predicate Valid(v: Json) {
    match v
    case Num(digits) => IsNumberText(digits)
    case Arr(items) => forall i :: 0 <= i < |items| ==> Valid(items[i])
    case Obj(members) => DistinctKeys(members) && forall i :: 0 <= i < |members| ==> Valid(members[i].value)
    case _ => true
  }

  predicate DistinctKeys(members: seq<Member>) {
    forall i, j :: 0 <= i < j < |members| ==> members[i].key != members[j].key
  }

  /** Any text, literal or number is plain; arrays and objects are if their values are and no key comes twice. */
  lemma PlainByParts(text: Text, digits: seq<Scalar>, items: seq<Json>, members: seq<Member>)
    ensures Valid(Null) && Valid(Bool(true)) && Valid(Bool(false)) && Valid(Str(text))
    ensures |digits| > 0 && (forall i :: 0 <= i < |digits| ==> 48 <= digits[i] <= 57) ==>
              Valid(Num(digits)) && Valid(Num([45] + digits))
    ensures Valid(Arr(items)) <==> forall i :: 0 <= i < |items| ==> Valid(items[i])
    ensures Valid(Obj(members)) <==>
            && (forall i :: 0 <= i < |members| ==> Valid(members[i].value))
            && (forall i, j :: 0 <= i < |members| && 0 <= j < |members| && members[i].key == members[j].key ==> i == j)
  {
  }

  // ---------- Printing ----------

  predicate IsHigh(u: CodeUnit) {
    0xd800 <= u < 0xdc00
  }

  predicate IsLow(u: CodeUnit) {
    0xdc00 <= u < 0xe000
  }

  predicate StartsWithPair(text: Text) {
    |text| > 1 && IsHigh(text[0]) && IsLow(text[1])
  }

  /** The scalar a surrogate pair stands for. */
  function Combine(high: int, low: int): Scalar
    requires 0xd800 <= high < 0xdc00 <= low < 0xe000
  {
    0x1_0000 + (high - 0xd800) * 0x400 + (low - 0xdc00)
  }

  function HexDigit(n: nat): Scalar
    requires n < 16
  {
    if n < 10 then 48 + n else 97 + n - 10
  }

  function UnicodeEscape(u: CodeUnit): seq<Scalar> {
    [BACKSLASH, LETTER_U, HexDigit(u / 0x1000), HexDigit(u / 0x100 % 16), HexDigit(u / 16 % 16), HexDigit(u % 16)]
  }

  /** One code unit that is no half of a pair; a surrogate on its own is escaped. */
  function PrintUnit(u: CodeUnit): seq<Scalar> {
    if u == QUOTE || u == BACKSLASH then [BACKSLASH, u]
    else if u == 8 then [BACKSLASH, LETTER_B]
    else if u == 9 then [BACKSLASH, LETTER_T]
    else if u == 10 then [BACKSLASH, LETTER_N]
    else if u == 12 then [BACKSLASH, LETTER_F]
    else if u == 13 then [BACKSLASH, LETTER_R]
    else if u < 32 || IsHigh(u) || IsLow(u) then UnicodeEscape(u)
    else [u]
  }

  function PrintChars(text: Text): seq<Scalar> {
    if text == [] then []
    else if StartsWithPair(text) then
      [Combine(text[0], text[1])] + PrintChars(text[2..])
    else PrintUnit(text[0]) + PrintChars(text[1..])
  }

  function PrintText(text: Text): seq<Scalar> {
    [QUOTE] + PrintChars(text) + [QUOTE]
  }

  function Print(v: Json): seq<Scalar> {
    match v
    case Null => NULL_TEXT
    case Bool(b) => if b then TRUE_TEXT else FALSE_TEXT
    case Num(digits) => digits
    case Str(text) => PrintText(text)
    case Arr(items) => [ARRAY_OPEN] + PrintItems(items) + [ARRAY_CLOSE]
    case Obj(members) => [OBJECT_OPEN] + PrintMembers(members) + [OBJECT_CLOSE]
  }

  function PrintItems(items: seq<Json>): seq<Scalar> {
    if items == [] then []
    else Print(items[0]) + if |items| == 1 then [] else [COMMA] + PrintItems(items[1..])
  }

  function PrintMembers(members: seq<Member>): seq<Scalar> {
    if members == [] then []
    else
      PrintText(members[0].key) + [COLON] + Print(members[0].value) +
      if |members| == 1 then [] else [COMMA] + PrintMembers(members[1..])
  }

  /** The two-character escapes and the structural characters, by their letters. */
  lemma EscapesByLetters()
    ensures PrintUnit(34) == ['\\' as int, '"' as int] && PrintUnit(92) == ['\\' as int, '\\' as int]
    ensures PrintUnit(8) == ['\\' as int, 'b' as int] && PrintUnit(9) == ['\\' as int, 't' as int]
    ensures PrintUnit(10) == ['\\' as int, 'n' as int] && PrintUnit(12) == ['\\' as int, 'f' as int]
    ensures PrintUnit(13) == ['\\' as int, 'r' as int]
    ensures PrintUnit(31) == ['\\' as int, 'u' as int, '0' as int, '0' as int, '1' as int, 'f' as int]
    ensures PrintUnit(0xd9ab) == ['\\' as int, 'u' as int, 'd' as int, '9' as int, 'a' as int, 'b' as int]
    ensures PrintUnit(97) == ['a' as int] && PrintUnit(47) == ['/' as int] && PrintUnit(127) == [127]
  {
  }

  lemma ValuesByLetters()
    ensures Print(Null) == ['n' as int, 'u' as int, 'l' as int, 'l' as int]
    ensures Print(Bool(true)) == ['t' as int, 'r' as int, 'u' as int, 'e' as int]
    ensures Print(Bool(false)) == ['f' as int, 'a' as int, 'l' as int, 's' as int, 'e' as int]
    ensures Print(Str([])) == ['"' as int, '"' as int]
    ensures Print(Arr([])) == ['[' as int, ']' as int] && Print(Obj([])) == ['{' as int, '}' as int]
  {
  }

  lemma NestedByLetters()
    ensures Print(Arr([Str([]), Str([])])) ==
            ['[' as int, '"' as int, '"' as int, ',' as int, '"' as int, '"' as int, ']' as int]
    ensures Print(Obj([Member([], Str([]))])) ==
            ['{' as int, '"' as int, '"' as int, ':' as int, '"' as int, '"' as int, '}' as int]
  {
    var empty := Str([]);
    assert PrintText([]) == [QUOTE, QUOTE];
    assert PrintItems([empty]) == [QUOTE, QUOTE];
    assert [empty, empty][1..] == [empty];
    assert PrintItems([empty, empty]) == [QUOTE, QUOTE, COMMA, QUOTE, QUOTE];
    assert PrintMembers([Member([], empty)]) == [QUOTE, QUOTE, COLON, QUOTE, QUOTE];
  }

  // ---------- Reading: sections 2 to 7 of RFC 8259, without white space ----------

  function HexValue(c: Scalar): Option<nat> {
    if 48 <= c <= 57 then Some(c - 48) else if 97 <= c <= 102 then Some(c - 87) else None
  }

  function ReadHex(s: seq<Scalar>): Option<CodeUnit>
    requires |s| == 4
  {
    var a, b, c, d := HexValue(s[0]), HexValue(s[1]), HexValue(s[2]), HexValue(s[3]);
    if a.None? || b.None? || c.None? || d.None? then None
    else Some(a.value * 0x1000 + b.value * 0x100 + c.value * 16 + d.value)
  }

  function Unescape(c: Scalar): Option<CodeUnit> {
    if c == QUOTE || c == BACKSLASH || c == SOLIDUS then Some(c)
    else if c == LETTER_B then Some(8)
    else if c == LETTER_T then Some(9)
    else if c == LETTER_N then Some(10)
    else if c == LETTER_F then Some(12)
    else if c == LETTER_R then Some(13)
    else None
  }

  function UnitsOf(c: Scalar): Text {
    if c < 0x1_0000 then [c] else [0xd800 + (c - 0x1_0000) / 0x400, 0xdc00 + (c - 0x1_0000) % 0x400]
  }

  /** One character or escape; control characters are only read escaped. */
  function ReadChar(s: seq<Scalar>): (r: Option<(Text, seq<Scalar>)>)
    requires s != []
    ensures r.Some? ==> |r.value.1| < |s|
  {
    if s[0] < 32 then None
    else if s[0] != BACKSLASH then Some((UnitsOf(s[0]), s[1..]))
    else if |s| >= 6 && s[1] == LETTER_U then
      var unit := ReadHex(s[2..6]);
      if unit.None? then None else Some(([unit.value], s[6..]))
    else if |s| >= 2 then
      var unit := Unescape(s[1]);
      if unit.None? then None else Some(([unit.value], s[2..]))
    else None
  }

  /** From behind the opening quote. */
  function ReadChars(s: seq<Scalar>): (r: Option<(Text, seq<Scalar>)>)
    ensures r.Some? ==> |r.value.1| < |s|
    decreases |s|
  {
    if s == [] then None
    else if s[0] == QUOTE then Some(([], s[1..]))
    else
      var first := ReadChar(s);
      if first.None? then None
      else
        var more := ReadChars(first.value.1);
        if more.None? then None else Some((first.value.0 + more.value.0, more.value.1))
  }

  function NumberLength(s: seq<Scalar>): (n: nat)
    ensures n <= |s|
  {
    if s == [] || !IsNumberChar(s[0]) then 0 else 1 + NumberLength(s[1..])
  }

  function ReadValue(s: seq<Scalar>): (r: Option<(Json, seq<Scalar>)>)
    ensures r.Some? ==> |r.value.1| < |s|
    decreases |s|, 0
  {
    if s == [] then None
    else if NULL_TEXT <= s then Some((Null, s[4..]))
    else if TRUE_TEXT <= s then Some((Bool(true), s[4..]))
    else if FALSE_TEXT <= s then Some((Bool(false), s[5..]))
    else if s[0] == QUOTE then
      var text := ReadChars(s[1..]);
      if text.None? then None else Some((Str(text.value.0), text.value.1))
    else if s[0] == ARRAY_OPEN then
      if |s| > 1 && s[1] == ARRAY_CLOSE then Some((Arr([]), s[2..]))
      else
        var items := ReadItems(s[1..]);
        if items.None? then None else Some((Arr(items.value.0), items.value.1))
    else if s[0] == OBJECT_OPEN then
      if |s| > 1 && s[1] == OBJECT_CLOSE then Some((Obj([]), s[2..]))
      else
        var members := ReadMembers(s[1..]);
        if members.None? then None else Some((Obj(members.value.0), members.value.1))
    else
      var n := NumberLength(s);
      if n == 0 then None else Some((Num(s[..n]), s[n..]))
  }

  function ReadItems(s: seq<Scalar>): (r: Option<(seq<Json>, seq<Scalar>)>)
    ensures r.Some? ==> |r.value.1| < |s|
    decreases |s|, 1
  {
    var item := ReadValue(s);
    if item.None? || item.value.1 == [] then None
    else if item.value.1[0] == ARRAY_CLOSE then Some(([item.value.0], item.value.1[1..]))
    else if item.value.1[0] != COMMA then None
    else
      var more := ReadItems(item.value.1[1..]);
      if more.None? then None else Some(([item.value.0] + more.value.0, more.value.1))
  }

  function ReadMembers(s: seq<Scalar>): (r: Option<(seq<Member>, seq<Scalar>)>)
    ensures r.Some? ==> |r.value.1| < |s|
    decreases |s|, 1
  {
    if s == [] || s[0] != QUOTE then None
    else
      var key := ReadChars(s[1..]);
      if key.None? || key.value.1 == [] || key.value.1[0] != COLON then None
      else
        var value := ReadValue(key.value.1[1..]);
        if value.None? || value.value.1 == [] then None
        else
          var member, rest := Member(key.value.0, value.value.0), value.value.1;
          if rest[0] == OBJECT_CLOSE then Some(([member], rest[1..]))
          else if rest[0] != COMMA then None
          else
            var more := ReadMembers(rest[1..]);
            if more.None? then None else Some(([member] + more.value.0, more.value.1))
  }

  // ---------- Printing and reading ----------

  lemma DigitReadsBack(n: nat)
    requires n < 16
    ensures HexValue(HexDigit(n)) == Some(n)
  {
  }

  lemma Nibbles(u: CodeUnit)
    ensures u == u / 0x1000 * 0x1000 + u / 0x100 % 16 * 0x100 + u / 16 % 16 * 16 + u % 16
  {
    assert u / 0x100 == u / 16 / 16;
    assert u / 0x1000 == u / 0x100 / 16;
  }

  lemma HexReadsBack(u: CodeUnit)
    ensures ReadHex(UnicodeEscape(u)[2..6]) == Some(u)
  {
    hide HexDigit, HexValue;
    DigitReadsBack(u / 0x1000);
    DigitReadsBack(u / 0x100 % 16);
    DigitReadsBack(u / 16 % 16);
    DigitReadsBack(u % 16);
    Nibbles(u);
  }

  lemma UnitReadsBack(u: CodeUnit, tail: seq<Scalar>)
    ensures PrintUnit(u) != [] && PrintUnit(u)[0] != QUOTE
    ensures ReadChar(PrintUnit(u) + tail) == Some(([u], tail))
  {
    hide UnicodeEscape, ReadHex;
    EscapeReadsBack(u, tail);
    var printed := PrintUnit(u);
    assert (printed + tail)[|printed|..] == tail;
  }

  lemma EscapeReadsBack(u: CodeUnit, tail: seq<Scalar>)
    ensures UnicodeEscape(u) != [] && UnicodeEscape(u)[0] == BACKSLASH
    ensures ReadChar(UnicodeEscape(u) + tail) == Some(([u], tail))
  {
    hide HexDigit, ReadHex, Unescape;
    HexReadsBack(u);
    var printed := UnicodeEscape(u);
    assert (printed + tail)[2..6] == printed[2..6] && (printed + tail)[6..] == tail;
  }

  lemma PairReadsBack(high: CodeUnit, low: CodeUnit, tail: seq<Scalar>)
    requires IsHigh(high) && IsLow(low)
    ensures ReadChar([Combine(high, low)] + tail) == Some(([high, low], tail))
  {
  }

  lemma ReadCharsStep(piece: seq<Scalar>, units: Text, rest: seq<Scalar>, text: Text, tail: seq<Scalar>)
    requires piece != [] && piece[0] != QUOTE
    requires ReadChar(piece + rest) == Some((units, rest)) && ReadChars(rest) == Some((text, tail))
    ensures ReadChars(piece + rest) == Some((units + text, tail))
  {
    hide ReadChar;
  }

  lemma PrintCharsSteps(text: Text)
    requires text != []
    ensures PrintChars(text) ==
            if StartsWithPair(text) then [Combine(text[0], text[1])] + PrintChars(text[2..])
            else PrintUnit(text[0]) + PrintChars(text[1..])
  {
  }

  lemma NoChars(tail: seq<Scalar>)
    ensures ReadChars(PrintChars([]) + ([QUOTE] + tail)) == Some(([], tail))
  {
    assert PrintChars([]) + ([QUOTE] + tail) == [QUOTE] + tail;
  }

  lemma {:induction false} CharsReadBack(text: Text, tail: seq<Scalar>)
    ensures ReadChars(PrintChars(text) + ([QUOTE] + tail)) == Some((text, tail))
  {
    hide PrintChars, PrintUnit, ReadChar, ReadChars, Combine;
    if text == [] {
      NoChars(tail);
    } else if StartsWithPair(text) {
      PrintCharsSteps(text);
      var piece, rest := [Combine(text[0], text[1])], PrintChars(text[2..]) + ([QUOTE] + tail);
      CharsReadBack(text[2..], tail);
      PairReadsBack(text[0], text[1], rest);
      CombinedIsNoQuote(text[0], text[1]);
      assert text[..2] == [text[0], text[1]];
      ReadCharsStep(piece, text[..2], rest, text[2..], tail);
      assert PrintChars(text) + ([QUOTE] + tail) == piece + rest;
      assert text[..2] + text[2..] == text;
    } else {
      PrintCharsSteps(text);
      var piece, rest := PrintUnit(text[0]), PrintChars(text[1..]) + ([QUOTE] + tail);
      CharsReadBack(text[1..], tail);
      UnitReadsBack(text[0], rest);
      assert text[..1] == [text[0]];
      ReadCharsStep(piece, text[..1], rest, text[1..], tail);
      assert PrintChars(text) + ([QUOTE] + tail) == piece + rest;
      assert text[..1] + text[1..] == text;
    }
  }

  lemma CombinedIsNoQuote(high: CodeUnit, low: CodeUnit)
    requires IsHigh(high) && IsLow(low)
    ensures Combine(high, low) != QUOTE
  {
  }

  predicate EndsNumber(tail: seq<Scalar>) {
    tail == [] || !IsNumberChar(tail[0])
  }

  lemma {:induction false} NumberReadsBack(digits: seq<Scalar>, tail: seq<Scalar>)
    requires (forall i :: 0 <= i < |digits| ==> IsNumberChar(digits[i])) && EndsNumber(tail)
    ensures NumberLength(digits + tail) == |digits|
  {
    if digits == [] {
      assert digits + tail == tail;
    } else {
      NumberReadsBack(digits[1..], tail);
      assert (digits + tail)[1..] == digits[1..] + tail;
    }
  }

  lemma LiteralReadsBack(v: Json, tail: seq<Scalar>)
    requires v.Null? || v.Bool?
    ensures ReadValue(Print(v) + tail) == Some((v, tail))
  {
    var s := Print(v) + tail;
    assert s[..|Print(v)|] == Print(v) && s[|Print(v)|..] == tail;
    assert s[0] == Print(v)[0];
  }

  lemma NumberValueReadsBack(digits: seq<Scalar>, tail: seq<Scalar>)
    requires IsNumberText(digits) && EndsNumber(tail)
    ensures ReadValue(Print(Num(digits)) + tail) == Some((Num(digits), tail))
  {
    hide NumberLength, ReadChars, ReadItems, ReadMembers;
    NumberReadsBack(digits, tail);
    var s := digits + tail;
    assert IsNumberChar(s[0]);
    assert s[..|digits|] == digits && s[|digits|..] == tail;
  }

  lemma TextValueReadsBack(text: Text, tail: seq<Scalar>)
    ensures ReadValue(Print(Str(text)) + tail) == Some((Str(text), tail))
  {
    hide ReadValue, ReadChars, PrintChars;
    var s := Print(Str(text)) + tail;
    assert s == [QUOTE] + (PrintChars(text) + ([QUOTE] + tail));
    assert s[1..] == PrintChars(text) + ([QUOTE] + tail);
    CharsReadBack(text, tail);
    ReadsText(s);
  }

  lemma ReadsText(s: seq<Scalar>)
    requires s != [] && s[0] == QUOTE
    ensures ReadValue(s) == match ReadChars(s[1..])
                            case Some((text, rest)) => Some((Str(text), rest))
                            case None => None
  {
    hide NumberLength, ReadChars, ReadItems, ReadMembers;
    assert NULL_TEXT[0] != QUOTE && TRUE_TEXT[0] != QUOTE && FALSE_TEXT[0] != QUOTE;
  }

  /** What a printed value can start with. */
  lemma PrintStarts(v: Json)
    requires Valid(v)
    ensures Print(v) != []
    ensures Print(v)[0] !in {COMMA, ARRAY_CLOSE, OBJECT_CLOSE}
  {
    hide PrintItems, PrintMembers, PrintChars;
    match v
    case Null =>
    case Bool(_) =>
    case Num(digits) => assert IsNumberChar(digits[0]);
    case Str(_) =>
    case Arr(items) => assert Print(v) == [ARRAY_OPEN] + (PrintItems(items) + [ARRAY_CLOSE]);
    case Obj(members) => assert Print(v) == [OBJECT_OPEN] + (PrintMembers(members) + [OBJECT_CLOSE]);
  }

  lemma EmptyReadBack(tail: seq<Scalar>)
    ensures ReadValue(Print(Arr([])) + tail) == Some((Arr([]), tail))
    ensures ReadValue(Print(Obj([])) + tail) == Some((Obj([]), tail))
  {
    hide NumberLength, ReadChars, ReadItems, ReadMembers;
    var a: seq<Scalar> := [ARRAY_OPEN, ARRAY_CLOSE] + tail;
    var o: seq<Scalar> := [OBJECT_OPEN, OBJECT_CLOSE] + tail;
    assert Print(Arr([])) + tail == a;
    assert Print(Obj([])) + tail == o;
    assert a[0] == ARRAY_OPEN && a[1] == ARRAY_CLOSE && a[2..] == tail;
    assert o[0] == OBJECT_OPEN && o[1] == OBJECT_CLOSE && o[2..] == tail;
  }

  lemma OpenedArray(s: seq<Scalar>, items: seq<Json>, tail: seq<Scalar>)
    requires s != [] && s[0] != ARRAY_CLOSE && ReadItems(s) == Some((items, tail))
    ensures ReadValue([ARRAY_OPEN] + s) == Some((Arr(items), tail))
  {
    hide NumberLength, ReadChars, ReadItems, ReadMembers;
    assert ([ARRAY_OPEN] + s)[0] == ARRAY_OPEN && ([ARRAY_OPEN] + s)[1..] == s;
  }

  lemma OpenedObject(s: seq<Scalar>, members: seq<Member>, tail: seq<Scalar>)
    requires s != [] && s[0] != OBJECT_CLOSE && ReadMembers(s) == Some((members, tail))
    ensures ReadValue([OBJECT_OPEN] + s) == Some((Obj(members), tail))
  {
    hide NumberLength, ReadChars, ReadItems, ReadMembers;
    assert ([OBJECT_OPEN] + s)[0] == OBJECT_OPEN && ([OBJECT_OPEN] + s)[1..] == s;
  }

  /** A printed value followed by anything that could not go on a number reads back, and the rest is left over. */
  lemma {:induction false} ValueReadsBack(v: Json, tail: seq<Scalar>)
    requires Valid(v) && EndsNumber(tail)
    ensures ReadValue(Print(v) + tail) == Some((v, tail))
    decreases v, 1
  {
    hide ReadValue, ReadItems, ReadMembers, PrintItems, PrintMembers, PrintChars, EndsNumber, IsNumberText;
    match v
    case Null => LiteralReadsBack(v, tail);
    case Bool(_) => LiteralReadsBack(v, tail);
    case Num(digits) => NumberValueReadsBack(digits, tail);
    case Str(text) => TextValueReadsBack(text, tail);
    case Arr(items) =>
      if items == [] {
        EmptyReadBack(tail);
      } else {
        var s := PrintItems(items) + ([ARRAY_CLOSE] + tail);
        ItemsReadBack(items, tail);
        assert Print(v) + tail == [ARRAY_OPEN] + s;
        OpenedArray(s, items, tail);
      }
    case Obj(members) =>
      if members == [] {
        EmptyReadBack(tail);
      } else {
        var s := PrintMembers(members) + ([OBJECT_CLOSE] + tail);
        MembersReadBack(members, tail);
        assert Print(v) + tail == [OBJECT_OPEN] + s;
        OpenedObject(s, members, tail);
      }
  }

  lemma ItemsStep(first: seq<Scalar>, item: Json, rest: seq<Scalar>)
    requires rest != [] && ReadValue(first + rest) == Some((item, rest))
    ensures rest[0] == ARRAY_CLOSE ==> ReadItems(first + rest) == Some(([item], rest[1..]))
    ensures rest[0] == COMMA && ReadItems(rest[1..]).Some? ==>
              ReadItems(first + rest) ==
              Some(([item] + ReadItems(rest[1..]).value.0, ReadItems(rest[1..]).value.1))
  {
    hide ReadValue;
  }

  lemma PunctuationEndsNumber(c: Scalar, tail: seq<Scalar>)
    requires c in {COMMA, ARRAY_CLOSE, OBJECT_CLOSE}
    ensures EndsNumber([c] + tail)
  {
  }

  lemma {:induction false} ItemsReadBack(items: seq<Json>, tail: seq<Scalar>)
    requires items != [] && forall i :: 0 <= i < |items| ==> Valid(items[i])
    ensures var s := PrintItems(items) + ([ARRAY_CLOSE] + tail);
            s != [] && s[0] != ARRAY_CLOSE && ReadItems(s) == Some((items, tail))
    decreases items, 0
  {
    hide ReadValue, ReadItems, Print, EndsNumber, Valid;
    PrintStarts(items[0]);
    var first := Print(items[0]);
    if |items| == 1 {
      var rest := [ARRAY_CLOSE] + tail;
      PunctuationEndsNumber(ARRAY_CLOSE, tail);
      ValueReadsBack(items[0], rest);
      ItemsStep(first, items[0], rest);
      assert PrintItems(items) + rest == first + rest;
      assert [items[0]] == items;
    } else {
      var more := PrintItems(items[1..]) + ([ARRAY_CLOSE] + tail);
      var rest := [COMMA] + more;
      PunctuationEndsNumber(COMMA, more);
      ValueReadsBack(items[0], rest);
      ItemsReadBack(items[1..], tail);
      assert rest[1..] == more;
      ItemsStep(first, items[0], rest);
      assert PrintItems(items) + ([ARRAY_CLOSE] + tail) == first + rest;
      assert [items[0]] + items[1..] == items;
    }
  }

  lemma MembersStep(member: Member, first: seq<Scalar>, rest: seq<Scalar>)
    requires rest != [] && ReadValue(first + rest) == Some((member.value, rest))
    ensures var s := PrintText(member.key) + ([COLON] + (first + rest));
            && s[0] == QUOTE
            && (rest[0] == OBJECT_CLOSE ==> ReadMembers(s) == Some(([member], rest[1..])))
            && (rest[0] == COMMA && ReadMembers(rest[1..]).Some? ==>
                  ReadMembers(s) ==
                  Some(([member] + ReadMembers(rest[1..]).value.0, ReadMembers(rest[1..]).value.1)))
  {
    hide ReadValue, ReadChars, PrintChars;
    var after := [COLON] + (first + rest);
    var s := PrintText(member.key) + after;
    CharsReadBack(member.key, after);
    assert s == [QUOTE] + (PrintChars(member.key) + ([QUOTE] + after));
    assert s[1..] == PrintChars(member.key) + ([QUOTE] + after);
    assert after[1..] == first + rest;
    assert member == Member(member.key, member.value);
  }

  lemma ConcatRegroups(a: seq<Scalar>, b: seq<Scalar>, c: seq<Scalar>)
    ensures a + b + c == a + (b + c)
  {
  }

  /** All but the first of four parts, read from the right. */
  lemma Regroup(a: seq<Scalar>, b: seq<Scalar>, c: seq<Scalar>, d: seq<Scalar>, e: seq<Scalar>)
    ensures a + b + c + d + e == a + (b + (c + (d + e)))
  {
    ConcatRegroups(a + b + c, d, e);
    ConcatRegroups(a + b, c, d + e);
    ConcatRegroups(a, b, c + (d + e));
  }

  lemma NothingAdded(end: seq<Scalar>)
    ensures [] + end == end
  {
  }

  lemma PrintMembersUnfolds(members: seq<Member>)
    requires members != []
    ensures PrintMembers(members) ==
            PrintText(members[0].key) + [COLON] + Print(members[0].value) +
            if |members| == 1 then [] else [COMMA] + PrintMembers(members[1..])
  {
    hide Print, PrintText;
  }

  lemma PrintMembersSteps(members: seq<Member>, end: seq<Scalar>)
    requires members != []
    ensures PrintMembers(members) + end ==
            PrintText(members[0].key) + ([COLON] + (Print(members[0].value) +
              if |members| == 1 then end else [COMMA] + (PrintMembers(members[1..]) + end)))
  {
    hide Print, PrintText, PrintMembers;
    PrintMembersUnfolds(members);
    var more := if |members| == 1 then [] else [COMMA] + PrintMembers(members[1..]);
    Regroup(PrintText(members[0].key), [COLON], Print(members[0].value), more, end);
    if |members| == 1 {
      NothingAdded(end);
    } else {
      ConcatRegroups([COMMA], PrintMembers(members[1..]), end);
    }
  }

  lemma {:induction false} MembersReadBack(members: seq<Member>, tail: seq<Scalar>)
    requires members != [] && forall i :: 0 <= i < |members| ==> Valid(members[i].value)
    ensures var s := PrintMembers(members) + ([OBJECT_CLOSE] + tail);
            s != [] && s[0] == QUOTE && ReadMembers(s) == Some((members, tail))
    decreases members, 0
  {
    hide ReadValue, ReadMembers, Print, PrintText, PrintMembers, EndsNumber, Valid;
    var member, first := members[0], Print(members[0].value);
    var end := [OBJECT_CLOSE] + tail;
    PrintMembersSteps(members, end);
    if |members| == 1 {
      PunctuationEndsNumber(OBJECT_CLOSE, tail);
      ValueReadsBack(member.value, end);
      MembersStep(member, first, end);
      assert [member] == members;
    } else {
      var more := PrintMembers(members[1..]) + end;
      var rest := [COMMA] + more;
      PunctuationEndsNumber(COMMA, more);
      ValueReadsBack(member.value, rest);
      MembersReadBack(members[1..], tail);
      assert rest[1..] == more;
      MembersStep(member, first, rest);
      assert [member] + members[1..] == members;
    }
  }

  /** Every plain JSON value reads back from its printed text, so different values print differently. */
  lemma PrintReadsBack(v: Json)
    requires Valid(v)
    ensures ReadValue(Print(v)) == Some((v, []))
  {
    hide ReadValue, Print;
    ValueReadsBack(v, []);
    assert Print(v) + [] == Print(v);
  }
}
