/** Bounding the size of a SQL request before its JSON parameters are serialised. */
module JsonSize {
  import opened Bytes
  import opened Wrappers
  import JsonText
  import opened Utf8

  const MAX_SQL_STATEMENT_BYTES := 1024 * 1024
  const MAX_SQL_PARAMETERS := 999
  const MAX_SQL_PARAMETER_BYTES := 1024 * 1024
  const MAX_SQL_REQUEST_BYTES := 10 * 1024 * 1024
  const MAX_SQL_PARAMETER_NESTING := 64
  const USIZE_MAX := 0xffff_ffff_ffff_ffff
  const I64_MAX := 0x7fff_ffff_ffff_ffff

  /** Integers of either sign, and other numbers by the text they print as. */
  datatype Number = Unsigned(n: nat) | Negative(k: nat) | Float(text: seq<Scalar>)

  /** A JSON value; strings are sequences of scalar values, which take their UTF-8 bytes. */
  datatype Json =
    | Null
    | Bool(value: bool)
    | Num(number: Number)
    | Str(text: seq<Scalar>)
    | Arr(items: seq<Json>)
    | Obj(members: seq<Member>)

  datatype Member = Member(key: seq<Scalar>, value: Json)

  function ByteLength(text: seq<Scalar>): nat {
    |Utf8.Encode(text)|
  }

  // ---------- Serialising: the printed text of the value, in UTF-8 ----------

  function Digits(n: nat): (digits: seq<Scalar>)
    ensures digits != []
  {
    if n < 10 then [48 + n] else Digits(n / 10) + [48 + n % 10]
  }

  function PrintNumber(number: Number): seq<Scalar> {
    match number
    case Unsigned(n) => Digits(n)
    case Negative(k) => [45] + Digits(k)
    case Float(text) => text
  }

  /** The UTF-16 code units of a text. */
  function Units(text: seq<Scalar>): JsonText.Text {
    if text == [] then [] else JsonText.UnitsOf(text[0]) + Units(text[1..])
  }

  function Printed(value: Json): JsonText.Json {
    match value
    case Null => JsonText.Null
    case Bool(b) => JsonText.Bool(b)
    case Num(number) => JsonText.Num(PrintNumber(number))
    case Str(text) => JsonText.Str(Units(text))
    case Arr(items) =>
      JsonText.Arr(seq(|items|, i requires 0 <= i < |items| => Printed(items[i])))
    case Obj(members) =>
      JsonText.Obj(seq(|members|, i requires 0 <= i < |members| =>
        JsonText.Member(Units(members[i].key), Printed(members[i].value))))
  }

  function Serialize(value: Json): Bytes {
    Utf8.Encode(JsonText.Print(Printed(value)))
  }

  lemma {:induction false} EncodeConcat(a: seq<Scalar>, b: seq<Scalar>)
    ensures Utf8.Encode(a + b) == Utf8.Encode(a) + Utf8.Encode(b)
  {
    hide Utf8.EncodeScalar;
    if a == [] {
      assert a + b == b;
    } else {
      EncodeConcat(a[1..], b);
      assert (a + b)[1..] == a[1..] + b && (a + b)[0] == a[0];
      assert EncodeScalar(a[0]) + (Encode(a[1..]) + Encode(b)) == EncodeScalar(a[0]) + Encode(a[1..]) + Encode(b);
    }
  }

  lemma EncodeOne(c: Scalar)
    ensures Utf8.Encode([c]) == Utf8.EncodeScalar(c)
  {
    assert Utf8.Encode([c][1..]) == [];
  }

  /** What is printed of one scalar value: itself if it is no code unit of its own, else as its code unit is. */
  function PrintScalar(c: Scalar): seq<Scalar> {
    if c < 0x1_0000 then JsonText.PrintUnit(c) else [c]
  }

  lemma PrintCharsByScalar(text: seq<Scalar>)
    requires text != []
    ensures JsonText.PrintChars(Units(text)) == PrintScalar(text[0]) + JsonText.PrintChars(Units(text[1..]))
  {
    var c, rest := text[0], Units(text[1..]);
    var units := JsonText.UnitsOf(c) + rest;
    if c < 0x1_0000 {
      assert units[0] == c && units[1..] == rest;
    } else {
      PairOfScalar(c);
      assert units[2..] == rest;
    }
  }

  lemma PairOfScalar(c: Scalar)
    requires c >= 0x1_0000
    ensures var units := JsonText.UnitsOf(c);
            && |units| == 2 && JsonText.IsHigh(units[0]) && JsonText.IsLow(units[1])
            && JsonText.Combine(units[0], units[1]) == c
  {
    var d: int := c - 0x1_0000;
    assert d == d / 0x400 * 0x400 + d % 0x400 && d / 0x400 < 0x400;
  }

  /** One scalar value takes up to six bytes for each of its own, and at least as many as its own. */
  lemma ScalarFits(c: Scalar)
    ensures ByteLength([c]) <= |Utf8.Encode(PrintScalar(c))| <= 6 * ByteLength([c])
  {
    EncodeOne(c);
    if c < 0x1_0000 {
      if c == 34 || c == 92 || c < 32 {
        AsciiTakesOneByteEach(JsonText.PrintUnit(c));
      }
    }
  }

  lemma {:induction false} AsciiTakesOneByteEach(text: seq<Scalar>)
    requires forall i :: 0 <= i < |text| ==> text[i] < 128
    ensures |Utf8.Encode(text)| == |text|
  {
    if text != [] {
      AsciiTakesOneByteEach(text[1..]);
    }
  }

  // ---------- The bound: what the estimate comes to without limits ----------

  function Size(value: Json): nat {
    match value
    case Null => 4
    case Bool(b) => if b then 4 else 5
    case Num(number) => ByteLength(PrintNumber(number))
    case Str(text) => 6 * ByteLength(text) + 2
    case Arr(items) => 2 + ItemsSize(items)
    case Obj(members) => 2 + MembersSize(members)
  }

  function ItemsSize(items: seq<Json>): nat {
    if items == [] then 0
    else
      var n := |items| - 1;
      ItemsSize(items[..n]) + 1 + Size(items[n])
  }

  function MembersSize(members: seq<Member>): nat {
    if members == [] then 0
    else
      var n := |members| - 1;
      MembersSize(members[..n]) + 6 * ByteLength(members[n].key) + Size(members[n].value) + 4
  }

  function Max(a: nat, b: nat): nat {
    if a < b then b else a
  }

  /** How many arrays and objects lie around the innermost value. */
  function Nesting(value: Json): nat {
    match value
    case Arr(items) => if items == [] then 0 else 1 + ItemsNesting(items)
    case Obj(members) => if members == [] then 0 else 1 + MembersNesting(members)
    case _ => 0
  }

  function ItemsNesting(items: seq<Json>): nat {
    if items == [] then 0
    else
      var n := |items| - 1;
      Max(ItemsNesting(items[..n]), Nesting(items[n]))
  }

  function MembersNesting(members: seq<Member>): nat {
    if members == [] then 0
    else
      var n := |members| - 1;
      Max(MembersNesting(members[..n]), Nesting(members[n].value))
  }

  /** Small enough, and not too deep below the given depth. */
  predicate Fits(value: Json, depth: nat) {
    Size(value) <= MAX_SQL_PARAMETER_BYTES && depth + Nesting(value) <= MAX_SQL_PARAMETER_NESTING
  }

  /** A text printed between quotes takes up to six bytes for each of its own, and at least as many as its own. */
  lemma {:induction false} EscapesFit(text: seq<Scalar>)
    ensures ByteLength(text) <= |Utf8.Encode(JsonText.PrintChars(Units(text)))| <= 6 * ByteLength(text)
  {
    hide PrintScalar, JsonText.PrintChars, EncodeScalar;
    if text == [] {
      NothingPrinted();
    } else {
      EscapesFit(text[1..]);
      PrintCharsByScalar(text);
      ScalarFits(text[0]);
      EncodeConcat(PrintScalar(text[0]), JsonText.PrintChars(Units(text[1..])));
      EncodeConcat([text[0]], text[1..]);
      assert [text[0]] + text[1..] == text;
    }
  }

  lemma NothingPrinted()
    ensures JsonText.PrintChars(Units([])) == []
  {
  }

  /** The quotes take a byte each. */
  lemma TextFits(text: seq<Scalar>)
    ensures ByteLength(text) + 2 <= |Utf8.Encode(JsonText.PrintText(Units(text)))| <= 6 * ByteLength(text) + 2
  {
    EscapesFit(text);
    var printed := JsonText.PrintChars(Units(text));
    EncodeConcat([JsonText.QUOTE] + printed, [JsonText.QUOTE]);
    EncodeConcat([JsonText.QUOTE], printed);
    EncodeOne(JsonText.QUOTE);
  }

  // ---------- What a value takes, part by part ----------

  lemma {:induction false} PrintItemsAppend(items: seq<JsonText.Json>, last: JsonText.Json)
    ensures JsonText.PrintItems(items + [last]) ==
            JsonText.PrintItems(items) + (if items == [] then [] else [JsonText.COMMA]) + JsonText.Print(last)
  {
    hide JsonText.Print;
    if items == [] {
      assert items + [last] == [last];
    } else {
      hide JsonText.PrintItems;
      PrintItemsAppend(items[1..], last);
      assert (items + [last])[1..] == items[1..] + [last];
      PrintItemsStep(items);
      PrintItemsStep(items + [last]);
      Reassociate(items[1..] == [], JsonText.Print(items[0]), JsonText.PrintItems(items[1..]), JsonText.Print(last));
    }
  }

  lemma PrintItemsStep(items: seq<JsonText.Json>)
    requires items != []
    ensures JsonText.PrintItems([]) == []
    ensures JsonText.PrintItems(items) ==
            JsonText.Print(items[0])
            + if items[1..] == [] then [] else [JsonText.COMMA] + JsonText.PrintItems(items[1..])
  {
    hide JsonText.Print;
  }

  lemma Reassociate(alone: bool, a: seq<Scalar>, b: seq<Scalar>, c: seq<Scalar>)
    requires alone ==> b == []
    ensures var comma: seq<Scalar> := [JsonText.COMMA];
            a + (comma + (b + (if alone then [] else comma) + c)) ==
            a + (if alone then [] else comma + b) + comma + c
  {
  }

  function PrintMember(m: JsonText.Member): seq<Scalar> {
    JsonText.PrintText(m.key) + [JsonText.COLON] + JsonText.Print(m.value)
  }

  lemma {:induction false} PrintMembersAppend(members: seq<JsonText.Member>, last: JsonText.Member)
    ensures JsonText.PrintMembers(members + [last]) ==
            JsonText.PrintMembers(members) + (if members == [] then [] else [JsonText.COMMA]) + PrintMember(last)
  {
    hide JsonText.Print, JsonText.PrintText, PrintMember;
    if members == [] {
      assert members + [last] == [last];
      OneMember(last);
    } else {
      hide JsonText.PrintMembers;
      PrintMembersAppend(members[1..], last);
      assert (members + [last])[1..] == members[1..] + [last];
      PrintMembersStep(members);
      PrintMembersStep(members + [last]);
      Reassociate(members[1..] == [], PrintMember(members[0]), JsonText.PrintMembers(members[1..]), PrintMember(last));
    }
  }

  lemma OneMember(m: JsonText.Member)
    ensures JsonText.PrintMembers([]) == [] && JsonText.PrintMembers([m]) == PrintMember(m)
  {
    hide JsonText.Print, JsonText.PrintText;
  }

  lemma PrintMembersStep(members: seq<JsonText.Member>)
    requires members != []
    ensures JsonText.PrintMembers([]) == []
    ensures JsonText.PrintMembers(members) ==
            PrintMember(members[0])
            + if members[1..] == [] then [] else [JsonText.COMMA] + JsonText.PrintMembers(members[1..])
  {
    hide JsonText.Print, JsonText.PrintText;
  }

  function PrintedItems(items: seq<Json>): (r: seq<JsonText.Json>)
    ensures |r| == |items| && forall i :: 0 <= i < |items| ==> r[i] == Printed(items[i])
  {
    seq(|items|, i requires 0 <= i < |items| => Printed(items[i]))
  }

  function PrintedMembers(members: seq<Member>): (r: seq<JsonText.Member>)
    ensures |r| == |members|
    ensures forall i :: 0 <= i < |members| ==>
              r[i] == JsonText.Member(Units(members[i].key), Printed(members[i].value))
  {
    seq(|members|, i requires 0 <= i < |members| =>
      JsonText.Member(Units(members[i].key), Printed(members[i].value)))
  }

  /** The bytes of the items with the commas between them. */
  function ItemsLength(items: seq<Json>): nat {
    |Utf8.Encode(JsonText.PrintItems(PrintedItems(items)))|
  }

  function MembersLength(members: seq<Member>): nat {
    |Utf8.Encode(JsonText.PrintMembers(PrintedMembers(members)))|
  }

  lemma ItemsLengthNext(items: seq<Json>)
    ensures ItemsLength([]) == 0
    ensures items != [] ==>
              var n := |items| - 1;
              ItemsLength(items) == ItemsLength(items[..n]) + (if n > 0 then 1 else 0) + |Serialize(items[n])|
  {
    hide JsonText.Print, Printed, JsonText.PrintItems;
    NoItems();
    if items != [] {
      var n := |items| - 1;
      var before := PrintedItems(items[..n]);
      assert PrintedItems(items) == before + [Printed(items[n])];
      PrintItemsAppend(before, Printed(items[n]));
      var comma := if before == [] then [] else [JsonText.COMMA];
      EncodeConcat(JsonText.PrintItems(before) + comma, JsonText.Print(Printed(items[n])));
      EncodeConcat(JsonText.PrintItems(before), comma);
      EncodeOne(JsonText.COMMA);
    }
  }

  lemma NoItems()
    ensures JsonText.PrintItems([]) == [] && JsonText.PrintMembers([]) == []
    ensures PrintedItems([]) == [] && PrintedMembers([]) == []
  {
  }

  lemma MembersLengthNext(members: seq<Member>)
    ensures MembersLength([]) == 0
    ensures members != [] ==>
              var n := |members| - 1;
              MembersLength(members) ==
              MembersLength(members[..n]) + (if n > 0 then 1 else 0)
              + |Utf8.Encode(JsonText.PrintText(Units(members[n].key)))| + 1 + |Serialize(members[n].value)|
  {
    hide JsonText.Print, Printed, JsonText.PrintMembers, JsonText.PrintText, Units;
    NoItems();
    if members != [] {
      var n := |members| - 1;
      var before := PrintedMembers(members[..n]);
      var last := JsonText.Member(Units(members[n].key), Printed(members[n].value));
      assert PrintedMembers(members) == before + [last];
      PrintMembersAppend(before, last);
      var comma := if before == [] then [] else [JsonText.COMMA];
      EncodeConcat(JsonText.PrintMembers(before) + comma, PrintMember(last));
      EncodeConcat(JsonText.PrintMembers(before), comma);
      EncodeConcat(JsonText.PrintText(last.key) + [JsonText.COLON], JsonText.Print(last.value));
      EncodeConcat(JsonText.PrintText(last.key), [JsonText.COLON]);
      EncodeOne(JsonText.COMMA);
      EncodeOne(JsonText.COLON);
    }
  }

  /** An array or object takes its brackets, a byte each, and what is between them. */
  lemma BracketsTakeTwo(items: seq<Json>, members: seq<Member>)
    ensures |Serialize(Arr(items))| == ItemsLength(items) + 2
    ensures |Serialize(Obj(members))| == MembersLength(members) + 2
  {
    hide JsonText.PrintItems, JsonText.PrintMembers;
    var inside, others := JsonText.PrintItems(PrintedItems(items)), JsonText.PrintMembers(PrintedMembers(members));
    assert Printed(Arr(items)) == JsonText.Arr(PrintedItems(items));
    assert Printed(Obj(members)) == JsonText.Obj(PrintedMembers(members));
    EncodeConcat([JsonText.ARRAY_OPEN] + inside, [JsonText.ARRAY_CLOSE]);
    EncodeConcat([JsonText.ARRAY_OPEN], inside);
    EncodeConcat([JsonText.OBJECT_OPEN] + others, [JsonText.OBJECT_CLOSE]);
    EncodeConcat([JsonText.OBJECT_OPEN], others);
    EncodeOne(JsonText.ARRAY_OPEN);
    EncodeOne(JsonText.ARRAY_CLOSE);
    EncodeOne(JsonText.OBJECT_OPEN);
    EncodeOne(JsonText.OBJECT_CLOSE);
  }

  lemma LiteralsTakeTheirLetters()
    ensures |Serialize(Null)| == 4 && |Serialize(Bool(true))| == 4 && |Serialize(Bool(false))| == 5
  {
    AsciiTakesOneByteEach(JsonText.NULL_TEXT);
    AsciiTakesOneByteEach(JsonText.TRUE_TEXT);
    AsciiTakesOneByteEach(JsonText.FALSE_TEXT);
  }

  /** Serialised, a value takes no more bytes than its size says. */
  lemma {:induction false} SerializedFits(value: Json)
    ensures |Serialize(value)| <= Size(value)
    decreases value
  {
    hide JsonText.PrintText, Encode;
    match value
    case Null => LiteralsTakeTheirLetters();
    case Bool(_) => LiteralsTakeTheirLetters();
    case Num(_) =>
    case Str(text) => TextFits(text);
    case Arr(items) =>
      BracketsTakeTwo(items, []);
      ItemsFit(items);
    case Obj(members) =>
      BracketsTakeTwo([], members);
      MembersFit(members);
  }

  lemma {:induction false} ItemsFit(items: seq<Json>)
    ensures ItemsLength(items) <= ItemsSize(items)
    decreases items
  {
    hide ItemsLength, Serialize, Size;
    ItemsLengthNext(items);
    if items != [] {
      ItemsFit(items[..|items| - 1]);
      SerializedFits(items[|items| - 1]);
    }
  }

  lemma {:induction false} MembersFit(members: seq<Member>)
    ensures MembersLength(members) <= MembersSize(members)
    decreases members
  {
    hide MembersLength, Serialize, Size;
    MembersLengthNext(members);
    if members != [] {
      var n := |members| - 1;
      MembersFit(members[..n]);
      TextFits(members[n].key);
      SerializedFits(members[n].value);
    }
  }

  // ---------- The estimate ----------

  function SaturatingAdd(a: nat, b: nat): nat {
    if a + b > USIZE_MAX then USIZE_MAX else a + b
  }

  function SaturatingMul(a: nat, b: nat): nat {
    if a * b > USIZE_MAX then USIZE_MAX else a * b
  }

  lemma {:induction false} ItemsGrow(items: seq<Json>, n: nat)
    requires n <= |items|
    ensures ItemsSize(items[..n]) <= ItemsSize(items)
    ensures ItemsNesting(items[..n]) <= ItemsNesting(items)
    decreases |items|
  {
    if n < |items| {
      var shorter := items[..|items| - 1];
      ItemsGrow(shorter, n);
      assert shorter[..n] == items[..n];
    } else {
      assert items[..n] == items;
    }
  }

  lemma {:induction false} MembersGrow(members: seq<Member>, n: nat)
    requires n <= |members|
    ensures MembersSize(members[..n]) <= MembersSize(members)
    ensures MembersNesting(members[..n]) <= MembersNesting(members)
    decreases |members|
  {
    if n < |members| {
      var shorter := members[..|members| - 1];
      MembersGrow(shorter, n);
      assert shorter[..n] == members[..n];
    } else {
      assert members[..n] == members;
    }
  }

  lemma ItemsStep(items: seq<Json>, i: nat)
    requires i < |items|
    ensures ItemsSize(items[..i + 1]) == ItemsSize(items[..i]) + 1 + Size(items[i]) <= ItemsSize(items)
    ensures ItemsNesting(items[..i + 1]) == Max(ItemsNesting(items[..i]), Nesting(items[i])) <= ItemsNesting(items)
  {
    ItemsGrow(items, i + 1);
    assert items[..i + 1][..i] == items[..i];
  }

  lemma MembersStep(members: seq<Member>, i: nat)
    requires i < |members|
    ensures MembersSize(members[..i + 1]) ==
            MembersSize(members[..i]) + 6 * ByteLength(members[i].key) + Size(members[i].value) + 4
            <= MembersSize(members)
    ensures MembersNesting(members[..i + 1]) ==
            Max(MembersNesting(members[..i]), Nesting(members[i].value)) <= MembersNesting(members)
  {
    MembersGrow(members, i + 1);
    assert members[..i + 1][..i] == members[..i];
  }

  lemma NothingInside()
    ensures ItemsSize([]) == 0 && ItemsNesting([]) == 0
    ensures MembersSize([]) == 0 && MembersNesting([]) == 0
  {
  }

  /** The estimate with its early exits and saturation comes to the size, exactly when the value fits. */
  method EstimateJsonValueBytes(value: Json, depth: nat) returns (r: Option<nat>)
    ensures r == if Fits(value, depth) then Some(Size(value)) else None
    decreases value
  {
    hide PrintNumber, ItemsSize, ItemsNesting, MembersSize, MembersNesting;
    if depth > MAX_SQL_PARAMETER_NESTING {
      return None;
    }
    NothingInside();
    var estimate;
    match value {
      case Null => estimate := 4;
      case Bool(b) => estimate := if b then 4 else 5;
      case Num(number) => estimate := ByteLength(PrintNumber(number));
      case Str(text) => estimate := SaturatingAdd(SaturatingMul(ByteLength(text), 6), 2);
      case Arr(items) =>
        var size := 2;
        for i := 0 to |items|
          invariant size == 2 + ItemsSize(items[..i]) <= MAX_SQL_PARAMETER_BYTES
          invariant i > 0 ==> depth + 1 + ItemsNesting(items[..i]) <= MAX_SQL_PARAMETER_NESTING
        {
          ItemsStep(items, i);
          var item := EstimateJsonValueBytes(items[i], depth + 1);
          if item.None? {
            return None;
          }
          size := SaturatingAdd(SaturatingAdd(size, 1), item.value);
          if size > MAX_SQL_PARAMETER_BYTES {
            return None;
          }
        }
        assert items[..|items|] == items;
        estimate := size;
      case Obj(members) =>
        var size := 2;
        for i := 0 to |members|
          invariant size == 2 + MembersSize(members[..i]) <= MAX_SQL_PARAMETER_BYTES
          invariant i > 0 ==> depth + 1 + MembersNesting(members[..i]) <= MAX_SQL_PARAMETER_NESTING
        {
          MembersStep(members, i);
          var item := EstimateJsonValueBytes(members[i].value, depth + 1);
          if item.None? {
            return None;
          }
          size := SaturatingAdd(size, SaturatingMul(ByteLength(members[i].key), 6));
          size := SaturatingAdd(SaturatingAdd(size, item.value), 4);
          if size > MAX_SQL_PARAMETER_BYTES {
            return None;
          }
        }
        assert members[..|members|] == members;
        estimate := size;
    }
    r := if estimate <= MAX_SQL_PARAMETER_BYTES then Some(estimate) else None;
  }

  // ---------- The request ----------

  datatype RequestError = InputLimit | ParameterInvalid

  /** SQLite stores integers as signed 64-bit numbers. */
  predicate TooLargeInteger(value: Json) {
    value.Num? && value.number.Unsigned? && value.number.n > I64_MAX
  }

  function ParametersSize(params: seq<Json>): nat {
    if params == [] then 0
    else
      var n := |params| - 1;
      ParametersSize(params[..n]) + Size(params[n])
  }

  /** What is sent on: the serialised parameters together. */
  function SerializedSize(params: seq<Json>): nat {
    if params == [] then 0
    else
      var n := |params| - 1;
      SerializedSize(params[..n]) + |Serialize(params[n])|
  }

  predicate StatementFits(sql: Bytes, params: seq<Json>) {
    |sql| <= MAX_SQL_STATEMENT_BYTES && |params| <= MAX_SQL_PARAMETERS
  }

  /** The first `n` parameters are storable, fit one by one, and fit together with the statement. */
  predicate ParametersFit(sql: Bytes, params: seq<Json>, n: nat)
    requires n <= |params|
  {
    && (forall i :: 0 <= i < n ==> !TooLargeInteger(params[i]) && Fits(params[i], 0))
    && |sql| + ParametersSize(params[..n]) <= MAX_SQL_REQUEST_BYTES
  }

  lemma {:induction false} ParametersGrow(params: seq<Json>, n: nat)
    requires n <= |params|
    ensures ParametersSize(params[..n]) <= ParametersSize(params)
    decreases |params|
  {
    if n < |params| {
      var shorter := params[..|params| - 1];
      ParametersGrow(shorter, n);
      assert shorter[..n] == params[..n];
    } else {
      assert params[..n] == params;
    }
  }

  lemma ParametersStep(params: seq<Json>, i: nat)
    requires i < |params|
    ensures ParametersSize(params[..i + 1]) == ParametersSize(params[..i]) + Size(params[i])
  {
    assert params[..i + 1][..i] == params[..i];
  }

  lemma FitsEarlier(sql: Bytes, params: seq<Json>, i: nat, j: nat)
    requires i <= j <= |params| && ParametersFit(sql, params, j)
    ensures ParametersFit(sql, params, i)
  {
    ParametersGrow(params[..j], i);
    assert params[..j][..i] == params[..i];
  }

  /** A fault at one position settles the verdict for every later one. */
  lemma FaultIsFinal(sql: Bytes, params: seq<Json>, i: nat)
    requires i < |params| && !ParametersFit(sql, params, i + 1)
    ensures forall j :: i < j <= |params| ==> !ParametersFit(sql, params, j)
  {
    forall j | i < j <= |params| ensures !ParametersFit(sql, params, j) {
      if ParametersFit(sql, params, j) {
        FitsEarlier(sql, params, i + 1, j);
      }
    }
  }

  /** Running totals, one parameter after the other: what is sent on, and what it is estimated at. */
  lemma {:induction false} ParametersAddUp(params: seq<Json>, sent: seq<nat>, estimated: seq<nat>)
    requires |sent| == |estimated| == |params| + 1 && sent[0] == estimated[0] == 0
    requires forall i :: 0 <= i < |params| ==> sent[i + 1] == sent[i] + |Serialize(params[i])|
    requires forall i :: 0 <= i < |params| ==> estimated[i + 1] == estimated[i] + Size(params[i])
    ensures SerializedSize(params) == sent[|params|]
    ensures ParametersSize(params) == estimated[|params|]
    decreases |params|
  {
    if params != [] {
      var n := |params| - 1;
      ParametersAddUp(params[..n], sent[..n + 1], estimated[..n + 1]);
    }
  }

  lemma {:induction false} SerializedSizeFits(params: seq<Json>)
    ensures SerializedSize(params) <= ParametersSize(params)
  {
    if params != [] {
      SerializedSizeFits(params[..|params| - 1]);
      SerializedFits(params[|params| - 1]);
    }
  }

  /**
    * A request is accepted exactly when every limit holds, and then statement and serialised parameters together
    * take no more than the returned total. An integer SQLite cannot hold is reported as such exactly when it comes
    * before any other fault.
    */
  method ValidateSqlRequest(sql: Bytes, params: seq<Json>) returns (r: Result<nat, RequestError>)
    ensures r.Success? <==> StatementFits(sql, params) && ParametersFit(sql, params, |params|)
    ensures r.Success? ==> |sql| + SerializedSize(params) <= r.value <= MAX_SQL_REQUEST_BYTES
    ensures r.Success? ==> r.value == |sql| + ParametersSize(params)
    ensures r == Failure(ParameterInvalid) <==>
            && StatementFits(sql, params)
            && exists i :: 0 <= i < |params| && ParametersFit(sql, params, i) && TooLargeInteger(params[i])
  {
    hide Serialize, Size, Nesting;
    if |sql| > MAX_SQL_STATEMENT_BYTES {
      return Failure(InputLimit);
    }
    if |params| > MAX_SQL_PARAMETERS {
      return Failure(InputLimit);
    }
    var requestBytes := |sql|;
    for i := 0 to |params|
      invariant requestBytes == |sql| + ParametersSize(params[..i])
      invariant ParametersFit(sql, params, i)
    {
      ParametersStep(params, i);
      if !ParametersFit(sql, params, i + 1) {
        FaultIsFinal(sql, params, i);
      }
      if TooLargeInteger(params[i]) {
        return Failure(ParameterInvalid);
      }
      var valueBytes := EstimateJsonValueBytes(params[i], 0);
      if valueBytes.None? {
        return Failure(InputLimit);
      }
      if valueBytes.value > MAX_SQL_PARAMETER_BYTES {
        return Failure(InputLimit);
      }
      requestBytes := SaturatingAdd(requestBytes, valueBytes.value);
      if requestBytes > MAX_SQL_REQUEST_BYTES {
        return Failure(InputLimit);
      }
    }
    assert params[..|params|] == params;
    SerializedSizeFits(params);
    r := Success(requestBytes);
  }

  // ---------- What size and nesting are, part by part ----------

  /** Six bytes for each byte of text and key; brackets, quotes, colons and commas as they are, a comma too many. */
  lemma SizeByParts(text: seq<Scalar>, items: seq<Json>, item: Json, members: seq<Member>, member: Member)
    ensures Size(Null) == 4 && Size(Bool(true)) == 4 && Size(Bool(false)) == 5
    ensures Size(Str(text)) == 6 * |Utf8.Encode(text)| + 2
    ensures Size(Arr([])) == 2 && Size(Arr(items + [item])) == Size(Arr(items)) + Size(item) + 1
    ensures Size(Obj([])) == 2
    ensures Size(Obj(members + [member])) == Size(Obj(members)) + 6 * ByteLength(member.key) + Size(member.value) + 4
  {
    assert (items + [item])[..|items|] == items;
    assert (members + [member])[..|members|] == members;
  }

  /** The size is no wild guess: it is at most six times what the value takes. */
  lemma {:induction false} SizeAtMostSixfold(value: Json)
    ensures Size(value) <= 6 * |Serialize(value)|
    decreases value
  {
    hide JsonText.PrintText, Encode;
    match value
    case Null => LiteralsTakeTheirLetters();
    case Bool(_) => LiteralsTakeTheirLetters();
    case Num(_) =>
    case Str(text) => TextFits(text);
    case Arr(items) =>
      BracketsTakeTwo(items, []);
      ItemsAtMostSixfold(items);
    case Obj(members) =>
      BracketsTakeTwo([], members);
      MembersAtMostSixfold(members);
  }

  lemma {:induction false} ItemsAtMostSixfold(items: seq<Json>)
    ensures ItemsSize(items) <= 6 * ItemsLength(items) + 1
    decreases items
  {
    hide ItemsLength, Serialize, Size;
    ItemsLengthNext(items);
    if items != [] {
      ItemsAtMostSixfold(items[..|items| - 1]);
      SizeAtMostSixfold(items[|items| - 1]);
    }
  }

  lemma {:induction false} MembersAtMostSixfold(members: seq<Member>)
    ensures MembersSize(members) <= 6 * MembersLength(members)
    decreases members
  {
    hide MembersLength, Serialize, Size;
    MembersLengthNext(members);
    if members != [] {
      var n := |members| - 1;
      MembersAtMostSixfold(members[..n]);
      TextFits(members[n].key);
      SizeAtMostSixfold(members[n].value);
    }
  }

  /** A text of control characters takes all the bytes its size allows for, so six a byte cannot be lowered. */
  lemma {:induction false} SizeIsReached(text: seq<Scalar>)
    requires forall i :: 0 <= i < |text| ==> text[i] < 8
    ensures |Utf8.Encode(JsonText.PrintChars(Units(text)))| == 6 * ByteLength(text)
  {
    hide JsonText.PrintChars;
    if text == [] {
      NothingPrinted();
    } else {
      SizeIsReached(text[1..]);
      PrintCharsByScalar(text);
      EncodeConcat(PrintScalar(text[0]), JsonText.PrintChars(Units(text[1..])));
      AsciiTakesOneByteEach(PrintScalar(text[0]));
      EncodeConcat([text[0]], text[1..]);
      EncodeOne(text[0]);
      assert [text[0]] + text[1..] == text;
    }
  }

  /** What the digits of a number say, the first one being zero only for zero itself. */
  function ValueOfDigits(digits: seq<Scalar>): int {
    if digits == [] then 0 else 10 * ValueOfDigits(digits[..|digits| - 1]) + (digits[|digits| - 1] as int - 48)
  }

  lemma {:induction false} DigitsTell(n: nat)
    ensures ValueOfDigits(Digits(n)) == n
    ensures forall i :: 0 <= i < |Digits(n)| ==> 48 <= Digits(n)[i] <= 57
    ensures n > 0 ==> Digits(n)[0] != 48
    ensures n == 0 ==> |Digits(n)| == 1
  {
    if n >= 10 {
      DigitsTell(n / 10);
      assert Digits(n)[..|Digits(n)| - 1] == Digits(n / 10);
    } else {
      assert [48 + n][..0] == [];
    }
  }

  /** Integers print as their digits, with a minus sign before negative ones. */
  lemma NumbersPrintAsDigits(n: nat)
    ensures ValueOfDigits(PrintNumber(Unsigned(n))) == n
    ensures PrintNumber(Negative(n))[0] == 45 && ValueOfDigits(PrintNumber(Negative(n))[1..]) == n
  {
    DigitsTell(n);
    assert ([45] + Digits(n))[1..] == Digits(n);
  }

  /** An array is nested one deeper than the deepest value in it, and an empty one not at all. */
  lemma ArrayNesting(items: seq<Json>, item: Json)
    ensures Nesting(Arr([])) == 0
    ensures Nesting(Arr(items + [item])) ==
            if items != [] && Nesting(Arr(items)) > Nesting(item) then Nesting(Arr(items)) else Nesting(item) + 1
  {
    assert (items + [item])[..|items|] == items;
    DeepestItem(items + [item]);
  }

  lemma DeepestItem(items: seq<Json>)
    requires items != []
    ensures var n := |items| - 1;
            ItemsNesting(items) == if ItemsNesting(items[..n]) < Nesting(items[n]) then Nesting(items[n])
                                   else ItemsNesting(items[..n])
  {
    hide Nesting;
  }

  /** Likewise an object. */
  lemma ObjectNesting(members: seq<Member>, member: Member)
    ensures Nesting(Obj([])) == 0
    ensures Nesting(Obj(members + [member])) ==
            if members != [] && Nesting(Obj(members)) > Nesting(member.value) then Nesting(Obj(members))
            else Nesting(member.value) + 1
  {
    assert (members + [member])[..|members|] == members;
    DeepestMember(members + [member]);
  }

  lemma DeepestMember(members: seq<Member>)
    requires members != []
    ensures var n := |members| - 1;
            MembersNesting(members) == if MembersNesting(members[..n]) < Nesting(members[n].value)
                                       then Nesting(members[n].value) else MembersNesting(members[..n])
  {
    hide Nesting;
  }

  lemma OtherValuesAreFlat(value: Json)
    ensures !value.Arr? && !value.Obj? ==> Nesting(value) == 0
  {
  }

  /** The limits: a megabyte for the statement and for each parameter, 999 of them, 64 levels, ten megabytes in all. */
  lemma LimitsByNumbers(sql: Bytes, params: seq<Json>, value: Json)
    ensures StatementFits(sql, params) <==> |sql| <= 1048576 && |params| <= 999
    ensures Fits(value, 0) <==> Size(value) <= 1048576 && Nesting(value) <= 64
    ensures ParametersFit(sql, params, |params|) <==>
            && |sql| + ParametersSize(params) <= 10485760
            && forall i :: 0 <= i < |params| ==>
                 && Fits(params[i], 0)
                 && !(params[i].Num? && params[i].number.Unsigned? && params[i].number.n >= 0x8000_0000_0000_0000)
  {
    assert params[..|params|] == params;
  }
}
