/** A sync operation as it is checked and turned into the bytes that are signed. */
module SyncOperation {
  import opened Bytes
  import opened JsonText
  import opened CanonicalJson
  import opened Whitespace
  import opened Wrappers
  import HLC = HybridLogicalClock
  import Utf8

  const MAX_FIELD_LENGTH := 1024

  const REQUIRED_OPERATION_FIELDS: seq<string> :=
    ["operationId", "applicationId", "organisationId", "syncGroupId", "featureId", "entityType", "entityId",
     "authorId", "deviceId", "logicalTimestamp"]

  const OPERATION_TYPES: set<string> := {"create", "update", "delete"}

  /** A name written in characters of the first 128. */
  predicate IsAscii(s: string) {
    forall i :: 0 <= i < |s| ==> s[i] as int < 128
  }

  function Units(s: string): Text
    requires IsAscii(s)
  {
    seq(|s|, i requires 0 <= i < |s| => s[i] as int)
  }

  /** The characters of a text; a surrogate becomes some character that is neither white space nor a line's end. */
  function Chars(text: Text): string {
    seq(|text|, i requires 0 <= i < |text| =>
      if IsHigh(text[i]) || IsLow(text[i]) then '\U{FFFD}' else CharOf(text[i]))
  }

  function CharOf(u: CodeUnit): char
    requires !IsHigh(u) && !IsLow(u)
  {
    u as char
  }

  /** The value under a key, if there is one. */
  function Lookup(members: seq<Member>, key: Text): (v: Option<Json>)
    ensures v.Some? <==> HasKey(members, key)
  {
    if members == [] then None
    else if members[0].key == key then Some(members[0].value)
    else
      assert forall i :: 0 < i < |members| ==> members[i] == members[1..][i - 1];
      Lookup(members[1..], key)
  }

  function FieldOf(v: Json, name: string): Option<Json>
    requires v.Obj? && IsAscii(name)
  {
    Lookup(v.members, Units(name))
  }

  // ---------- What an operation must be ----------

  predicate IsFieldText(value: Option<Json>) {
    value.Some? && value.value.Str? && !IsBlank(Chars(value.value.text)) && |value.value.text| <= MAX_FIELD_LENGTH
  }

  predicate IsOperationType(value: Option<Json>) {
    value.Some? && value.value.Str? && Chars(value.value.text) in OPERATION_TYPES
  }

  /** A positive integer that a number holds exactly. */
  predicate IsVersion(value: Option<Json>) {
    && value.Some? && value.value.Num?
    && value.value.digits != [] && (forall i :: 0 <= i < |value.value.digits| ==> 48 <= value.value.digits[i] <= 57)
    && value.value.digits[0] != 48
    && Number(value.value.digits) <= HLC.MAX_SAFE_INTEGER
  }

  predicate IsTimestamp(value: Option<Json>) {
    value.Some? && value.value.Str? && HLC.Parse(Chars(value.value.text)).Some?
  }

  predicate FieldFine(v: Json, n: nat)
    requires v.Obj? && n < |REQUIRED_OPERATION_FIELDS|
  {
    NamesAreAscii();
    IsFieldText(FieldOf(v, REQUIRED_OPERATION_FIELDS[n]))
  }

  lemma NamesAreAscii()
    ensures forall n :: 0 <= n < |REQUIRED_OPERATION_FIELDS| ==> IsAscii(REQUIRED_OPERATION_FIELDS[n])
    ensures IsAscii("operation") && IsAscii("schemaVersion") && IsAscii("protocolVersion") && IsAscii("payload")
    ensures IsAscii("logicalTimestamp")
  {
    hide IsAscii;
    FirstNamesAreAscii();
    LastNamesAreAscii();
    OtherNamesAreAscii();
  }

  lemma FirstNamesAreAscii()
    ensures forall n :: 0 <= n < 5 ==> IsAscii(REQUIRED_OPERATION_FIELDS[n])
  {
  }

  lemma LastNamesAreAscii()
    ensures forall n :: 5 <= n < 10 ==> IsAscii(REQUIRED_OPERATION_FIELDS[n])
  {
  }

  lemma OtherNamesAreAscii()
    ensures IsAscii("operation") && IsAscii("schemaVersion") && IsAscii("protocolVersion") && IsAscii("payload")
    ensures IsAscii("logicalTimestamp")
  {
  }

  predicate FieldsFine(v: Json)
    requires v.Obj?
  {
    forall n :: 0 <= n < |REQUIRED_OPERATION_FIELDS| ==> FieldFine(v, n)
  }

  predicate TypeFine(v: Json)
    requires v.Obj?
  {
    NamesAreAscii();
    IsOperationType(FieldOf(v, "operation"))
  }

  predicate VersionsFine(v: Json)
    requires v.Obj?
  {
    NamesAreAscii();
    IsVersion(FieldOf(v, "schemaVersion")) && IsVersion(FieldOf(v, "protocolVersion"))
  }

  predicate HasPayload(v: Json)
    requires v.Obj?
  {
    NamesAreAscii();
    FieldOf(v, "payload").Some?
  }

  predicate TimestampFine(v: Json)
    requires v.Obj?
  {
    NamesAreAscii();
    IsTimestamp(FieldOf(v, "logicalTimestamp"))
  }

  predicate IsOperation(v: Json) {
    v.Obj? && FieldsFine(v) && TypeFine(v) && VersionsFine(v) && HasPayload(v) && TimestampFine(v)
  }

  datatype Fault =
    | NoRecord
    | InvalidField(n: nat)
    | InvalidType
    | InvalidVersion
    | PayloadMissing
    | InvalidTimestamp

  /** The value has this fault and none of those that are looked for before it. */
  ghost predicate FirstFault(v: Json, fault: Fault) {
    if fault.NoRecord? then !v.Obj?
    else
      && v.Obj?
      && match fault
         case NoRecord => false
         case InvalidField(n) =>
           n < |REQUIRED_OPERATION_FIELDS| && !FieldFine(v, n) && forall m :: 0 <= m < n ==> FieldFine(v, m)
         case InvalidType => FieldsFine(v) && !TypeFine(v)
         case InvalidVersion => FieldsFine(v) && TypeFine(v) && !VersionsFine(v)
         case PayloadMissing => FieldsFine(v) && TypeFine(v) && VersionsFine(v) && !HasPayload(v)
         case InvalidTimestamp =>
           FieldsFine(v) && TypeFine(v) && VersionsFine(v) && HasPayload(v) && !TimestampFine(v)
  }

  method ValidateOperation(v: Json) returns (fault: Option<Fault>)
    ensures fault.None? <==> IsOperation(v)
    ensures fault.Some? ==> FirstFault(v, fault.value)
  {
    hide FieldFine, TypeFine, VersionsFine, HasPayload, TimestampFine;
    if !v.Obj? {
      return Some(NoRecord);
    }
    for n := 0 to |REQUIRED_OPERATION_FIELDS|
      invariant forall m :: 0 <= m < n ==> FieldFine(v, m)
    {
      if !FieldFine(v, n) {
        return Some(InvalidField(n));
      }
    }
    if !TypeFine(v) {
      return Some(InvalidType);
    }
    if !VersionsFine(v) {
      return Some(InvalidVersion);
    }
    if !HasPayload(v) {
      return Some(PayloadMissing);
    }
    if !TimestampFine(v) {
      return Some(InvalidTimestamp);
    }
    return None;
  }

  // ---------- What is signed ----------

  /** The bytes to sign, for a value that is an operation. */
  function SignedBytes(v: Json): Option<Bytes> {
    if IsOperation(v) then Some(CanonicalBytes(v)) else None
  }

  method Canonicalize(v: Json) returns (r: Result<Bytes, Fault>)
    requires Valid(v)
    ensures r.Success? <==> IsOperation(v)
    ensures r.Success? ==> SignedBytes(v) == Some(r.value) && r.value == CanonicalBytes(v)
    ensures r.Failure? ==> FirstFault(v, r.error)
  {
    hide FirstFault, IsOperation;
    var fault := ValidateOperation(v);
    if fault.Some? {
      return Failure(fault.value);
    }
    var sorted := SortedKeys(v);
    return Success(Utf8.Encode(Print(sorted)));
  }

  // ---------- Nothing but the content matters ----------

  lemma {:induction false} LookupAt(members: seq<Member>, i: nat)
    requires DistinctKeys(members) && i < |members|
    ensures Lookup(members, members[i].key) == Some(members[i].value)
  {
    if i > 0 {
      LookupAt(members[1..], i - 1);
    }
  }

  /** Under each key, values that are the same up to the order of members have the same, or none has any. */
  lemma SameFields(a: Json, b: Json, key: Text)
    requires a.Obj? && b.Obj? && Valid(a) && Valid(b) && Same(a, b)
    ensures Lookup(a.members, key).Some? <==> Lookup(b.members, key).Some?
    ensures Lookup(a.members, key).Some? ==> Same(Lookup(a.members, key).value, Lookup(b.members, key).value)
  {
    var m, n := a.members, b.members;
    if HasKey(n, key) {
      var j := Position(n, key);
      assert HasKey(m, n[j].key);
    }
    if HasKey(m, key) {
      var i := Position(m, key);
      LookupAt(m, i);
      LookupAt(n, Position(n, m[i].key));
    }
  }

  lemma SameLeaves(a: Json, b: Json)
    requires Same(a, b)
    ensures a.Str? || a.Num? || b.Str? || b.Num? ==> a == b
  {
  }

  lemma SameField(a: Json, b: Json, name: string)
    requires a.Obj? && b.Obj? && Valid(a) && Valid(b) && Same(a, b) && IsAscii(name)
    ensures var x, y := FieldOf(a, name), FieldOf(b, name);
            && (x.Some? <==> y.Some?)
            && (x.Some? && (x.value.Str? || x.value.Num? || y.value.Str? || y.value.Num?) ==> x == y)
  {
    hide Same, Valid;
    SameFields(a, b, Units(name));
    if FieldOf(a, name).Some? {
      SameLeaves(FieldOf(a, name).value, FieldOf(b, name).value);
    }
  }

  /** Whether a value passes the checks does not depend on the order its members came in. */
  lemma SameOperations(a: Json, b: Json)
    requires Valid(a) && Valid(b) && Same(a, b)
    ensures IsOperation(a) <==> IsOperation(b)
  {
    if a.Obj? && b.Obj? {
      hide Same, Valid, FieldOf, HLC.Parse, Chars, IsBlank;
      NamesAreAscii();
      forall n | 0 <= n < |REQUIRED_OPERATION_FIELDS| ensures FieldFine(a, n) <==> FieldFine(b, n) {
        SameField(a, b, REQUIRED_OPERATION_FIELDS[n]);
      }
      SameField(a, b, "operation");
      SameField(a, b, "schemaVersion");
      SameField(a, b, "protocolVersion");
      SameField(a, b, "payload");
      SameField(a, b, "logicalTimestamp");
    }
  }

  /**
    * Signer and verifier agree whatever order members travel in: an operation gets the same bytes as another value if
    * and only if the two are equal up to the order of members at every level.
    */
  lemma SignedExactlyWhenSame(a: Json, b: Json)
    requires Valid(a) && Valid(b) && IsOperation(a)
    ensures SignedBytes(a) == SignedBytes(b) <==> Same(a, b)
  {
    hide Same, Valid, IsOperation, CanonicalBytes;
    SameBytesExactlyWhenSame(a, b);
    if Same(a, b) {
      SameOperations(a, b);
    }
  }

  // ---------- The checks by characters and numbers ----------

  /** Every code unit is its own character, save surrogates, which are no white space. */
  lemma CharsOneByOne(text: Text, i: nat)
    requires i < |text|
    ensures |Chars(text)| == |text|
    ensures text[i] < 0xd800 || text[i] >= 0xe000 ==> Chars(text)[i] as int == text[i]
    ensures 0xd800 <= text[i] < 0xe000 ==> !IsSpace(Chars(text)[i]) && Chars(text)[i] as int > 0xd800
  {
  }

  /** A required field holds a text of at most 1024 code units, one of which is no white space. */
  lemma FieldTextByUnits(value: Option<Json>)
    ensures IsFieldText(value) <==>
            && value.Some? && value.value.Str? && |value.value.text| < 1025
            && exists i :: 0 <= i < |value.value.text| && !IsSpace(Chars(value.value.text)[i])
  {
  }

  /** A version is what a positive integer up to 2^53 - 1 prints as. */
  lemma VersionsArePositiveIntegers(value: Option<Json>)
    ensures IsVersion(value) <==>
            && value.Some? && value.value.Num?
            && exists n: nat :: 0 < n < 9007199254740992 && NumberText(n) == value.value.digits
  {
    if IsVersion(value) {
      var digits: Text := value.value.digits;
      PositiveNumber(digits);
      NumberTextReads(Number(digits));
      DecimalIsUnique(NumberText(Number(digits)), digits);
    }
    if value.Some? && value.value.Num? {
      forall n: nat | 0 < n < 9007199254740992 && NumberText(n) == value.value.digits ensures IsVersion(value) {
        NumberTextReads(n);
      }
    }
  }

  lemma PositiveNumber(digits: Text)
    requires IsDecimal(digits) && digits[0] != 48
    ensures Number(digits) > 0
  {
    NumberIsPositive(digits);
  }

  /** The type is one of three words. */
  lemma TypesAreWords(text: Text)
    ensures IsOperationType(Some(Str(text))) <==>
            text == [99, 114, 101, 97, 116, 101] || text == [117, 112, 100, 97, 116, 101]
            || text == [100, 101, 108, 101, 116, 101]
  {
    hide Chars, Units;
    CharsAreText(text, "create");
    CharsAreText(text, "update");
    CharsAreText(text, "delete");
    WordsInUnits();
  }

  lemma WordsInUnits()
    ensures IsAscii("create") && Units("create") == [99, 114, 101, 97, 116, 101]
    ensures IsAscii("update") && Units("update") == [117, 112, 100, 97, 116, 101]
    ensures IsAscii("delete") && Units("delete") == [100, 101, 108, 101, 116, 101]
  {
  }

  lemma CharsAreText(text: Text, word: string)
    requires IsAscii(word)
    ensures Chars(text) == word <==> text == Units(word)
  {
    if Chars(text) == word {
      forall i | 0 <= i < |text| ensures text[i] == Units(word)[i] {
        assert Chars(text)[i] == word[i];
      }
    }
    if text == Units(word) {
      forall i | 0 <= i < |text| ensures Chars(text)[i] == word[i] {
        assert text[i] == Units(word)[i];
      }
    }
  }
}
