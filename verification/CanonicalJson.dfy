/**
  * The bytes a sync operation is signed over: keys sorted at every level, printed, encoded. ECMAScript enumerates
  * the keys of an object that are array indices before all others and by their number, so that is where they end up.
  */
module CanonicalJson {
  import opened Bytes
  import opened JsonText
  import opened Selection
  import opened Sorting
  import Utf8

  // ---------- The order of keys ----------

  /** By code units, as `Array.prototype.sort` compares strings. */
  predicate UnitsNotAfter(a: Text, b: Text) {
    a == [] || (b != [] && (a[0] < b[0] || (a[0] == b[0] && UnitsNotAfter(a[1..], b[1..]))))
  }

  const MAX_ARRAY_INDEX := 0xffff_fffe

  predicate IsDecimal(key: Text) {
    && key != [] && (forall i :: 0 <= i < |key| ==> 48 <= key[i] <= 57)
    && (key[0] == 48 ==> |key| == 1)
  }

  function Number(key: Text): nat
    requires forall i :: 0 <= i < |key| ==> 48 <= key[i] <= 57
  {
    if key == [] then 0 else 10 * Number(key[..|key| - 1]) + (key[|key| - 1] - 48)
  }

  /** The decimal digits of a number, without leading zeros. */
  function NumberText(n: nat): Text {
    if n < 10 then [48 + n] else NumberText(n / 10) + [48 + n % 10]
  }

  lemma {:induction false} NumberTextReads(n: nat)
    ensures IsDecimal(NumberText(n)) && Number(NumberText(n)) == n && (n > 0 ==> NumberText(n)[0] != 48)
  {
    if n >= 10 {
      NumberTextReads(n / 10);
      var t := NumberText(n);
      assert t[..|t| - 1] == NumberText(n / 10);
    } else {
      assert [48 + n][..0] == [];
    }
  }

  /** A key that prints an array index. */
  predicate IsIndex(key: Text) {
    IsDecimal(key) && Number(key) <= MAX_ARRAY_INDEX
  }

  /** The order in which an object whose keys were defined in sorted order enumerates them. */
  predicate KeyNotAfter(a: Text, b: Text) {
    if IsIndex(a) then IsIndex(b) ==> Number(a) <= Number(b) else !IsIndex(b) && UnitsNotAfter(a, b)
  }

  /** A key is an array index exactly if it is what some number below 2^32 - 1 prints as. */
  lemma IndicesAreNumberTexts(key: Text)
    ensures IsIndex(key) <==> exists n: nat :: n < 4294967295 && NumberText(n) == key
  {
    if IsIndex(key) {
      NumberTextReads(Number(key));
      DecimalIsUnique(NumberText(Number(key)), key);
    }
    forall n: nat | n < 4294967295 && NumberText(n) == key ensures IsIndex(key) {
      NumberTextReads(n);
    }
  }

  /** By code units means by the first that differs, and a text before those it starts. */
  lemma {:induction false} UnitsByFirstDifference(a: Text, b: Text)
    ensures UnitsNotAfter(a, b) <==>
            a <= b || exists k :: 0 <= k < |a| && k < |b| && a[..k] == b[..k] && a[k] < b[k]
  {
    if a != [] && b != [] {
      if a[0] == b[0] {
        UnitsByFirstDifference(a[1..], b[1..]);
        assert a == [a[0]] + a[1..] && b == [b[0]] + b[1..];
        if k :| 0 <= k < |a| && k < |b| && a[..k] == b[..k] && a[k] < b[k] {
          assert a[1..][..k - 1] == a[..k][1..] == b[..k][1..] == b[1..][..k - 1];
          assert a[1..][k - 1] == a[k] && b[1..][k - 1] == b[k];
        }
        if k :| 0 <= k < |a[1..]| && k < |b[1..]| && a[1..][..k] == b[1..][..k] && a[1..][k] < b[1..][k] {
          assert a[..k + 1] == [a[0]] + a[1..][..k] == [b[0]] + b[1..][..k] == b[..k + 1];
          assert a[k + 1] < b[k + 1];
        }
      } else {
        assert a[..0] == b[..0];
        forall k | 0 < k < |a| && k < |b| ensures a[..k] != b[..k] {
          assert a[..k][0] != b[..k][0];
        }
      }
    }
  }

  /** In a canonical object the indices stand first, by number, and then the other keys, by code units. */
  lemma MembersAsEnumerated(m: seq<Member>, i: nat, j: nat)
    requires DistinctKeys(m)
    ensures Canonical(Obj(m)).Obj? && |Canonical(Obj(m)).members| == |m|
    ensures i < j < |m| ==>
              var a, b := Canonical(Obj(m)).members[i].key, Canonical(Obj(m)).members[j].key;
              && (IsIndex(b) ==> IsIndex(a) && Number(a) <= Number(b))
              && (!IsIndex(a) ==> !IsIndex(b) && UnitsNotAfter(a, b))
  {
    hide Canonical, UnitsNotAfter, IsIndex;
    CanonicalObject(m);
    var sorted := Canonical(Obj(m)).members;
    PermutationKeepsElements(sorted, CanonicalMembers(m));
    if i < j < |m| {
      assert MemberNotAfter(sorted[i], sorted[j]);
    }
  }

  lemma {:induction false} UnitsAreTotal(a: Text, b: Text)
    ensures UnitsNotAfter(a, b) || UnitsNotAfter(b, a)
    ensures UnitsNotAfter(a, b) && UnitsNotAfter(b, a) ==> a == b
  {
    if a != [] && b != [] && a[0] == b[0] {
      UnitsAreTotal(a[1..], b[1..]);
      assert a == [a[0]] + a[1..] && b == [b[0]] + b[1..];
    }
  }

  lemma {:induction false} UnitsAreTransitive(a: Text, b: Text, c: Text)
    requires UnitsNotAfter(a, b) && UnitsNotAfter(b, c)
    ensures UnitsNotAfter(a, c)
  {
    if a != [] && a[0] == b[0] == c[0] {
      UnitsAreTransitive(a[1..], b[1..], c[1..]);
    }
  }

  function Shorter(key: Text): Text
    requires key != []
  {
    key[..|key| - 1]
  }

  /** A number splits into its tens and its last digit. */
  lemma LastDigit(key: Text)
    requires IsDecimal(key)
    ensures forall i :: 0 <= i < |Shorter(key)| ==> 48 <= Shorter(key)[i] <= 57
    ensures Number(key) / 10 == Number(Shorter(key)) && Number(key) % 10 == key[|key| - 1] - 48
    ensures key == Shorter(key) + [key[|key| - 1]]
    ensures |key| > 1 ==> IsDecimal(Shorter(key)) && Number(Shorter(key)) > 0
    ensures |key| == 1 ==> Number(Shorter(key)) == 0
  {
    if |key| > 1 {
      NumberIsPositive(Shorter(key));
    }
  }

  lemma {:induction false} DecimalIsUnique(a: Text, b: Text)
    requires IsDecimal(a) && IsDecimal(b) && Number(a) == Number(b)
    ensures a == b
    decreases |a|
  {
    hide IsDecimal, Number;
    LastDigit(a);
    LastDigit(b);
    if |a| > 1 && |b| > 1 {
      DecimalIsUnique(Shorter(a), Shorter(b));
    }
  }

  lemma {:induction false} NumberIsPositive(key: Text)
    requires IsDecimal(key) && key[0] != 48
    ensures Number(key) > 0
  {
    if |key| > 1 {
      NumberIsPositive(key[..|key| - 1]);
    }
  }

  const MemberNotAfter := (a: Member, b: Member) => KeyNotAfter(a.key, b.key)

  lemma KeysAreOrdered()
    ensures IsOrdering(MemberNotAfter)
    ensures forall a, b :: KeyNotAfter(a, b) && KeyNotAfter(b, a) ==> a == b
  {
    hide IsIndex;
    forall a, b ensures KeyNotAfter(a, b) || KeyNotAfter(b, a) {
      UnitsAreTotal(a, b);
      IndicesHaveNumbers(a);
      IndicesHaveNumbers(b);
    }
    forall a, b, c | KeyNotAfter(a, b) && KeyNotAfter(b, c) ensures KeyNotAfter(a, c) {
      if !IsIndex(a) {
        UnitsAreTransitive(a, b, c);
      }
    }
    forall a, b | KeyNotAfter(a, b) && KeyNotAfter(b, a) ensures a == b {
      UnitsAreTotal(a, b);
      IndicesHaveNumbers(a);
      IndicesHaveNumbers(b);
      if IsIndex(a) {
        DecimalIsUnique(a, b);
      }
    }
  }

  lemma IndicesHaveNumbers(key: Text)
    ensures IsIndex(key) ==> IsDecimal(key)
  {
  }

  // ---------- Canonical values ----------

  /** Keys in order at every level; arrays as they are. */
  function Canonical(v: Json): Json {
    match v
    case Arr(items) => Arr(seq(|items|, i requires 0 <= i < |items| => Canonical(items[i])))
    case Obj(members) =>
      Obj(Sort(seq(|members|, i requires 0 <= i < |members| => Member(members[i].key, Canonical(members[i].value))),
               MemberNotAfter))
    case _ => v
  }

  /** An object's members with their values canonical, still in the order they came in. */
  function CanonicalMembers(members: seq<Member>): (r: seq<Member>)
    ensures |r| == |members|
    ensures forall i :: 0 <= i < |r| ==> r[i] == Member(members[i].key, Canonical(members[i].value))
  {
    seq(|members|, i requires 0 <= i < |members| => Member(members[i].key, Canonical(members[i].value)))
  }

  ghost predicate HasKey(members: seq<Member>, key: Text) {
    exists i :: 0 <= i < |members| && members[i].key == key
  }

  /** Where a key stands. */
  ghost function Position(members: seq<Member>, key: Text): (i: nat)
    requires HasKey(members, key)
    ensures i < |members| && members[i].key == key
  {
    var i :| 0 <= i < |members| && members[i].key == key;
    i
  }

  /** Equal up to the order of members, at every level: the same keys, and the same values under them. */
  ghost predicate Same(a: Json, b: Json)
    decreases a
  {
    match a
    case Arr(items) => b.Arr? && |items| == |b.items| && forall i :: 0 <= i < |items| ==> Same(items[i], b.items[i])
    case Obj(m) =>
      && b.Obj?
      && (forall j :: 0 <= j < |b.members| ==> HasKey(m, b.members[j].key))
      && (forall i :: 0 <= i < |m| ==>
            HasKey(b.members, m[i].key) && Same(m[i].value, b.members[Position(b.members, m[i].key)].value))
    case _ => a == b
  }

  // ---------- Equal exactly when the same ----------

  /** Members with different keys are known by their keys, also after the values were made canonical. */
  lemma KnownByKey(members: seq<Member>, x: Member, y: Member)
    requires DistinctKeys(members) && x in CanonicalMembers(members) && y in CanonicalMembers(members)
    requires x.key == y.key
    ensures x == y
  {
    hide Canonical;
    var r := CanonicalMembers(members);
    var i :| 0 <= i < |r| && r[i] == x;
    var j :| 0 <= j < |r| && r[j] == y;
    assert !(i < j) && !(j < i);
  }

  /** The one way to put members with different keys in order. */
  lemma Arranged(members: seq<Member>, sorted: seq<Member>)
    requires DistinctKeys(members) && multiset(sorted) == multiset(CanonicalMembers(members))
    requires Ascending(sorted, MemberNotAfter)
    ensures Canonical(Obj(members)) == Obj(sorted)
  {
    hide Canonical, KeyNotAfter, CanonicalMembers, DistinctKeys;
    KeysAreOrdered();
    var r := CanonicalMembers(members);
    SortSorts(r, MemberNotAfter);
    PermutationKeepsElements(r, sorted);
    forall x, y | x in sorted && y in sorted && MemberNotAfter(x, y) && MemberNotAfter(y, x) ensures x == y {
      KnownByKey(members, x, y);
    }
    AscendingIsUnique(sorted, Sort(r, MemberNotAfter), MemberNotAfter);
    CanonicalOfObject(members);
  }

  lemma CanonicalOfObject(members: seq<Member>)
    ensures Canonical(Obj(members)) == Obj(Sort(CanonicalMembers(members), MemberNotAfter))
  {
    assert CanonicalMembers(members) ==
           seq(|members|, i requires 0 <= i < |members| => Member(members[i].key, Canonical(members[i].value)));
  }

  /** The canonical members: the same, in order. */
  lemma CanonicalObject(members: seq<Member>)
    requires DistinctKeys(members)
    ensures Canonical(Obj(members)).Obj?
    ensures var sorted := Canonical(Obj(members)).members;
            && multiset(sorted) == multiset(CanonicalMembers(members))
            && Ascending(sorted, MemberNotAfter)
  {
    KeysAreOrdered();
    CanonicalOfObject(members);
    SortSorts(CanonicalMembers(members), MemberNotAfter);
  }

  lemma DistinctMembers(members: seq<Member>)
    requires DistinctKeys(members)
    ensures Distinct(CanonicalMembers(members))
  {
    hide Canonical;
  }

  /** Each member of the first has its counterpart in the second, canonically. */
  ghost predicate Covers(m: seq<Member>, n: seq<Member>) {
    forall i :: 0 <= i < |m| ==> CanonicalMembers(m)[i] in CanonicalMembers(n)
  }

  lemma CoveredAt(m: seq<Member>, n: seq<Member>, i: nat, j: nat)
    requires i < |m| && j < |n| && m[i].key == n[j].key && Canonical(m[i].value) == Canonical(n[j].value)
    ensures CanonicalMembers(m)[i] in CanonicalMembers(n)
  {
    hide Canonical;
    assert CanonicalMembers(m)[i] == CanonicalMembers(n)[j];
  }

  lemma CounterpartAt(m: seq<Member>, n: seq<Member>, i: nat) returns (j: nat)
    requires i < |m| && Covers(m, n)
    ensures j < |n| && m[i].key == n[j].key && Canonical(m[i].value) == Canonical(n[j].value)
  {
    hide Canonical;
    var x := CanonicalMembers(m)[i];
    assert x in CanonicalMembers(n);
    j :| 0 <= j < |CanonicalMembers(n)| && CanonicalMembers(n)[j] == x;
  }

  /** Objects that cover each other are canonically equal, and the other way round. */
  lemma CoveringIsEqual(m: seq<Member>, n: seq<Member>)
    requires DistinctKeys(m) && DistinctKeys(n)
    ensures Covers(m, n) && Covers(n, m) <==> Canonical(Obj(m)) == Canonical(Obj(n))
  {
    hide Canonical, KeyNotAfter, CanonicalMembers;
    CanonicalObject(m);
    CanonicalObject(n);
    if Covers(m, n) && Covers(n, m) {
      DistinctMembers(m);
      DistinctMembers(n);
      SameDistinctElements(CanonicalMembers(m), CanonicalMembers(n));
      Arranged(m, Canonical(Obj(n)).members);
    }
    if Canonical(Obj(m)) == Canonical(Obj(n)) {
      PermutationKeepsElements(CanonicalMembers(m), CanonicalMembers(n));
    }
  }

  lemma OnlyPosition(members: seq<Member>, j: nat)
    requires DistinctKeys(members) && j < |members|
    ensures HasKey(members, members[j].key) && Position(members, members[j].key) == j
  {
    assert members[j].key == members[j].key;
    var i := Position(members, members[j].key);
    assert !(i < j) && !(j < i);
  }

  lemma {:induction false} SameMeansEqualCanonical(a: Json, b: Json)
    requires Valid(a) && Valid(b) && Same(a, b)
    ensures Canonical(a) == Canonical(b)
    decreases a, 1
  {
    hide Covers, Canonical, CanonicalMembers;
    match a
    case Arr(items) =>
      forall i | 0 <= i < |items| ensures Canonical(items[i]) == Canonical(b.items[i]) {
        SameMeansEqualCanonical(items[i], b.items[i]);
      }
      EqualItems(items, b.items);
    case Obj(m) => SameObjectsEqual(m, b.members);
    case _ =>
  }

  lemma SameObject(m: seq<Member>, n: seq<Member>)
    ensures Same(Obj(m), Obj(n)) <==>
            && (forall j :: 0 <= j < |n| ==> HasKey(m, n[j].key))
            && (forall i :: 0 <= i < |m| ==>
                  HasKey(n, m[i].key) && Same(m[i].value, n[Position(n, m[i].key)].value))
  {
    hide HasKey;
  }

  lemma {:induction false} SameObjectsEqual(m: seq<Member>, n: seq<Member>)
    requires Valid(Obj(m)) && Valid(Obj(n)) && Same(Obj(m), Obj(n))
    ensures Canonical(Obj(m)) == Canonical(Obj(n))
    decreases Obj(m), 0
  {
    hide Covers, Canonical, CanonicalMembers, Same, HasKey;
    SameObject(m, n);
    forall i | 0 <= i < |m| ensures CanonicalMembers(m)[i] in CanonicalMembers(n) {
      var j := Position(n, m[i].key);
      SameMeansEqualCanonical(m[i].value, n[j].value);
      CoveredAt(m, n, i, j);
    }
    forall j | 0 <= j < |n| ensures CanonicalMembers(n)[j] in CanonicalMembers(m) {
      var i := Position(m, n[j].key);
      OnlyPosition(n, j);
      SameMeansEqualCanonical(m[i].value, n[j].value);
      CoveredAt(n, m, j, i);
    }
    AllCovered(m, n);
    AllCovered(n, m);
    CoveringIsEqual(m, n);
  }

  lemma AllCovered(m: seq<Member>, n: seq<Member>)
    requires forall i :: 0 <= i < |m| ==> CanonicalMembers(m)[i] in CanonicalMembers(n)
    ensures Covers(m, n)
  {
  }

  lemma EqualItems(items: seq<Json>, others: seq<Json>)
    requires |items| == |others|
    ensures (forall i :: 0 <= i < |items| ==> Canonical(items[i]) == Canonical(others[i])) <==>
            Canonical(Arr(items)) == Canonical(Arr(others))
  {
    var a, b := Canonical(Arr(items)), Canonical(Arr(others));
    forall i | 0 <= i < |items| && a == b ensures Canonical(items[i]) == Canonical(others[i]) {
      assert a.items[i] == b.items[i];
    }
  }

  lemma CanonicalKeepsKind(v: Json)
    ensures v.Obj? <==> Canonical(v).Obj?
    ensures v.Arr? <==> Canonical(v).Arr?
    ensures v.Arr? ==> |Canonical(v).items| == |v.items|
    ensures !v.Obj? && !v.Arr? ==> Canonical(v) == v
  {
  }

  lemma {:induction false} EqualCanonicalMeansSame(a: Json, b: Json)
    requires Valid(a) && Valid(b) && Canonical(a) == Canonical(b)
    ensures Same(a, b)
    decreases a
  {
    hide Covers, Canonical, Same, HasKey;
    CanonicalKeepsKind(a);
    CanonicalKeepsKind(b);
    match a
    case Arr(items) =>
      EqualItems(items, b.items);
      forall i | 0 <= i < |items| ensures Same(items[i], b.items[i]) {
        EqualCanonicalMeansSame(items[i], b.items[i]);
      }
      SameArrays(items, b.items);
    case Obj(m) =>
      var n := b.members;
      CoveringIsEqual(m, n);
      forall i | 0 <= i < |m|
        ensures HasKey(n, m[i].key) && Same(m[i].value, n[Position(n, m[i].key)].value)
      {
        var j := CounterpartAt(m, n, i);
        OnlyPosition(n, j);
        EqualCanonicalMeansSame(m[i].value, n[j].value);
      }
      forall j | 0 <= j < |n| ensures HasKey(m, n[j].key) {
        var i := CounterpartAt(n, m, j);
        OnlyPosition(m, i);
      }
      SameObject(m, n);
    case _ => OtherwiseSame(a);
  }

  lemma SameArrays(items: seq<Json>, others: seq<Json>)
    requires |items| == |others| && forall i :: 0 <= i < |items| ==> Same(items[i], others[i])
    ensures Same(Arr(items), Arr(others))
  {
  }

  lemma OtherwiseSame(v: Json)
    requires !v.Arr? && !v.Obj?
    ensures Same(v, v)
  {
  }

  lemma PermutedKeys(a: seq<Member>, b: seq<Member>)
    requires DistinctKeys(a) && multiset(a) == multiset(b)
    ensures DistinctKeys(b)
  {
    PermutationKeepsElements(a, b);
    assert Distinct(a);
    forall i, j | 0 <= i < j < |b| ensures b[i].key != b[j].key {
      assert b[i] in a && b[j] in a;
      var p :| 0 <= p < |a| && a[p] == b[i];
      var q :| 0 <= q < |a| && a[q] == b[j];
      assert p != q;
      assert p < q || q < p;
    }
  }

  lemma {:induction false} CanonicalIsValid(v: Json)
    requires Valid(v)
    ensures Valid(Canonical(v))
  {
    match v
    case Arr(items) =>
      forall i | 0 <= i < |items| ensures Valid(Canonical(items[i])) {
        CanonicalIsValid(items[i]);
      }
    case Obj(members) =>
      forall i | 0 <= i < |members| ensures Valid(CanonicalMembers(members)[i].value) {
        CanonicalIsValid(members[i].value);
      }
      CanonicalObjectIsValid(members);
    case _ =>
  }

  lemma CanonicalObjectIsValid(members: seq<Member>)
    requires DistinctKeys(members)
    requires forall i :: 0 <= i < |members| ==> Valid(CanonicalMembers(members)[i].value)
    ensures Valid(Canonical(Obj(members)))
  {
    hide Canonical;
    CanonicalObject(members);
    var sorted := Canonical(Obj(members)).members;
    var r := CanonicalMembers(members);
    PermutedKeys(r, sorted);
    PermutationKeepsElements(r, sorted);
    forall i | 0 <= i < |sorted| ensures Valid(sorted[i].value) {
      assert sorted[i] in r;
    }
  }

  /** What is signed. */
  function CanonicalBytes(v: Json): Bytes {
    Utf8.Encode(Print(Canonical(v)))
  }

  /**
    * Two plain values give the same bytes exactly when they are equal up to the order of members at every level: the
    * order members came in never shows, and nothing else is lost.
    */
  lemma SameBytesExactlyWhenSame(a: Json, b: Json)
    requires Valid(a) && Valid(b)
    ensures CanonicalBytes(a) == CanonicalBytes(b) <==> Same(a, b)
  {
    hide Canonical, Same, Valid, Print;
    if Same(a, b) {
      SameMeansEqualCanonical(a, b);
    }
    if CanonicalBytes(a) == CanonicalBytes(b) {
      Utf8.EncodeIsInjective(Print(Canonical(a)), Print(Canonical(b)));
      CanonicalIsValid(a);
      CanonicalIsValid(b);
      PrintReadsBack(Canonical(a));
      PrintReadsBack(Canonical(b));
      EqualCanonicalMeansSame(a, b);
    }
  }

  /** A value whose keys are in order stays as it is. */
  lemma {:induction false} CanonicalIsIdempotent(v: Json)
    requires Valid(v)
    ensures Canonical(Canonical(v)) == Canonical(v)
  {
    match v
    case Arr(items) =>
      forall i | 0 <= i < |items| ensures Canonical(Canonical(items[i])) == Canonical(items[i]) {
        CanonicalIsIdempotent(items[i]);
      }
    case Obj(members) =>
      forall i | 0 <= i < |members|
        ensures Canonical(Canonical(members[i].value)) == Canonical(members[i].value)
      {
        CanonicalIsIdempotent(members[i].value);
      }
      ObjectIsIdempotent(members);
    case _ =>
  }

  lemma ObjectIsIdempotent(members: seq<Member>)
    requires DistinctKeys(members)
    requires forall i :: 0 <= i < |members| ==> Canonical(Canonical(members[i].value)) == Canonical(members[i].value)
    ensures Canonical(Canonical(Obj(members))) == Canonical(Obj(members))
  {
    hide Canonical, KeyNotAfter;
    CanonicalObject(members);
    var r, sorted := CanonicalMembers(members), Canonical(Obj(members)).members;
    PermutationKeepsElements(r, sorted);
    PermutedKeys(r, sorted);
    forall i | 0 <= i < |sorted| ensures CanonicalMembers(sorted)[i] == sorted[i] {
      assert sorted[i] in r;
      var j :| 0 <= j < |r| && r[j] == sorted[i];
      assert sorted[i] == Member(sorted[i].key, sorted[i].value);
    }
    assert CanonicalMembers(sorted) == sorted;
    Arranged(sorted, sorted);
  }

  // ---------- Building the sorted object ----------

  predicate GoesBefore(m: Member, first: Member) {
    IsIndex(m.key) && (IsIndex(first.key) ==> Number(m.key) < Number(first.key))
  }

  /** Defining a property that is new: array indices stand by number before all other keys, those as they came. */
  function Define(members: seq<Member>, m: Member): seq<Member> {
    if members == [] then [m]
    else if members[0].key == m.key then [m] + members[1..]
    else if GoesBefore(m, members[0]) then [m] + members
    else [members[0]] + Define(members[1..], m)
  }

  /** A key no smaller than the others by code units is defined where the order of keys wants it. */
  lemma {:induction false} DefineKeepsOrder(members: seq<Member>, m: Member)
    requires Ascending(members, MemberNotAfter)
    requires forall i :: 0 <= i < |members| ==> members[i].key != m.key && UnitsNotAfter(members[i].key, m.key)
    ensures multiset(Define(members, m)) == multiset(members) + multiset{m}
    ensures Ascending(Define(members, m), MemberNotAfter)
  {
    hide GoesBefore, UnitsNotAfter, KeyNotAfter;
    if members != [] {
      assert members == [members[0]] + members[1..];
      PlaceIsRight(m, members[0]);
      if GoesBefore(m, members[0]) {
        KeysAreOrdered();
        forall i | 0 <= i < |members| ensures MemberNotAfter(m, members[i]) {
          assert i > 0 ==> MemberNotAfter(members[0], members[i]);
        }
      } else {
        DefineKeepsOrder(members[1..], m);
        var rest := Define(members[1..], m);
        forall i | 0 <= i < |rest| ensures MemberNotAfter(members[0], rest[i]) {
          assert rest[i] in multiset(rest);
          assert rest[i] == m || rest[i] in members[1..];
        }
        FirstThenRest(members[0], rest);
      }
    }
  }

  lemma FirstThenRest(first: Member, rest: seq<Member>)
    requires Ascending(rest, MemberNotAfter)
    requires forall i :: 0 <= i < |rest| ==> MemberNotAfter(first, rest[i])
    ensures Ascending([first] + rest, MemberNotAfter)
  {
    hide KeyNotAfter;
  }

  lemma PlaceIsRight(m: Member, first: Member)
    requires UnitsNotAfter(first.key, m.key)
    ensures GoesBefore(m, first) ==> MemberNotAfter(m, first)
    ensures !GoesBefore(m, first) ==> MemberNotAfter(first, m)
  {
    hide UnitsNotAfter, IsIndex;
    IndicesHaveNumbers(m.key);
    IndicesHaveNumbers(first.key);
  }

  const ByUnits := (a: Member, b: Member) => UnitsNotAfter(a.key, b.key)

  lemma UnitsAreOrdered()
    ensures IsOrdering(ByUnits)
  {
    forall a, b ensures ByUnits(a, b) || ByUnits(b, a) {
      UnitsAreTotal(a.key, b.key);
    }
    forall a, b, c | ByUnits(a, b) && ByUnits(b, c) ensures ByUnits(a, c) {
      UnitsAreTransitive(a.key, b.key, c.key);
    }
  }

  lemma KeysInOrder(members: seq<Member>)
    requires DistinctKeys(members)
    ensures var ordered := Sort(members, ByUnits);
            && multiset(ordered) == multiset(members) && |ordered| == |members|
            && Ascending(ordered, ByUnits) && DistinctKeys(ordered)
            && multiset(CanonicalMembers(ordered)) == multiset(CanonicalMembers(members))
  {
    hide UnitsNotAfter, Canonical;
    UnitsAreOrdered();
    SortSorts(members, ByUnits);
    var ordered := Sort(members, ByUnits);
    PermutationKeepsElements(members, ordered);
    PermutedKeys(members, ordered);
    DistinctMembers(members);
    DistinctMembers(ordered);
    AllMapped(members, ordered);
    AllMapped(ordered, members);
    SameDistinctElements(CanonicalMembers(ordered), CanonicalMembers(members));
  }

  lemma AllMapped(a: seq<Member>, b: seq<Member>)
    requires forall x :: x in a ==> x in b
    ensures forall x :: x in CanonicalMembers(a) ==> x in CanonicalMembers(b)
  {
    hide Canonical;
    forall x | x in CanonicalMembers(a) ensures x in CanonicalMembers(b) {
      var i :| 0 <= i < |CanonicalMembers(a)| && CanonicalMembers(a)[i] == x;
      assert a[i] in b;
      var j :| 0 <= j < |b| && b[j] == a[i];
      assert CanonicalMembers(b)[j] == x;
    }
  }

  lemma NextMember(ordered: seq<Member>, i: nat)
    requires i < |ordered|
    ensures CanonicalMembers(ordered[..i + 1]) ==
            CanonicalMembers(ordered[..i]) + [Member(ordered[i].key, Canonical(ordered[i].value))]
  {
    hide Canonical;
  }

  /** The keys defined so far are other keys, and none after the next by code units. */
  lemma KeysSoFar(ordered: seq<Member>, i: nat, sorted: seq<Member>)
    requires i < |ordered| && DistinctKeys(ordered) && Ascending(ordered, ByUnits)
    requires multiset(sorted) == multiset(CanonicalMembers(ordered[..i]))
    ensures forall k :: 0 <= k < |sorted| ==>
              sorted[k].key != ordered[i].key && UnitsNotAfter(sorted[k].key, ordered[i].key)
  {
    hide Canonical, UnitsNotAfter;
    PermutationKeepsElements(sorted, CanonicalMembers(ordered[..i]));
    forall k | 0 <= k < |sorted|
      ensures sorted[k].key != ordered[i].key && UnitsNotAfter(sorted[k].key, ordered[i].key)
    {
      assert sorted[k] in CanonicalMembers(ordered[..i]);
      var j :| 0 <= j < i && CanonicalMembers(ordered[..i])[j] == sorted[k];
      assert ByUnits(ordered[j], ordered[i]);
    }
  }

  lemma DefinesNext(ordered: seq<Member>, i: nat, sorted: seq<Member>)
    requires i < |ordered| && DistinctKeys(ordered) && Ascending(ordered, ByUnits)
    requires multiset(sorted) == multiset(CanonicalMembers(ordered[..i])) && Ascending(sorted, MemberNotAfter)
    ensures var next := Define(sorted, Member(ordered[i].key, Canonical(ordered[i].value)));
            && multiset(next) == multiset(CanonicalMembers(ordered[..i + 1]))
            && Ascending(next, MemberNotAfter)
  {
    hide Canonical, UnitsNotAfter, KeyNotAfter, Define, CanonicalMembers;
    KeysSoFar(ordered, i, sorted);
    DefineKeepsOrder(sorted, Member(ordered[i].key, Canonical(ordered[i].value)));
    NextMember(ordered, i);
  }

  /** Each object is rebuilt by defining its keys one by one in sorted order. */
  method SortedKeys(v: Json) returns (r: Json)
    requires Valid(v)
    ensures r == Canonical(v)
    decreases v
  {
    hide Canonical, CanonicalMembers, Define, DistinctKeys, KeyNotAfter;
    match v
    case Arr(items) =>
      var mapped: seq<Json> := [];
      for i := 0 to |items|
        invariant |mapped| == i && forall j :: 0 <= j < i ==> mapped[j] == Canonical(items[j])
      {
        var item := SortedKeys(items[i]);
        mapped := mapped + [item];
      }
      MappedItems(items, mapped);
      r := Arr(mapped);
    case Obj(members) =>
      KeysInOrder(members);
      var ordered := Sort(members, ByUnits);
      PermutationKeepsElements(members, ordered);
      var sorted: seq<Member> := [];
      for i := 0 to |ordered|
        invariant multiset(sorted) == multiset(CanonicalMembers(ordered[..i]))
        invariant Ascending(sorted, MemberNotAfter)
      {
        assert ordered[i] in members;
        var child := SortedKeys(ordered[i].value);
        DefinesNext(ordered, i, sorted);
        sorted := Define(sorted, Member(ordered[i].key, child));
      }
      assert ordered[..|ordered|] == ordered;
      Arranged(members, sorted);
      r := Obj(sorted);
    case _ =>
      CanonicalKeepsKind(v);
      r := v;
  }

  lemma MappedItems(items: seq<Json>, mapped: seq<Json>)
    requires |mapped| == |items| && forall i :: 0 <= i < |items| ==> mapped[i] == Canonical(items[i])
    ensures Canonical(Arr(items)) == Arr(mapped)
  {
    assert Canonical(Arr(items)).items == mapped;
  }

  // ---------- Alphabetical or not ----------

  /** Both print array indices, and the first no larger one. */
  predicate IndexUpTo(a: Text, b: Text) {
    IsIndex(a) && IsIndex(b) && Number(a) <= Number(b)
  }

  /** No array-index key stands, by code units, behind a key that is none or that prints a larger number. */
  ghost predicate IndicesInPlace(m: seq<Member>) {
    forall i, j :: 0 <= i < |m| && 0 <= j < |m| && IsIndex(m[i].key) && UnitsNotAfter(m[j].key, m[i].key) ==>
      IndexUpTo(m[j].key, m[i].key)
  }

  lemma UnitsNotAfterItself(a: Text)
    ensures UnitsNotAfter(a, a)
  {
    UnitsAreTotal(a, a);
  }

  /** The enumeration order of two keys is their order by code units unless an index stands behind another key. */
  lemma InPlaceAgrees(a: Text, b: Text)
    requires KeyNotAfter(a, b)
    requires IsIndex(a) && UnitsNotAfter(b, a) ==> IndexUpTo(b, a)
    ensures UnitsNotAfter(a, b)
  {
    hide UnitsNotAfter;
    UnitsAreTotal(a, b);
    UnitsNotAfterItself(a);
    if IsIndex(a) && UnitsNotAfter(b, a) {
      DecimalIsUnique(a, b);
    }
  }

  lemma SortedKeepsKeys(m: seq<Member>)
    requires DistinctKeys(m)
    ensures Canonical(Obj(m)).Obj?
    ensures var sorted := Canonical(Obj(m)).members;
            && Ascending(sorted, MemberNotAfter)
            && (forall p :: 0 <= p < |sorted| ==> HasKey(m, sorted[p].key))
            && (forall i :: 0 <= i < |m| ==> HasKey(sorted, m[i].key))
  {
    hide Canonical, KeyNotAfter, CanonicalMembers;
    CanonicalObject(m);
    var sorted, r := Canonical(Obj(m)).members, CanonicalMembers(m);
    PermutationKeepsElements(r, sorted);
    forall p | 0 <= p < |sorted| ensures HasKey(m, sorted[p].key) {
      assert sorted[p] in r;
      var i :| 0 <= i < |r| && r[i] == sorted[p];
      assert m[i].key == sorted[p].key;
    }
    forall i | 0 <= i < |m| ensures HasKey(sorted, m[i].key) {
      assert r[i] in sorted;
      var p :| 0 <= p < |sorted| && sorted[p] == r[i];
      assert sorted[p].key == m[i].key;
    }
  }

  /**
    * The keys of an object come out in alphabetical order exactly when its array indices stand, by code units, before
    * all its other keys and among themselves by their numbers.
    */
  lemma AlphabeticalExactlyWhenIndicesInPlace(m: seq<Member>)
    requires DistinctKeys(m)
    ensures Canonical(Obj(m)).Obj?
    ensures Ascending(Canonical(Obj(m)).members, ByUnits) <==> IndicesInPlace(m)
  {
    hide Canonical, KeyNotAfter, UnitsNotAfter, IsIndex, IndexUpTo, HasKey, DistinctKeys;
    SortedKeepsKeys(m);
    var sorted := Canonical(Obj(m)).members;
    if IndicesInPlace(m) {
      forall p, q | 0 <= p < q < |sorted| ensures ByUnits(sorted[p], sorted[q]) {
        var i, j := Position(m, sorted[p].key), Position(m, sorted[q].key);
        assert MemberNotAfter(sorted[p], sorted[q]);
        InPlaceAgrees(m[i].key, m[j].key);
      }
    }
    if Ascending(sorted, ByUnits) {
      forall i, j | 0 <= i < |m| && 0 <= j < |m| && IsIndex(m[i].key) && UnitsNotAfter(m[j].key, m[i].key)
        ensures IndexUpTo(m[j].key, m[i].key)
      {
        AscendingKeepsIndicesInPlace(sorted, m[i].key, m[j].key);
      }
    }
  }

  lemma AscendingKeepsIndicesInPlace(sorted: seq<Member>, a: Text, b: Text)
    requires HasKey(sorted, a) && HasKey(sorted, b) && IsIndex(a) && UnitsNotAfter(b, a)
    requires Ascending(sorted, ByUnits) && Ascending(sorted, MemberNotAfter)
    ensures IndexUpTo(b, a)
  {
    hide UnitsNotAfter, IsIndex, HasKey, KeyNotAfter, IndexUpTo;
    var p, q := Position(sorted, a), Position(sorted, b);
    if q < p {
      assert MemberNotAfter(sorted[q], sorted[p]);
    } else if p < q {
      assert ByUnits(sorted[p], sorted[q]);
      UnitsAreTotal(a, b);
    }
    BackwardIndex(b, a);
  }

  lemma BackwardIndex(a: Text, b: Text)
    requires IsIndex(b) && (KeyNotAfter(a, b) || a == b)
    ensures IndexUpTo(a, b)
  {
  }

  /** With array indices among them they are not: "9" stands before "10". */
  lemma IndicesAreNotAlphabetical()
    ensures var nine, ten := Member([57], Null), Member([49, 48], Null);
            Canonical(Obj([ten, nine])) == Obj([nine, ten]) && !UnitsNotAfter(nine.key, ten.key)
  {
    hide IsIndex, Number, UnitsNotAfter;
    var nine, ten := Member([57], Null), Member([49, 48], Null);
    NineAndTen();
    assert CanonicalMembers([ten, nine]) == [ten, nine];
    assert multiset([nine, ten]) == multiset([ten, nine]);
    Arranged([ten, nine], [nine, ten]);
  }

  lemma NineAndTen()
    ensures IsIndex([57]) && Number([57]) == 9
    ensures IsIndex([49, 48]) && Number([49, 48]) == 10
    ensures !UnitsNotAfter([57], [49, 48])
  {
    assert Number([49]) == 1;
    assert [49, 48][..1] == [49];
  }
}
