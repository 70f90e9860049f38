/**
  * Applying a set of migrations to a database: what is checked beforehand, and what any number of calls, failing at
  * any points, leave behind. What one statement does to the data is any partial function of the data.
  */
module MigrationEngine {
  import opened Selection
  import opened Sorting
  import SqlScript
  import opened TextOrder
  import opened Whitespace
  import opened Wrappers

  datatype Owner = Owner(text: string)

  datatype Checksum = Checksum(text: string)

  datatype Script = Script(owner: Option<Owner>, version: int, name: string, sql: string, checksum: Checksum)

  datatype Identity = Identity(owner: Owner, version: int)

  const PLATFORM := Owner("platform")
  const MAX_SAFE_INTEGER := 0x1f_ffff_ffff_ffff

  function OwnerOf(m: Script): Owner {
    if m.owner.Some? then m.owner.value else PLATFORM
  }

  function IdentityOf(m: Script): Identity {
    Identity(OwnerOf(m), m.version)
  }

  /** A script without an owner is the platform's. */
  lemma OwnerByField(m: Script)
    ensures m.owner.Some? ==> OwnerOf(m) == m.owner.value
    ensures m.owner.None? ==> OwnerOf(m).text == "platform"
    ensures IdentityOf(m).owner == OwnerOf(m) && IdentityOf(m).version == m.version
  {
  }

  datatype MigrationError =
    | InvalidDefinition
    | Duplicate(id: Identity)
    | EmptySql(id: Identity)
    | MissingVersion(owner: Owner, version: int)
    | Removed(id: Identity)
    | ChecksumMismatch(id: Identity)
    | Failed(id: Identity)

  // ---------- What a supplied set must satisfy ----------

  predicate WellFormed(m: Script) {
    && 0 < m.version <= 9007199254740991
    && !IsBlank(OwnerOf(m).text) && !IsBlank(m.name) && !IsBlank(m.checksum.text) && !IsBlank(m.sql)
  }

  ghost predicate Supplied(ms: seq<Script>, id: Identity) {
    exists i :: 0 <= i < |ms| && IdentityOf(ms[i]) == id
  }

  /** Each script by itself and against those before it. */
  ghost predicate DefinitionFine(ms: seq<Script>, i: nat)
    requires i < |ms|
  {
    WellFormed(ms[i]) && !Supplied(ms[..i], IdentityOf(ms[i])) && SqlScript.Split(ms[i].sql) != []
  }

  ghost predicate DefinitionsFine(ms: seq<Script>) {
    forall i :: 0 <= i < |ms| ==> DefinitionFine(ms, i)
  }

  /** No owner's versions leave one out below the highest. */
  ghost predicate Gapless(ms: seq<Script>) {
    forall i, v :: 0 <= i < |ms| && 1 <= v < ms[i].version ==> Supplied(ms, Identity(OwnerOf(ms[i]), v))
  }

  ghost predicate ValidSet(ms: seq<Script>) {
    DefinitionsFine(ms) && Gapless(ms)
  }

  /** The versions supplied for each owner, each once. */
  ghost predicate Grouped(ms: seq<Script>, versions: map<Owner, seq<int>>) {
    && (forall o, v :: o in versions && v in versions[o] <==> Supplied(ms, Identity(o, v)))
    && (forall o :: o in versions ==> versions[o] != [])
    && (forall o :: o in versions ==> Distinct(versions[o]))
  }

  // ---------- Order ----------

  /** Owners as the collation ranks them, then versions. */
  function ByOwnerThenVersion(collation: (Owner, Owner) -> bool): (Script, Script) -> bool {
    (a, b) =>
      if !collation(OwnerOf(b), OwnerOf(a)) then true
      else if !collation(OwnerOf(a), OwnerOf(b)) then false
      else a.version <= b.version
  }

  lemma OrderIsOrdering(collation: (Owner, Owner) -> bool)
    requires IsOrdering(collation)
    ensures IsOrdering(ByOwnerThenVersion(collation))
  {
    var order := ByOwnerThenVersion(collation);
    forall a, b, c | order(a, b) && order(b, c) ensures order(a, c) {
      var x, y, z := OwnerOf(a), OwnerOf(b), OwnerOf(c);
      assert collation(x, y) && collation(y, z);
      assert collation(x, z);
      assert collation(z, x) ==> collation(z, y) && collation(y, x);
    }
  }

  function Sorted(ms: seq<Script>, collation: (Owner, Owner) -> bool): seq<Script> {
    Sort(ms, ByOwnerThenVersion(collation))
  }

  // ---------- Applying ----------

  /** The data, and the applied migrations with the checksums they were applied under. */
  datatype Database<D> = Database(data: D, applied: map<Identity, Checksum>)

  type Engine<!D> = (string, D) -> Option<D>

  /** Statements one after the other; the first that fails fails them all. */
  function Execute<D>(exec: Engine<D>, statements: seq<string>, d: D): Option<D> {
    if statements == [] then Some(d)
    else
      var n := |statements| - 1;
      var before := Execute(exec, statements[..n], d);
      if before.None? then None else exec(statements[n], before.value)
  }

  datatype Progress<D> = Progress(db: Database<D>, count: nat, error: Option<MigrationError>)

  /** One migration: skipped if applied before, else applied in a transaction that may be interrupted. */
  function Step<D>(exec: Engine<D>, p: Progress<D>, m: Script, interrupted: bool): Progress<D> {
    var id := IdentityOf(m);
    if id in p.db.applied then
      if p.db.applied[id] == m.checksum then p else p.(error := Some(ChecksumMismatch(id)))
    else
      var data := if interrupted then None else Execute(exec, SqlScript.Split(m.sql), p.db.data);
      if data.None? then p.(error := Some(Failed(id)))
      else Progress(Database(data.value, p.db.applied[id := m.checksum]), p.count + 1, None)
  }

  /** The first `n` migrations in order, stopping at the first error. */
  function ApplyUpTo<D>(exec: Engine<D>, db: Database<D>, sorted: seq<Script>, interrupted: nat -> bool, n: nat)
    : Progress<D>
    requires n <= |sorted|
  {
    if n == 0 then Progress(db, 0, None)
    else
      var p := ApplyUpTo(exec, db, sorted, interrupted, n - 1);
      if p.error.Some? then p else Step(exec, p, sorted[n - 1], interrupted(n - 1))
  }

  lemma {:induction false} ErrorStays<D>(exec: Engine<D>, db: Database<D>, sorted: seq<Script>,
                                         interrupted: nat -> bool, m: nat, n: nat)
    requires m <= n <= |sorted| && ApplyUpTo(exec, db, sorted, interrupted, m).error.Some?
    ensures ApplyUpTo(exec, db, sorted, interrupted, n) == ApplyUpTo(exec, db, sorted, interrupted, m)
  {
    if m < n {
      ErrorStays(exec, db, sorted, interrupted, m, n - 1);
    }
  }

  /** No applied migration of an owner in the set is missing from it. */
  ghost predicate NothingRemoved(applied: map<Identity, Checksum>, ms: seq<Script>) {
    forall id :: id in applied && (exists i :: 0 <= i < |ms| && OwnerOf(ms[i]) == id.owner) ==> Supplied(ms, id)
  }

  ghost predicate CanStart<D>(db: Database<D>, ms: seq<Script>) {
    ValidSet(ms) && NothingRemoved(db.applied, ms)
  }

  /** What a whole call comes to. */
  ghost function AfterCall<D>(exec: Engine<D>, collation: (Owner, Owner) -> bool, db: Database<D>, ms: seq<Script>,
                              interrupted: nat -> bool): Database<D>
  {
    if CanStart(db, ms) then ApplyUpTo(exec, db, Sorted(ms, collation), interrupted, |Sorted(ms, collation)|).db else db
  }

  ghost predicate Succeeds<D>(exec: Engine<D>, collation: (Owner, Owner) -> bool, db: Database<D>, ms: seq<Script>,
                              interrupted: nat -> bool)
  {
    && CanStart(db, ms)
    && ApplyUpTo(exec, db, Sorted(ms, collation), interrupted, |Sorted(ms, collation)|).error.None?
  }

  // ---------- Applied versions are prefixes ----------

  /** Every owner's applied versions are 1 up to some k. */
  ghost predicate PrefixPerOwner(applied: map<Identity, Checksum>) {
    forall id :: id in applied ==>
      id.version >= 1 && forall v :: 1 <= v < id.version ==> Identity(id.owner, v) in applied
  }

  lemma SortedSupplies(ms: seq<Script>, collation: (Owner, Owner) -> bool)
    requires IsOrdering(collation)
    ensures multiset(Sorted(ms, collation)) == multiset(ms)
    ensures |Sorted(ms, collation)| == |ms|
    ensures Ascending(Sorted(ms, collation), ByOwnerThenVersion(collation))
    ensures forall id :: Supplied(Sorted(ms, collation), id) <==> Supplied(ms, id)
  {
    OrderIsOrdering(collation);
    SortSorts(ms, ByOwnerThenVersion(collation));
    var sorted := Sorted(ms, collation);
    PermutationKeepsElements(sorted, ms);
    forall id ensures Supplied(sorted, id) <==> Supplied(ms, id) {
      if Supplied(sorted, id) {
        var i :| 0 <= i < |sorted| && IdentityOf(sorted[i]) == id;
        assert sorted[i] in ms;
      }
      if Supplied(ms, id) {
        var i :| 0 <= i < |ms| && IdentityOf(ms[i]) == id;
        assert ms[i] in sorted;
      }
    }
  }

  /** In order, an owner's earlier versions come first. */
  lemma EarlierVersionsFirst(ms: seq<Script>, collation: (Owner, Owner) -> bool, k: nat, v: int)
    requires IsOrdering(collation) && ValidSet(ms)
    requires k < |Sorted(ms, collation)| && 1 <= v < Sorted(ms, collation)[k].version
    ensures Supplied(Sorted(ms, collation)[..k], Identity(OwnerOf(Sorted(ms, collation)[k]), v))
  {
    hide Sorted, WellFormed;
    var sorted := Sorted(ms, collation);
    SortedSupplies(ms, collation);
    PermutationKeepsElements(sorted, ms);
    assert sorted[k] in ms;
    var i :| 0 <= i < |ms| && ms[i] == sorted[k];
    var id := Identity(OwnerOf(ms[i]), v);
    assert Supplied(ms, id);
    var j :| 0 <= j < |sorted| && IdentityOf(sorted[j]) == id;
    assert sorted[..k][j] == sorted[j];
  }

  /** A step adds its own migration or nothing, and changes no migration applied before. */
  lemma StepApplies<D>(exec: Engine<D>, p: Progress<D>, m: Script, interrupted: bool)
    ensures var q := Step(exec, p, m, interrupted);
            && (q.db.applied == p.db.applied || q.db.applied == p.db.applied[IdentityOf(m) := m.checksum])
            && (p.error.None? && q.error.None? ==>
                  IdentityOf(m) in q.db.applied && q.db.applied[IdentityOf(m)] == m.checksum)
            && (forall id :: id in p.db.applied ==> id in q.db.applied && q.db.applied[id] == p.db.applied[id])
            && (q.error.Some? ==> q.db == p.db)
  {
    hide Execute, SqlScript.Split;
  }

  lemma NextVersionExtendsPrefix(applied: map<Identity, Checksum>, id: Identity, checksum: Checksum)
    requires PrefixPerOwner(applied) && id.version >= 1
    requires forall v :: 1 <= v < id.version ==> Identity(id.owner, v) in applied
    ensures PrefixPerOwner(applied[id := checksum])
  {
  }

  /** What one call leaves of the prefixes and of the migrations it has gone past. */
  lemma {:induction false} ApplyKeepsPrefixes<D>(exec: Engine<D>, collation: (Owner, Owner) -> bool, db: Database<D>,
                                                 ms: seq<Script>, interrupted: nat -> bool, n: nat)
    requires IsOrdering(collation) && ValidSet(ms) && PrefixPerOwner(db.applied)
    requires n <= |Sorted(ms, collation)|
    ensures var p := ApplyUpTo(exec, db, Sorted(ms, collation), interrupted, n);
            && PrefixPerOwner(p.db.applied)
            && (p.error.None? ==> forall id :: Supplied(Sorted(ms, collation)[..n], id) ==> id in p.db.applied)
  {
    hide Sorted, ValidSet, Step, PrefixPerOwner, Supplied;
    if n == 0 {
      NoneSupplied(Sorted(ms, collation));
    } else {
      var sorted := Sorted(ms, collation);
      ApplyKeepsPrefixes(exec, collation, db, ms, interrupted, n - 1);
      var p := ApplyUpTo(exec, db, sorted, interrupted, n - 1);
      if p.error.None? {
        StepApplies(exec, p, sorted[n - 1], interrupted(n - 1));
        VersionsArePositive(ms, collation, n - 1);
        var id := IdentityOf(sorted[n - 1]);
        forall v | 1 <= v < id.version ensures Identity(id.owner, v) in p.db.applied {
          EarlierVersionsFirst(ms, collation, n - 1, v);
        }
        NextVersionExtendsPrefix(p.db.applied, id, sorted[n - 1].checksum);
        SuppliedNext(sorted, n - 1);
      }
    }
  }

  lemma NoneSupplied(ms: seq<Script>)
    ensures forall id :: !Supplied(ms[..0], id)
  {
  }

  lemma SuppliedNext(ms: seq<Script>, n: nat)
    requires n < |ms|
    ensures forall id :: Supplied(ms[..n + 1], id) <==> Supplied(ms[..n], id) || id == IdentityOf(ms[n])
  {
    forall id ensures Supplied(ms[..n + 1], id) <==> Supplied(ms[..n], id) || id == IdentityOf(ms[n]) {
      if Supplied(ms[..n], id) {
        var i :| 0 <= i < n && IdentityOf(ms[..n][i]) == id;
        assert ms[..n + 1][i] == ms[..n][i];
      }
      if id == IdentityOf(ms[n]) {
        assert ms[..n + 1][n] == ms[n];
      }
      if Supplied(ms[..n + 1], id) {
        var i :| 0 <= i < n + 1 && IdentityOf(ms[..n + 1][i]) == id;
        if i < n {
          assert ms[..n][i] == ms[..n + 1][i];
        }
      }
    }
  }

  lemma VersionsArePositive(ms: seq<Script>, collation: (Owner, Owner) -> bool, k: nat)
    requires IsOrdering(collation) && ValidSet(ms) && k < |Sorted(ms, collation)|
    ensures Sorted(ms, collation)[k].version >= 1
  {
    hide Sorted;
    var sorted := Sorted(ms, collation);
    SortedSupplies(ms, collation);
    PermutationKeepsElements(sorted, ms);
    assert sorted[k] in ms;
    var i :| 0 <= i < |ms| && ms[i] == sorted[k];
    assert DefinitionFine(ms, i);
  }

  /** A call with any set, its own statements and its own interruptions. */
  datatype Call<!D> = Call(exec: Engine<D>, ms: seq<Script>, interrupted: nat -> bool)

  ghost function AfterCalls<D>(collation: (Owner, Owner) -> bool, db: Database<D>, calls: seq<Call<D>>): Database<D> {
    if calls == [] then db
    else
      var n := |calls| - 1;
      AfterCall(calls[n].exec, collation, AfterCalls(collation, db, calls[..n]), calls[n].ms, calls[n].interrupted)
  }

  /**
    * Whatever sets are supplied and wherever calls fail, each owner's applied versions are always 1 up to some k.
    */
  lemma {:induction false} AppliedVersionsArePrefixes<D>(collation: (Owner, Owner) -> bool, db: Database<D>,
                                                         calls: seq<Call<D>>)
    requires IsOrdering(collation) && PrefixPerOwner(db.applied)
    ensures PrefixPerOwner(AfterCalls(collation, db, calls).applied)
  {
    if calls != [] {
      var n := |calls| - 1;
      AppliedVersionsArePrefixes(collation, db, calls[..n]);
      var before := AfterCalls(collation, db, calls[..n]);
      if CanStart(before, calls[n].ms) {
        ApplyKeepsPrefixes(calls[n].exec, collation, before, calls[n].ms, calls[n].interrupted,
                           |Sorted(calls[n].ms, collation)|);
      }
    }
  }

  /** From a database with nothing applied: no version is ever applied without all those before it, from 1 on. */
  lemma NoVersionIsSkipped<D>(collation: (Owner, Owner) -> bool, data: D, calls: seq<Call<D>>, id: Identity, v: int)
    requires IsOrdering(collation)
    requires id in AfterCalls(collation, Database(data, map[]), calls).applied
    ensures id.version >= 1
    ensures 1 <= v < id.version ==> Identity(id.owner, v) in AfterCalls(collation, Database(data, map[]), calls).applied
  {
    AppliedVersionsArePrefixes(collation, Database(data, map[]), calls);
  }

  // ---------- Repeating a call ----------

  const Calm := (k: nat) => false

  /** The first `n` migrations, nothing interrupting. */
  function Whole<D>(exec: Engine<D>, db: Database<D>, sorted: seq<Script>, n: nat): Progress<D>
    requires n <= |sorted|
  {
    ApplyUpTo(exec, db, sorted, Calm, n)
  }

  lemma {:induction false} GonePast<D>(exec: Engine<D>, db: Database<D>, sorted: seq<Script>, interrupted: nat -> bool,
                                       n: nat, i: nat)
    requires i < n <= |sorted| && ApplyUpTo(exec, db, sorted, interrupted, n).error.None?
    ensures var applied := ApplyUpTo(exec, db, sorted, interrupted, n).db.applied;
            IdentityOf(sorted[i]) in applied && applied[IdentityOf(sorted[i])] == sorted[i].checksum
  {
    hide Step;
    var p := ApplyUpTo(exec, db, sorted, interrupted, n - 1);
    if p.error.None? {
      StepApplies(exec, p, sorted[n - 1], interrupted(n - 1));
      if i < n - 1 {
        GonePast(exec, db, sorted, interrupted, n - 1, i);
      }
    }
  }

  /** A call that starts where an undisturbed one would be after `k` migrations ends where that one passes. */
  lemma {:induction false} Resumes<D>(exec: Engine<D>, db: Database<D>, sorted: seq<Script>, interrupted: nat -> bool,
                                      k: nat, n: nat) returns (e: nat)
    requires k <= |sorted| && n <= |sorted| && Whole(exec, db, sorted, k).error.None?
    ensures k <= e <= |sorted| && Whole(exec, db, sorted, e).error.None?
    ensures var p := ApplyUpTo(exec, Whole(exec, db, sorted, k).db, sorted, interrupted, n);
            && p.db == Whole(exec, db, sorted, e).db
            && (p.error.None? ==> e == if n < k then k else n)
  {
    hide Execute, SqlScript.Split;
    e := k;
    if n > 0 {
      var start := Whole(exec, db, sorted, k).db;
      e := Resumes(exec, db, sorted, interrupted, k, n - 1);
      var p := ApplyUpTo(exec, start, sorted, interrupted, n - 1);
      if p.error.None? {
        if n <= k {
          GonePast(exec, db, sorted, Calm, k, n - 1);
        } else if ApplyUpTo(exec, start, sorted, interrupted, n).error.None? {
          e := n;
        }
      }
    }
  }

  /** Calls with one set, each interrupted in its own way. */
  function SameSet<D>(exec: Engine<D>, ms: seq<Script>, attempts: seq<nat -> bool>): (calls: seq<Call<D>>)
    ensures |calls| == |attempts|
    ensures forall i :: 0 <= i < |calls| ==> calls[i] == Call(exec, ms, attempts[i])
  {
    seq(|attempts|, i requires 0 <= i < |attempts| => Call(exec, ms, attempts[i]))
  }

  lemma {:induction false} AttemptsReach<D>(exec: Engine<D>, collation: (Owner, Owner) -> bool, db: Database<D>,
                                            ms: seq<Script>, attempts: seq<nat -> bool>) returns (e: nat)
    ensures e <= |Sorted(ms, collation)| && Whole(exec, db, Sorted(ms, collation), e).error.None?
    ensures AfterCalls(collation, db, SameSet(exec, ms, attempts)) == Whole(exec, db, Sorted(ms, collation), e).db
  {
    hide Sorted, CanStart, Step;
    var sorted := Sorted(ms, collation);
    if attempts == [] {
      e := 0;
    } else {
      var n := |attempts| - 1;
      e := AttemptsReach(exec, collation, db, ms, attempts[..n]);
      assert SameSet(exec, ms, attempts)[..n] == SameSet(exec, ms, attempts[..n]);
      if CanStart(Whole(exec, db, sorted, e).db, ms) {
        e := Resumes(exec, db, sorted, attempts[n], e, |sorted|);
      }
    }
  }

  /**
    * After any number of calls with one set, failing wherever they did, a call that succeeds leaves the database as
    * one undisturbed call would have left it, and that one would have succeeded.
    */
  lemma RetriesEndAsOneRun<D>(exec: Engine<D>, collation: (Owner, Owner) -> bool, db: Database<D>, ms: seq<Script>,
                              attempts: seq<nat -> bool>, last: nat -> bool)
    requires Succeeds(exec, collation, AfterCalls(collation, db, SameSet(exec, ms, attempts)), ms, last)
    ensures Succeeds(exec, collation, db, ms, Calm)
    ensures AfterCall(exec, collation, AfterCalls(collation, db, SameSet(exec, ms, attempts)), ms, last) ==
            AfterCall(exec, collation, db, ms, Calm)
  {
    hide Sorted, ValidSet, Step;
    var sorted := Sorted(ms, collation);
    var e := AttemptsReach(exec, collation, db, ms, attempts);
    var end := Resumes(exec, db, sorted, last, e, |sorted|);
    forall id | id in db.applied ensures id in Whole(exec, db, sorted, e).db.applied {
      AppliedStays(exec, db, sorted, Calm, e, id);
    }
  }

  lemma {:induction false} AppliedStays<D>(exec: Engine<D>, db: Database<D>, sorted: seq<Script>,
                                           interrupted: nat -> bool, n: nat, id: Identity)
    requires n <= |sorted|
    ensures var applied := ApplyUpTo(exec, db, sorted, interrupted, n).db.applied;
            && (id in db.applied ==> id in applied && applied[id] == db.applied[id])
            && (id in applied ==> id in db.applied || Supplied(sorted[..n], id))
  {
    hide Step, Supplied;
    if n > 0 {
      AppliedStays(exec, db, sorted, interrupted, n - 1, id);
      StepApplies(exec, ApplyUpTo(exec, db, sorted, interrupted, n - 1), sorted[n - 1], interrupted(n - 1));
      SuppliedNext(sorted, n - 1);
    }
  }

  /** After a call that succeeded, another one with the same set succeeds and applies nothing, whatever interrupts. */
  lemma FurtherCallAppliesNothing<D>(exec: Engine<D>, collation: (Owner, Owner) -> bool, db: Database<D>,
                                     ms: seq<Script>, interrupted: nat -> bool, later: nat -> bool)
    requires IsOrdering(collation) && Succeeds(exec, collation, db, ms, interrupted)
    ensures var after := AfterCall(exec, collation, db, ms, interrupted);
            && Succeeds(exec, collation, after, ms, later)
            && AfterCall(exec, collation, after, ms, later) == after
            && ApplyUpTo(exec, after, Sorted(ms, collation), later, |Sorted(ms, collation)|).count == 0
  {
    hide Sorted, ValidSet, Step;
    var sorted := Sorted(ms, collation);
    var after := AfterCall(exec, collation, db, ms, interrupted);
    SortedSupplies(ms, collation);
    forall id | id in after.applied && (exists i :: 0 <= i < |ms| && OwnerOf(ms[i]) == id.owner)
      ensures Supplied(ms, id)
    {
      AppliedStays(exec, db, sorted, interrupted, |sorted|, id);
      assert sorted[..|sorted|] == sorted;
    }
    forall i | 0 <= i < |sorted|
      ensures IdentityOf(sorted[i]) in after.applied && after.applied[IdentityOf(sorted[i])] == sorted[i].checksum
    {
      GonePast(exec, db, sorted, interrupted, |sorted|, i);
    }
    AppliedAreSkipped(exec, after, sorted, later, |sorted|);
  }

  lemma {:induction false} AppliedAreSkipped<D>(exec: Engine<D>, db: Database<D>, sorted: seq<Script>,
                                                interrupted: nat -> bool, n: nat)
    requires n <= |sorted|
    requires forall i :: 0 <= i < n ==>
               IdentityOf(sorted[i]) in db.applied && db.applied[IdentityOf(sorted[i])] == sorted[i].checksum
    ensures ApplyUpTo(exec, db, sorted, interrupted, n) == Progress(db, 0, None)
  {
    if n > 0 {
      AppliedAreSkipped(exec, db, sorted, interrupted, n - 1);
    }
  }

  // ---------- Exactly once, in order ----------

  /** Of the first `n` migrations, those not applied before. */
  function Pending(applied: map<Identity, Checksum>, sorted: seq<Script>, n: nat): seq<Script>
    requires n <= |sorted|
  {
    if n == 0 then []
    else Pending(applied, sorted, n - 1) + if IdentityOf(sorted[n - 1]) in applied then [] else [sorted[n - 1]]
  }

  /** All their statements, one script after the other. */
  function Statements(scripts: seq<Script>): seq<string> {
    if scripts == [] then []
    else Statements(scripts[..|scripts| - 1]) + SqlScript.Split(scripts[|scripts| - 1].sql)
  }

  lemma {:induction false} ExecuteInTwoParts<D>(exec: Engine<D>, a: seq<string>, b: seq<string>, d: D)
    ensures Execute(exec, a + b, d) ==
            if Execute(exec, a, d).None? then None else Execute(exec, b, Execute(exec, a, d).value)
  {
    if b == [] {
      assert a + b == a;
    } else {
      var n := |b| - 1;
      ExecuteInTwoParts(exec, a, b[..n], d);
      assert (a + b)[..|a + b| - 1] == a + b[..n];
    }
  }

  /** The states the data goes through, one after each statement, each statement run once on the state before it. */
  ghost predicate RunsThrough<D>(exec: Engine<D>, statements: seq<string>, states: seq<D>) {
    && |states| == |statements| + 1
    && forall i :: 0 <= i < |statements| ==> exec(statements[i], states[i]) == Some(states[i + 1])
  }

  ghost predicate Leads<D(!new)>(exec: Engine<D>, statements: seq<string>, from: D, to: D) {
    exists states ::
      RunsThrough(exec, statements, states) && states[0] == from && states[|statements|] == to
  }

  lemma {:induction false} LeadsMeansExecute<D(!new)>(exec: Engine<D>, statements: seq<string>, states: seq<D>)
    requires RunsThrough(exec, statements, states)
    ensures Execute(exec, statements, states[0]) == Some(states[|statements|])
  {
    if statements != [] {
      var n := |statements| - 1;
      LeadsMeansExecute(exec, statements[..n], states[..n + 1]);
    }
  }

  lemma {:induction false} ExecuteMeansLeads<D(!new)>(exec: Engine<D>, statements: seq<string>, from: D)
    returns (states: seq<D>)
    requires Execute(exec, statements, from).Some?
    ensures RunsThrough(exec, statements, states) && states[0] == from
    ensures Execute(exec, statements, from) == Some(states[|statements|])
  {
    if statements == [] {
      states := [from];
    } else {
      var n := |statements| - 1;
      var before := ExecuteMeansLeads(exec, statements[..n], from);
      states := before + [Execute(exec, statements, from).value];
      assert forall i :: 0 <= i < n ==> statements[..n][i] == statements[i];
    }
  }

  /** A list of statements succeeds exactly when each of them, run once and in order, does. */
  lemma ExecuteIsOnceEach<D(!new)>(exec: Engine<D>, statements: seq<string>, from: D, to: D)
    ensures Execute(exec, statements, from) == Some(to) <==> Leads(exec, statements, from, to)
  {
    hide Execute;
    if Execute(exec, statements, from) == Some(to) {
      var states := ExecuteMeansLeads(exec, statements, from);
    }
    if Leads(exec, statements, from, to) {
      var states :| RunsThrough(exec, statements, states) && states[0] == from && states[|statements|] == to;
      LeadsMeansExecute(exec, statements, states);
    }
  }

  /** The statements of some scripts are each script's own, as the splitter gives them, one script after the other. */
  lemma {:induction false} StatementsScriptByScript(a: seq<Script>, b: seq<Script>, m: Script)
    ensures Statements([]) == [] && Statements([m]) == SqlScript.Split(m.sql)
    ensures Statements(a + b) == Statements(a) + Statements(b)
    decreases |b|
  {
    hide SqlScript.Split, Statements;
    NoStatements();
    StatementsOfLast([], m);
    assert [] + [m] == [m];
    if b == [] {
      assert a + b == a;
    } else {
      var n := |b| - 1;
      StatementsScriptByScript(a, b[..n], m);
      StatementsOfLast(a + b[..n], b[n]);
      StatementsOfLast(b[..n], b[n]);
      assert a + b[..n] + [b[n]] == a + b && b[..n] + [b[n]] == b;
      Regroup(Statements(a), Statements(b[..n]), SqlScript.Split(b[n].sql));
    }
  }

  lemma NoStatements()
    ensures Statements([]) == []
  {
  }

  lemma Regroup(a: seq<string>, b: seq<string>, c: seq<string>)
    ensures a + b + c == a + (b + c)
  {
  }

  /** The pending migrations are those supplied and not applied before, each once, by owner and then by version. */
  lemma PendingExactly(applied: map<Identity, Checksum>, ms: seq<Script>, collation: (Owner, Owner) -> bool)
    requires IsOrdering(collation) && DefinitionsFine(ms)
    ensures var pending := Pending(applied, Sorted(ms, collation), |Sorted(ms, collation)|);
            && (forall m :: m in pending <==> m in ms && IdentityOf(m) !in applied)
            && (forall i, j :: 0 <= i < j < |pending| ==>
                  && pending[i] != pending[j]
                  && collation(OwnerOf(pending[i]), OwnerOf(pending[j]))
                  && (OwnerOf(pending[i]) == OwnerOf(pending[j]) ==> pending[i].version < pending[j].version))
  {
    hide Sorted, DefinitionsFine, Pending;
    var sorted := Sorted(ms, collation);
    var pending := Pending(applied, sorted, |sorted|);
    SortedSupplies(ms, collation);
    PermutationKeepsElements(sorted, ms);
    PendingFromSorted(applied, sorted, |sorted|);
    forall m ensures m in pending <==> m in ms && IdentityOf(m) !in applied {
      assert m in sorted <==> m in ms;
    }
    forall i, j | 0 <= i < j < |pending|
      ensures pending[i] != pending[j] && collation(OwnerOf(pending[i]), OwnerOf(pending[j]))
      ensures OwnerOf(pending[i]) == OwnerOf(pending[j]) ==> pending[i].version < pending[j].version
    {
      var a, b := PendingPlaces(applied, sorted, |sorted|, i, j);
      SortedAreDistinct(ms, collation, a, b);
      RankedByFields(collation, sorted[a], sorted[b]);
    }
  }

  lemma RankedByFields(collation: (Owner, Owner) -> bool, a: Script, b: Script)
    requires IsOrdering(collation) && ByOwnerThenVersion(collation)(a, b)
    ensures collation(OwnerOf(a), OwnerOf(b))
    ensures OwnerOf(a) == OwnerOf(b) ==> a.version <= b.version
  {
  }

  lemma {:induction false} PendingFromSorted(applied: map<Identity, Checksum>, sorted: seq<Script>, n: nat)
    requires n <= |sorted|
    ensures forall m :: m in Pending(applied, sorted, n) <==> m in sorted[..n] && IdentityOf(m) !in applied
  {
    if n > 0 {
      PendingFromSorted(applied, sorted, n - 1);
      assert sorted[..n] == sorted[..n - 1] + [sorted[n - 1]];
    }
  }

  lemma {:induction false} PendingPlaces(applied: map<Identity, Checksum>, sorted: seq<Script>, n: nat, i: nat, j: nat)
    returns (a: nat, b: nat)
    requires n <= |sorted| && i < j < |Pending(applied, sorted, n)|
    ensures a < b < n && Pending(applied, sorted, n)[i] == sorted[a] && Pending(applied, sorted, n)[j] == sorted[b]
  {
    var before := Pending(applied, sorted, n - 1);
    if j < |before| {
      a, b := PendingPlaces(applied, sorted, n - 1, i, j);
    } else {
      a := PendingPlace(applied, sorted, n - 1, i);
      b := n - 1;
    }
  }

  lemma {:induction false} PendingPlace(applied: map<Identity, Checksum>, sorted: seq<Script>, n: nat, i: nat)
    returns (a: nat)
    requires n <= |sorted| && i < |Pending(applied, sorted, n)|
    ensures a < n && Pending(applied, sorted, n)[i] == sorted[a]
  {
    if i < |Pending(applied, sorted, n - 1)| {
      a := PendingPlace(applied, sorted, n - 1, i);
    } else {
      a := n - 1;
    }
  }

  /** An identity stands at one place only, also once sorted. */
  lemma SortedAreDistinct(ms: seq<Script>, collation: (Owner, Owner) -> bool, i: nat, j: nat)
    requires IsOrdering(collation) && DefinitionsFine(ms) && i < j < |Sorted(ms, collation)|
    ensures IdentityOf(Sorted(ms, collation)[i]) != IdentityOf(Sorted(ms, collation)[j])
  {
    hide Sorted, WellFormed, SqlScript.Split;
    var sorted := Sorted(ms, collation);
    SortedSupplies(ms, collation);
    forall a, b | 0 <= a < b < |ms| ensures ms[a] != ms[b] {
      if ms[a] == ms[b] {
        SamePlace(ms, a, b);
      }
    }
    PermutationKeepsElements(ms, sorted);
    assert sorted[i] in ms && sorted[j] in ms;
    var a :| 0 <= a < |ms| && ms[a] == sorted[i];
    var b :| 0 <= b < |ms| && ms[b] == sorted[j];
    if IdentityOf(sorted[i]) == IdentityOf(sorted[j]) {
      SamePlace(ms, a, b);
    }
  }

  lemma SamePlace(ms: seq<Script>, a: nat, b: nat)
    requires DefinitionsFine(ms) && a < |ms| && b < |ms| && IdentityOf(ms[a]) == IdentityOf(ms[b])
    ensures a == b
  {
    assert DefinitionFine(ms, a) && DefinitionFine(ms, b);
  }

  lemma NoEffects<D>(exec: Engine<D>, d: D)
    ensures Execute(exec, Statements([]), d) == Some(d)
  {
  }

  lemma StatementsOfLast(before: seq<Script>, m: Script)
    ensures Statements(before + [m]) == Statements(before) + SqlScript.Split(m.sql)
  {
    assert (before + [m])[..|before|] == before;
  }

  lemma StepRuns<D>(exec: Engine<D>, p: Progress<D>, m: Script, interrupted: bool)
    requires p.error.None? && Step(exec, p, m, interrupted).error.None?
    ensures var q := Step(exec, p, m, interrupted);
            if IdentityOf(m) in p.db.applied then q == p
            else Execute(exec, SqlScript.Split(m.sql), p.db.data) == Some(q.db.data) && q.count == p.count + 1
  {
    hide SqlScript.Split;
  }

  /** As far as a call gets, it has run the statements of the migrations pending before it, each once and in order. */
  lemma {:induction false} EffectsInOrder<D>(exec: Engine<D>, collation: (Owner, Owner) -> bool, db: Database<D>,
                                             ms: seq<Script>, interrupted: nat -> bool, n: nat)
    requires IsOrdering(collation) && DefinitionsFine(ms) && n <= |Sorted(ms, collation)|
    requires ApplyUpTo(exec, db, Sorted(ms, collation), interrupted, n).error.None?
    ensures var sorted := Sorted(ms, collation);
            var p := ApplyUpTo(exec, db, sorted, interrupted, n);
            && Execute(exec, Statements(Pending(db.applied, sorted, n)), db.data) == Some(p.db.data)
            && p.count == |Pending(db.applied, sorted, n)|
  {
    hide Sorted, DefinitionsFine, Step, Statements, Execute;
    var sorted := Sorted(ms, collation);
    if n == 0 {
      NoEffects(exec, db.data);
    } else {
      EffectsInOrder(exec, collation, db, ms, interrupted, n - 1);
      var m := sorted[n - 1];
      var before := Pending(db.applied, sorted, n - 1);
      var p := ApplyUpTo(exec, db, sorted, interrupted, n - 1);
      NotAppliedEarlier(exec, collation, db, ms, interrupted, n - 1);
      StepRuns(exec, p, m, interrupted(n - 1));
      if IdentityOf(m) !in db.applied {
        StatementsOfLast(before, m);
        ExecuteInTwoParts(exec, Statements(before), SqlScript.Split(m.sql), db.data);
      } else {
        assert before + [] == before;
      }
    }
  }

  lemma NotAppliedEarlier<D>(exec: Engine<D>, collation: (Owner, Owner) -> bool, db: Database<D>, ms: seq<Script>,
                             interrupted: nat -> bool, n: nat)
    requires IsOrdering(collation) && DefinitionsFine(ms) && n < |Sorted(ms, collation)|
    ensures var id := IdentityOf(Sorted(ms, collation)[n]);
            id in ApplyUpTo(exec, db, Sorted(ms, collation), interrupted, n).db.applied <==> id in db.applied
  {
    hide Sorted, DefinitionsFine, ApplyUpTo;
    var sorted := Sorted(ms, collation);
    var id := IdentityOf(sorted[n]);
    AppliedStays(exec, db, sorted, interrupted, n, id);
    if Supplied(sorted[..n], id) {
      var i :| 0 <= i < n && IdentityOf(sorted[..n][i]) == id;
      SortedAreDistinct(ms, collation, i, n);
    }
  }

  /**
    * However calls were interrupted on the way, once one succeeds the data is what the statements of all migrations
    * pending at the start make of it, each migration's once and in the order of owners and versions.
    */
  lemma EffectsExactlyOnce<D(!new)>(exec: Engine<D>, collation: (Owner, Owner) -> bool, db: Database<D>,
                                    ms: seq<Script>, attempts: seq<nat -> bool>, last: nat -> bool)
    requires IsOrdering(collation)
    requires Succeeds(exec, collation, AfterCalls(collation, db, SameSet(exec, ms, attempts)), ms, last)
    ensures var sorted := Sorted(ms, collation);
            var end := AfterCall(exec, collation, AfterCalls(collation, db, SameSet(exec, ms, attempts)), ms, last);
            && Leads(exec, Statements(Pending(db.applied, sorted, |sorted|)), db.data, end.data)
            && (forall i :: 0 <= i < |ms| ==>
                  IdentityOf(ms[i]) in end.applied && end.applied[IdentityOf(ms[i])] == ms[i].checksum)
            && (forall id :: id in db.applied ==> id in end.applied && end.applied[id] == db.applied[id])
            && (forall id :: id in end.applied ==> id in db.applied || Supplied(ms, id))
  {
    hide Sorted, DefinitionsFine, ApplyUpTo, Execute, NothingRemoved, Gapless;
    var sorted := Sorted(ms, collation);
    RetriesEndAsOneRun(exec, collation, db, ms, attempts, last);
    EffectsInOrder(exec, collation, db, ms, Calm, |sorted|);
    SortedSupplies(ms, collation);
    PermutationKeepsElements(sorted, ms);
    var end := AfterCall(exec, collation, db, ms, Calm);
    ExecuteIsOnceEach(exec, Statements(Pending(db.applied, sorted, |sorted|)), db.data, end.data);
    assert sorted[..|sorted|] == sorted;
    forall id
      ensures id in db.applied ==> id in end.applied && end.applied[id] == db.applied[id]
      ensures id in end.applied ==> id in db.applied || Supplied(ms, id)
    {
      AppliedStays(exec, db, sorted, Calm, |sorted|, id);
    }
    forall i | 0 <= i < |ms|
      ensures IdentityOf(ms[i]) in end.applied && end.applied[IdentityOf(ms[i])] == ms[i].checksum
    {
      assert ms[i] in sorted;
      var j :| 0 <= j < |sorted| && sorted[j] == ms[i];
      GonePast(exec, db, sorted, Calm, |sorted|, j);
    }
  }

  /** What one migration of a call needs: its recorded checksum if it was applied before, no interruption if not. */
  predicate Passes(applied: map<Identity, Checksum>, m: Script, interrupted: bool) {
    if IdentityOf(m) in applied then applied[IdentityOf(m)] == m.checksum else !interrupted
  }

  lemma StepPasses<D>(exec: Engine<D>, p: Progress<D>, m: Script, interrupted: bool)
    requires p.error.None?
    ensures Step(exec, p, m, interrupted).error.None? <==>
            && Passes(p.db.applied, m, interrupted)
            && (IdentityOf(m) !in p.db.applied ==> Execute(exec, SqlScript.Split(m.sql), p.db.data).Some?)
  {
    hide SqlScript.Split, Execute;
  }

  lemma {:induction false} GetsThroughExactly<D>(exec: Engine<D>, collation: (Owner, Owner) -> bool, db: Database<D>,
                                                 ms: seq<Script>, interrupted: nat -> bool, n: nat)
    requires IsOrdering(collation) && DefinitionsFine(ms) && n <= |Sorted(ms, collation)|
    ensures var sorted := Sorted(ms, collation);
            ApplyUpTo(exec, db, sorted, interrupted, n).error.None? <==>
            && (forall i :: 0 <= i < n ==> Passes(db.applied, sorted[i], interrupted(i)))
            && Execute(exec, Statements(Pending(db.applied, sorted, n)), db.data).Some?
  {
    hide Sorted, DefinitionsFine, Step, Statements, Execute, Passes;
    var sorted := Sorted(ms, collation);
    if n == 0 {
      NoEffects(exec, db.data);
    } else {
      GetsThroughExactly(exec, collation, db, ms, interrupted, n - 1);
      var m, p := sorted[n - 1], ApplyUpTo(exec, db, sorted, interrupted, n - 1);
      var before := Pending(db.applied, sorted, n - 1);
      if IdentityOf(m) !in db.applied {
        StatementsOfLast(before, m);
        ExecuteInTwoParts(exec, Statements(before), SqlScript.Split(m.sql), db.data);
      } else {
        assert before + [] == before;
      }
      if p.error.None? {
        EffectsInOrder(exec, collation, db, ms, interrupted, n - 1);
        NotAppliedEarlier(exec, collation, db, ms, interrupted, n - 1);
        AppliedStays(exec, db, sorted, interrupted, n - 1, IdentityOf(m));
        StepPasses(exec, p, m, interrupted(n - 1));
        SamePasses(db.applied, p.db.applied, m, interrupted(n - 1));
      }
    }
  }

  lemma SamePasses(a: map<Identity, Checksum>, b: map<Identity, Checksum>, m: Script, interrupted: bool)
    requires IdentityOf(m) in a <==> IdentityOf(m) in b
    requires IdentityOf(m) in a ==> a[IdentityOf(m)] == b[IdentityOf(m)]
    ensures Passes(a, m, interrupted) <==> Passes(b, m, interrupted)
  {
  }

  /**
    * A call succeeds if and only if the set may start, every migration applied before has its recorded checksum, no
    * pending one is interrupted, and the pending statements, each run once and in order, all succeed; and then the data
    * is what the last of them leaves.
    */
  lemma SucceedsExactlyWhen<D(!new)>(exec: Engine<D>, collation: (Owner, Owner) -> bool, db: Database<D>,
                                     ms: seq<Script>, interrupted: nat -> bool)
    requires IsOrdering(collation)
    ensures var sorted := Sorted(ms, collation);
            var statements := Statements(Pending(db.applied, sorted, |sorted|));
            && (Succeeds(exec, collation, db, ms, interrupted) <==>
                && CanStart(db, ms)
                && (forall i :: 0 <= i < |sorted| ==> Passes(db.applied, sorted[i], interrupted(i)))
                && exists to :: Leads(exec, statements, db.data, to))
            && (Succeeds(exec, collation, db, ms, interrupted) ==>
                Leads(exec, statements, db.data, AfterCall(exec, collation, db, ms, interrupted).data))
  {
    hide Sorted, DefinitionsFine, Gapless, NothingRemoved, Execute, Leads, Statements, Pending, ApplyUpTo, Passes;
    if CanStart(db, ms) {
      var sorted := Sorted(ms, collation);
      var statements := Statements(Pending(db.applied, sorted, |sorted|));
      GetsThroughExactly(exec, collation, db, ms, interrupted, |sorted|);
      forall to ensures Leads(exec, statements, db.data, to) <==> Execute(exec, statements, db.data) == Some(to) {
        ExecuteIsOnceEach(exec, statements, db.data, to);
      }
      if Execute(exec, statements, db.data).Some? {
        assert Leads(exec, statements, db.data, Execute(exec, statements, db.data).value);
      }
      if ApplyUpTo(exec, db, sorted, interrupted, |sorted|).error.None? {
        EffectsInOrder(exec, collation, db, ms, interrupted, |sorted|);
      }
    }
  }

  // ---------- The engine ----------

  lemma GroupedNext(ms: seq<Script>, i: nat, versions: map<Owner, seq<int>>)
    requires i < |ms| && Grouped(ms[..i], versions) && !Supplied(ms[..i], IdentityOf(ms[i]))
    ensures var owner := OwnerOf(ms[i]);
            var before := if owner in versions then versions[owner] else [];
            Grouped(ms[..i + 1], versions[owner := before + [ms[i].version]])
  {
    hide Supplied;
    SuppliedNext(ms, i);
  }

  /** The first `n` definitions are fine, and the next one has the fault that is reported. */
  ghost predicate FirstFault(ms: seq<Script>, n: nat, error: MigrationError)
    requires n < |ms|
  {
    && (forall i :: 0 <= i < n ==> DefinitionFine(ms, i))
    && match error
       case InvalidDefinition => !WellFormed(ms[n])
       case Duplicate(id) => WellFormed(ms[n]) && id == IdentityOf(ms[n]) && Supplied(ms[..n], id)
       case EmptySql(id) =>
         && WellFormed(ms[n]) && id == IdentityOf(ms[n]) && !Supplied(ms[..n], id)
         && SqlScript.Split(ms[n].sql) == []
       case _ => false
  }

  /** The owners in the order in which they are first supplied, which is the order the grouping keeps them in. */
  function Owners(ms: seq<Script>): seq<Owner> {
    if ms == [] then []
    else
      var n := |ms| - 1;
      var before := Owners(ms[..n]);
      if OwnerOf(ms[n]) in before then before else before + [OwnerOf(ms[n])]
  }

  lemma NoOwners(ms: seq<Script>)
    ensures Owners(ms[..0]) == []
  {
  }

  lemma OwnersNext(ms: seq<Script>, i: nat)
    requires i < |ms|
    ensures var before := Owners(ms[..i]);
            Owners(ms[..i + 1]) == if OwnerOf(ms[i]) in before then before else before + [OwnerOf(ms[i])]
  {
    assert ms[..i + 1][..i] == ms[..i];
  }

  method CheckDefinitions(ms: seq<Script>)
    returns (r: Option<MigrationError>, statements: map<Identity, seq<string>>, owners: seq<Owner>,
             versions: map<Owner, seq<int>>)
    ensures r.None? <==> DefinitionsFine(ms)
    ensures r.None? ==> Grouped(ms, versions)
    ensures r.None? ==> owners == Owners(ms) && forall o :: o in owners <==> o in versions
    ensures r.None? ==>
              forall i :: 0 <= i < |ms| ==>
                IdentityOf(ms[i]) in statements && statements[IdentityOf(ms[i])] == SqlScript.Split(ms[i].sql)
    ensures r.Some? ==> exists n :: 0 <= n < |ms| && FirstFault(ms, n, r.value)
  {
    hide SqlScript.Split, Grouped, Owners, IsBlank;
    var identities: set<Identity> := {};
    statements, owners, versions := map[], [], map[];
    NothingGrouped(ms);
    NoOwners(ms);
    for i := 0 to |ms|
      invariant forall j :: 0 <= j < i ==> DefinitionFine(ms, j)
      invariant forall id :: id in identities <==> Supplied(ms[..i], id)
      invariant Grouped(ms[..i], versions)
      invariant owners == Owners(ms[..i]) && forall o :: o in owners <==> o in versions
      invariant forall j :: 0 <= j < i ==>
                  IdentityOf(ms[j]) in statements && statements[IdentityOf(ms[j])] == SqlScript.Split(ms[j].sql)
    {
      var m := ms[i];
      if m.version > MAX_SAFE_INTEGER || m.version <= 0 || IsBlank(OwnerOf(m).text) || IsBlank(m.name)
         || IsBlank(m.checksum.text) || IsBlank(m.sql) {
        assert !WellFormed(m);
        assert !DefinitionFine(ms, i);
        assert FirstFault(ms, i, InvalidDefinition);
        return Some(InvalidDefinition), statements, owners, versions;
      }
      var id := IdentityOf(m);
      if id in identities {
        assert !DefinitionFine(ms, i);
        assert FirstFault(ms, i, Duplicate(id));
        return Some(Duplicate(id)), statements, owners, versions;
      }
      identities := identities + {id};
      var split := SqlScript.SplitSqlScript(m.sql);
      if |split| == 0 {
        assert !DefinitionFine(ms, i);
        assert FirstFault(ms, i, EmptySql(id));
        return Some(EmptySql(id)), statements, owners, versions;
      }
      forall j | 0 <= j < i ensures IdentityOf(ms[j]) != id {
        assert ms[..i][j] == ms[j];
      }
      statements := statements[id := split];
      assert ms[..i + 1][..i] == ms[..i];
      if OwnerOf(m) !in versions {
        owners := owners + [OwnerOf(m)];
      }
      var ownerVersions := if OwnerOf(m) in versions then versions[OwnerOf(m)] else [];
      GroupedNext(ms, i, versions);
      versions := versions[OwnerOf(m) := ownerVersions + [m.version]];
      SuppliedNext(ms, i);
      OwnersNext(ms, i);
    }
    assert ms[..|ms|] == ms;
    r := None;
  }

  lemma NothingGrouped(ms: seq<Script>)
    ensures Grouped(ms[..0], map[])
    ensures forall id :: !Supplied(ms[..0], id)
  {
  }

  const Ascends := (a: int, b: int) => a <= b

  /** The lowest version of the owner's that is not supplied although a higher one is. */
  ghost predicate FirstGap(ms: seq<Script>, owner: Owner, version: int) {
    && version >= 1 && !Supplied(ms, Identity(owner, version))
    && (forall v :: 1 <= v < version ==> Supplied(ms, Identity(owner, v)))
    && exists v :: version < v && Supplied(ms, Identity(owner, v))
  }

  /** One owner's versions, sorted: the first that is not its place in line shows a gap. */
  method CheckOwner(owner: Owner, versions: seq<int>) returns (r: Option<MigrationError>)
    requires Distinct(versions)
    requires forall v :: v in versions ==> v >= 1
    ensures r.None? <==> forall u, v :: v in versions && 1 <= u < v ==> u in versions
    ensures r.Some? ==>
              && r.value.MissingVersion? && r.value.owner == owner
              && r.value.version >= 1 && r.value.version !in versions
              && (forall u :: 1 <= u < r.value.version ==> u in versions)
              && exists v :: v in versions && r.value.version < v
  {
    var sorted := Sort(versions, Ascends);
    SortSorts(versions, Ascends);
    PermutationKeepsElements(versions, sorted);
    for index := 0 to |sorted|
      invariant forall i :: 0 <= i < index ==> sorted[i] == i + 1
    {
      assert sorted[index] in versions;
      assert index > 0 ==> Ascends(sorted[index - 1], sorted[index]) && sorted[index - 1] != sorted[index];
      if sorted[index] != index + 1 {
        assert forall i :: index <= i < |sorted| ==> i == index || Ascends(sorted[index], sorted[i]);
        assert index + 1 !in sorted;
        forall u | 1 <= u < index + 1 ensures u in versions {
          assert sorted[u - 1] == u;
        }
        return Some(MissingVersion(owner, index + 1));
      }
    }
    forall u, v | v in versions && 1 <= u < v ensures u in versions {
      assert v in sorted;
      assert sorted[u - 1] == u;
    }
    r := None;
  }

  lemma GroupedVersions(ms: seq<Script>, versions: map<Owner, seq<int>>, owner: Owner)
    requires DefinitionsFine(ms) && Grouped(ms, versions) && owner in versions
    ensures Distinct(versions[owner])
    ensures forall v :: v in versions[owner] <==> Supplied(ms, Identity(owner, v))
    ensures forall v :: v in versions[owner] ==> v >= 1
  {
    hide SqlScript.Split;
    forall v | v in versions[owner] ensures v >= 1 {
      var i :| 0 <= i < |ms| && IdentityOf(ms[i]) == Identity(owner, v);
      assert DefinitionFine(ms, i);
    }
  }

  /** No version of this owner's is left out below another. */
  ghost predicate GaplessFor(ms: seq<Script>, owner: Owner) {
    forall u, v :: Supplied(ms, Identity(owner, v)) && 1 <= u < v ==> Supplied(ms, Identity(owner, u))
  }

  lemma GaplessByOwner(ms: seq<Script>, versions: map<Owner, seq<int>>)
    requires Grouped(ms, versions)
    ensures Gapless(ms) <==> forall o :: o in versions ==> GaplessFor(ms, o)
  {
    if forall o :: o in versions ==> GaplessFor(ms, o) {
      forall i, v | 0 <= i < |ms| && 1 <= v < ms[i].version ensures Supplied(ms, Identity(OwnerOf(ms[i]), v)) {
        assert IdentityOf(ms[i]) == Identity(OwnerOf(ms[i]), ms[i].version);
        assert Supplied(ms, Identity(OwnerOf(ms[i]), ms[i].version));
        assert ms[i].version in versions[OwnerOf(ms[i])];
      }
    }
    if Gapless(ms) {
      forall o, u, v | o in versions && Supplied(ms, Identity(o, v)) && 1 <= u < v
        ensures Supplied(ms, Identity(o, u))
      {
        var i :| 0 <= i < |ms| && IdentityOf(ms[i]) == Identity(o, v);
      }
    }
  }

  /** The first supplied of the owners with a gap, and the first version missing from it. */
  ghost predicate FirstGapOfAll(ms: seq<Script>, owner: Owner, version: int) {
    && FirstGap(ms, owner, version)
    && exists i :: 0 <= i < |Owners(ms)| && Owners(ms)[i] == owner
                   && forall j :: 0 <= j < i ==> GaplessFor(ms, Owners(ms)[j])
  }

  method CheckSequences(ms: seq<Script>, owners: seq<Owner>, versions: map<Owner, seq<int>>)
    returns (r: Option<MigrationError>)
    requires DefinitionsFine(ms) && Grouped(ms, versions)
    requires owners == Owners(ms) && forall o :: o in owners <==> o in versions
    ensures r.None? <==> Gapless(ms)
    ensures r.Some? ==> r.value.MissingVersion? && FirstGapOfAll(ms, r.value.owner, r.value.version)
  {
    hide DefinitionsFine, Grouped, Supplied, Gapless, Owners;
    GaplessByOwner(ms, versions);
    for i := 0 to |owners|
      invariant forall j :: 0 <= j < i ==> GaplessFor(ms, owners[j])
    {
      var owner := owners[i];
      assert owner in owners;
      GroupedVersions(ms, versions, owner);
      r := CheckOwner(owner, versions[owner]);
      if r.Some? {
        var v :| v in versions[owner] && r.value.version < v;
        assert Supplied(ms, Identity(owner, v));
        assert !GaplessFor(ms, owner);
        return;
      }
    }
    r := None;
  }

  /** As the applied migrations are read: by owner, as the database orders text, and then by version. */
  const InReadOrder := (a: Identity, b: Identity) =>
    if a.owner.text == b.owner.text then a.version <= b.version else NotAfterText(a.owner.text, b.owner.text)

  lemma {:induction false} OnlyEqualTextsTie(a: string, b: string)
    requires NotAfterText(a, b) && NotAfterText(b, a)
    ensures a == b
  {
    if a != "" && b != "" {
      OnlyEqualTextsTie(a[1..], b[1..]);
      assert a == [a[0]] + a[1..] && b == [b[0]] + b[1..];
    }
  }

  lemma ReadOrderIsOrdering()
    ensures IsOrdering(InReadOrder)
  {
    hide TextLess;
    TextIsOrdering();
    forall a, b ensures InReadOrder(a, b) || InReadOrder(b, a) {
      assert NotAfterText(a.owner.text, b.owner.text) || NotAfterText(b.owner.text, a.owner.text);
    }
    forall a, b, c | InReadOrder(a, b) && InReadOrder(b, c) ensures InReadOrder(a, c) {
      var x, y, z := a.owner.text, b.owner.text, c.owner.text;
      if x != y && y != z {
        assert NotAfterText(x, z);
        if x == z {
          OnlyEqualTextsTie(x, y);
        }
      }
    }
  }

  /** An applied migration that should have been in the set. */
  ghost predicate IsRemoved(applied: map<Identity, Checksum>, ms: seq<Script>, id: Identity) {
    && id in applied && !Supplied(ms, id)
    && exists i :: 0 <= i < |ms| && OwnerOf(ms[i]) == id.owner
  }

  /** The first such migration in the order they are read. */
  ghost predicate FirstRemoved(applied: map<Identity, Checksum>, ms: seq<Script>, id: Identity) {
    IsRemoved(applied, ms, id) && forall other :: IsRemoved(applied, ms, other) ==> InReadOrder(id, other)
  }

  method FindRemoved(applied: map<Identity, Checksum>, ms: seq<Script>) returns (r: Option<Identity>)
    ensures r.None? <==> NothingRemoved(applied, ms)
    ensures r.Some? ==> FirstRemoved(applied, ms, r.value)
  {
    hide InReadOrder;
    var suppliedOwners := set i | 0 <= i < |ms| :: OwnerOf(ms[i]);
    var suppliedIdentities := set i | 0 <= i < |ms| :: IdentityOf(ms[i]);
    assert forall id :: id in suppliedIdentities <==> Supplied(ms, id);
    var removed := set id | id in applied && id.owner in suppliedOwners && id !in suppliedIdentities;
    assert forall id :: id in removed <==> IsRemoved(applied, ms, id);
    if removed == {} {
      forall id | id in applied && (exists i :: 0 <= i < |ms| && OwnerOf(ms[i]) == id.owner) ensures Supplied(ms, id) {
        assert id !in removed;
      }
      return None;
    }
    ReadOrderIsOrdering();
    var first := FirstOf(map id | id in removed :: id, InReadOrder, removed);
    r := Some(first);
  }

  class MigrationEngine<D(!new)> {
    var db: Database<D>

    constructor (data: D)
      ensures db == Database(data, map[])
    {
      db := Database(data, map[]);
    }

    /**
      * On success every supplied migration has been applied, and as many as were pending are counted. Before that
      * a set at fault changes nothing, and a failing migration changes nothing beyond those applied before it.
      */
    method ApplyMigrations(exec: Engine<D>, collation: (Owner, Owner) -> bool, ms: seq<Script>,
                           interrupted: nat -> bool) returns (r: Result<nat, MigrationError>)
      requires IsOrdering(collation)
      modifies this
      ensures db == AfterCall(exec, collation, old(db), ms, interrupted)
      ensures r.Success? <==> Succeeds(exec, collation, old(db), ms, interrupted)
      ensures CanStart(old(db), ms) ==>
                var p := ApplyUpTo(exec, old(db), Sorted(ms, collation), interrupted, |Sorted(ms, collation)|);
                r == if p.error.Some? then Failure(p.error.value) else Success(p.count)
      ensures r.Failure? && !ValidSet(ms) ==>
                || (exists n :: 0 <= n < |ms| && FirstFault(ms, n, r.error))
                || (r.error.MissingVersion? && DefinitionsFine(ms) && FirstGapOfAll(ms, r.error.owner, r.error.version))
      ensures r.Failure? && ValidSet(ms) && !NothingRemoved(old(db).applied, ms) ==>
                r.error.Removed? && FirstRemoved(old(db).applied, ms, r.error.id)
    {
      hide DefinitionsFine, Gapless, NothingRemoved, Sorted, FirstFault, FirstGapOfAll, FirstRemoved, Owners,
           SqlScript.Split;
      var invalid, statementsByIdentity, owners, versionsByOwner := CheckDefinitions(ms);
      if invalid.Some? {
        return Failure(invalid.value);
      }
      var gap := CheckSequences(ms, owners, versionsByOwner);
      if gap.Some? {
        return Failure(gap.value);
      }
      var removed := FindRemoved(db.applied, ms);
      if removed.Some? {
        return Failure(Removed(removed.value));
      }
      var sorted := Sorted(ms, collation);
      StatementsOfSorted(ms, collation, statementsByIdentity);
      var appliedByIdentity := db.applied;
      var appliedCount := 0;
      for i := 0 to |sorted|
        invariant ApplyUpTo(exec, old(db), sorted, interrupted, i) == Progress(db, appliedCount, None)
      {
        var m := sorted[i];
        var id := IdentityOf(m);
        NotAppliedEarlier(exec, collation, old(db), ms, interrupted, i);
        AppliedStays(exec, old(db), sorted, interrupted, i, id);
        if id in appliedByIdentity {
          if appliedByIdentity[id] != m.checksum {
            ErrorStays(exec, old(db), sorted, interrupted, i + 1, |sorted|);
            return Failure(ChecksumMismatch(id));
          }
        } else {
          var data := RunStatements(exec, statementsByIdentity[id], db.data, interrupted(i));
          if data.None? {
            ErrorStays(exec, old(db), sorted, interrupted, i + 1, |sorted|);
            return Failure(Failed(id));
          }
          db := Database(data.value, db.applied[id := m.checksum]);
          appliedCount := appliedCount + 1;
        }
      }
      r := Success(appliedCount);
    }
  }

  /** What a migration's transaction comes to: all its statements, or nothing if one fails or it is interrupted. */
  method RunStatements<D(!new)>(exec: Engine<D>, statements: seq<string>, data: D, interrupted: bool)
    returns (r: Option<D>)
    ensures r == if interrupted then None else Execute(exec, statements, data)
    ensures r.Some? ==> Leads(exec, statements, data, r.value)
    ensures r.None? ==> interrupted || forall to :: !Leads(exec, statements, data, to)
  {
    if interrupted {
      return None;
    }
    r := Some(data);
    for i := 0 to |statements|
      invariant r.Some? && r == Execute(exec, statements[..i], data)
    {
      assert statements[..i + 1][..i] == statements[..i];
      var next := exec(statements[i], r.value);
      if next.None? {
        FailureStays(exec, statements, i + 1, data);
        forall to ensures !Leads(exec, statements, data, to) {
          ExecuteIsOnceEach(exec, statements, data, to);
        }
        return None;
      }
      r := next;
    }
    assert statements[..|statements|] == statements;
    ExecuteIsOnceEach(exec, statements, data, r.value);
  }

  lemma FailureStays<D>(exec: Engine<D>, statements: seq<string>, i: nat, data: D)
    requires i <= |statements| && Execute(exec, statements[..i], data).None?
    ensures Execute(exec, statements, data).None?
  {
    ExecuteInTwoParts(exec, statements[..i], statements[i..], data);
    assert statements[..i] + statements[i..] == statements;
  }

  lemma StatementsOfSorted(ms: seq<Script>, collation: (Owner, Owner) -> bool,
                           statements: map<Identity, seq<string>>)
    requires IsOrdering(collation)
    requires forall i :: 0 <= i < |ms| ==>
               IdentityOf(ms[i]) in statements && statements[IdentityOf(ms[i])] == SqlScript.Split(ms[i].sql)
    ensures var sorted := Sorted(ms, collation);
            forall i :: 0 <= i < |sorted| ==>
              IdentityOf(sorted[i]) in statements && statements[IdentityOf(sorted[i])] == SqlScript.Split(sorted[i].sql)
  {
    hide Sorted, SqlScript.Split;
    var sorted := Sorted(ms, collation);
    SortedSupplies(ms, collation);
    PermutationKeepsElements(sorted, ms);
    forall i | 0 <= i < |sorted|
      ensures IdentityOf(sorted[i]) in statements && statements[IdentityOf(sorted[i])] == SqlScript.Split(sorted[i].sql)
    {
      assert sorted[i] in ms;
    }
  }
}
