/**
  * Transaction callbacks over two drivers: the native one collects writes and replays them at the end, the
  * in-memory one runs them at once under savepoints. A write turns one database state into another or fails.
  */
module Transactions {
  import opened Wrappers

  /**
    * What a callback does with its client, one use after the other. A savepoint has a body, what follows when the
    * body completes, and perhaps a handler for what the body throws.
    */
  datatype Program<W> =
    | Done
    | Throw
    | Write(w: W, next: Program<W>)
    | Savepoint(body: Program<W>, next: Program<W>, handler: Option<Program<W>>)

  datatype Outcome = Completed | Threw

  // ---------- Eager execution ----------

  datatype Ended<D> = Ended(db: D, outcome: Outcome)

  function Eager<D, W>(apply: (D, W) -> Option<D>, p: Program<W>, db: D): Ended<D> {
    match p
    case Done => Ended(db, Completed)
    case Throw => Ended(db, Threw)
    case Write(w, next) =>
      (match apply(db, w)
       case Some(written) => Eager(apply, next, written)
       case None => Ended(db, Threw))
    case Savepoint(body, next, handler) =>
      var inner := Eager(apply, body, db);
      if inner.outcome.Completed? then Eager(apply, next, inner.db)
      else if handler.Some? then Eager(apply, handler.value, db)
      else Ended(db, inner.outcome)
  }

  /** The transaction around it: kept when the callback completes, undone when it throws. */
  function EagerTransaction<D, W>(apply: (D, W) -> Option<D>, p: Program<W>, db: D): (D, bool) {
    var run := Eager(apply, p, db);
    if run.outcome.Completed? then (run.db, true) else (db, false)
  }

  // ---------- Collecting and replaying ----------

  datatype Collected<W> = Collected(operations: seq<W>, outcome: Outcome)

  function Collect<W>(p: Program<W>): Collected<W> {
    match p
    case Done => Collected([], Completed)
    case Throw => Collected([], Threw)
    case Write(w, next) =>
      var rest := Collect(next);
      rest.(operations := [w] + rest.operations)
    case Savepoint(body, next, handler) =>
      var inner := Collect(body);
      if inner.outcome.Completed? then
        var rest := Collect(next);
        rest.(operations := inner.operations + rest.operations)
      else if handler.Some? then Collect(handler.value)
      else Collected([], inner.outcome)
  }

  function Replay<D, W>(apply: (D, W) -> Option<D>, operations: seq<W>, db: D): Option<D> {
    if operations == [] then Some(db)
    else
      match apply(db, operations[0])
      case Some(written) => Replay(apply, operations[1..], written)
      case None => None
  }

  function NativeTransaction<D, W>(apply: (D, W) -> Option<D>, p: Program<W>, db: D): (D, bool) {
    var collected := Collect(p);
    if collected.outcome.Completed? then
      match Replay(apply, collected.operations, db)
      case Some(written) => (written, true)
      case None => (db, false)
    else (db, false)
  }

  // ---------- When the two agree ----------

  /**
    * Following the eager run and the collecting run side by side, a savepoint's body ends one way in the one and the
    * other way in the other, and that shows: the eager run catches a failure that collecting does not see, or a body
    * gets past one inside it only to complete where collecting throws.
    */
  predicate RunsPart<D, W>(apply: (D, W) -> Option<D>, p: Program<W>, db: D) {
    match p
    case Done => false
    case Throw => false
    case Write(w, next) =>
      (match apply(db, w)
       case Some(written) => RunsPart(apply, next, written)
       case None => false)
    case Savepoint(body, next, handler) =>
      var inner := Eager(apply, body, db);
      if Collect(body).outcome.Completed? then
        || RunsPart(apply, body, db)
        || (if inner.outcome.Completed? then RunsPart(apply, next, inner.db) else handler.Some?)
      else inner.outcome.Completed? || (handler.Some? && RunsPart(apply, handler.value, db))
  }

  /** As long as the runs stay together, a body that completes where collecting throws into a handler. */
  predicate BodySurvives<D, W>(apply: (D, W) -> Option<D>, p: Program<W>, db: D) {
    match p
    case Done => false
    case Throw => false
    case Write(w, next) =>
      (match apply(db, w)
       case Some(written) => BodySurvives(apply, next, written)
       case None => false)
    case Savepoint(body, next, handler) =>
      var inner := Eager(apply, body, db);
      if Collect(body).outcome.Completed? then
        || BodySurvives(apply, body, db)
        || (inner.outcome.Completed? && BodySurvives(apply, next, inner.db))
      else handler.Some? && (inner.outcome.Completed? || BodySurvives(apply, handler.value, db))
  }

  lemma {:induction false} ReplayInTwoParts<D, W>(apply: (D, W) -> Option<D>, first: seq<W>, second: seq<W>, db: D)
    ensures Replay(apply, first + second, db)
         == match Replay(apply, first, db)
            case Some(written) => Replay(apply, second, written)
            case None => None
    decreases |first|
  {
    if first == [] {
      assert first + second == second;
    } else {
      assert (first + second)[1..] == first[1..] + second;
      match apply(db, first[0]) {
        case Some(written) => ReplayInTwoParts(apply, first[1..], second, written);
        case None =>
      }
    }
  }

  /** What collecting knows of the eager run: the same end, or a list that will not replay. */
  lemma {:induction false} CollectFollowsEager<D, W>(apply: (D, W) -> Option<D>, p: Program<W>, db: D)
    requires !RunsPart(apply, p, db)
    ensures var collected := Collect(p);
            var run := Eager(apply, p, db);
            if run.outcome.Completed?
            then collected.outcome.Completed? && Replay(apply, collected.operations, db) == Some(run.db)
            else collected.outcome.Threw? || Replay(apply, collected.operations, db) == None
  {
    match p
    case Done =>
    case Throw =>
    case Write(w, next) =>
      var rest := Collect(next).operations;
      assert ([w] + rest)[1..] == rest;
      match apply(db, w) {
        case Some(written) => CollectFollowsEager(apply, next, written);
        case None =>
      }
    case Savepoint(body, next, handler) =>
      var inner := Eager(apply, body, db);
      if Collect(body).outcome.Completed? {
        CollectFollowsEager(apply, body, db);
        ReplayInTwoParts(apply, Collect(body).operations, Collect(next).operations, db);
        if inner.outcome.Completed? {
          CollectFollowsEager(apply, next, inner.db);
        }
      } else if handler.Some? {
        CollectFollowsEager(apply, handler.value, db);
      }
  }

  /** Unless the runs part, both drivers leave the same database and agree on success. */
  lemma NativeAgreesWithEager<D, W>(apply: (D, W) -> Option<D>, p: Program<W>, db: D)
    requires !RunsPart(apply, p, db)
    ensures NativeTransaction(apply, p, db) == EagerTransaction(apply, p, db)
  {
    CollectFollowsEager(apply, p, db);
  }

  // ---------- When the two agree, as a caller can tell ----------

  /** Every write that the eager run comes to succeeds, those of bodies that are rolled back included. */
  predicate WritesSucceed<D, W>(apply: (D, W) -> Option<D>, p: Program<W>, db: D) {
    match p
    case Done => true
    case Throw => true
    case Write(w, next) =>
      (match apply(db, w)
       case Some(written) => WritesSucceed(apply, next, written)
       case None => false)
    case Savepoint(body, next, handler) =>
      var inner := Eager(apply, body, db);
      && WritesSucceed(apply, body, db)
      && (if inner.outcome.Completed? then WritesSucceed(apply, next, inner.db)
          else handler.Some? ==> WritesSucceed(apply, handler.value, db))
  }

  /** Where no write fails, collecting ends as the eager run does, and the runs neither part nor does a body survive. */
  lemma {:induction false} RunsStayTogether<D, W>(apply: (D, W) -> Option<D>, p: Program<W>, db: D)
    requires WritesSucceed(apply, p, db)
    ensures Eager(apply, p, db).outcome == Collect(p).outcome
    ensures !RunsPart(apply, p, db) && !BodySurvives(apply, p, db)
  {
    match p
    case Done =>
    case Throw =>
    case Write(w, next) =>
      RunsStayTogether(apply, next, apply(db, w).value);
    case Savepoint(body, next, handler) =>
      RunsStayTogether(apply, body, db);
      var inner := Eager(apply, body, db);
      if inner.outcome.Completed? {
        RunsStayTogether(apply, next, inner.db);
      } else if handler.Some? {
        RunsStayTogether(apply, handler.value, db);
      }
  }

  lemma {:induction false} NothingFails<D, W>(apply: (D, W) -> Option<D>, p: Program<W>, db: D)
    requires forall d, w :: apply(d, w).Some?
    ensures WritesSucceed(apply, p, db)
  {
    match p
    case Done =>
    case Throw =>
    case Write(w, next) =>
      NothingFails(apply, next, apply(db, w).value);
    case Savepoint(body, next, handler) =>
      NothingFails(apply, body, db);
      if Eager(apply, body, db).outcome.Completed? {
        NothingFails(apply, next, Eager(apply, body, db).db);
      } else if handler.Some? {
        NothingFails(apply, handler.value, db);
      }
  }

  /**
    * The refinement: where no write fails, the two drivers leave the same database and report the same success,
    * however savepoints are nested, whatever they throw and whoever catches it. Success is the callback's own.
    */
  lemma NativeRefinesEager<D, W>(apply: (D, W) -> Option<D>, p: Program<W>, db: D)
    requires (forall d, w :: apply(d, w).Some?) || WritesSucceed(apply, p, db)
    ensures NativeTransaction(apply, p, db) == EagerTransaction(apply, p, db)
    ensures NativeTransaction(apply, p, db).1 <==> Collect(p).outcome.Completed?
  {
    if forall d, w :: apply(d, w).Some? {
      NothingFails(apply, p, db);
    }
    RunsStayTogether(apply, p, db);
    NativeAgreesWithEager(apply, p, db);
  }

  /** Seen from the callback alone: no handler stands around a body that has writes to collect. */
  predicate NoWriteCaught<W>(p: Program<W>) {
    match p
    case Done => true
    case Throw => true
    case Write(_, next) => NoWriteCaught(next)
    case Savepoint(body, next, handler) =>
      && NoWriteCaught(body)
      && (if Collect(body).outcome.Completed?
          then NoWriteCaught(next) && (handler.Some? ==> Collect(body).operations == [])
          else handler.Some? ==> NoWriteCaught(handler.value))
  }

  lemma {:induction false} UncaughtRunsStayTogether<D, W>(apply: (D, W) -> Option<D>, p: Program<W>, db: D)
    requires NoWriteCaught(p)
    ensures !RunsPart(apply, p, db) && !BodySurvives(apply, p, db)
  {
    match p
    case Done =>
    case Throw =>
    case Write(w, next) =>
      if apply(db, w).Some? {
        UncaughtRunsStayTogether(apply, next, apply(db, w).value);
      }
    case Savepoint(body, next, handler) =>
      UncaughtRunsStayTogether(apply, body, db);
      CollectFollowsEager(apply, body, db);
      var inner := Eager(apply, body, db);
      if inner.outcome.Completed? {
        UncaughtRunsStayTogether(apply, next, inner.db);
      } else if Collect(body).outcome.Threw? && handler.Some? {
        UncaughtRunsStayTogether(apply, handler.value, db);
      }
  }

  /** Such callbacks end alike under both drivers, whatever their writes do and whichever of them fail. */
  lemma UncaughtWritesAgree<D, W>(apply: (D, W) -> Option<D>, p: Program<W>, db: D)
    requires NoWriteCaught(p)
    ensures NativeTransaction(apply, p, db) == EagerTransaction(apply, p, db)
  {
    UncaughtRunsStayTogether(apply, p, db);
    NativeAgreesWithEager(apply, p, db);
  }

  // ---------- When the two agree, exactly ----------

  /** Once a write has failed unseen by collecting, what was collected throws or will not replay. */
  lemma {:induction false} UnseenFailureStopsReplay<D, W>(apply: (D, W) -> Option<D>, p: Program<W>, db: D)
    requires !BodySurvives(apply, p, db)
    requires RunsPart(apply, p, db) || Eager(apply, p, db).outcome.Threw?
    ensures Collect(p).outcome.Threw? || Replay(apply, Collect(p).operations, db) == None
  {
    match p
    case Throw =>
    case Write(w, next) =>
      var rest := Collect(next).operations;
      assert ([w] + rest)[1..] == rest;
      match apply(db, w) {
        case Some(written) => UnseenFailureStopsReplay(apply, next, written);
        case None =>
      }
    case Savepoint(body, next, handler) =>
      var inner := Eager(apply, body, db);
      if Collect(body).outcome.Completed? {
        ReplayInTwoParts(apply, Collect(body).operations, Collect(next).operations, db);
        if RunsPart(apply, body, db) || inner.outcome.Threw? {
          UnseenFailureStopsReplay(apply, body, db);
        } else {
          CollectFollowsEager(apply, body, db);
          UnseenFailureStopsReplay(apply, next, inner.db);
        }
      } else if handler.Some? {
        UnseenFailureStopsReplay(apply, handler.value, db);
      }
  }

  /**
    * Unless a body survives, the drivers agree exactly when the runs stay together or the eager callback throws.
    * Where the runs part, the native driver fails and keeps the database, whatever the eager one does.
    */
  lemma DriversAgreeExactly<D, W>(apply: (D, W) -> Option<D>, p: Program<W>, db: D)
    requires !BodySurvives(apply, p, db)
    ensures RunsPart(apply, p, db) ==> NativeTransaction(apply, p, db) == (db, false)
    ensures NativeTransaction(apply, p, db) == EagerTransaction(apply, p, db) <==>
            !RunsPart(apply, p, db) || Eager(apply, p, db).outcome.Threw?
  {
    if RunsPart(apply, p, db) {
      UnseenFailureStopsReplay(apply, p, db);
    } else {
      NativeAgreesWithEager(apply, p, db);
    }
  }

  /** Along what collecting goes through, no savepoint's body throws. */
  predicate CollectsStraight<W>(p: Program<W>) {
    match p
    case Done => true
    case Throw => true
    case Write(_, next) => CollectsStraight(next)
    case Savepoint(body, next, _) =>
      Collect(body).outcome.Completed? && CollectsStraight(body) && CollectsStraight(next)
  }

  /** Seen from the callback alone: where its savepoints throw nothing of their own, no body survives, ever. */
  lemma {:induction false} StraightBodiesNeverSurvive<D, W>(apply: (D, W) -> Option<D>, p: Program<W>, db: D)
    requires CollectsStraight(p)
    ensures !BodySurvives(apply, p, db)
  {
    match p
    case Done =>
    case Throw =>
    case Write(w, next) =>
      if apply(db, w).Some? {
        StraightBodiesNeverSurvive(apply, next, apply(db, w).value);
      }
    case Savepoint(body, next, _) =>
      StraightBodiesNeverSurvive(apply, body, db);
      if Eager(apply, body, db).outcome.Completed? {
        StraightBodiesNeverSurvive(apply, next, Eager(apply, body, db).db);
      }
  }

  /** Writes are kept in the order made, and one alone fails: this write, made after these. */
  function FailsAfter<W(==)>(made: seq<W>, bad: W): (seq<W>, W) -> Option<seq<W>> {
    (done: seq<W>, w: W) => if done == made && w == bad then None else Some(done + [w])
  }

  lemma {:induction false} ReplaysUpTo<W>(made: seq<W>, bad: W, operations: seq<W>, db: seq<W>)
    requires |db| + |operations| <= |made|
    ensures Replay(FailsAfter(made, bad), operations, db) == Some(db + operations)
    decreases |operations|
  {
    if operations == [] {
      assert db + operations == db;
    } else {
      ReplaysUpTo(made, bad, operations[1..], db + [operations[0]]);
      assert db + [operations[0]] + operations[1..] == db + operations;
    }
  }

  /** Without its guard the promise is broken: some write's failure lets the runs part. */
  lemma {:induction false} CaughtWriteCanFail<W>(p: Program<W>, db: seq<W>) returns (made: seq<W>, bad: W)
    requires CollectsStraight(p) && !NoWriteCaught(p)
    ensures |db| <= |made|
    ensures RunsPart(FailsAfter(made, bad), p, db)
  {
    match p
    case Write(w, next) =>
      made, bad := CaughtWriteCanFail(next, db + [w]);
    case Savepoint(body, next, handler) =>
      if !NoWriteCaught(body) {
        made, bad := CaughtWriteCanFail(body, db);
      } else {
        var operations := Collect(body).operations;
        if handler.Some? && operations != [] {
          made, bad := db, operations[0];
        } else {
          made, bad := CaughtWriteCanFail(next, db + operations);
          ReplaysUpTo(made, bad, operations, db);
        }
        var apply := FailsAfter(made, bad);
        UncaughtRunsStayTogether(apply, body, db);
        CollectFollowsEager(apply, body, db);
      }
  }

  ghost predicate NeverParts<W(!new)>(p: Program<W>) {
    forall apply: (seq<W>, W) -> Option<seq<W>>, db: seq<W> :: !RunsPart(apply, p, db)
  }

  /**
    * For callbacks whose savepoints throw nothing of their own the guard is exact: the runs stay together whatever
    * the writes do if and only if no handler stands around a body that has writes to collect.
    */
  lemma UncaughtExactlyWhenNeverParting<W(!new)>(p: Program<W>)
    requires CollectsStraight(p)
    ensures NoWriteCaught(p) <==> NeverParts(p)
  {
    if NoWriteCaught(p) {
      forall apply: (seq<W>, W) -> Option<seq<W>>, db: seq<W> ensures !RunsPart(apply, p, db) {
        UncaughtRunsStayTogether(apply, p, db);
      }
    } else {
      var made, bad := CaughtWriteCanFail(p, []);
      var apply: (seq<W>, W) -> Option<seq<W>> := FailsAfter(made, bad);
      assert RunsPart(apply, p, []);
    }
  }

  /**
    * Where a body survives neither verdict is fixed: two callbacks on which both drivers commit, once different
    * databases and once the same, depending on nothing but what a handler writes.
    */
  lemma SurvivorsDecideNothing<D, W>(apply: (D, W) -> Option<D>, db: D, bad: W, other: W)
    requires apply(db, bad).None? && apply(db, other).Some? && apply(db, other).value != db
    ensures var writing := Savepoint(Savepoint(Write(bad, Done), Throw, Some(Write(other, Done))), Done, Some(Done));
            && BodySurvives(apply, writing, db)
            && EagerTransaction(apply, writing, db) == (apply(db, other).value, true)
            && NativeTransaction(apply, writing, db) == (db, true)
    ensures var silent := Savepoint(Savepoint(Write(bad, Done), Throw, Some(Done)), Done, Some(Done));
            && BodySurvives(apply, silent, db)
            && EagerTransaction(apply, silent, db) == NativeTransaction(apply, silent, db) == (db, true)
  {
    var fails := Write(bad, Done);
    assert Eager(apply, fails, db) == Ended(db, Threw);
    assert Collect(fails) == Collected([bad], Completed);
    var body := Savepoint(fails, Throw, Some(Write(other, Done)));
    assert Eager(apply, Write(other, Done), db) == Ended(apply(db, other).value, Completed);
    assert Eager(apply, body, db) == Ended(apply(db, other).value, Completed);
    assert Collect(body).outcome == Threw;
    var quiet := Savepoint(fails, Throw, Some(Done));
    assert Eager(apply, quiet, db) == Ended(db, Completed);
    assert Collect(quiet).outcome == Threw;
  }

  /** A callback whose error leaves it changes nothing under either driver. */
  lemma FailedTransactionsChangeNothing<D, W>(apply: (D, W) -> Option<D>, p: Program<W>, db: D)
    ensures !EagerTransaction(apply, p, db).1 ==> EagerTransaction(apply, p, db).0 == db
    ensures !NativeTransaction(apply, p, db).1 ==> NativeTransaction(apply, p, db).0 == db
    ensures Collect(p).outcome.Threw? ==> NativeTransaction(apply, p, db) == (db, false)
  {
  }

  /** A failing write caught where nothing else is caught: the eager driver keeps the rest, the native one nothing. */
  lemma CaughtWriteFailureParts<D, W>(apply: (D, W) -> Option<D>, db: D, good: W, bad: W)
    requires apply(db, good).Some? && apply(db, good).value != db
    requires apply(apply(db, good).value, bad).None?
    ensures var p := Write(good, Savepoint(Write(bad, Done), Done, Some(Done)));
            && RunsPart(apply, p, db)
            && EagerTransaction(apply, p, db) == (apply(db, good).value, true)
            && NativeTransaction(apply, p, db) == (db, false)
  {
    var inner := Savepoint(Write(bad, Done), Done, Some(Done));
    var d1 := apply(db, good).value;
    assert Eager(apply, Write(bad, Done), d1) == Ended(d1, Threw);
    assert Eager(apply, inner, d1) == Ended(d1, Completed);
    assert Collect(Write(bad, Done)) == Collected([bad], Completed);
    assert Collect(inner) == Collected([bad], Completed);
    assert Collect(Write(good, inner)) == Collected([good, bad], Completed);
    assert [good, bad][1..] == [bad];
    assert Replay(apply, [bad], d1) == None;
    assert Replay(apply, [good, bad], db) == None;
  }

  // ---------- The native driver ----------

  /** Collects the writes of one callback; a savepoint has a client and a list of its own. */
  class NativeClient<W> {
    var operations: seq<W>
    var isActive: bool

    constructor ()
      ensures operations == [] && isActive
    {
      operations, isActive := [], true;
    }

    method Execute(w: W) returns (accepted: bool)
      modifies this
      ensures accepted == old(isActive) && isActive == old(isActive)
      ensures operations == if accepted then old(operations) + [w] else old(operations)
    {
      accepted := isActive;
      if isActive {
        operations := operations + [w];
      }
    }

    method Close()
      modifies this`isActive
      ensures !isActive
    {
      isActive := false;
    }

    method Run(p: Program<W>) returns (outcome: Outcome)
      requires isActive
      modifies this
      ensures isActive
      ensures operations == old(operations) + Collect(p).operations
      ensures outcome == Collect(p).outcome
      decreases p
    {
      match p
      case Done =>
        outcome := Completed;
      case Throw =>
        outcome := Threw;
      case Write(w, next) =>
        var _ := Execute(w);
        outcome := Run(next);
      case Savepoint(body, next, handler) =>
        var nested := new NativeClient<W>();
        var inner := nested.Run(body);
        nested.Close();
        if inner.Completed? {
          operations := operations + nested.operations;
          outcome := Run(next);
        } else if handler.Some? {
          outcome := Run(handler.value);
        } else {
          outcome := inner;
        }
    }
  }

  class NativeConnection<D, W> {
    const apply: (D, W) -> Option<D>
    var db: D

    constructor (apply: (D, W) -> Option<D>, db: D)
      ensures this.apply == apply && this.db == db
    {
      this.apply, this.db := apply, db;
    }

    /** All the operations in one native transaction, or none of them. */
    method RunOperations(operations: seq<W>) returns (committed: bool)
      modifies this
      ensures committed == Replay(apply, operations, old(db)).Some?
      ensures db == if committed then Replay(apply, operations, old(db)).value else old(db)
    {
      var working := db;
      for n := 0 to |operations|
        invariant db == old(db)
        invariant Replay(apply, operations, old(db)) == Replay(apply, operations[n..], working)
      {
        assert operations[n..][0] == operations[n] && operations[n..][1..] == operations[n + 1..];
        match apply(working, operations[n]) {
          case Some(written) => working := written;
          case None => return false;
        }
      }
      assert operations[|operations|..] == [];
      assert Replay(apply, operations, old(db)) == Some(working);
      db := working;
      return true;
    }

    method Transaction(p: Program<W>) returns (committed: bool)
      modifies this
      ensures db == NativeTransaction(apply, p, old(db)).0
      ensures committed == NativeTransaction(apply, p, old(db)).1
    {
      var client := new NativeClient<W>();
      var outcome := client.Run(p);
      client.Close();
      assert client.operations == Collect(p).operations;
      if outcome.Threw? {
        return false;
      }
      committed := RunOperations(client.operations);
    }
  }

  // ---------- The in-memory driver ----------

  datatype Mark<D> = Mark(name: nat, snapshot: D)

  /** The most recent savepoint of a name. */
  function LastNamed<D>(marks: seq<Mark<D>>, name: nat): (at: nat)
    requires exists k :: 0 <= k < |marks| && marks[k].name == name
    ensures at < |marks| && marks[at].name == name
    ensures forall k :: at < k < |marks| ==> marks[k].name != name
  {
    if marks[|marks| - 1].name == name then |marks| - 1
    else
      var init := marks[..|marks| - 1];
      var k :| 0 <= k < |marks| && marks[k].name == name;
      assert init[k].name == name;
      LastNamed(init, name)
  }

  /** A mark just set is the latest of its name, and dropping from it on leaves what was there before. */
  lemma LastIsLatest<D>(outer: seq<Mark<D>>, mark: Mark<D>)
    ensures var marks := outer + [mark];
            && (exists k :: 0 <= k < |marks| && marks[k].name == mark.name)
            && LastNamed(marks, mark.name) == |outer|
            && marks[|outer|] == mark && marks[..|outer|] == outer && marks[..|outer| + 1] == marks
  {
    var marks := outer + [mark];
    assert marks[|outer|].name == mark.name;
    assert marks[..|outer|] == outer && marks[..|outer| + 1] == marks;
  }

  class MemoryConnection<D, W> {
    const apply: (D, W) -> Option<D>
    var db: D
    var begun: Option<D>
    var marks: seq<Mark<D>>
    var savepointCounter: nat

    constructor (apply: (D, W) -> Option<D>, db: D)
      ensures this.apply == apply && this.db == db && begun == None && marks == [] && NamesBelowCounter()
    {
      this.apply, this.db, begun, marks, savepointCounter := apply, db, None, [], 0;
    }

    /** The counter never returns to a name that is still open. */
    ghost predicate NamesBelowCounter()
      reads this
    {
      forall k :: 0 <= k < |marks| ==> marks[k].name <= savepointCounter
    }

    method SetSavepoint(name: nat)
      modifies this`marks
      ensures marks == old(marks) + [Mark(name, db)]
    {
      marks := marks + [Mark(name, db)];
    }

    method Release(name: nat)
      requires exists k :: 0 <= k < |marks| && marks[k].name == name
      modifies this`marks
      ensures marks == old(marks)[..LastNamed(old(marks), name)]
    {
      marks := marks[..LastNamed(marks, name)];
    }

    /** Goes back to the savepoint's state; the savepoint itself stays open. */
    method RollbackTo(name: nat)
      requires exists k :: 0 <= k < |marks| && marks[k].name == name
      modifies this`marks, this`db
      ensures var at := LastNamed(old(marks), name);
              marks == old(marks)[..at + 1] && db == old(marks)[at].snapshot
    {
      var at := LastNamed(marks, name);
      db := marks[at].snapshot;
      marks := marks[..at + 1];
    }

    method Run(p: Program<W>) returns (outcome: Outcome)
      requires NamesBelowCounter()
      modifies this
      ensures begun == old(begun) && marks == old(marks)
      ensures NamesBelowCounter() && savepointCounter >= old(savepointCounter)
      ensures Ended(db, outcome) == Eager(apply, p, old(db))
      decreases p
    {
      hide LastNamed;
      match p
      case Done =>
        outcome := Completed;
      case Throw =>
        outcome := Threw;
      case Write(w, next) =>
        match apply(db, w) {
          case Some(written) =>
            db := written;
            outcome := Run(next);
          case None =>
            outcome := Threw;
        }
      case Savepoint(body, next, handler) =>
        savepointCounter := savepointCounter + 1;
        var name := savepointCounter;
        ghost var outer := marks;
        SetSavepoint(name);
        LastIsLatest(outer, Mark(name, db));
        var inner := Run(body);
        if inner.Completed? {
          Release(name);
          outcome := Run(next);
        } else {
          RollbackTo(name);
          Release(name);
          if handler.Some? {
            outcome := Run(handler.value);
          } else {
            outcome := inner;
          }
        }
    }

    method Transaction(p: Program<W>) returns (committed: bool)
      requires NamesBelowCounter() && marks == [] && begun == None
      modifies this
      ensures NamesBelowCounter() && marks == [] && begun == None
      ensures db == EagerTransaction(apply, p, old(db)).0
      ensures committed == EagerTransaction(apply, p, old(db)).1
    {
      begun := Some(db);
      var outcome := Run(p);
      if outcome.Completed? {
        begun := None;
        return true;
      }
      db := begun.value;
      begun := None;
      return false;
    }
  }
}
