/** The durable task table and the statements that change it. */
module TaskQueue {
  import opened Wrappers
  import opened TaskRetry
  import opened Selection
  import opened Whitespace

  datatype TaskId = TaskId(text: string)

  datatype Key = Key(text: string)

  datatype TaskState = Pending | Running | Completed | Failed | Cancelled

  datatype Task = Task(
    taskType: string,
    uniqueKey: Option<Key>,
    payloadParses: bool,
    policy: RetryPolicy,
    state: TaskState,
    attemptCount: nat,
    scheduledAt: int,
    startedAt: Option<int>,
    completedAt: Option<int>,
    failedAt: Option<int>,
    lastError: Option<string>)

  /** What a caller asks for; the rest of a new row is fixed. */
  datatype Definition = Definition(
    taskType: string,
    organisation: string,
    correlation: string,
    uniqueKey: Option<Key>,
    payloadSerializes: bool,
    payloadParses: bool,
    policy: RetryPolicy,
    timeoutMs: int,
    scheduledAt: int)

  const MAX_SAFE_INTEGER := 0x1F_FFFF_FFFF_FFFF

  ghost predicate ValidDefinition(d: Definition) {
    && !IsBlank(d.taskType) && !IsBlank(d.organisation) && !IsBlank(d.correlation)
    && ValidPolicy(d.policy) && d.policy.maxAttempts <= 9007199254740991
    && 0 < d.timeoutMs <= 9007199254740991
    && d.payloadSerializes
  }

  type Rows = map<TaskId, Task>

  predicate Active(t: Task) {
    t.state.Pending? || t.state.Running?
  }

  predicate Terminal(t: Task) {
    !Active(t)
  }

  // ---------- One SQL statement each ----------

  function NewTask(d: Definition): Task {
    Task(d.taskType, d.uniqueKey, d.payloadParses, d.policy, Pending, 0, d.scheduledAt, None, None, None, None)
  }

  /** The rows the partial unique index sees under a key. */
  function ActiveWithKey(rows: Rows, key: Key): set<TaskId> {
    set id | id in rows && rows[id].uniqueKey == Some(key) && Active(rows[id])
  }

  /** The lookup made for a definition; an empty key counts as none. */
  function Lookup(rows: Rows, d: Definition): set<TaskId> {
    if d.uniqueKey.None? || d.uniqueKey == Some(Key("")) then {} else ActiveWithKey(rows, d.uniqueKey.value)
  }

  /** An insertion is refused by the primary key or by the partial unique index over active rows. */
  predicate Insertable(rows: Rows, id: TaskId, d: Definition) {
    id !in rows && (d.uniqueKey.Some? ==> ActiveWithKey(rows, d.uniqueKey.value) == {})
  }

  predicate Due(t: Task, now: int, taskTypes: seq<string>) {
    t.state.Pending? && t.scheduledAt <= now && (taskTypes == [] || t.taskType in taskTypes)
  }

  /** The due tasks with the times they are due at. */
  function DueTimes(rows: Rows, now: int, taskTypes: seq<string>): map<TaskId, int> {
    map id | id in rows && Due(rows[id], now, taskTypes) :: rows[id].scheduledAt
  }

  const NotLaterTime := (a: int, b: int) => a <= b

  /** Due tasks, earliest first, as many as the limit allows; ties are broken either way. */
  ghost predicate ClaimBatch(rows: Rows, now: int, limit: int, taskTypes: seq<string>, batch: seq<TaskId>) {
    FirstByRank(DueTimes(rows, now, taskTypes), NotLaterTime, limit, batch)
  }

  function ClaimedTask(t: Task, now: int): Task {
    t.(state := Running, startedAt := Some(now), attemptCount := t.attemptCount + 1)
  }

  function Claim(rows: Rows, batch: seq<TaskId>, now: int): Rows {
    map id | id in rows :: if id in batch then ClaimedTask(rows[id], now) else rows[id]
  }

  function Quarantine(rows: Rows, id: TaskId, now: int): Rows {
    if id in rows && rows[id].state.Running?
    then rows[id := rows[id].(state := Failed, failedAt := Some(now),
                              lastError := Some("Task payload contains malformed JSON"))]
    else rows
  }

  function Complete(rows: Rows, id: TaskId, now: int): Rows {
    if id in rows && rows[id].state.Running?
    then rows[id := rows[id].(state := Completed, completedAt := Some(now))]
    else rows
  }

  /** The row a failure report read, if it was running then. */
  function ReadRunning(rows: Rows, id: TaskId): Option<Task> {
    if id in rows && rows[id].state.Running? then Some(rows[id]) else None
  }

  /** The conditional update that ends a failure report, for a task read as `seen`. */
  function WriteFailure(rows: Rows, id: TaskId, seen: Task, error: TaskError, now: int, clock: int, random: real): Rows
    requires seen.attemptCount >= 1
  {
    if id !in rows || !rows[id].state.Running? || rows[id].attemptCount != seen.attemptCount then rows
    else
      match Decide(error, seen.attemptCount, seen.policy, random)
      case Retry(delayMs) =>
        rows[id := rows[id].(state := Pending, scheduledAt := clock + delayMs,
                             lastError := Some(error.message), failedAt := None)]
      case GiveUp =>
        rows[id := rows[id].(state := Failed, failedAt := Some(now), lastError := Some(error.message))]
  }

  /** Reading and writing with nothing in between. */
  function FailAtOnce(rows: Rows, id: TaskId, error: TaskError, now: int, clock: int, random: real): Rows
    requires id in rows && rows[id].state.Running? ==> rows[id].attemptCount >= 1
  {
    match ReadRunning(rows, id)
    case None => rows
    case Some(seen) => WriteFailure(rows, id, seen, error, now, clock, random)
  }

  function Cancel(rows: Rows, id: TaskId, reason: string): Rows {
    if id in rows && Active(rows[id])
    then rows[id := rows[id].(state := Cancelled, lastError := Some(reason))]
    else rows
  }

  predicate Hanging(t: Task, cutoff: int) {
    t.state.Running? && t.startedAt.Some? && t.startedAt.value <= cutoff
  }

  function AllHanging(rows: Rows, cutoff: int): set<TaskId> {
    set id | id in rows && Hanging(rows[id], cutoff)
  }

  function RecoveredTask(t: Task, now: int): Task {
    t.(state := Pending, startedAt := None, scheduledAt := now,
       lastError := Some("Recovered after process crash or timeout"))
  }

  function Recover(rows: Rows, cutoff: int, now: int): Rows {
    map id | id in rows :: if Hanging(rows[id], cutoff) then RecoveredTask(rows[id], now) else rows[id]
  }

  // ---------- What the table keeps ----------

  ghost predicate TableInvariant(rows: Rows) {
    && (forall id :: id in rows ==> rows[id].policy.maxAttempts > 0)
    && (forall id :: id in rows && rows[id].state.Running? ==> rows[id].attemptCount >= 1 && rows[id].startedAt.Some?)
    && KeysDistinct(rows)
  }

  /** At most one active task holds a given unique key. */
  ghost predicate KeysDistinct(rows: Rows) {
    forall a, b :: a in rows && b in rows && a != b && Active(rows[a]) && Active(rows[b]) ==>
                     rows[a].uniqueKey.None? || rows[a].uniqueKey != rows[b].uniqueKey
  }

  // ---------- The service ----------

  datatype EnqueueError = InvalidDefinition | Rejected | CorruptTask

  /** No more than one active task stands under a key. */
  lemma LookupIsUnique(rows: Rows, d: Definition, a: TaskId, b: TaskId)
    requires TableInvariant(rows) && a in Lookup(rows, d) && b in Lookup(rows, d)
    ensures a == b
  {
  }

  class TaskQueueService {
    var rows: Rows

    constructor ()
      ensures rows == map[]
    {
      rows := map[];
    }

    /**
      * Returns the task under the definition's key if one is active, or a new one. `freshId` is the generated
      * id, `atInsert` the table as other callers have left it when the insertion is made, and `atReread` as they
      * have left it when the winner of a refused insertion is looked up. An empty key is not looked up, yet the
      * index still refuses it twice.
      */
    method Enqueue(d: Definition, freshId: TaskId, atInsert: Rows, atReread: Rows)
      returns (r: Result<TaskId, EnqueueError>)
      requires TableInvariant(rows) && TableInvariant(atInsert) && TableInvariant(atReread)
      modifies this
      ensures TableInvariant(rows)
      ensures r == Failure(InvalidDefinition) <==> !ValidDefinition(d)
      ensures !ValidDefinition(d) ==> rows == old(rows)
      ensures ValidDefinition(d) && Lookup(old(rows), d) != {} ==>
                && rows == old(rows)
                && forall id :: id in Lookup(old(rows), d) ==>
                     r == if old(rows)[id].payloadParses then Success(id) else Failure(CorruptTask)
      ensures ValidDefinition(d) && Lookup(old(rows), d) == {} && Insertable(atInsert, freshId, d) ==>
                && rows == atInsert[freshId := NewTask(d)]
                && r == if d.payloadParses then Success(freshId) else Failure(CorruptTask)
      ensures ValidDefinition(d) && Lookup(old(rows), d) == {} && !Insertable(atInsert, freshId, d) ==>
                && rows == atReread
                && (Lookup(atReread, d) == {} ==> r == Failure(Rejected))
                && forall id :: id in Lookup(atReread, d) ==>
                     r == if atReread[id].payloadParses then Success(id) else Failure(CorruptTask)
    {
      if IsBlank(d.taskType) || IsBlank(d.organisation) || IsBlank(d.correlation) {
        return Failure(InvalidDefinition);
      }
      var p := d.policy;
      if p.maxAttempts > MAX_SAFE_INTEGER || p.maxAttempts <= 0 || p.initialDelayMs < 0.0
         || p.backoffMultiplier <= 0.0 || p.maxDelayMs < 0.0 || p.jitter < 0.0 || p.jitter > 1.0 {
        return Failure(InvalidDefinition);
      }
      if d.timeoutMs > MAX_SAFE_INTEGER || d.timeoutMs <= 0 {
        return Failure(InvalidDefinition);
      }
      if !d.payloadSerializes {
        return Failure(InvalidDefinition);
      }
      var existing := Lookup(rows, d);
      if existing != {} {
        var id :| id in existing;
        forall other | other in existing ensures other == id {
          LookupIsUnique(rows, d, other, id);
        }
        return if rows[id].payloadParses then Success(id) else Failure(CorruptTask);
      }
      rows := atInsert;
      if !Insertable(rows, freshId, d) {
        rows := atReread;
        var winners := Lookup(rows, d);
        if winners != {} {
          var id :| id in winners;
          forall other | other in winners ensures other == id {
            LookupIsUnique(rows, d, other, id);
          }
          return if rows[id].payloadParses then Success(id) else Failure(CorruptTask);
        }
        return Failure(Rejected);
      }
      InsertKeepsTable(rows, freshId, d);
      rows := rows[freshId := NewTask(d)];
      return if rows[freshId].payloadParses then Success(freshId) else Failure(CorruptTask);
    }

    /** Fails the claimed rows whose payload cannot be read and returns the others. */
    method ReadPayloads(claimed: seq<TaskId>, now: int) returns (tasks: seq<TaskId>)
      requires TableInvariant(rows)
      modifies this
      ensures TableInvariant(rows)
      ensures tasks == Readable(old(rows), claimed)
      ensures rows == QuarantineUnreadable(old(rows), claimed, now)
    {
      hide TableInvariant, Quarantine;
      tasks := [];
      for k := 0 to |claimed|
        invariant rows == QuarantineUnreadable(old(rows), claimed[..k], now)
        invariant tasks == Readable(old(rows), claimed[..k])
        invariant TableInvariant(rows)
      {
        assert claimed[..k + 1][..k] == claimed[..k];
        QuarantineKeepsPayloads(old(rows), claimed[..k], now);
        QuarantineKeepsTable(rows, claimed[k], now);
        if claimed[k] in rows {
          if rows[claimed[k]].payloadParses {
            tasks := tasks + [claimed[k]];
          } else {
            rows := Quarantine(rows, claimed[k], now);
          }
        }
      }
      assert claimed[..|claimed|] == claimed;
    }

    /** Claims due tasks; rows whose payload cannot be read are failed and not returned. */
    method ClaimNextBatch(limit: int, taskTypes: seq<string>, now: int)
      returns (r: Option<seq<TaskId>>, ghost batch: seq<TaskId>)
      requires TableInvariant(rows)
      modifies this
      ensures TableInvariant(rows)
      ensures r.None? <==> limit <= 0
      ensures r.None? ==> rows == old(rows)
      ensures r.Some? ==>
                && ClaimBatch(old(rows), now, limit, taskTypes, batch)
                && r.value == Readable(Claim(old(rows), batch, now), batch)
                && rows == QuarantineUnreadable(Claim(old(rows), batch, now), batch, now)
    {
      hide TableInvariant;
      batch := [];
      if limit <= 0 {
        return None, [];
      }
      var claimed := SelectFirst(DueTimes(rows, now, taskTypes), NotLaterTime, limit);
      ClaimKeepsTable(rows, claimed, now);
      rows := Claim(rows, claimed, now);
      var tasks := ReadPayloads(claimed, now);
      return Some(tasks), claimed;
    }

    method MarkCompleted(id: TaskId, now: int)
      requires TableInvariant(rows)
      modifies this
      ensures TableInvariant(rows)
      ensures rows == Complete(old(rows), id, now)
    {
      if id in rows && rows[id].state.Running? {
        rows := rows[id := rows[id].(state := Completed, completedAt := Some(now))];
      }
    }

    /** The report of one failure when no other call comes between its two statements. */
    method MarkFailed(id: TaskId, error: TaskError, now: int, clock: int, random: real) returns (willRetry: bool)
      requires TableInvariant(rows)
      modifies this
      ensures TableInvariant(rows)
      ensures id in old(rows) && old(rows)[id].state.Running? ==> old(rows)[id].attemptCount >= 1
      ensures rows == FailAtOnce(old(rows), id, error, now, clock, random)
      ensures willRetry <==> id in old(rows) && old(rows)[id].state.Running? && rows[id].state.Pending?
    {
      hide Decide, TableInvariant;
      if id !in rows || !rows[id].state.Running? {
        return false;
      }
      RunningHasAttempt(rows, id);
      var row := rows[id];
      var decision := Decide(error, row.attemptCount, row.policy, random);
      WriteFailureKeepsTable(rows, id, row, error, now, clock, random);
      match decision {
        case Retry(delayMs) =>
          rows := rows[id := row.(state := Pending, scheduledAt := clock + delayMs,
                                  lastError := Some(error.message), failedAt := None)];
          return true;
        case GiveUp =>
          rows := rows[id := row.(state := Failed, failedAt := Some(now), lastError := Some(error.message))];
          return false;
      }
    }

    method CancelTask(id: TaskId, reason: string)
      requires TableInvariant(rows)
      modifies this
      ensures TableInvariant(rows)
      ensures rows == Cancel(old(rows), id, reason)
    {
      if id in rows && Active(rows[id]) {
        rows := rows[id := rows[id].(state := Cancelled, lastError := Some(reason))];
      }
    }

    method RecoverHangingTasks(timeoutMs: int, now: int) returns (recovered: nat)
      requires TableInvariant(rows)
      modifies this
      ensures TableInvariant(rows)
      ensures rows == Recover(old(rows), now - timeoutMs, now)
      ensures recovered == |AllHanging(old(rows), now - timeoutMs)|
    {
      hide TableInvariant;
      recovered := |AllHanging(rows, now - timeoutMs)|;
      RecoverKeepsTable(rows, now - timeoutMs, now);
      rows := Recover(rows, now - timeoutMs, now);
    }
  }

  /** The claimed tasks whose payload can be read, in the order claimed. */
  function Readable(rows: Rows, batch: seq<TaskId>): seq<TaskId> {
    if batch == [] then []
    else
      var last := batch[|batch| - 1];
      Readable(rows, batch[..|batch| - 1])
      + if last in rows && rows[last].payloadParses then [last] else []
  }

  function QuarantineUnreadable(rows: Rows, batch: seq<TaskId>, now: int): Rows {
    if batch == [] then rows
    else
      var done := QuarantineUnreadable(rows, batch[..|batch| - 1], now);
      var last := batch[|batch| - 1];
      if last in done && !done[last].payloadParses then Quarantine(done, last, now) else done
  }

  // ---------- Each statement keeps the table ----------

  lemma InsertKeepsTable(rows: Rows, id: TaskId, d: Definition)
    requires TableInvariant(rows) && Insertable(rows, id, d) && d.policy.maxAttempts > 0
    ensures TableInvariant(rows[id := NewTask(d)])
  {
    if d.uniqueKey.Some? {
      assert forall a :: a in rows && rows[a].uniqueKey == d.uniqueKey && Active(rows[a]) ==>
                           a in ActiveWithKey(rows, d.uniqueKey.value);
    }
  }

  lemma ClaimKeepsTable(rows: Rows, batch: seq<TaskId>, now: int)
    requires TableInvariant(rows)
    requires forall id :: id in batch ==> id in rows && rows[id].state.Pending?
    ensures TableInvariant(Claim(rows, batch, now))
  {
    var rows' := Claim(rows, batch, now);
    assert forall id :: id in rows' ==> id in rows && Active(rows'[id]) == Active(rows[id])
                                        && rows'[id].uniqueKey == rows[id].uniqueKey;
  }

  lemma RunningHasAttempt(rows: Rows, id: TaskId)
    requires TableInvariant(rows) && id in rows && rows[id].state.Running?
    ensures rows[id].attemptCount >= 1
  {
  }

  lemma QuarantineKeepsTable(rows: Rows, id: TaskId, now: int)
    requires TableInvariant(rows)
    ensures TableInvariant(Quarantine(rows, id, now))
  {
  }

  lemma {:induction false} QuarantineKeepsPayloads(rows: Rows, batch: seq<TaskId>, now: int)
    ensures var rows' := QuarantineUnreadable(rows, batch, now);
            rows'.Keys == rows.Keys
            && forall id :: id in rows ==> rows'[id].payloadParses == rows[id].payloadParses
  {
    if batch != [] {
      QuarantineKeepsPayloads(rows, batch[..|batch| - 1], now);
    }
  }

  lemma WriteFailureKeepsTable(
    rows: Rows, id: TaskId, seen: Task, error: TaskError, now: int, clock: int, random: real)
    requires TableInvariant(rows) && seen.attemptCount >= 1
    ensures TableInvariant(WriteFailure(rows, id, seen, error, now, clock, random))
  {
    hide Decide;
  }

  lemma RecoverKeepsTable(rows: Rows, cutoff: int, now: int)
    requires TableInvariant(rows)
    ensures TableInvariant(Recover(rows, cutoff, now))
  {
    var rows' := Recover(rows, cutoff, now);
    assert forall id :: id in rows' ==> id in rows && Active(rows'[id]) == Active(rows[id])
                                        && rows'[id].uniqueKey == rows[id].uniqueKey;
  }
}
