/** What each statement on the task table does, column by column. */
module TaskRows {
  import opened Wrappers
  import opened Selection
  import opened TaskRetry
  import opened TaskQueue

  /** A task that a claim may take: pending, due by now, of a wanted type if types are given. */
  ghost predicate Claimable(t: Task, now: int, taskTypes: seq<string>) {
    && t.state == Pending
    && t.scheduledAt <= now
    && (|taskTypes| > 0 ==> exists k :: 0 <= k < |taskTypes| && taskTypes[k] == t.taskType)
  }

  /** What no claim, report or recovery ever touches. */
  ghost predicate SameTask(t: Task, t': Task) {
    && t'.taskType == t.taskType
    && t'.uniqueKey == t.uniqueKey
    && t'.policy == t.policy
    && t'.payloadParses == t.payloadParses
  }

  /** A claim takes claimable tasks only, each once, earliest first, and leaves out none due before one it takes. */
  lemma ClaimsEarliestDue(rows: Rows, now: int, limit: int, taskTypes: seq<string>, batch: seq<TaskId>)
    requires ClaimBatch(rows, now, limit, taskTypes, batch)
    ensures |batch| <= limit
    ensures forall i :: 0 <= i < |batch| ==> batch[i] in rows && Claimable(rows[batch[i]], now, taskTypes)
    ensures forall i, j :: 0 <= i < j < |batch| ==>
              batch[i] != batch[j] && rows[batch[i]].scheduledAt <= rows[batch[j]].scheduledAt
    ensures forall id :: id in rows && Claimable(rows[id], now, taskTypes) && id !in batch ==>
              |batch| == limit && forall i :: 0 <= i < |batch| ==> rows[batch[i]].scheduledAt <= rows[id].scheduledAt
  {
    var due := DueTimes(rows, now, taskTypes);
    forall id ensures id in due <==> id in rows && Claimable(rows[id], now, taskTypes) {
    }
    forall i | 0 <= i < |batch| ensures batch[i] in rows && Claimable(rows[batch[i]], now, taskTypes) {
      assert batch[i] in due;
    }
    forall i, j | 0 <= i < j < |batch| ensures rows[batch[i]].scheduledAt <= rows[batch[j]].scheduledAt {
      assert NotLaterTime(due[batch[i]], due[batch[j]]);
    }
    forall id | id in rows && Claimable(rows[id], now, taskTypes) && id !in batch
      ensures |batch| == limit && forall i :: 0 <= i < |batch| ==> rows[batch[i]].scheduledAt <= rows[id].scheduledAt
    {
      assert id in due;
      assert forall i :: 0 <= i < |batch| ==> NotLaterTime(due[batch[i]], due[id]);
    }
  }

  lemma ClaimedRows(rows: Rows, batch: seq<TaskId>, now: int)
    ensures Claim(rows, batch, now).Keys == rows.Keys
    ensures forall id :: id in rows ==>
              var t, t' := rows[id], Claim(rows, batch, now)[id];
              && SameTask(t, t') && t'.scheduledAt == t.scheduledAt
              && t'.completedAt == t.completedAt && t'.failedAt == t.failedAt && t'.lastError == t.lastError
              && (id !in batch ==> t' == t)
              && (id in batch ==>
                    t'.state == Running && t'.startedAt == Some(now) && t'.attemptCount - t.attemptCount == 1)
  {
  }

  /** Of the claimed tasks exactly those that parse are handed out, in the order they were claimed. */
  lemma {:induction false} HandedOut(rows: Rows, batch: seq<TaskId>)
    ensures forall id :: id in Readable(rows, batch) <==> id in batch && id in rows && rows[id].payloadParses
    ensures |Readable(rows, batch)| <= |batch|
  {
    if batch != [] {
      var n := |batch| - 1;
      HandedOut(rows, batch[..n]);
      assert batch == batch[..n] + [batch[n]];
    }
  }

  lemma {:induction false} HandedOutInOrder(rows: Rows, batch: seq<TaskId>, i: nat, j: nat) returns (a: nat, b: nat)
    requires i < j < |Readable(rows, batch)|
    ensures a < b < |batch| && Readable(rows, batch)[i] == batch[a] && Readable(rows, batch)[j] == batch[b]
  {
    var n := |batch| - 1;
    var before := Readable(rows, batch[..n]);
    if j < |before| {
      a, b := HandedOutInOrder(rows, batch[..n], i, j);
    } else {
      a := HandedOutFrom(rows, batch[..n], i);
      b := n;
    }
  }

  lemma {:induction false} HandedOutFrom(rows: Rows, batch: seq<TaskId>, i: nat) returns (a: nat)
    requires i < |Readable(rows, batch)|
    ensures a < |batch| && Readable(rows, batch)[i] == batch[a]
  {
    var n := |batch| - 1;
    if i < |Readable(rows, batch[..n])| {
      a := HandedOutFrom(rows, batch[..n], i);
    } else {
      a := n;
    }
  }

  /** The others are failed if they still run; nothing else changes. */
  lemma {:induction false} UnreadableAreFailed(rows: Rows, batch: seq<TaskId>, now: int)
    ensures QuarantineUnreadable(rows, batch, now).Keys == rows.Keys
    ensures forall id :: id in rows ==>
              var t, t' := rows[id], QuarantineUnreadable(rows, batch, now)[id];
              if id in batch && t.state == Running && !t.payloadParses then IsQuarantined(t, t', now) else t' == t
  {
    hide Quarantine, IsQuarantined;
    if batch != [] {
      var n := |batch| - 1;
      UnreadableAreFailed(rows, batch[..n], now);
      assert batch == batch[..n] + [batch[n]];
      QuarantinedRow(QuarantineUnreadable(rows, batch[..n], now), batch[n], now);
      QuarantinedIsNotRunning();
    }
  }

  ghost predicate IsQuarantined(t: Task, t': Task, now: int) {
    && t'.state == Failed && t'.failedAt == Some(now)
    && t'.lastError == Some("Task payload contains malformed JSON")
    && SameTask(t, t') && t'.attemptCount == t.attemptCount && t'.scheduledAt == t.scheduledAt
    && t'.startedAt == t.startedAt && t'.completedAt == t.completedAt
  }

  lemma QuarantinedIsNotRunning()
    ensures forall t, t', now :: IsQuarantined(t, t', now) ==> t'.state != Running
  {
  }

  lemma QuarantinedRow(rows: Rows, id: TaskId, now: int)
    ensures Quarantine(rows, id, now).Keys == rows.Keys
    ensures forall other :: other in rows && (other != id || rows[id].state != Running) ==>
              Quarantine(rows, id, now)[other] == rows[other]
    ensures id in rows && rows[id].state == Running ==> IsQuarantined(rows[id], Quarantine(rows, id, now)[id], now)
  {
  }

  /** A running task is completed; no other row changes. */
  lemma CompletedRow(rows: Rows, id: TaskId, now: int)
    ensures Complete(rows, id, now).Keys == rows.Keys
    ensures forall other :: other in rows && (other != id || rows[id].state != Running) ==>
              Complete(rows, id, now)[other] == rows[other]
    ensures id in rows && rows[id].state == Running ==>
              var t, t' := rows[id], Complete(rows, id, now)[id];
              && t'.state == Completed && t'.completedAt == Some(now)
              && SameTask(t, t') && t'.attemptCount == t.attemptCount && t'.scheduledAt == t.scheduledAt
              && t'.startedAt == t.startedAt && t'.failedAt == t.failedAt && t'.lastError == t.lastError
  {
  }

  /** A pending or running task is cancelled, with the reason; no other row changes. */
  lemma CancelledRow(rows: Rows, id: TaskId, reason: string)
    ensures Cancel(rows, id, reason).Keys == rows.Keys
    ensures forall other :: other in rows
                            && (other != id || (rows[id].state != Running && rows[id].state != Pending)) ==>
              Cancel(rows, id, reason)[other] == rows[other]
    ensures id in rows && (rows[id].state == Running || rows[id].state == Pending) ==>
              var t, t' := rows[id], Cancel(rows, id, reason)[id];
              && t'.state == Cancelled && t'.lastError == Some(reason)
              && SameTask(t, t') && t'.attemptCount == t.attemptCount && t'.scheduledAt == t.scheduledAt
              && t'.startedAt == t.startedAt && t'.failedAt == t.failedAt && t'.completedAt == t.completedAt
  {
  }

  /** Tasks running since the cutoff or longer are pending again, due at once, their attempts kept. */
  lemma RecoveredRows(rows: Rows, cutoff: int, now: int)
    ensures Recover(rows, cutoff, now).Keys == rows.Keys
    ensures forall id :: id in rows ==>
              var t, t' := rows[id], Recover(rows, cutoff, now)[id];
              if t.state == Running && t.startedAt.Some? && t.startedAt.value <= cutoff
              then
                && t'.state == Pending && t'.startedAt == None && t'.scheduledAt == now
                && t'.lastError == Some("Recovered after process crash or timeout")
                && SameTask(t, t') && t'.attemptCount == t.attemptCount
                && t'.failedAt == t.failedAt && t'.completedAt == t.completedAt
              else t' == t
    ensures forall id :: id in AllHanging(rows, cutoff) <==>
              id in rows && rows[id].state == Running && rows[id].startedAt.Some? && rows[id].startedAt.value <= cutoff
  {
  }

  /** Whether the error lets a task be tried again: it is no error of the platform, or one that says so. */
  ghost predicate Transient(error: TaskError) {
    error.OtherError? || (error.retryable && !error.permanentClass)
  }

  /**
    * A failure report settles a row only if it still runs in the attempt it was read in: back to pending, at the
    * decided time, when the error is transient and attempts remain, and failed otherwise.
    */
  lemma ReportedRow(rows: Rows, id: TaskId, seen: Task, error: TaskError, now: int, clock: int, random: real)
    requires seen.attemptCount >= 1
    ensures var rows' := WriteFailure(rows, id, seen, error, now, clock, random);
            && rows'.Keys == rows.Keys
            && (forall other :: other in rows && other != id ==> rows'[other] == rows[other])
            && (id in rows && (rows[id].state != Running || rows[id].attemptCount != seen.attemptCount) ==>
                  rows'[id] == rows[id])
            && (id in rows && rows[id].state == Running && rows[id].attemptCount == seen.attemptCount ==>
                  var t, t' := rows[id], rows'[id];
                  && SameTask(t, t') && t'.attemptCount == t.attemptCount && t'.startedAt == t.startedAt
                  && t'.completedAt == t.completedAt && t'.lastError == Some(error.message)
                  && (if Transient(error) && seen.attemptCount < seen.policy.maxAttempts
                      then
                        && t'.state == Pending && t'.failedAt == None
                        && Decide(error, seen.attemptCount, seen.policy, random).Retry?
                        && t'.scheduledAt - clock == Decide(error, seen.attemptCount, seen.policy, random).delayMs
                      else t'.state == Failed && t'.failedAt == Some(now) && t'.scheduledAt == t.scheduledAt))
  {
    hide Backoff, JitterFactor, Round, Scale;
  }

  /** A new row is what its definition says, pending and never tried. */
  lemma InsertedRow(d: Definition)
    ensures var t := NewTask(d);
            && t.taskType == d.taskType && t.uniqueKey == d.uniqueKey && t.policy == d.policy
            && t.payloadParses == d.payloadParses && t.scheduledAt == d.scheduledAt
            && t.state == Pending && t.attemptCount == 0
            && t.startedAt == None && t.completedAt == None && t.failedAt == None && t.lastError == None
  {
  }

  /** A row is found under a key if it has it and is pending or running; an empty key is never looked up. */
  lemma FoundUnderKey(rows: Rows, d: Definition, id: TaskId)
    ensures id in Lookup(rows, d) <==>
            && id in rows && rows[id].uniqueKey.Some? && rows[id].uniqueKey == d.uniqueKey
            && rows[id].uniqueKey.value.text != ""
            && (rows[id].state == Pending || rows[id].state == Running)
    ensures Insertable(rows, id, d) <==>
            && id !in rows
            && forall other :: other in rows && rows[other].uniqueKey.Some? && rows[other].uniqueKey == d.uniqueKey ==>
                 rows[other].state != Pending && rows[other].state != Running
  {
    if d.uniqueKey.Some? {
      assert forall other :: other in ActiveWithKey(rows, d.uniqueKey.value) <==>
               other in rows && rows[other].uniqueKey == d.uniqueKey && Active(rows[other]);
    }
  }
}
