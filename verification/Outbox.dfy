/** The durable outbound queue and the worker that dispatches it. */
module Outbox {
  import opened Wrappers
  import opened Selection
  import opened Whitespace

  datatype EnvelopeId = EnvelopeId(text: string)

  datatype Organisation = Organisation(text: string)

  datatype Status = Pending | Sent | Failed

  datatype OutboxRow = OutboxRow(
    organisation: Organisation,
    createdAt: int,
    status: Status,
    attemptCount: nat,
    lastAttemptAt: Option<int>,
    sentAt: Option<int>)

  type OutboxRows = map<EnvelopeId, OutboxRow>

  const MAX_OUTBOX_BATCH_SIZE := 50

  const DEFAULT_MAX_ATTEMPTS := 5

  // ---------- One statement each ----------

  function NewRow(organisation: Organisation, now: int): OutboxRow {
    OutboxRow(organisation, now, Pending, 0, None, None)
  }

  function MarkSent(rows: OutboxRows, id: EnvelopeId, now: int): OutboxRows {
    if id in rows && rows[id].status.Pending?
    then rows[id := rows[id].(status := Sent, sentAt := Some(now))]
    else rows
  }

  function MarkFailed(rows: OutboxRows, id: EnvelopeId, maxAttempts: int, now: int): OutboxRows {
    if id in rows && rows[id].status.Pending?
    then
      var row := rows[id];
      rows[id := row.(attemptCount := row.attemptCount + 1, lastAttemptAt := Some(now),
                      status := if row.attemptCount + 1 >= maxAttempts then Failed else Pending)]
    else rows
  }

  function PendingTimes(rows: OutboxRows, organisation: Organisation): map<EnvelopeId, int> {
    map id | id in rows && rows[id].status.Pending? && rows[id].organisation == organisation :: rows[id].createdAt
  }

  const NotLaterTime := (a: int, b: int) => a <= b

  /** The oldest pending rows of one organisation. */
  ghost predicate PendingBatchOf(rows: OutboxRows, organisation: Organisation, limit: int, batch: seq<EnvelopeId>) {
    FirstByRank(PendingTimes(rows, organisation), NotLaterTime, limit, batch)
  }

  /** Among the oldest pending rows there may be one whose stored envelope does not check against it. */
  ghost predicate CorruptPending(rows: OutboxRows, organisation: Organisation, limit: int, intact: EnvelopeId -> bool) {
    exists batch :: PendingBatchOf(rows, organisation, limit, batch) && exists id :: id in batch && !intact(id)
  }

  // ---------- What a row can be ----------

  /** Below the limit of attempts a row failed only by the worker is pending or sent; at the limit it is failed. */
  ghost predicate RowInvariant(row: OutboxRow) {
    && (row.status.Failed? <==> row.attemptCount >= DEFAULT_MAX_ATTEMPTS)
    && row.attemptCount <= DEFAULT_MAX_ATTEMPTS
    && (row.sentAt.Some? <==> row.status.Sent?)
  }

  ghost predicate RowsInvariant(rows: OutboxRows) {
    forall id :: id in rows ==> RowInvariant(rows[id])
  }

  // ---------- The dispatch loop ----------

  /**
    * What befalls one entry of a batch: whether the task was aborted before it, whether the peer accepted the
    * envelope, whether that could be recorded, whether the task was aborted by the time of a failure, and whether the
    * failure could be recorded.
    */
  datatype Reply = Reply(
    abortedBefore: bool,
    accepted: bool,
    recorded: bool,
    abortedAfter: bool,
    failureRecorded: bool)

  /** A cycle is stopped by an abort or by a failure that could not be recorded. */
  datatype Verdict = Finished | Stopped | AllFailed

  /** How a pass ends: the rows, the envelopes the peer accepted, and the tallies. */
  datatype Pass = Pass(rows: OutboxRows, accepted: seq<EnvelopeId>, dispatched: nat, failed: nat, stopped: bool)

  /** One entry of the batch. */
  function Dispatch(pass: Pass, id: EnvelopeId, reply: Reply, now: int): Pass {
    if pass.stopped then pass
    else if reply.abortedBefore then pass.(stopped := true)
    else
      var accepted := pass.(accepted := if reply.accepted then pass.accepted + [id] else pass.accepted);
      if reply.accepted && reply.recorded then
        accepted.(rows := MarkSent(pass.rows, id, now), dispatched := pass.dispatched + 1)
      else if reply.abortedAfter || !reply.failureRecorded then accepted.(stopped := true)
      else accepted.(rows := MarkFailed(pass.rows, id, DEFAULT_MAX_ATTEMPTS, now), failed := pass.failed + 1)
  }

  function DispatchAll(rows: OutboxRows, batch: seq<EnvelopeId>, replies: seq<Reply>, now: int): Pass
    requires |replies| >= |batch|
  {
    if batch == [] then Pass(rows, [], 0, 0, false)
    else
      var n := |batch| - 1;
      Dispatch(DispatchAll(rows, batch[..n], replies, now), batch[n], replies[n], now)
  }

  datatype OutboxError =
    | InvalidEnvelope
    | DuplicateEnvelope
    | CorruptEnvelope
    | InvalidOrganisation
    | InvalidLimit
    | InvalidMaxAttempts
    | WrongOrganisation

  class OutboxService {
    var rows: OutboxRows
    var cursors: map<Organisation, int>

    constructor ()
      ensures rows == map[] && cursors == map[]
    {
      rows, cursors := map[], map[];
    }

    /** `wellFormed` is the verdict of the envelope checks. */
    method Enqueue(id: EnvelopeId, organisation: Organisation, wellFormed: bool, now: int)
      returns (r: Result<(), OutboxError>)
      modifies this`rows
      ensures r == Failure(InvalidEnvelope) <==> !wellFormed
      ensures r.Success? <==> wellFormed && id !in old(rows)
      ensures rows == if r.Success? then old(rows)[id := NewRow(organisation, now)] else old(rows)
    {
      if !wellFormed {
        return Failure(InvalidEnvelope);
      }
      if id in rows {
        return Failure(DuplicateEnvelope);
      }
      rows := rows[id := NewRow(organisation, now)];
      return Success(());
    }

    method RecordSent(id: EnvelopeId, now: int)
      modifies this`rows
      ensures rows == MarkSent(old(rows), id, now)
    {
      if id in rows && rows[id].status.Pending? {
        rows := rows[id := rows[id].(status := Sent, sentAt := Some(now))];
      }
    }

    method RecordFailed(id: EnvelopeId, maxAttempts: int, now: int) returns (r: Result<(), OutboxError>)
      modifies this`rows
      ensures r.Success? <==> maxAttempts > 0
      ensures rows == if r.Success? then MarkFailed(old(rows), id, maxAttempts, now) else old(rows)
    {
      if maxAttempts <= 0 {
        return Failure(InvalidMaxAttempts);
      }
      if id in rows && rows[id].status.Pending? {
        var attempts := rows[id].attemptCount + 1;
        rows := rows[id := rows[id].(attemptCount := attempts, lastAttemptAt := Some(now),
                                     status := if attempts >= maxAttempts then Failed else Pending)];
      }
      return Success(());
    }

    /** `intact` says which stored envelopes still check against their rows; one that does not fails the whole batch. */
    method PendingBatch(organisation: Organisation, limit: int, intact: EnvelopeId -> bool)
      returns (r: Result<seq<EnvelopeId>, OutboxError>)
      ensures r == Failure(InvalidOrganisation) <==> IsBlank(organisation.text)
      ensures r == Failure(InvalidLimit) <==>
              !IsBlank(organisation.text) && !(0 < limit <= 50)
      ensures r.Failure? ==> r.error in {InvalidOrganisation, InvalidLimit, CorruptEnvelope}
      ensures r.Success? ==>
                && PendingBatchOf(rows, organisation, limit, r.value) && |r.value| <= limit
                && forall id :: id in r.value ==> intact(id)
      ensures r == Failure(CorruptEnvelope) ==> CorruptPending(rows, organisation, limit, intact)
    {
      if IsBlank(organisation.text) {
        return Failure(InvalidOrganisation);
      }
      if limit <= 0 || limit > MAX_OUTBOX_BATCH_SIZE {
        return Failure(InvalidLimit);
      }
      var batch := SelectFirst(PendingTimes(rows, organisation), NotLaterTime, limit);
      assert PendingBatchOf(rows, organisation, limit, batch);
      for i := 0 to |batch|
        invariant forall k :: 0 <= k < i ==> intact(batch[k])
      {
        if !intact(batch[i]) {
          assert batch[i] in batch;
          return Failure(CorruptEnvelope);
        }
      }
      return Success(batch);
    }

    /** Dispatches the entries one by one, until the task is stopped. */
    method DispatchBatch(batch: seq<EnvelopeId>, replies: seq<Reply>, now: int)
      returns (dispatched: nat, failed: nat, stopped: bool, accepted: seq<EnvelopeId>)
      requires |replies| >= |batch|
      modifies this`rows
      ensures DispatchAll(old(rows), batch, replies, now) == Pass(rows, accepted, dispatched, failed, stopped)
    {
      hide MarkSent, MarkFailed;
      dispatched, failed, accepted := 0, 0, [];
      for k := 0 to |batch|
        invariant DispatchAll(old(rows), batch[..k], replies, now) == Pass(rows, accepted, dispatched, failed, false)
      {
        var id, reply := batch[k], replies[k];
        assert batch[..k + 1][..k] == batch[..k];
        StopsForGood(old(rows), batch, replies, now, k + 1);
        if reply.abortedBefore {
          return dispatched, failed, true, accepted;
        }
        if reply.accepted {
          accepted := accepted + [id];
        }
        if reply.accepted && reply.recorded {
          RecordSent(id, now);
          dispatched := dispatched + 1;
        } else if reply.abortedAfter || !reply.failureRecorded {
          return dispatched, failed, true, accepted;
        } else {
          var _ := RecordFailed(id, DEFAULT_MAX_ATTEMPTS, now);
          failed := failed + 1;
        }
      }
      assert batch[..|batch|] == batch;
      return dispatched, failed, false, accepted;
    }

    /** One cycle of the sync worker over the oldest pending envelopes; writing the cursor may fail without harm. */
    method Handle(organisation: Organisation, contextOrganisation: Organisation, limit: int,
                  intact: EnvelopeId -> bool, replies: seq<Reply>, abortedFirst: bool, abortedLast: bool,
                  cursorWritten: bool, now: int)
      returns (r: Result<Verdict, OutboxError>, batch: seq<EnvelopeId>)
      requires |replies| >= MAX_OUTBOX_BATCH_SIZE
      modifies this
      ensures r.Failure? || (r.value.Stopped? && abortedFirst) ==> rows == old(rows) && batch == []
      ensures cursors == if r.Success? && !r.value.Stopped? && cursorWritten then old(cursors)[organisation := now]
                         else old(cursors)
      ensures r == Failure(WrongOrganisation) <==> organisation != contextOrganisation
      ensures organisation == contextOrganisation && abortedFirst ==> r == Success(Stopped)
      ensures organisation == contextOrganisation && !abortedFirst ==>
                && (r == Failure(InvalidOrganisation) <==> IsBlank(organisation.text))
                && (r == Failure(InvalidLimit) <==>
                    !IsBlank(organisation.text) && !(0 < limit <= 50))
                && (r == Failure(CorruptEnvelope) ==> CorruptPending(rows, organisation, limit, intact))
      ensures r.Success? && !abortedFirst ==>
                && PendingBatchOf(old(rows), organisation, limit, batch)
                && (forall id :: id in batch ==> intact(id))
                && |batch| <= |replies|
                && var pass := DispatchAll(old(rows), batch, replies, now);
                   && rows == pass.rows
                   && (r.value.Stopped? <==> pass.stopped || abortedLast)
                   && (r.value.AllFailed? <==> !pass.stopped && !abortedLast && pass.failed > 0 && pass.dispatched == 0)
    {
      hide DispatchAll, PendingBatchOf;
      batch := [];
      if organisation != contextOrganisation {
        return Failure(WrongOrganisation), [];
      }
      if abortedFirst {
        return Success(Stopped), [];
      }
      var selected := PendingBatch(organisation, limit, intact);
      if selected.Failure? {
        return Failure(selected.error), [];
      }
      batch := selected.value;
      var dispatched, failed, stopped, _ := DispatchBatch(batch, replies, now);
      if stopped || abortedLast {
        return Success(Stopped), batch;
      }
      if cursorWritten {
        cursors := cursors[organisation := now];
      }
      return Success(if failed > 0 && dispatched == 0 then AllFailed else Finished), batch;
    }
  }

  lemma {:induction false} StopsForGood(
    rows: OutboxRows, batch: seq<EnvelopeId>, replies: seq<Reply>, now: int, n: nat)
    requires n <= |batch| <= |replies|
    ensures DispatchAll(rows, batch[..n], replies, now).stopped ==>
              DispatchAll(rows, batch, replies, now) == DispatchAll(rows, batch[..n], replies, now)
    decreases |batch| - n
  {
    if n < |batch| {
      StopsForGood(rows, batch, replies, now, n + 1);
      assert batch[..n + 1][..n] == batch[..n];
    } else {
      assert batch[..n] == batch;
    }
  }

  // ---------- What one pass does ----------

  lemma MarksKeepRows(rows: OutboxRows, id: EnvelopeId, now: int)
    requires RowsInvariant(rows)
    ensures RowsInvariant(MarkSent(rows, id, now))
    ensures RowsInvariant(MarkFailed(rows, id, DEFAULT_MAX_ATTEMPTS, now))
  {
  }

  /** A pass keeps the rows in order, and whatever it newly marks as sent the peer has accepted. */
  lemma {:induction false} PassSendsOnlyAccepted(
    rows: OutboxRows, batch: seq<EnvelopeId>, replies: seq<Reply>, now: int)
    requires RowsInvariant(rows) && |replies| >= |batch|
    ensures var pass := DispatchAll(rows, batch, replies, now);
            && RowsInvariant(pass.rows)
            && pass.rows.Keys == rows.Keys
            && forall id :: id in rows && pass.rows[id].status.Sent? && !rows[id].status.Sent? ==> id in pass.accepted
  {
    if batch != [] {
      var n := |batch| - 1;
      PassSendsOnlyAccepted(rows, batch[..n], replies, now);
      MarksKeepRows(DispatchAll(rows, batch[..n], replies, now).rows, batch[n], now);
    }
  }
}
