/** What each statement on the outbox and each pass over a batch does, column by column and entry by entry. */
module OutboxRows {
  import opened Outbox
  import opened Selection
  import opened Wrappers

  /** A batch holds the organisation's oldest pending rows, oldest first, none left out that is older. */
  lemma BatchIsOldestPending(rows: OutboxRows, organisation: Organisation, limit: int, batch: seq<EnvelopeId>)
    requires PendingBatchOf(rows, organisation, limit, batch)
    ensures |batch| <= limit
    ensures forall i :: 0 <= i < |batch| ==>
              batch[i] in rows && rows[batch[i]].status == Pending && rows[batch[i]].organisation == organisation
    ensures forall i, j :: 0 <= i < j < |batch| ==>
              batch[i] != batch[j] && rows[batch[i]].createdAt <= rows[batch[j]].createdAt
    ensures forall id :: id in rows && rows[id].status == Pending && rows[id].organisation == organisation
                         && id !in batch ==>
              |batch| == limit && forall i :: 0 <= i < |batch| ==> rows[batch[i]].createdAt <= rows[id].createdAt
  {
    var times := PendingTimes(rows, organisation);
    forall i | 0 <= i < |batch|
      ensures batch[i] in rows && rows[batch[i]].status == Pending && rows[batch[i]].organisation == organisation
    {
      assert batch[i] in times;
    }
    forall i, j | 0 <= i < j < |batch| ensures rows[batch[i]].createdAt <= rows[batch[j]].createdAt {
      assert NotLaterTime(times[batch[i]], times[batch[j]]);
    }
    forall id | id in rows && rows[id].status == Pending && rows[id].organisation == organisation && id !in batch
      ensures |batch| == limit && forall i :: 0 <= i < |batch| ==> rows[batch[i]].createdAt <= rows[id].createdAt
    {
      assert id in times;
      assert forall i :: 0 <= i < |batch| ==> NotLaterTime(times[batch[i]], times[id]);
    }
  }

  /** A new row waits, without attempts. */
  lemma NewRowWaits(organisation: Organisation, now: int)
    ensures var row := NewRow(organisation, now);
            && row.organisation == organisation && row.createdAt == now && row.status == Pending
            && row.attemptCount == 0 && row.lastAttemptAt == None && row.sentAt == None
  {
  }

  /** A pending row is sent at the time given; nothing else changes. */
  lemma SentRow(rows: OutboxRows, id: EnvelopeId, now: int)
    ensures MarkSent(rows, id, now).Keys == rows.Keys
    ensures forall other :: other in rows && (other != id || rows[id].status != Pending) ==>
              MarkSent(rows, id, now)[other] == rows[other]
    ensures id in rows && rows[id].status == Pending ==> IsSent(rows[id], MarkSent(rows, id, now)[id], now)
  {
  }

  ghost predicate IsSent(row: OutboxRow, row': OutboxRow, now: int) {
    && row'.status == Sent && row'.sentAt == Some(now)
    && row'.organisation == row.organisation && row'.createdAt == row.createdAt
    && row'.attemptCount == row.attemptCount && row'.lastAttemptAt == row.lastAttemptAt
  }

  /** A pending row counts one attempt more and is failed when that makes the limit; nothing else changes. */
  lemma FailedRow(rows: OutboxRows, id: EnvelopeId, maxAttempts: int, now: int)
    ensures MarkFailed(rows, id, maxAttempts, now).Keys == rows.Keys
    ensures forall other :: other in rows && (other != id || rows[id].status != Pending) ==>
              MarkFailed(rows, id, maxAttempts, now)[other] == rows[other]
    ensures id in rows && rows[id].status == Pending ==>
              HasFailed(rows[id], MarkFailed(rows, id, maxAttempts, now)[id], maxAttempts, now)
  {
  }

  ghost predicate HasFailed(row: OutboxRow, row': OutboxRow, maxAttempts: int, now: int) {
    && row'.attemptCount - row.attemptCount == 1 && row'.lastAttemptAt == Some(now)
    && (row'.attemptCount >= maxAttempts ==> row'.status == Failed)
    && (row'.attemptCount < maxAttempts ==> row'.status == Pending)
    && row'.organisation == row.organisation && row'.createdAt == row.createdAt && row'.sentAt == row.sentAt
  }

  // ---------- A pass, entry by entry ----------

  /** The pass ends at this entry: an abort, or a failure that could not be recorded. */
  ghost predicate EndsPass(reply: Reply) {
    reply.abortedBefore || (!(reply.accepted && reply.recorded) && (reply.abortedAfter || !reply.failureRecorded))
  }

  /** The first `n` entries are handled and the next one, if there is one, ends the pass. */
  ghost predicate Handles(replies: seq<Reply>, size: nat, n: nat)
    requires size <= |replies|
  {
    && n <= size
    && (forall k :: 0 <= k < n ==> !EndsPass(replies[k]))
    && (n < size ==> EndsPass(replies[n]))
  }

  /** What became of one row of the batch, pending before: sent if accepted and recorded, else one failure more. */
  ghost predicate Became(row: OutboxRow, row': OutboxRow, reply: Reply, now: int) {
    if reply.accepted && reply.recorded then IsSent(row, row', now) else HasFailed(row, row', 5, now)
  }

  function CountSent(replies: seq<Reply>, n: nat): nat
    requires n <= |replies|
  {
    if n == 0 then 0
    else CountSent(replies, n - 1) + if replies[n - 1].accepted && replies[n - 1].recorded then 1 else 0
  }

  /**
    * A pass over different pending rows handles a first part of them: each is sent if its envelope was accepted and
    * that could be recorded, and counts a failure otherwise; all other rows stay, and the tallies are right.
    */
  lemma {:induction false} PassHandlesFirstPart(rows: OutboxRows, batch: seq<EnvelopeId>, replies: seq<Reply>,
                                                now: int) returns (n: nat)
    requires |batch| <= |replies|
    requires forall i, j :: 0 <= i < j < |batch| ==> batch[i] != batch[j]
    requires forall i :: 0 <= i < |batch| ==> batch[i] in rows && rows[batch[i]].status == Pending
    ensures Handles(replies, |batch|, n)
    ensures HandledPart(rows, batch, replies, now, n, DispatchAll(rows, batch, replies, now))
    ensures DispatchAll(rows, batch, replies, now).stopped <==> n < |batch|
  {
    hide Dispatch, EndsPass, Became, HandledPart;
    if batch == [] {
      n := 0;
      NothingHandled(rows, replies, now);
    } else {
      var m := |batch| - 1;
      n := PassHandlesFirstPart(rows, batch[..m], replies, now);
      var before := DispatchAll(rows, batch[..m], replies, now);
      if n == m && !EndsPass(replies[m]) {
        n := |batch|;
        OneMoreHandled(rows, batch, replies, now, before);
      } else if n == m {
        SameHandled(rows, batch, replies, now, n, before);
        PassEnds(rows, batch, replies, now, before);
      } else {
        SameHandled(rows, batch, replies, now, n, before);
        StoppedForGood(before, batch[m], replies[m], now);
      }
    }
  }

  ghost predicate HandledPart(rows: OutboxRows, batch: seq<EnvelopeId>, replies: seq<Reply>, now: int, n: nat,
                              pass: Pass)
    requires n <= |batch| <= |replies|
    requires forall i :: 0 <= i < |batch| ==> batch[i] in rows
  {
    && pass.rows.Keys == rows.Keys
    && (forall k :: 0 <= k < n ==> Became(rows[batch[k]], pass.rows[batch[k]], replies[k], now))
    && (forall id :: id in rows && id !in batch[..n] ==> pass.rows[id] == rows[id])
    && pass.dispatched == CountSent(replies, n)
    && pass.dispatched + pass.failed == n
  }

  lemma NothingHandled(rows: OutboxRows, replies: seq<Reply>, now: int)
    ensures HandledPart(rows, [], replies, now, 0, DispatchAll(rows, [], replies, now))
    ensures !DispatchAll(rows, [], replies, now).stopped
  {
  }

  lemma StoppedForGood(pass: Pass, id: EnvelopeId, reply: Reply, now: int)
    requires pass.stopped
    ensures Dispatch(pass, id, reply, now) == pass
  {
  }

  /** What was handled of the batch without its last entry was handled of the batch. */
  lemma SameHandled(rows: OutboxRows, batch: seq<EnvelopeId>, replies: seq<Reply>, now: int, n: nat, pass: Pass)
    requires batch != [] && |batch| <= |replies| && n < |batch|
    requires forall i :: 0 <= i < |batch| ==> batch[i] in rows
    requires HandledPart(rows, batch[..|batch| - 1], replies, now, n, pass)
    ensures HandledPart(rows, batch, replies, now, n, pass)
  {
    hide Became;
    assert batch[..|batch| - 1][..n] == batch[..n];
    assert forall k :: 0 <= k < n ==> batch[..|batch| - 1][k] == batch[k];
  }

  lemma PassEnds(rows: OutboxRows, batch: seq<EnvelopeId>, replies: seq<Reply>, now: int, before: Pass)
    requires batch != [] && |batch| <= |replies|
    requires forall i :: 0 <= i < |batch| ==> batch[i] in rows && rows[batch[i]].status == Pending
    requires forall i, j :: 0 <= i < j < |batch| ==> batch[i] != batch[j]
    requires HandledPart(rows, batch, replies, now, |batch| - 1, before) && !before.stopped
    requires EndsPass(replies[|batch| - 1])
    ensures var next := Dispatch(before, batch[|batch| - 1], replies[|batch| - 1], now);
            next.stopped && HandledPart(rows, batch, replies, now, |batch| - 1, next)
  {
    hide Dispatch, EndsPass, Became;
    LastUntouched(rows, batch, replies, now, before);
    OneEntry(before, batch[|batch| - 1], replies[|batch| - 1], now);
  }

  lemma LastUntouched(rows: OutboxRows, batch: seq<EnvelopeId>, replies: seq<Reply>, now: int, before: Pass)
    requires batch != [] && |batch| <= |replies|
    requires forall i :: 0 <= i < |batch| ==> batch[i] in rows
    requires forall i, j :: 0 <= i < j < |batch| ==> batch[i] != batch[j]
    requires HandledPart(rows, batch, replies, now, |batch| - 1, before)
    ensures batch[|batch| - 1] in before.rows && before.rows[batch[|batch| - 1]] == rows[batch[|batch| - 1]]
    ensures batch[|batch| - 1] !in batch[..|batch| - 1]
  {
    hide Became;
  }

  lemma OneMoreHandled(rows: OutboxRows, batch: seq<EnvelopeId>, replies: seq<Reply>, now: int, before: Pass)
    requires batch != [] && |batch| <= |replies|
    requires forall i :: 0 <= i < |batch| ==> batch[i] in rows && rows[batch[i]].status == Pending
    requires forall i, j :: 0 <= i < j < |batch| ==> batch[i] != batch[j]
    requires HandledPart(rows, batch[..|batch| - 1], replies, now, |batch| - 1, before) && !before.stopped
    requires !EndsPass(replies[|batch| - 1])
    ensures var next := Dispatch(before, batch[|batch| - 1], replies[|batch| - 1], now);
            !next.stopped && HandledPart(rows, batch, replies, now, |batch|, next)
  {
    hide Dispatch, EndsPass, Became;
    var m := |batch| - 1;
    SameHandled(rows, batch, replies, now, m, before);
    LastUntouched(rows, batch, replies, now, before);
    OneEntry(before, batch[m], replies[m], now);
    Grown(rows, batch, replies, now, before, Dispatch(before, batch[m], replies[m], now));
  }

  lemma Grown(rows: OutboxRows, batch: seq<EnvelopeId>, replies: seq<Reply>, now: int, before: Pass, next: Pass)
    requires batch != [] && |batch| <= |replies|
    requires forall i :: 0 <= i < |batch| ==> batch[i] in rows
    requires forall i, j :: 0 <= i < j < |batch| ==> batch[i] != batch[j]
    requires HandledPart(rows, batch, replies, now, |batch| - 1, before)
    requires var m := |batch| - 1;
             && next.rows.Keys == before.rows.Keys
             && (forall other :: other in before.rows && other != batch[m] ==> next.rows[other] == before.rows[other])
             && Became(rows[batch[m]], next.rows[batch[m]], replies[m], now)
             && next.dispatched - before.dispatched == (if replies[m].accepted && replies[m].recorded then 1 else 0)
             && next.failed - before.failed == (if replies[m].accepted && replies[m].recorded then 0 else 1)
    ensures HandledPart(rows, batch, replies, now, |batch|, next)
  {
    hide Became, CountSent;
    var m := |batch| - 1;
    forall k | 0 <= k < |batch| ensures Became(rows[batch[k]], next.rows[batch[k]], replies[k], now) {
      if k < m {
        assert batch[k] != batch[m] && batch[k] in before.rows;
      }
    }
    forall id | id in rows && id !in batch[..|batch|] ensures next.rows[id] == rows[id] {
      assert batch[..|batch|][m] == batch[m];
      NotInFewer(batch, m, id);
    }
    CountSentNext(replies, m);
  }

  lemma NotInFewer(batch: seq<EnvelopeId>, m: nat, id: EnvelopeId)
    requires m <= |batch| && id !in batch[..|batch|]
    ensures id !in batch[..m]
  {
    assert forall i :: 0 <= i < m ==> batch[..m][i] == batch[..|batch|][i];
  }

  lemma CountSentNext(replies: seq<Reply>, m: nat)
    requires m < |replies|
    ensures CountSent(replies, m + 1) ==
            CountSent(replies, m) + if replies[m].accepted && replies[m].recorded then 1 else 0
  {
  }

  lemma OneEntry(pass: Pass, id: EnvelopeId, reply: Reply, now: int)
    requires !pass.stopped && id in pass.rows && pass.rows[id].status == Pending
    ensures var next := Dispatch(pass, id, reply, now);
            if EndsPass(reply)
            then
              && next.stopped && next.rows == pass.rows
              && next.dispatched == pass.dispatched && next.failed == pass.failed
            else
              && !next.stopped && next.rows.Keys == pass.rows.Keys
              && (forall other :: other in pass.rows && other != id ==> next.rows[other] == pass.rows[other])
              && Became(pass.rows[id], next.rows[id], reply, now)
              && next.dispatched - pass.dispatched == (if reply.accepted && reply.recorded then 1 else 0)
              && next.failed - pass.failed == (if reply.accepted && reply.recorded then 0 else 1)
  {
  }

  /** Among the envelopes a pass reports as accepted are exactly those of handled entries that a peer accepted. */
  lemma {:induction false} AcceptedByPeers(rows: OutboxRows, batch: seq<EnvelopeId>, replies: seq<Reply>, now: int)
    requires |batch| <= |replies|
    ensures forall id :: id in DispatchAll(rows, batch, replies, now).accepted ==>
              exists k :: 0 <= k < |batch| && batch[k] == id && replies[k].accepted
    ensures forall k :: 0 <= k < |batch| && replies[k].accepted
                        && (forall i :: 0 <= i < k ==> !EndsPass(replies[i])) && !replies[k].abortedBefore ==>
              batch[k] in DispatchAll(rows, batch, replies, now).accepted
    ensures DispatchAll(rows, batch, replies, now).stopped ==> exists k :: 0 <= k < |batch| && EndsPass(replies[k])
  {
    hide MarkSent, MarkFailed;
    if batch != [] {
      var m := |batch| - 1;
      AcceptedByPeers(rows, batch[..m], replies, now);
      var before := DispatchAll(rows, batch[..m], replies, now);
      forall id | id in before.accepted
        ensures exists k :: 0 <= k < |batch| && batch[k] == id && replies[k].accepted
      {
        var k :| 0 <= k < m && batch[..m][k] == id && replies[k].accepted;
        assert batch[k] == id;
      }
      forall k | 0 <= k < m && replies[k].accepted && (forall i :: 0 <= i < k ==> !EndsPass(replies[i]))
                 && !replies[k].abortedBefore
        ensures batch[k] in before.accepted
      {
        assert batch[..m][k] == batch[k];
      }
    }
  }
}
