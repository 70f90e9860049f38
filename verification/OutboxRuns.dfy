/**
  * Any number of workers over one outbox, each going through a batch it once loaded. A batch may go stale while others
  * work, batches may overlap, a message may reach a peer late or more than once, its reply may be lost, and a worker
  * may stop at any point.
  */
module OutboxRuns {
  import opened Outbox

  /** Where a worker is: at an entry of its batch, waiting for the reply to it, or with the reply in hand. */
  datatype Worker =
    | Idle
    | AtEntry(batch: seq<EnvelopeId>, pos: nat)
    | InFlight(batch: seq<EnvelopeId>, pos: nat, ticket: nat)
    | Resolved(batch: seq<EnvelopeId>, pos: nat, ticket: nat)
    | Refused(batch: seq<EnvelopeId>, pos: nat)

  /** The rows, the workers, the messages handed to the network by ticket, and the tickets peers have accepted. */
  datatype World = World(
    rows: OutboxRows,
    workers: map<nat, Worker>,
    sent: map<nat, EnvelopeId>,
    accepted: set<nat>)

  datatype Step =
    | Enqueue(id: EnvelopeId, organisation: Organisation, now: int)
    | Load(worker: nat, organisation: Organisation, limit: int, batch: seq<EnvelopeId>)
    | Dispatch(worker: nat, ticket: nat)
    | Accept(ticket: nat)
    | Resolve(worker: nat)
    | Refuse(worker: nat)
    | RecordSent(worker: nat, now: int)
    | RecordingFails(worker: nat)
    | RecordFailure(worker: nat, now: int)
    | Stop(worker: nat)

  ghost predicate Enabled(w: World, step: Step) {
    match step
    case Enqueue(id, _, _) => id !in w.rows
    case Load(p, organisation, limit, batch) =>
      && p in w.workers && w.workers[p].Idle?
      && 0 < limit <= MAX_OUTBOX_BATCH_SIZE && PendingBatchOf(w.rows, organisation, limit, batch)
    case Dispatch(p, ticket) =>
      && p in w.workers && w.workers[p].AtEntry? && w.workers[p].pos < |w.workers[p].batch|
      && ticket !in w.sent
    case Accept(ticket) => ticket in w.sent
    case Resolve(p) => p in w.workers && w.workers[p].InFlight? && w.workers[p].ticket in w.accepted
    case Refuse(p) => p in w.workers && w.workers[p].InFlight?
    case RecordSent(p, _) => p in w.workers && w.workers[p].Resolved? && w.workers[p].pos < |w.workers[p].batch|
    case RecordingFails(p) => p in w.workers && w.workers[p].Resolved?
    case RecordFailure(p, _) => p in w.workers && w.workers[p].Refused? && w.workers[p].pos < |w.workers[p].batch|
    case Stop(p) => p in w.workers
  }

  function Go(w: World, p: nat, worker: Worker): World {
    w.(workers := w.workers[p := worker])
  }

  ghost function Do(w: World, step: Step): World
    requires Enabled(w, step)
  {
    match step
    case Enqueue(id, organisation, now) => w.(rows := w.rows[id := NewRow(organisation, now)])
    case Load(p, _, _, batch) => Go(w, p, AtEntry(batch, 0))
    case Dispatch(p, ticket) =>
      var at := w.workers[p];
      Go(w.(sent := w.sent[ticket := at.batch[at.pos]]), p, InFlight(at.batch, at.pos, ticket))
    case Accept(ticket) => w.(accepted := w.accepted + {ticket})
    case Resolve(p) => Go(w, p, Resolved(w.workers[p].batch, w.workers[p].pos, w.workers[p].ticket))
    case Refuse(p) => Go(w, p, Refused(w.workers[p].batch, w.workers[p].pos))
    case RecordSent(p, now) =>
      var at := w.workers[p];
      Go(w.(rows := MarkSent(w.rows, at.batch[at.pos], now)), p, AtEntry(at.batch, at.pos + 1))
    case RecordingFails(p) => Go(w, p, Refused(w.workers[p].batch, w.workers[p].pos))
    case RecordFailure(p, now) =>
      var at := w.workers[p];
      Go(w.(rows := MarkFailed(w.rows, at.batch[at.pos], DEFAULT_MAX_ATTEMPTS, now)), p,
         AtEntry(at.batch, at.pos + 1))
    case Stop(p) => Go(w, p, Idle)
  }

  /** An empty outbox and any number of idle workers. */
  ghost predicate Initial(w: World) {
    && w.rows == map[] && w.sent == map[] && w.accepted == {}
    && forall p :: p in w.workers ==> w.workers[p].Idle?
  }

  ghost predicate IsRun(worlds: seq<World>, steps: seq<Step>) {
    && |worlds| == |steps| + 1
    && Initial(worlds[0])
    && forall k :: 0 <= k < |steps| ==> Enabled(worlds[k], steps[k]) && worlds[k + 1] == Do(worlds[k], steps[k])
  }

  // ---------- The log of a run ----------

  /** The entry a worker is at. */
  function Current(w: World, p: nat): (id: EnvelopeId)
    requires p in w.workers && !w.workers[p].Idle? && w.workers[p].pos < |w.workers[p].batch|
  {
    w.workers[p].batch[w.workers[p].pos]
  }

  /** The step records a success for this envelope, whether or not the row still takes it. */
  ghost predicate RecordsSent(w: World, step: Step, id: EnvelopeId) {
    step.RecordSent? && Enabled(w, step) && Current(w, step.worker) == id
  }

  ghost predicate RecordsFailure(w: World, step: Step, id: EnvelopeId) {
    step.RecordFailure? && Enabled(w, step) && Current(w, step.worker) == id
  }

  /** How many of the first `k` steps record a failure for this envelope. */
  ghost function Failures(worlds: seq<World>, steps: seq<Step>, k: nat, id: EnvelopeId): nat
    requires k <= |steps| < |worlds|
  {
    if k == 0 then 0
    else Failures(worlds, steps, k - 1, id) + if RecordsFailure(worlds[k - 1], steps[k - 1], id) then 1 else 0
  }

  /** Among the first `k` steps one records a success for this envelope before five have recorded a failure. */
  ghost predicate SentInTime(worlds: seq<World>, steps: seq<Step>, k: nat, id: EnvelopeId)
    requires k <= |steps| < |worlds|
  {
    exists j :: 0 <= j < k && RecordsSent(worlds[j], steps[j], id)
                && Failures(worlds, steps, j, id) < DEFAULT_MAX_ATTEMPTS
  }

  // ---------- What a row becomes ----------

  /** Only the two recording steps touch a row, and only a pending one. */
  lemma StepOnRow(w: World, step: Step, id: EnvelopeId)
    requires Enabled(w, step) && id in w.rows
    ensures id in Do(w, step).rows
    ensures var row, row' := w.rows[id], Do(w, step).rows[id];
            if !row.status.Pending? then row' == row
            else if RecordsSent(w, step, id) then row'.status.Sent? && row'.attemptCount == row.attemptCount
            else if RecordsFailure(w, step, id) then
              && row'.attemptCount == row.attemptCount + 1
              && row'.status == if row.attemptCount + 1 >= DEFAULT_MAX_ATTEMPTS then Failed else Pending
            else row' == row
  {
  }

  /** Every envelope in a worker's batch is in the outbox. */
  ghost predicate BatchesKnown(w: World) {
    forall p :: p in w.workers && !w.workers[p].Idle? ==>
      forall i :: 0 <= i < |w.workers[p].batch| ==> w.workers[p].batch[i] in w.rows
  }

  lemma StepKeepsBatchesKnown(w: World, step: Step)
    requires BatchesKnown(w) && Enabled(w, step)
    ensures BatchesKnown(Do(w, step))
  {
  }

  lemma {:induction false} RunKeepsBatchesKnown(worlds: seq<World>, steps: seq<Step>, k: nat)
    requires IsRun(worlds, steps) && k <= |steps|
    ensures BatchesKnown(worlds[k])
  {
    hide Do, Enabled;
    if k > 0 {
      RunKeepsBatchesKnown(worlds, steps, k - 1);
      StepKeepsBatchesKnown(worlds[k - 1], steps[k - 1]);
    }
  }

  /** Before an envelope is in the outbox nothing is recorded for it. */
  lemma {:induction false} NothingRecordedBefore(worlds: seq<World>, steps: seq<Step>, k: nat, id: EnvelopeId)
    requires IsRun(worlds, steps) && k <= |steps| && id !in worlds[k].rows
    ensures Failures(worlds, steps, k, id) == 0
    ensures forall j :: 0 <= j < k ==> !RecordsSent(worlds[j], steps[j], id)
  {
    hide Do, Enabled, RecordsSent, RecordsFailure;
    if k > 0 {
      RowsStay(worlds[k - 1], steps[k - 1], id);
      NothingRecordedBefore(worlds, steps, k - 1, id);
      RunKeepsBatchesKnown(worlds, steps, k - 1);
      RecordedIsKnown(worlds[k - 1], steps[k - 1], id);
    }
  }

  lemma RowsStay(w: World, step: Step, id: EnvelopeId)
    requires Enabled(w, step)
    ensures id in w.rows ==> id in Do(w, step).rows
    ensures id !in w.rows && id in Do(w, step).rows ==>
              step.Enqueue? && Do(w, step).rows[id] == NewRow(step.organisation, step.now)
  {
  }

  lemma RecordedIsKnown(w: World, step: Step, id: EnvelopeId)
    requires BatchesKnown(w)
    ensures RecordsSent(w, step, id) || RecordsFailure(w, step, id) ==> id in w.rows && !step.Enqueue?
  {
  }

  /** What the log of recorded successes and failures makes of a row. */
  ghost predicate FollowsLog(worlds: seq<World>, steps: seq<Step>, k: nat, id: EnvelopeId)
    requires k <= |steps| < |worlds| && id in worlds[k].rows
  {
    var row, failures := worlds[k].rows[id], Failures(worlds, steps, k, id);
    && (row.status.Sent? <==> SentInTime(worlds, steps, k, id))
    && (row.status.Failed? <==> failures >= DEFAULT_MAX_ATTEMPTS && !SentInTime(worlds, steps, k, id))
    && (row.status.Pending? <==> failures < DEFAULT_MAX_ATTEMPTS && !SentInTime(worlds, steps, k, id))
    && (row.status.Pending? ==> row.attemptCount == failures)
    && (row.status.Failed? ==> row.attemptCount == DEFAULT_MAX_ATTEMPTS)
    && (row.status.Sent? ==> row.attemptCount < DEFAULT_MAX_ATTEMPTS)
  }

  lemma SentInTimeNext(worlds: seq<World>, steps: seq<Step>, k: nat, id: EnvelopeId)
    requires k < |steps| < |worlds|
    ensures SentInTime(worlds, steps, k + 1, id) <==>
            || SentInTime(worlds, steps, k, id)
            || (RecordsSent(worlds[k], steps[k], id) && Failures(worlds, steps, k, id) < DEFAULT_MAX_ATTEMPTS)
  {
    hide RecordsSent, Failures;
    if SentInTime(worlds, steps, k + 1, id) {
      var j :| 0 <= j < k + 1 && RecordsSent(worlds[j], steps[j], id)
               && Failures(worlds, steps, j, id) < DEFAULT_MAX_ATTEMPTS;
      assert j < k || j == k;
    }
  }

  /**
    * In every interleaving a row's state is told by the log: it is sent exactly when some worker recorded a success
    * before five failures had been recorded, failed exactly when five were recorded first, and pending otherwise;
    * and its attempts are the failures recorded, up to five.
    */
  lemma {:induction false} RowFollowsLog(worlds: seq<World>, steps: seq<Step>, k: nat, id: EnvelopeId)
    requires IsRun(worlds, steps) && k <= |steps| && id in worlds[k].rows
    ensures FollowsLog(worlds, steps, k, id)
  {
    hide Do, Enabled, RecordsSent, RecordsFailure, SentInTime;
    if k > 0 {
      var w, step := worlds[k - 1], steps[k - 1];
      SentInTimeNext(worlds, steps, k - 1, id);
      RunKeepsBatchesKnown(worlds, steps, k - 1);
      if id in w.rows {
        RowFollowsLog(worlds, steps, k - 1, id);
        StepOnRow(w, step, id);
        NotBoth(w, step, id);
      } else {
        RowsStay(w, step, id);
        NothingRecordedBefore(worlds, steps, k - 1, id);
        NeverInTime(worlds, steps, k - 1, id);
        RecordedIsKnown(w, step, id);
      }
    }
  }

  lemma NotBoth(w: World, step: Step, id: EnvelopeId)
    ensures !(RecordsSent(w, step, id) && RecordsFailure(w, step, id))
  {
  }

  lemma NeverInTime(worlds: seq<World>, steps: seq<Step>, k: nat, id: EnvelopeId)
    requires k <= |steps| < |worlds|
    requires forall j :: 0 <= j < k ==> !RecordsSent(worlds[j], steps[j], id)
    ensures !SentInTime(worlds, steps, k, id)
  {
  }

  // ---------- Where a sent row comes from ----------

  lemma {:induction false} LoadedFrom(worlds: seq<World>, steps: seq<Step>, k: nat, p: nat) returns (i: nat)
    requires IsRun(worlds, steps) && k <= |steps| && p in worlds[k].workers && !worlds[k].workers[p].Idle?
    ensures i < k && steps[i].Load? && steps[i].worker == p && steps[i].batch == worlds[k].workers[p].batch
  {
    hide Enabled;
    var w, step := worlds[k - 1], steps[k - 1];
    WorkerMoves(w, step, p);
    if step.Load? && step.worker == p {
      i := k - 1;
    } else {
      i := LoadedFrom(worlds, steps, k - 1, p);
    }
  }

  /** How a worker gets where it is. */
  lemma WorkerMoves(w: World, step: Step, p: nat)
    requires Enabled(w, step) && p in Do(w, step).workers
    ensures p in w.workers
    ensures var before, after := w.workers[p], Do(w, step).workers[p];
            && (after.Idle? || (step.Load? && step.worker == p && after == AtEntry(step.batch, 0))
                || (!before.Idle? && before.batch == after.batch))
            && (after.InFlight? && after != before ==>
                  && step == Dispatch(p, after.ticket)
                  && before == AtEntry(after.batch, after.pos) && after.pos < |after.batch|)
            && (after.Resolved? && after != before ==>
                  step == Resolve(p) && before == InFlight(after.batch, after.pos, after.ticket))
  {
  }

  lemma {:induction false} DispatchedFrom(worlds: seq<World>, steps: seq<Step>, k: nat, p: nat) returns (i: nat)
    requires IsRun(worlds, steps) && k <= |steps| && p in worlds[k].workers && worlds[k].workers[p].InFlight?
    ensures var at := worlds[k].workers[p];
            && i < k && steps[i] == Dispatch(p, at.ticket)
            && p in worlds[i].workers && worlds[i].workers[p] == AtEntry(at.batch, at.pos) && at.pos < |at.batch|
  {
    hide Enabled, Do;
    StartsIdle(worlds, steps);
    WorkerMoves(worlds[k - 1], steps[k - 1], p);
    if worlds[k - 1].workers[p] == worlds[k].workers[p] {
      i := DispatchedFrom(worlds, steps, k - 1, p);
    } else {
      i := k - 1;
    }
  }

  lemma {:induction false} ResolvedFrom(worlds: seq<World>, steps: seq<Step>, k: nat, p: nat) returns (i: nat)
    requires IsRun(worlds, steps) && k <= |steps| && p in worlds[k].workers && worlds[k].workers[p].Resolved?
    ensures var at := worlds[k].workers[p];
            && i < k && steps[i] == Resolve(p)
            && p in worlds[i].workers && worlds[i].workers[p] == InFlight(at.batch, at.pos, at.ticket)
  {
    hide Enabled, Do;
    StartsIdle(worlds, steps);
    WorkerMoves(worlds[k - 1], steps[k - 1], p);
    if worlds[k - 1].workers[p] == worlds[k].workers[p] {
      i := ResolvedFrom(worlds, steps, k - 1, p);
    } else {
      i := k - 1;
    }
  }

  lemma StartsIdle(worlds: seq<World>, steps: seq<Step>)
    requires IsRun(worlds, steps)
    ensures forall p :: p in worlds[0].workers ==> worlds[0].workers[p].Idle?
    ensures worlds[0].accepted == {} && worlds[0].sent == map[] && worlds[0].rows == map[]
  {
  }

  /** What the network and the peers hold only grows, and a ticket's message never changes. */
  lemma NetworkGrows(w: World, step: Step)
    requires Enabled(w, step)
    ensures forall t :: t in w.sent ==> t in Do(w, step).sent && Do(w, step).sent[t] == w.sent[t]
    ensures forall t :: t in Do(w, step).accepted ==> t in w.accepted || step == Accept(t)
  {
  }

  lemma {:induction false} MessagesStay(worlds: seq<World>, steps: seq<Step>, i: nat, j: nat, ticket: nat)
    requires IsRun(worlds, steps) && i <= j <= |steps| && ticket in worlds[i].sent
    ensures ticket in worlds[j].sent && worlds[j].sent[ticket] == worlds[i].sent[ticket]
    decreases j
  {
    hide Enabled, Do;
    if i < j {
      MessagesStay(worlds, steps, i, j - 1, ticket);
      NetworkGrows(worlds[j - 1], steps[j - 1]);
    }
  }

  lemma {:induction false} AcceptedFrom(worlds: seq<World>, steps: seq<Step>, k: nat, ticket: nat) returns (i: nat)
    requires IsRun(worlds, steps) && k <= |steps| && ticket in worlds[k].accepted
    ensures i < k && steps[i] == Accept(ticket)
  {
    hide Enabled, Do;
    StartsIdle(worlds, steps);
    NetworkGrows(worlds[k - 1], steps[k - 1]);
    if ticket in worlds[k - 1].accepted {
      i := AcceptedFrom(worlds, steps, k - 1, ticket);
    } else {
      i := k - 1;
    }
  }

  /** A peer accepts a message only after it was handed over. */
  lemma AcceptedAfterDispatch(worlds: seq<World>, steps: seq<Step>, dispatch: nat, accept: nat, p: nat, ticket: nat)
    requires IsRun(worlds, steps) && dispatch < |steps| && accept < |steps|
    requires steps[dispatch] == Dispatch(p, ticket) && steps[accept] == Accept(ticket)
    ensures dispatch < accept
  {
    hide Do;
    if accept < dispatch {
      MessagesStay(worlds, steps, accept, dispatch, ticket);
    }
  }

  lemma {:induction false} RecordedFrom(worlds: seq<World>, steps: seq<Step>, k: nat, id: EnvelopeId) returns (i: nat)
    requires IsRun(worlds, steps) && k <= |steps| && id in worlds[k].rows && worlds[k].rows[id].status.Sent?
    ensures i < k && RecordsSent(worlds[i], steps[i], id)
    ensures id in worlds[i].rows && worlds[i].rows[id].status.Pending?
  {
    hide Enabled, Do, RecordsSent, RecordsFailure;
    StartsIdle(worlds, steps);
    var w, step := worlds[k - 1], steps[k - 1];
    RowsStay(w, step, id);
    if id in w.rows {
      StepOnRow(w, step, id);
      if w.rows[id].status.Sent? {
        i := RecordedFrom(worlds, steps, k - 1, id);
      } else {
        i := k - 1;
      }
    }
  }

  /** How a row came to be sent: one worker's steps on it, and a peer's, by their positions in the run. */
  datatype Trail = Trail(worker: nat, ticket: nat, load: nat, dispatch: nat, accept: nat, resolve: nat, record: nat)

  ghost predicate Leads(worlds: seq<World>, steps: seq<Step>, t: Trail, id: EnvelopeId)
    requires |steps| < |worlds|
  {
    && t.load < t.dispatch < t.accept < t.resolve < t.record < |steps|
    && steps[t.load].Load? && steps[t.load].worker == t.worker && id in steps[t.load].batch
    && id in worlds[t.load].rows && worlds[t.load].rows[id].status.Pending?
    && steps[t.dispatch] == Dispatch(t.worker, t.ticket)
    && steps[t.accept] == Accept(t.ticket)
    && t.ticket in worlds[t.accept].sent && worlds[t.accept].sent[t.ticket] == id
    && steps[t.resolve] == Resolve(t.worker)
    && steps[t.record].RecordSent? && steps[t.record].worker == t.worker
    && id in worlds[t.record].rows && worlds[t.record].rows[id].status.Pending?
  }

  lemma LoadedPending(w: World, step: Step, id: EnvelopeId)
    requires Enabled(w, step) && step.Load? && id in step.batch
    ensures id in w.rows && w.rows[id].status.Pending?
  {
    var i :| 0 <= i < |step.batch| && step.batch[i] == id;
    assert step.batch[i] in PendingTimes(w.rows, step.organisation);
  }

  lemma DispatchHandsOver(w: World, p: nat, ticket: nat)
    requires Enabled(w, Dispatch(p, ticket))
    ensures ticket in Do(w, Dispatch(p, ticket)).sent
    ensures Do(w, Dispatch(p, ticket)).sent[ticket] == Current(w, p)
  {
  }

  /**
    * In every interleaving, with stale and overlapping batches and lost replies, a sent row has behind it one worker
    * that loaded it while it was pending, dispatched it, had the reply to that very dispatch after a peer accepted
    * that very message, and recorded the success while the row was still pending.
    */
  lemma SentRowWasAccepted(worlds: seq<World>, steps: seq<Step>, k: nat, id: EnvelopeId) returns (t: Trail)
    requires IsRun(worlds, steps) && k <= |steps| && id in worlds[k].rows && worlds[k].rows[id].status.Sent?
    ensures Leads(worlds, steps, t, id) && t.record < k
  {
    hide Do, PendingBatchOf;
    var record := RecordedFrom(worlds, steps, k, id);
    var p := steps[record].worker;
    var ticket := worlds[record].workers[p].ticket;
    var resolve := ResolvedFrom(worlds, steps, record, p);
    var dispatch := DispatchedFrom(worlds, steps, resolve, p);
    var accept := AcceptedFrom(worlds, steps, resolve, ticket);
    AcceptedAfterDispatch(worlds, steps, dispatch, accept, p, ticket);
    DispatchHandsOver(worlds[dispatch], p, ticket);
    MessagesStay(worlds, steps, dispatch + 1, accept, ticket);
    var load := LoadedFrom(worlds, steps, dispatch, p);
    LoadedPending(worlds[load], steps[load], id);
    t := Trail(p, ticket, load, dispatch, accept, resolve, record);
  }

  /** Once sent or failed, a row never changes again. */
  lemma {:induction false} SettledRowsAreFinal(worlds: seq<World>, steps: seq<Step>, i: nat, j: nat, id: EnvelopeId)
    requires IsRun(worlds, steps) && i <= j <= |steps| && id in worlds[i].rows
    ensures id in worlds[j].rows
    ensures !worlds[i].rows[id].status.Pending? ==> worlds[j].rows[id] == worlds[i].rows[id]
    decreases j
  {
    hide Do, Enabled;
    if i < j {
      SettledRowsAreFinal(worlds, steps, i, j - 1, id);
      StepOnRow(worlds[j - 1], steps[j - 1], id);
    }
  }
}
