/** The durable inbound queue: each envelope is stored once and applied at most once. */
module Inbox {
  import opened Wrappers
  import opened Selection
  import opened TextOrder
  import HLC = HybridLogicalClock

  datatype EnvelopeId = EnvelopeId(text: string)

  /** A signed envelope; `content` stands for the operation it carries. */
  datatype Envelope = Envelope(
    id: EnvelopeId,
    signer: string,
    signature: string,
    logicalTimestamp: string,
    content: string)

  datatype ApplyStatus = Pending | Applied | Conflict | Failed

  datatype InboxRow = InboxRow(
    rowId: nat,
    envelope: Envelope,
    verified: bool,
    status: ApplyStatus,
    appliedAt: Option<int>)

  type InboxRows = map<EnvelopeId, InboxRow>

  // ---------- Receiving ----------

  /** INSERT ... ON CONFLICT DO NOTHING. */
  function Insert(rows: InboxRows, envelope: Envelope, rowId: nat, verified: bool): InboxRows {
    if envelope.id in rows then rows
    else rows[envelope.id := InboxRow(rowId, envelope, verified, Pending, None)]
  }

  /** The stored row answers for this delivery: same signer and signature, and verified unless it is the stored one. */
  predicate Accepts(stored: InboxRow, envelope: Envelope, rowId: nat, verified: bool) {
    && stored.envelope.signer == envelope.signer
    && stored.envelope.signature == envelope.signature
    && (stored.rowId == rowId || verified)
  }

  // ---------- Applying ----------

  datatype Outcome = Succeeds | Conflicts | Fails

  function PendingStamps(rows: InboxRows): map<EnvelopeId, string> {
    map id | id in rows && rows[id].status.Pending? && rows[id].verified :: rows[id].envelope.logicalTimestamp
  }

  /** All pending verified rows, in the order of their timestamps as text. */
  ghost predicate PassOver(rows: InboxRows, batch: seq<EnvelopeId>) {
    FirstByRank(PendingStamps(rows), NotAfterText, |PendingStamps(rows)|, batch)
  }

  function Settle(rows: InboxRows, id: EnvelopeId, outcome: Outcome, now: int): InboxRows {
    if id !in rows then rows
    else
      match outcome
      case Succeeds => rows[id := rows[id].(status := Applied, appliedAt := Some(now))]
      case Conflicts => rows[id := rows[id].(status := Conflict)]
      case Fails => rows[id := rows[id].(status := Failed)]
  }

  function SettleAll(rows: InboxRows, batch: seq<EnvelopeId>, outcome: EnvelopeId -> Outcome, now: int): InboxRows {
    if batch == [] then rows
    else
      var n := |batch| - 1;
      Settle(SettleAll(rows, batch[..n], outcome, now), batch[n], outcome(batch[n]), now)
  }

  function CountOutcome(batch: seq<EnvelopeId>, outcome: EnvelopeId -> Outcome, wanted: Outcome): nat {
    if batch == [] then 0
    else
      var n := |batch| - 1;
      CountOutcome(batch[..n], outcome, wanted) + if outcome(batch[n]) == wanted then 1 else 0
  }

  datatype InboxError = InvalidEnvelope | Collision

  class InboxService {
    var rows: InboxRows

    constructor ()
      ensures rows == map[]
    {
      rows := map[];
    }

    /** `wellFormed` and `verified` are the verdicts of the envelope checks; `rowId` is the generated row id. */
    method Receive(envelope: Envelope, wellFormed: bool, verified: bool, rowId: nat)
      returns (r: Result<InboxRow, InboxError>)
      modifies this
      ensures rows == if wellFormed then Insert(old(rows), envelope, rowId, verified) else old(rows)
      ensures !wellFormed ==> r == Failure(InvalidEnvelope)
      ensures wellFormed ==>
                && envelope.id in rows
                && r == if Accepts(rows[envelope.id], envelope, rowId, verified)
                        then Success(rows[envelope.id]) else Failure(Collision)
      ensures wellFormed && envelope.id !in old(rows) ==> r.Success? && r.value.envelope == envelope
    {
      if !wellFormed {
        return Failure(InvalidEnvelope);
      }
      if envelope.id !in rows {
        rows := rows[envelope.id := InboxRow(rowId, envelope, verified, Pending, None)];
      }
      var stored := rows[envelope.id];
      if stored.envelope.signer != envelope.signer || stored.envelope.signature != envelope.signature
         || (stored.rowId != rowId && !verified) {
        return Failure(Collision);
      }
      return Success(stored);
    }

    /** Applies the rows one by one and records what each application came to. */
    method SettleBatch(pending: seq<EnvelopeId>, outcome: EnvelopeId -> Outcome, now: int)
      returns (applied: nat, failed: nat, conflicts: nat)
      modifies this
      ensures rows == SettleAll(old(rows), pending, outcome, now)
      ensures applied == CountOutcome(pending, outcome, Succeeds)
      ensures failed == CountOutcome(pending, outcome, Fails)
      ensures conflicts == CountOutcome(pending, outcome, Conflicts)
    {
      hide Settle;
      applied, failed, conflicts := 0, 0, 0;
      for k := 0 to |pending|
        invariant rows == SettleAll(old(rows), pending[..k], outcome, now)
        invariant applied == CountOutcome(pending[..k], outcome, Succeeds)
        invariant failed == CountOutcome(pending[..k], outcome, Fails)
        invariant conflicts == CountOutcome(pending[..k], outcome, Conflicts)
      {
        assert pending[..k + 1][..k] == pending[..k];
        var result := outcome(pending[k]);
        rows := Settle(rows, pending[k], result, now);
        match result {
          case Succeeds => applied := applied + 1;
          case Conflicts => conflicts := conflicts + 1;
          case Fails => failed := failed + 1;
        }
      }
      assert pending[..|pending|] == pending;
    }

    /** One pass over what is pending; `outcome` is what applying each envelope comes to. */
    method ApplyPending(outcome: EnvelopeId -> Outcome, now: int)
      returns (applied: nat, failed: nat, conflicts: nat, ghost batch: seq<EnvelopeId>)
      modifies this
      ensures PassOver(old(rows), batch)
      ensures rows == SettleAll(old(rows), batch, outcome, now)
      ensures applied == CountOutcome(batch, outcome, Succeeds)
      ensures failed == CountOutcome(batch, outcome, Fails)
      ensures conflicts == CountOutcome(batch, outcome, Conflicts)
    {
      hide SettleAll, CountOutcome, FirstByRank;
      TextIsOrdering();
      var pending := SelectFirst(PendingStamps(rows), NotAfterText, |PendingStamps(rows)|);
      batch := pending;
      applied, failed, conflicts := SettleBatch(pending, outcome, now);
    }
  }

  // ---------- The order of a pass ----------

  /** Where the timestamps fit their padded widths, a pass never applies a later clock before an earlier one. */
  lemma PassFollowsClocks(rows: InboxRows, batch: seq<EnvelopeId>, i: nat, j: nat, a: HLC.Stamp, b: HLC.Stamp)
    requires PassOver(rows, batch) && i < j < |batch|
    requires batch[i] in rows && batch[j] in rows
    requires rows[batch[i]].envelope.logicalTimestamp == HLC.Format(a) && HLC.FitsWidths(a.clock)
    requires rows[batch[j]].envelope.logicalTimestamp == HLC.Format(b) && HLC.FitsWidths(b.clock)
    ensures !HLC.Earlier(b.clock, a.clock)
  {
    HLC.TextOrderIsStampOrder(b, a);
    assert NotAfterText(PendingStamps(rows)[batch[i]], PendingStamps(rows)[batch[j]]);
  }

  // ---------- Deliveries and passes over time ----------

  /** `queue` is what is left of the pass under way; `applied` records every call that applied an envelope. */
  datatype World = World(rows: InboxRows, queue: Option<seq<EnvelopeId>>, applied: seq<EnvelopeId>)

  datatype Step =
    | ReceiveStep(envelope: Envelope, rowId: nat, verified: bool)
    | BeginStep(batch: seq<EnvelopeId>)
    | ApplyStep(outcome: Outcome, now: int)
    | EndStep

  /** Deliveries come at any time, in any order and again; a pass begins only when none is under way. */
  ghost predicate Enabled(w: World, step: Step) {
    match step
    case ReceiveStep(_, _, _) => true
    case BeginStep(batch) => w.queue.None? && PassOver(w.rows, batch)
    case ApplyStep(_, _) => w.queue.Some? && w.queue.value != []
    case EndStep => w.queue == Some([])
  }

  ghost function Do(w: World, step: Step): World
    requires Enabled(w, step)
  {
    match step
    case ReceiveStep(envelope, rowId, verified) => w.(rows := Insert(w.rows, envelope, rowId, verified))
    case BeginStep(batch) => w.(queue := Some(batch))
    case ApplyStep(outcome, now) =>
      var id := w.queue.value[0];
      World(Settle(w.rows, id, outcome, now), Some(w.queue.value[1..]), w.applied + [id])
    case EndStep => w.(queue := None)
  }

  ghost predicate IsRun(worlds: seq<World>, steps: seq<Step>) {
    && |worlds| == |steps| + 1
    && worlds[0] == World(map[], None, [])
    && forall k :: 0 <= k < |steps| ==> Enabled(worlds[k], steps[k]) && worlds[k + 1] == Do(worlds[k], steps[k])
  }

  ghost predicate Invariant(w: World) {
    && (forall id :: id in w.rows ==> w.rows[id].envelope.id == id)
    && (forall i :: 0 <= i < |w.applied| ==>
          w.applied[i] in w.rows && w.rows[w.applied[i]].verified && !w.rows[w.applied[i]].status.Pending?)
    && (forall i, j :: 0 <= i < j < |w.applied| ==> w.applied[i] != w.applied[j])
    && (w.queue.Some? ==> QueueInvariant(w.rows, w.queue.value))
  }

  ghost predicate QueueInvariant(rows: InboxRows, queue: seq<EnvelopeId>) {
    && (forall i :: 0 <= i < |queue| ==>
          queue[i] in rows && rows[queue[i]].verified && rows[queue[i]].status.Pending?)
    && (forall i, j :: 0 <= i < j < |queue| ==> queue[i] != queue[j])
  }

  lemma BatchIsPending(rows: InboxRows, batch: seq<EnvelopeId>)
    requires PassOver(rows, batch)
    ensures forall i :: 0 <= i < |batch| ==> batch[i] in PendingStamps(rows)
    ensures forall i, j :: 0 <= i < j < |batch| ==> batch[i] != batch[j]
  {
  }

  lemma StepKeepsInvariant(w: World, step: Step)
    requires Invariant(w) && Enabled(w, step)
    ensures Invariant(Do(w, step))
  {
    hide FirstByRank;
    if step.BeginStep? {
      BatchIsPending(w.rows, step.batch);
      assert forall i :: 0 <= i < |step.batch| ==> step.batch[i] in PendingStamps(w.rows);
    }
  }

  lemma {:induction false} RunInvariant(worlds: seq<World>, steps: seq<Step>, k: nat)
    requires IsRun(worlds, steps) && k <= |steps|
    ensures Invariant(worlds[k])
  {
    hide Do, Enabled;
    if k > 0 {
      RunInvariant(worlds, steps, k - 1);
      StepKeepsInvariant(worlds[k - 1], steps[k - 1]);
    }
  }

  /** In every run, each envelope is applied at most once, and only if its signature was verified. */
  lemma AppliedAtMostOnce(worlds: seq<World>, steps: seq<Step>, k: nat, i: nat, j: nat)
    requires IsRun(worlds, steps) && k <= |steps| && i <= j < |worlds[k].applied|
    ensures worlds[k].applied[i] == worlds[k].applied[j] ==> i == j
    ensures worlds[k].applied[i] in worlds[k].rows && worlds[k].rows[worlds[k].applied[i]].verified
  {
    RunInvariant(worlds, steps, k);
  }

  /** The first delivery under an id is the one kept, whatever is delivered under it later. */
  lemma {:induction false} FirstDeliveryIsKept(worlds: seq<World>, steps: seq<Step>, i: nat, k: nat)
    requires IsRun(worlds, steps) && i < k <= |steps|
    requires steps[i].ReceiveStep? && steps[i].envelope.id !in worlds[i].rows
    ensures var id := steps[i].envelope.id;
            && id in worlds[k].rows
            && worlds[k].rows[id].envelope == steps[i].envelope
            && worlds[k].rows[id].rowId == steps[i].rowId
            && worlds[k].rows[id].verified == steps[i].verified
    decreases k
  {
    if i + 1 < k {
      FirstDeliveryIsKept(worlds, steps, i, k - 1);
      assert worlds[k - 1 + 1] == Do(worlds[k - 1], steps[k - 1]);
    } else {
      assert worlds[i + 1] == Do(worlds[i], steps[i]);
    }
  }

  /** How much of `batch` is behind the pass under way, with entry `n` settled if it is. */
  ghost predicate Progress(w: World, batch: seq<EnvelopeId>, n: nat)
    requires n < |batch|
  {
    && w.queue.Some? && |w.queue.value| <= |batch|
    && var done := |batch| - |w.queue.value|;
       && w.queue.value == batch[done..]
       && (n < done ==> batch[n] in w.rows && !w.rows[batch[n]].status.Pending?)
  }

  lemma StepKeepsProgress(w: World, step: Step, batch: seq<EnvelopeId>, n: nat)
    requires n < |batch| && Invariant(w) && Enabled(w, step) && Progress(w, batch, n) && !step.EndStep?
    ensures Progress(Do(w, step), batch, n)
  {
    if step.ApplyStep? {
      assert w.queue.value[0] in w.rows;
    }
  }

  /** A pass that runs to its end leaves nothing it was to apply pending. */
  lemma {:induction false} PassSettlesItsBatch(worlds: seq<World>, steps: seq<Step>, b: nat, k: nat, n: nat)
    requires IsRun(worlds, steps) && b < k <= |steps| && steps[b].BeginStep? && n < |steps[b].batch|
    requires forall m :: b < m < k ==> !steps[m].EndStep?
    ensures Progress(worlds[k], steps[b].batch, n)
    ensures worlds[k].queue == Some([]) ==>
              steps[b].batch[n] in worlds[k].rows && !worlds[k].rows[steps[b].batch[n]].status.Pending?
    decreases k
  {
    if b + 1 < k {
      hide Do, Enabled, Invariant;
      RunInvariant(worlds, steps, k - 1);
      PassSettlesItsBatch(worlds, steps, b, k - 1, n);
      StepKeepsProgress(worlds[k - 1], steps[k - 1], steps[b].batch, n);
    } else {
      assert worlds[b + 1] == Do(worlds[b], steps[b]);
    }
  }
}
