/** What a delivery and a pass do to the inbox, column by column and row by row. */
module InboxRows {
  import opened Inbox
  import opened Selection
  import opened TextOrder
  import opened Wrappers

  /** A pass covers exactly the pending verified rows, each once, in the order of their timestamps as text. */
  lemma PassCoversPending(rows: InboxRows, batch: seq<EnvelopeId>)
    requires PassOver(rows, batch)
    ensures forall id :: id in batch <==> id in rows && rows[id].status == Pending && rows[id].verified
    ensures forall i, j :: 0 <= i < j < |batch| ==> batch[i] != batch[j]
    ensures forall i, j :: 0 <= i < j < |batch| && batch[i] in rows && batch[j] in rows ==>
              !TextLess(rows[batch[j]].envelope.logicalTimestamp, rows[batch[i]].envelope.logicalTimestamp)
  {
    var stamps := PendingStamps(rows);
    WithoutLimit(stamps, NotAfterText, batch);
    forall id ensures id in batch <==> id in rows && rows[id].status == Pending && rows[id].verified {
      assert id in batch <==> id in stamps;
    }
    forall i, j | 0 <= i < j < |batch| && batch[i] in rows && batch[j] in rows
      ensures !TextLess(rows[batch[j]].envelope.logicalTimestamp, rows[batch[i]].envelope.logicalTimestamp)
    {
      assert batch[i] in stamps && batch[j] in stamps;
      assert NotAfterText(stamps[batch[i]], stamps[batch[j]]);
    }
  }

  /** The row records what its application came to, and when if it was applied; the envelope stays as delivered. */
  ghost predicate Records(row: InboxRow, row': InboxRow, outcome: Outcome, now: int) {
    && row'.rowId == row.rowId && row'.envelope == row.envelope && row'.verified == row.verified
    && (row'.status == Applied <==> outcome == Succeeds)
    && (row'.status == Conflict <==> outcome == Conflicts)
    && (row'.status == Failed <==> outcome == Fails)
    && row'.appliedAt == (if outcome == Succeeds then Some(now) else row.appliedAt)
  }

  lemma SettledRow(rows: InboxRows, id: EnvelopeId, outcome: Outcome, now: int)
    ensures Settle(rows, id, outcome, now).Keys == rows.Keys
    ensures forall other :: other in rows && other != id ==> Settle(rows, id, outcome, now)[other] == rows[other]
    ensures id in rows ==> Records(rows[id], Settle(rows, id, outcome, now)[id], outcome, now)
  {
  }

  /** After a pass every row of its batch records its own outcome, and no other row has changed. */
  lemma {:induction false} SettledBatch(rows: InboxRows, batch: seq<EnvelopeId>, outcome: EnvelopeId -> Outcome,
                                        now: int)
    requires forall i, j :: 0 <= i < j < |batch| ==> batch[i] != batch[j]
    ensures SettleAll(rows, batch, outcome, now).Keys == rows.Keys
    ensures forall id :: id in rows && id in batch ==>
              Records(rows[id], SettleAll(rows, batch, outcome, now)[id], outcome(id), now)
    ensures forall id :: id in rows && id !in batch ==> SettleAll(rows, batch, outcome, now)[id] == rows[id]
  {
    hide Settle, Records;
    if batch != [] {
      var n := |batch| - 1;
      SettledBatch(rows, batch[..n], outcome, now);
      SettledRow(SettleAll(rows, batch[..n], outcome, now), batch[n], outcome(batch[n]), now);
      assert batch == batch[..n] + [batch[n]];
      assert batch[n] !in batch[..n];
    }
  }

  /** A tally counts one for each envelope of the outcome, and together the three count every envelope once. */
  lemma {:induction false} TalliesCount(a: seq<EnvelopeId>, b: seq<EnvelopeId>, id: EnvelopeId,
                                        outcome: EnvelopeId -> Outcome, wanted: Outcome)
    ensures CountOutcome([], outcome, wanted) == 0
    ensures CountOutcome([id], outcome, wanted) == if outcome(id) == wanted then 1 else 0
    ensures CountOutcome(a + b, outcome, wanted) == CountOutcome(a, outcome, wanted) + CountOutcome(b, outcome, wanted)
    decreases |b|
  {
    assert [id][..0] == [];
    if b == [] {
      assert a + b == a;
    } else {
      TalliesCount(a, b[..|b| - 1], id, outcome, wanted);
      assert (a + b)[..|a + b| - 1] == a + b[..|b| - 1];
    }
  }

  lemma {:induction false} TalliesCoverAll(batch: seq<EnvelopeId>, outcome: EnvelopeId -> Outcome)
    ensures CountOutcome(batch, outcome, Succeeds) + CountOutcome(batch, outcome, Conflicts)
            + CountOutcome(batch, outcome, Fails) == |batch|
  {
    if batch != [] {
      TalliesCoverAll(batch[..|batch| - 1], outcome);
    }
  }

  /** The first delivery under an id is stored as it came, pending; any later one changes nothing. */
  lemma StoredDelivery(rows: InboxRows, envelope: Envelope, rowId: nat, verified: bool)
    ensures var rows' := Insert(rows, envelope, rowId, verified);
            && (forall id :: id in rows ==> id in rows' && rows'[id] == rows[id])
            && (forall id :: id in rows' ==> id in rows || id == envelope.id)
            && envelope.id in rows'
            && (envelope.id !in rows ==>
                  var row := rows'[envelope.id];
                  && row.envelope == envelope && row.rowId == rowId && row.verified == verified
                  && row.status == Pending && row.appliedAt == None)
  {
  }

  /** A delivery is answered with the stored row if and only if that row has its signer and signature, and the delivery
    * is verified or is the one just stored. */
  lemma AnsweredExactlyWhen(rows: InboxRows, envelope: Envelope, rowId: nat, verified: bool)
    ensures envelope.id in Insert(rows, envelope, rowId, verified)
    ensures var stored := Insert(rows, envelope, rowId, verified)[envelope.id];
            Accepts(stored, envelope, rowId, verified) <==>
            || envelope.id !in rows
            || (&& rows[envelope.id].envelope.signer == envelope.signer
                && rows[envelope.id].envelope.signature == envelope.signature
                && (verified || rows[envelope.id].rowId == rowId))
  {
  }

  // ---------- A pass can always be made ----------

  lemma Extend(worlds: seq<World>, steps: seq<Step>, step: Step)
    requires IsRun(worlds, steps) && Enabled(worlds[|steps|], step)
    ensures IsRun(worlds + [Do(worlds[|steps|], step)], steps + [step])
  {
    hide Do, Enabled;
  }

  /** The empty inbox, with no pass under way, is where runs start. */
  lemma StartIsRun()
    ensures IsRun([World(map[], None, [])], [])
  {
  }

  lemma RunLength(worlds: seq<World>, steps: seq<Step>)
    requires IsRun(worlds, steps)
    ensures |worlds| == |steps| + 1
  {
  }

  /** A delivery can come at any time, and is stored if it is the first of its id. */
  lemma DeliveryAtAnyTime(worlds: seq<World>, steps: seq<Step>, envelope: Envelope, rowId: nat, verified: bool)
    returns (longer: seq<World>, more: seq<Step>)
    requires IsRun(worlds, steps)
    ensures IsRun(longer, more) && |more| == |steps| + 1
    ensures var last := longer[|more|];
            envelope.id in last.rows
            && (envelope.id !in worlds[|steps|].rows ==>
                  last.rows[envelope.id].envelope == envelope && last.rows[envelope.id].verified == verified)
  {
    RunLength(worlds, steps);
    var step := ReceiveStep(envelope, rowId, verified);
    Extend(worlds, steps, step);
    longer, more := worlds + [Do(worlds[|steps|], step)], steps + [step];
  }

  /** The pass under way can be brought to its end. */
  lemma {:induction false} PassCanBeFinished(worlds: seq<World>, steps: seq<Step>, outcome: Outcome, now: int)
    returns (longer: seq<World>, more: seq<Step>)
    requires IsRun(worlds, steps) && worlds[|steps|].queue.Some?
    ensures IsRun(longer, more) && longer[|more|].queue == None
    ensures longer[|more|].applied == worlds[|steps|].applied + worlds[|steps|].queue.value
    decreases |worlds[|steps|].queue.value|
  {
    hide IsRun, Settle;
    RunLength(worlds, steps);
    var w := worlds[|steps|];
    if w.queue.value == [] {
      Extend(worlds, steps, EndStep);
      longer, more := worlds + [Do(w, EndStep)], steps + [EndStep];
    } else {
      var step := ApplyStep(outcome, now);
      Extend(worlds, steps, step);
      longer, more := PassCanBeFinished(worlds + [Do(w, step)], steps + [step], outcome, now);
      assert w.queue.value == [w.queue.value[0]] + w.queue.value[1..];
    }
  }

  /** Whenever no pass is under way one can be begun and finished, and it applies every pending verified envelope. */
  lemma PassCanBeMade(worlds: seq<World>, steps: seq<Step>, batch: seq<EnvelopeId>, outcome: Outcome, now: int)
    returns (longer: seq<World>, more: seq<Step>)
    requires IsRun(worlds, steps) && worlds[|steps|].queue == None && PassOver(worlds[|steps|].rows, batch)
    ensures IsRun(longer, more) && longer[|more|].queue == None
    ensures longer[|more|].applied == worlds[|steps|].applied + batch
  {
    hide IsRun, PassOver;
    RunLength(worlds, steps);
    var w := worlds[|steps|];
    Extend(worlds, steps, BeginStep(batch));
    longer, more := PassCanBeFinished(worlds + [Do(w, BeginStep(batch))], steps + [BeginStep(batch)], outcome, now);
  }
}
