/** Runs of the outbox that end well and badly: the steps of the workers do lead there. */
module OutboxReach {
  import opened Outbox
  import opened OutboxRuns
  import opened Selection
  import opened Wrappers

  lemma Extend(worlds: seq<World>, steps: seq<Step>, step: Step)
    requires IsRun(worlds, steps) && Enabled(worlds[|steps|], step)
    ensures IsRun(worlds + [Do(worlds[|steps|], step)], steps + [step])
  {
    hide Do, Enabled;
  }

  lemma RunLength(worlds: seq<World>, steps: seq<Step>)
    requires IsRun(worlds, steps)
    ensures |worlds| == |steps| + 1
  {
  }

  /** One envelope is all there is, pending, and one worker, idle. */
  ghost predicate WaitsAlone(w: World, p: nat, id: EnvelopeId, organisation: Organisation, attempts: nat) {
    && w.workers.Keys == {p} && w.workers[p] == Idle
    && w.rows.Keys == {id} && w.rows[id].status == Pending && w.rows[id].organisation == organisation
    && w.rows[id].attemptCount == attempts
  }

  lemma LoadsTheOne(rows: OutboxRows, organisation: Organisation, id: EnvelopeId)
    requires rows.Keys == {id} && rows[id].status == Pending && rows[id].organisation == organisation
    ensures PendingBatchOf(rows, organisation, 1, [id])
  {
    assert PendingTimes(rows, organisation) == map[id := rows[id].createdAt];
  }

  /** An envelope is enqueued. */
  lemma Enqueued(p: nat, id: EnvelopeId, organisation: Organisation, now: int)
    returns (worlds: seq<World>, steps: seq<Step>)
    ensures IsRun(worlds, steps) && |steps| == 1 && WaitsAlone(worlds[1], p, id, organisation, 0)
    ensures worlds[1].sent == map[]
  {
    var w0 := World(map[], map[p := Idle], map[], {});
    steps := [Enqueue(id, organisation, now)];
    worlds := [w0, Do(w0, steps[0])];
  }

  /** The worker loads it and hands it over under a new ticket. */
  lemma HandsOver(worlds: seq<World>, steps: seq<Step>, p: nat, id: EnvelopeId, organisation: Organisation,
                  attempts: nat, ticket: nat) returns (longer: seq<World>, more: seq<Step>)
    requires IsRun(worlds, steps) && WaitsAlone(worlds[|steps|], p, id, organisation, attempts)
    requires ticket !in worlds[|steps|].sent
    ensures IsRun(longer, more) && |more| == |steps| + 2
    ensures var w, last := worlds[|steps|], longer[|more|];
            && last.rows == w.rows && last.accepted == w.accepted && last.sent == w.sent[ticket := id]
            && last.workers == map[p := InFlight([id], 0, ticket)]
  {
    hide IsRun, PendingBatchOf;
    RunLength(worlds, steps);
    var w := worlds[|steps|];
    LoadsTheOne(w.rows, organisation, id);
    var load, dispatch := Load(p, organisation, 1, [id]), Dispatch(p, ticket);
    Extend(worlds, steps, load);
    var w1 := Do(w, load);
    Extend(worlds + [w1], steps + [load], dispatch);
    longer, more := worlds + [w1] + [Do(w1, dispatch)], steps + [load] + [dispatch];
  }

  /** For every envelope there is a run in which a peer accepts it and it is recorded as sent. */
  lemma EnvelopeCanBeSent(p: nat, id: EnvelopeId, organisation: Organisation, now: int)
    returns (worlds: seq<World>, steps: seq<Step>)
    ensures IsRun(worlds, steps)
    ensures var last := worlds[|steps|];
            id in last.rows && last.rows[id].status == Sent && last.rows[id].sentAt == Some(now)
  {
    hide IsRun;
    worlds, steps := Enqueued(p, id, organisation, now);
    worlds, steps := HandsOver(worlds, steps, p, id, organisation, 0, 0);
    RunLength(worlds, steps);
    var w := worlds[|steps|];
    var w1 := Do(w, Accept(0));
    var w2 := Do(w1, Resolve(p));
    Extend(worlds, steps, Accept(0));
    Extend(worlds + [w1], steps + [Accept(0)], Resolve(p));
    Extend(worlds + [w1] + [w2], steps + [Accept(0)] + [Resolve(p)], RecordSent(p, now));
    worlds := worlds + [w1] + [w2] + [Do(w2, RecordSent(p, now))];
    steps := steps + [Accept(0)] + [Resolve(p)] + [RecordSent(p, now)];
  }

  /** One more refused delivery; the worker then lets go of its batch. */
  lemma RefusedOnce(worlds: seq<World>, steps: seq<Step>, p: nat, id: EnvelopeId, organisation: Organisation,
                    attempts: nat, now: int) returns (longer: seq<World>, more: seq<Step>)
    requires IsRun(worlds, steps) && WaitsAlone(worlds[|steps|], p, id, organisation, attempts)
    requires attempts < 5 && forall t :: t in worlds[|steps|].sent ==> t < attempts
    ensures IsRun(longer, more)
    ensures var last := longer[|more|];
            && (attempts < 4 ==> WaitsAlone(last, p, id, organisation, attempts + 1))
            && (attempts == 4 ==> id in last.rows && last.rows[id].status == Failed && last.rows[id].attemptCount == 5)
            && forall t :: t in last.sent ==> t < attempts + 1
  {
    hide IsRun;
    longer, more := HandsOver(worlds, steps, p, id, organisation, attempts, attempts);
    RunLength(longer, more);
    var w := longer[|more|];
    var w1 := Do(w, Refuse(p));
    var w2 := Do(w1, RecordFailure(p, now));
    Extend(longer, more, Refuse(p));
    Extend(longer + [w1], more + [Refuse(p)], RecordFailure(p, now));
    Extend(longer + [w1] + [w2], more + [Refuse(p)] + [RecordFailure(p, now)], Stop(p));
    longer := longer + [w1] + [w2] + [Do(w2, Stop(p))];
    more := more + [Refuse(p)] + [RecordFailure(p, now)] + [Stop(p)];
  }

  /** For every envelope there is a run in which five refusals fail it for good. */
  lemma EnvelopeCanFail(p: nat, id: EnvelopeId, organisation: Organisation, now: int)
    returns (worlds: seq<World>, steps: seq<Step>)
    ensures IsRun(worlds, steps)
    ensures var last := worlds[|steps|];
            id in last.rows && last.rows[id].status == Failed && last.rows[id].attemptCount == 5
  {
    hide IsRun, Do, Enabled, WaitsAlone;
    worlds, steps := Enqueued(p, id, organisation, now);
    worlds, steps := RefusedOnce(worlds, steps, p, id, organisation, 0, now);
    worlds, steps := RefusedOnce(worlds, steps, p, id, organisation, 1, now);
    worlds, steps := RefusedOnce(worlds, steps, p, id, organisation, 2, now);
    worlds, steps := RefusedOnce(worlds, steps, p, id, organisation, 3, now);
    worlds, steps := RefusedOnce(worlds, steps, p, id, organisation, 4, now);
  }

  // ---------- One pass over a batch ----------

  /** Where a worker is, a while after it handed over entry `pos`: still with that entry, past it, or done. */
  ghost predicate Passing(at: Worker, batch: seq<EnvelopeId>, pos: nat) {
    || at.Idle?
    || (at.batch == batch && ((at.pos == pos && !at.AtEntry?) || (at.pos == pos + 1 && at.AtEntry?)))
  }

  lemma StepKeepsPassing(w: World, step: Step, p: nat, batch: seq<EnvelopeId>, pos: nat)
    requires Enabled(w, step) && p in w.workers && Passing(w.workers[p], batch, pos)
    requires (step.Load? || step.Dispatch?) ==> step.worker != p
    ensures p in Do(w, step).workers && Passing(Do(w, step).workers[p], batch, pos)
  {
  }

  lemma {:induction false} KeepsPassing(worlds: seq<World>, steps: seq<Step>, j: nat, k: nat, p: nat)
    requires IsRun(worlds, steps) && j < k <= |steps| && steps[j].Dispatch? && steps[j].worker == p
    requires p in worlds[j].workers && worlds[j].workers[p].AtEntry?
    requires forall i :: j < i < k && (steps[i].Load? || steps[i].Dispatch?) ==> steps[i].worker != p
    ensures p in worlds[k].workers
    ensures Passing(worlds[k].workers[p], worlds[j].workers[p].batch, worlds[j].workers[p].pos)
    decreases k
  {
    if k == j + 1 {
      assert worlds[j + 1] == Do(worlds[j], steps[j]);
    } else {
      hide Do, Enabled;
      KeepsPassing(worlds, steps, j, k - 1, p);
      StepKeepsPassing(worlds[k - 1], steps[k - 1], p, worlds[j].workers[p].batch, worlds[j].workers[p].pos);
    }
  }

  /** In one pass a worker hands over the entries of its batch one after the other, none twice and none left out. */
  lemma PassTakesNextEntry(worlds: seq<World>, steps: seq<Step>, j: nat, k: nat, p: nat)
    requires IsRun(worlds, steps) && j < k < |steps|
    requires steps[j].Dispatch? && steps[j].worker == p && steps[k].Dispatch? && steps[k].worker == p
    requires forall i :: j < i < k && (steps[i].Load? || steps[i].Dispatch?) ==> steps[i].worker != p
    ensures p in worlds[j].workers && p in worlds[k].workers
    ensures var before, after := worlds[j].workers[p], worlds[k].workers[p];
            && before.AtEntry? && after.AtEntry?
            && after.batch == before.batch && after.pos == before.pos + 1 < |after.batch|
            && worlds[k + 1].sent == worlds[k].sent[steps[k].ticket := before.batch[before.pos + 1]]
  {
    assert Enabled(worlds[j], steps[j]) && Enabled(worlds[k], steps[k]);
    KeepsPassing(worlds, steps, j, k, p);
  }
}
