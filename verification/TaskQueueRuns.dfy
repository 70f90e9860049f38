/**
  * Workers, recovery and cancellation interleaved over one task table. Each SQL statement is one step; a failure
  * report is two, its read and its conditional write.
  */
module TaskQueueRuns {
  import opened Wrappers
  import opened TaskRetry
  import opened TaskQueue

  /** A claim as it was returned: the task and the attempt it was claimed for. */
  datatype Claimed = Claimed(id: TaskId, attempt: nat)

  /** The task a failure report is about and the row it read, if that was running. */
  datatype Report = Report(id: TaskId, seen: Option<Task>)

  datatype World = World(
    rows: Rows,
    reports: map<nat, Report>,
    claims: seq<Claimed>,
    recoveries: map<TaskId, nat>)

  /** `holder` is the attempt its caller was given; no statement looks at it. */
  datatype Step =
    | InsertStep(id: TaskId, definition: Definition)
    | ClaimStep(batch: seq<TaskId>, limit: int, taskTypes: seq<string>, now: int)
    | QuarantineStep(id: TaskId, now: int)
    | CompleteStep(id: TaskId, holder: nat, now: int)
    | ReadFailureStep(call: nat, id: TaskId, holder: nat)
    | WriteFailureStep(call: nat, error: TaskError, now: int, clock: int, random: real)
    | CancelStep(id: TaskId, reason: string)
    | RecoverStep(cutoff: int, now: int)

  ghost predicate Enabled(w: World, step: Step) {
    match step
    case InsertStep(id, d) => ValidPolicy(d.policy) && Insertable(w.rows, id, d)
    case ClaimStep(batch, limit, taskTypes, now) => limit > 0 && ClaimBatch(w.rows, now, limit, taskTypes, batch)
    case QuarantineStep(id, _) => id in w.rows && !w.rows[id].payloadParses
    case CompleteStep(id, holder, _) => Claimed(id, holder) in w.claims
    case ReadFailureStep(call, id, holder) => call !in w.reports && Claimed(id, holder) in w.claims
    case WriteFailureStep(call, _, _, _, _) =>
      call in w.reports && w.reports[call].seen.Some? && w.reports[call].seen.value.attemptCount >= 1
    case CancelStep(_, _) => true
    case RecoverStep(_, _) => true
  }

  function ClaimLog(rows: Rows, batch: seq<TaskId>): (log: seq<Claimed>)
    requires forall id :: id in batch ==> id in rows
    ensures |log| == |batch|
    ensures forall k :: 0 <= k < |log| ==> log[k] == Claimed(batch[k], rows[batch[k]].attemptCount + 1)
  {
    seq(|batch|, k requires 0 <= k < |batch| => Claimed(batch[k], rows[batch[k]].attemptCount + 1))
  }

  function CountRecovered(w: World, cutoff: int): map<TaskId, nat>
    requires w.recoveries.Keys == w.rows.Keys
  {
    map id | id in w.rows :: if Hanging(w.rows[id], cutoff) then w.recoveries[id] + 1 else w.recoveries[id]
  }

  ghost function Do(w: World, step: Step): World
    requires Enabled(w, step) && w.recoveries.Keys == w.rows.Keys
  {
    match step
    case InsertStep(id, d) => w.(rows := w.rows[id := NewTask(d)], recoveries := w.recoveries[id := 0])
    case ClaimStep(batch, _, _, now) =>
      w.(rows := Claim(w.rows, batch, now), claims := w.claims + ClaimLog(w.rows, batch))
    case QuarantineStep(id, now) => w.(rows := Quarantine(w.rows, id, now))
    case CompleteStep(id, _, now) => w.(rows := Complete(w.rows, id, now))
    case ReadFailureStep(call, id, _) => w.(reports := w.reports[call := Report(id, ReadRunning(w.rows, id))])
    case WriteFailureStep(call, error, now, clock, random) =>
      var report := w.reports[call];
      w.(rows := WriteFailure(w.rows, report.id, report.seen.value, error, now, clock, random))
    case CancelStep(id, reason) => w.(rows := Cancel(w.rows, id, reason))
    case RecoverStep(cutoff, now) =>
      w.(rows := Recover(w.rows, cutoff, now), recoveries := CountRecovered(w, cutoff))
  }

  // ---------- What every state satisfies ----------

  ghost predicate AttemptBounded(t: Task, recoveries: nat) {
    && t.attemptCount <= t.policy.maxAttempts + recoveries
    && (t.state.Pending? ==> t.attemptCount < t.policy.maxAttempts + recoveries)
  }

  function CountClaims(claims: seq<Claimed>, id: TaskId): nat {
    if claims == [] then 0
    else CountClaims(claims[..|claims| - 1], id) + if claims[|claims| - 1].id == id then 1 else 0
  }

  /** No two claims return the same task for the same attempt, and none is for an attempt still to come. */
  ghost predicate ClaimsInvariant(rows: Rows, claims: seq<Claimed>) {
    && (forall k :: 0 <= k < |claims| ==>
          claims[k].id in rows && 1 <= claims[k].attempt <= rows[claims[k].id].attemptCount)
    && (forall j, k :: 0 <= j < k < |claims| ==> claims[j] != claims[k])
    && (forall id :: id in rows ==> rows[id].attemptCount == CountClaims(claims, id))
  }

  ghost predicate ReportInvariant(rows: Rows, report: Report) {
    report.seen.Some? ==>
      && report.id in rows
      && report.seen.value.policy == rows[report.id].policy
      && 1 <= report.seen.value.attemptCount <= rows[report.id].attemptCount
  }

  ghost predicate Invariant(w: World) {
    && w.recoveries.Keys == w.rows.Keys
    && TableInvariant(w.rows)
    && (forall id :: id in w.rows ==> AttemptBounded(w.rows[id], w.recoveries[id]))
    && ClaimsInvariant(w.rows, w.claims)
    && (forall call :: call in w.reports ==> ReportInvariant(w.rows, w.reports[call]))
  }

  const EmptyWorld := World(map[], map[], [], map[])

  // ---------- What one step may do to one row ----------

  /** How a row may change: forward in attempts, into RUNNING only by a new attempt, out of a terminal state never. */
  ghost predicate RowEvolves(t: Task, t': Task) {
    && t'.policy == t.policy
    && t'.uniqueKey == t.uniqueKey
    && t'.taskType == t.taskType
    && t'.payloadParses == t.payloadParses
    && (Terminal(t) ==> t' == t)
    && (t'.attemptCount == t.attemptCount
        || (t'.attemptCount == t.attemptCount + 1 && t.state.Pending? && t'.state.Running?))
    && (t'.state.Running? && t'.attemptCount == t.attemptCount ==> t.state.Running?)
  }

  ghost predicate Evolves(rows: Rows, rows': Rows) {
    forall id :: id in rows ==> id in rows' && RowEvolves(rows[id], rows'[id])
  }

  lemma InsertEvolves(rows: Rows, id: TaskId, d: Definition)
    requires Insertable(rows, id, d)
    ensures Evolves(rows, rows[id := NewTask(d)])
  {
  }

  lemma ClaimEvolves(rows: Rows, now: int, limit: int, taskTypes: seq<string>, batch: seq<TaskId>)
    requires ClaimBatch(rows, now, limit, taskTypes, batch)
    ensures Evolves(rows, Claim(rows, batch, now)) && Claim(rows, batch, now).Keys == rows.Keys
  {
    forall id | id in batch ensures id in rows && rows[id].state.Pending? {
      assert id in DueTimes(rows, now, taskTypes);
    }
  }

  lemma QuarantineEvolves(rows: Rows, id: TaskId, now: int)
    ensures Evolves(rows, Quarantine(rows, id, now)) && Quarantine(rows, id, now).Keys == rows.Keys
  {
  }

  lemma CompleteEvolves(rows: Rows, id: TaskId, now: int)
    ensures Evolves(rows, Complete(rows, id, now)) && Complete(rows, id, now).Keys == rows.Keys
  {
  }

  lemma CancelEvolves(rows: Rows, id: TaskId, reason: string)
    ensures Evolves(rows, Cancel(rows, id, reason)) && Cancel(rows, id, reason).Keys == rows.Keys
  {
  }

  lemma WriteFailureEvolves(rows: Rows, report: Report, error: TaskError, now: int, clock: int, random: real)
    requires report.seen.Some? && report.seen.value.attemptCount >= 1
    ensures var rows' := WriteFailure(rows, report.id, report.seen.value, error, now, clock, random);
            Evolves(rows, rows') && rows'.Keys == rows.Keys
  {
    hide Decide;
  }

  lemma RecoverEvolves(rows: Rows, cutoff: int, now: int)
    ensures Evolves(rows, Recover(rows, cutoff, now)) && Recover(rows, cutoff, now).Keys == rows.Keys
  {
  }

  /** What any one statement may do to any one row. */
  lemma StepEvolves(w: World, step: Step)
    requires w.recoveries.Keys == w.rows.Keys && Enabled(w, step)
    ensures Evolves(w.rows, Do(w, step).rows)
    ensures Do(w, step).recoveries.Keys == Do(w, step).rows.Keys
  {
    hide Evolves, ClaimBatch, Claim, Quarantine, Complete, WriteFailure, Cancel, Recover, Insertable, Decide;
    match step {
      case InsertStep(id, d) => InsertEvolves(w.rows, id, d);
      case ClaimStep(batch, limit, taskTypes, now) => ClaimEvolves(w.rows, now, limit, taskTypes, batch);
      case QuarantineStep(id, now) => QuarantineEvolves(w.rows, id, now);
      case CompleteStep(id, _, now) => CompleteEvolves(w.rows, id, now);
      case ReadFailureStep(_, _, _) => NothingEvolves(w.rows);
      case WriteFailureStep(call, error, now, clock, random) =>
        WriteFailureEvolves(w.rows, w.reports[call], error, now, clock, random);
      case CancelStep(id, reason) => CancelEvolves(w.rows, id, reason);
      case RecoverStep(cutoff, now) => RecoverEvolves(w.rows, cutoff, now);
    }
  }

  lemma NothingEvolves(rows: Rows)
    ensures Evolves(rows, rows)
  {
  }

  /** Only a claim of the task changes its attempt count, by one. */
  lemma AttemptMovesByClaim(w: World, step: Step, id: TaskId)
    requires w.recoveries.Keys == w.rows.Keys && Enabled(w, step) && id in w.rows
    ensures id in Do(w, step).rows
    ensures Do(w, step).rows[id].attemptCount
         == w.rows[id].attemptCount + if step.ClaimStep? && id in step.batch then 1 else 0
  {
    hide Decide;
  }

  lemma {:induction false} CountClaimsAppend(claims: seq<Claimed>, more: seq<Claimed>, id: TaskId)
    ensures CountClaims(claims + more, id) == CountClaims(claims, id) + CountClaims(more, id)
  {
    if more == [] {
      assert claims + more == claims;
    } else {
      var init := more[..|more| - 1];
      CountClaimsAppend(claims, init, id);
      assert (claims + more)[..|claims + more| - 1] == claims + init;
    }
  }

  lemma {:induction false} CountClaimsOnce(log: seq<Claimed>, id: TaskId)
    requires forall j, k :: 0 <= j < k < |log| ==> log[j].id != log[k].id
    ensures CountClaims(log, id) == if exists k :: 0 <= k < |log| && log[k].id == id then 1 else 0
  {
    if log != [] {
      CountClaimsOnce(log[..|log| - 1], id);
      if log[|log| - 1].id != id {
        assert forall k :: 0 <= k < |log| && log[k].id == id ==> k < |log| - 1 && log[..|log| - 1][k].id == id;
      }
    }
  }

  lemma ClaimKeepsClaims(w: World, batch: seq<TaskId>, now: int)
    requires ClaimsInvariant(w.rows, w.claims)
    requires forall i :: 0 <= i < |batch| ==> batch[i] in w.rows
    requires forall i, j :: 0 <= i < j < |batch| ==> batch[i] != batch[j]
    ensures ClaimsInvariant(Claim(w.rows, batch, now), w.claims + ClaimLog(w.rows, batch))
  {
    var rows' := Claim(w.rows, batch, now);
    var log := ClaimLog(w.rows, batch);
    var claims' := w.claims + log;
    forall j, k | 0 <= j < k < |claims'| ensures claims'[j] != claims'[k] {
      if j < |w.claims| <= k {
        assert claims'[j].id in w.rows && claims'[j].attempt <= w.rows[claims'[j].id].attemptCount;
      }
    }
    forall id | id in rows' ensures rows'[id].attemptCount == CountClaims(claims', id) {
      CountClaimsAppend(w.claims, log, id);
      CountClaimsOnce(log, id);
      if id in batch {
        var k :| 0 <= k < |batch| && batch[k] == id;
        assert log[k].id == id;
      }
    }
  }

  lemma InsertKeepsClaims(rows: Rows, claims: seq<Claimed>, id: TaskId, t: Task)
    requires ClaimsInvariant(rows, claims) && id !in rows && t.attemptCount == 0
    ensures ClaimsInvariant(rows[id := t], claims)
  {
    NeverClaimed(claims, id);
  }

  lemma {:induction false} NeverClaimed(claims: seq<Claimed>, id: TaskId)
    requires forall k :: 0 <= k < |claims| ==> claims[k].id != id
    ensures CountClaims(claims, id) == 0
  {
    if claims != [] {
      NeverClaimed(claims[..|claims| - 1], id);
    }
  }

  lemma OthersKeepClaims(rows: Rows, rows': Rows, claims: seq<Claimed>)
    requires ClaimsInvariant(rows, claims)
    requires rows'.Keys == rows.Keys
    requires forall id :: id in rows ==> rows'[id].attemptCount == rows[id].attemptCount
    ensures ClaimsInvariant(rows', claims)
  {
  }

  lemma StepKeepsTable(w: World, step: Step)
    requires Invariant(w) && Enabled(w, step)
    ensures TableInvariant(Do(w, step).rows)
  {
    hide TableInvariant, Decide;
    match step {
      case InsertStep(id, d) => InsertKeepsTable(w.rows, id, d);
      case ClaimStep(batch, _, _, now) => ClaimKeepsTable(w.rows, batch, now);
      case QuarantineStep(id, now) => QuarantineKeepsTable(w.rows, id, now);
      case CompleteStep(id, _, now) => CompleteKeepsTable(w.rows, id, now);
      case ReadFailureStep(_, _, _) =>
      case WriteFailureStep(call, error, now, clock, random) =>
        var report := w.reports[call];
        WriteFailureKeepsTable(w.rows, report.id, report.seen.value, error, now, clock, random);
      case CancelStep(id, reason) => CancelKeepsTable(w.rows, id, reason);
      case RecoverStep(cutoff, now) => RecoverKeepsTable(w.rows, cutoff, now);
    }
  }

  lemma CompleteKeepsTable(rows: Rows, id: TaskId, now: int)
    requires TableInvariant(rows)
    ensures TableInvariant(Complete(rows, id, now))
  {
  }

  lemma CancelKeepsTable(rows: Rows, id: TaskId, reason: string)
    requires TableInvariant(rows)
    ensures TableInvariant(Cancel(rows, id, reason))
  {
  }

  /** A failure report leaves attempts alone and makes a task pending only where it has one left. */
  lemma PendingWithAttemptsLeft(rows: Rows, report: Report, error: TaskError, now: int, clock: int, random: real)
    requires ReportInvariant(rows, report) && report.seen.Some? && report.seen.value.attemptCount >= 1
    ensures var rows' := WriteFailure(rows, report.id, report.seen.value, error, now, clock, random);
            && rows'.Keys == rows.Keys
            && forall id :: id in rows ==>
                 || rows'[id] == rows[id]
                 || (&& rows'[id].attemptCount == rows[id].attemptCount && rows'[id].policy == rows[id].policy
                     && (rows'[id].state.Pending? ==> rows[id].attemptCount < rows[id].policy.maxAttempts))
  {
    hide Decide;
    RetriesWhileAttemptsRemain(error, report.seen.value.attemptCount, report.seen.value.policy, random);
  }

  lemma StepKeepsBounds(w: World, step: Step)
    requires Invariant(w) && Enabled(w, step)
    ensures Do(w, step).recoveries.Keys == Do(w, step).rows.Keys
    ensures forall id :: id in Do(w, step).rows ==>
                           AttemptBounded(Do(w, step).rows[id], Do(w, step).recoveries[id])
  {
    hide TableInvariant, ClaimsInvariant, WriteFailure, KeysDistinct;
    if step.InsertStep? {
      assert step.definition.policy.maxAttempts > 0;
    } else if step.WriteFailureStep? {
      assert ReportInvariant(w.rows, w.reports[step.call]);
      PendingWithAttemptsLeft(w.rows, w.reports[step.call], step.error, step.now, step.clock, step.random);
    }
  }

  lemma StepKeepsClaims(w: World, step: Step)
    requires Invariant(w) && Enabled(w, step)
    ensures ClaimsInvariant(Do(w, step).rows, Do(w, step).claims)
  {
    hide TableInvariant, ClaimsInvariant, Decide, ReportInvariant;
    match step {
      case InsertStep(id, d) => InsertKeepsClaims(w.rows, w.claims, id, NewTask(d));
      case ClaimStep(batch, _, _, now) => ClaimKeepsClaims(w, batch, now);
      case _ => OthersKeepClaims(w.rows, Do(w, step).rows, w.claims);
    }
  }

  lemma StepKeepsReports(w: World, step: Step)
    requires Invariant(w) && Enabled(w, step)
    ensures forall call :: call in Do(w, step).reports ==> ReportInvariant(Do(w, step).rows, Do(w, step).reports[call])
  {
    hide Decide, ClaimsInvariant, KeysDistinct;
    StepEvolves(w, step);
    var w' := Do(w, step);
    forall call | call in w'.reports ensures ReportInvariant(w'.rows, w'.reports[call]) {
      if call in w.reports {
        assert ReportInvariant(w.rows, w.reports[call]);
        assert w'.reports[call] == w.reports[call];
      }
    }
  }

  lemma StepKeepsInvariant(w: World, step: Step)
    requires Invariant(w) && Enabled(w, step)
    ensures Invariant(Do(w, step))
  {
    hide AttemptBounded, TableInvariant, ClaimsInvariant, ReportInvariant;
    StepKeepsTable(w, step);
    StepKeepsBounds(w, step);
    StepKeepsClaims(w, step);
    StepKeepsReports(w, step);
  }

  // ---------- Whole runs ----------

  /** A run from the empty table: one world before each step and one after the last. */
  ghost predicate IsRun(worlds: seq<World>, steps: seq<Step>) {
    && |worlds| == |steps| + 1
    && worlds[0] == EmptyWorld
    && forall k :: 0 <= k < |steps| ==>
         && worlds[k].recoveries.Keys == worlds[k].rows.Keys
         && Enabled(worlds[k], steps[k])
         && worlds[k + 1] == Do(worlds[k], steps[k])
  }

  lemma {:induction false} RunInvariant(worlds: seq<World>, steps: seq<Step>, k: nat)
    requires IsRun(worlds, steps) && k <= |steps|
    ensures Invariant(worlds[k])
  {
    hide Do, Enabled;
    if k > 0 {
      RunInvariant(worlds, steps, k - 1);
      StepKeepsInvariant(worlds[k - 1], steps[k - 1]);
    }
  }

  /** The step takes a running task back to pending because it has hung. */
  ghost predicate Recovers(step: Step, before: Rows, after: Rows, id: TaskId) {
    && step.RecoverStep? && id in before && id in after
    && before[id].state == Running && after[id].state == Pending
  }

  /** How many of the first `k` steps recover the task. */
  ghost function TimesRecovered(worlds: seq<World>, steps: seq<Step>, k: nat, id: TaskId): nat
    requires |worlds| == |steps| + 1 && k <= |steps|
  {
    if k == 0 then 0
    else
      TimesRecovered(worlds, steps, k - 1, id)
      + if Recovers(steps[k - 1], worlds[k - 1].rows, worlds[k].rows, id) then 1 else 0
  }

  lemma StepCountsRecoveries(w: World, step: Step, id: TaskId)
    requires w.recoveries.Keys == w.rows.Keys && Enabled(w, step) && id in Do(w, step).rows
    ensures id in Do(w, step).recoveries
    ensures Do(w, step).recoveries[id] == (if id in w.rows then w.recoveries[id] else 0)
                                        + if Recovers(step, w.rows, Do(w, step).rows, id) then 1 else 0
  {
    hide Decide;
  }

  /** The count of recoveries a run carries along is how often the task went back from running to pending by one. */
  lemma {:induction false} RecoveriesAreCounted(worlds: seq<World>, steps: seq<Step>, k: nat, id: TaskId)
    requires IsRun(worlds, steps) && k <= |steps|
    ensures worlds[k].recoveries.Keys == worlds[k].rows.Keys
    ensures TimesRecovered(worlds, steps, k, id) == if id in worlds[k].rows then worlds[k].recoveries[id] else 0
  {
    hide Do, Enabled;
    RunInvariant(worlds, steps, k);
    if k > 0 {
      RecoveriesAreCounted(worlds, steps, k - 1, id);
      StepEvolves(worlds[k - 1], steps[k - 1]);
      if id in worlds[k].rows {
        StepCountsRecoveries(worlds[k - 1], steps[k - 1], id);
      }
    }
  }

  /** In every run, attempts stay within the limit plus one for each recovery of the task. */
  lemma AttemptsBoundedByRecoveries(worlds: seq<World>, steps: seq<Step>, k: nat, id: TaskId)
    requires IsRun(worlds, steps) && k <= |steps| && id in worlds[k].rows
    ensures id in worlds[k].recoveries
    ensures worlds[k].rows[id].attemptCount <= worlds[k].rows[id].policy.maxAttempts + worlds[k].recoveries[id]
    ensures worlds[k].recoveries[id] == TimesRecovered(worlds, steps, k, id)
  {
    RunInvariant(worlds, steps, k);
    RecoveriesAreCounted(worlds, steps, k, id);
  }

  /** In every run, no claim is repeated: a task is handed out once for each attempt. */
  lemma ClaimsNeverRepeat(worlds: seq<World>, steps: seq<Step>, k: nat, i: nat, j: nat)
    requires IsRun(worlds, steps) && k <= |steps| && i < j < |worlds[k].claims|
    ensures worlds[k].claims[i] != worlds[k].claims[j]
  {
    RunInvariant(worlds, steps, k);
  }

  /** In every run, a unique key belongs to at most one active task. */
  lemma OneActiveTaskPerKey(worlds: seq<World>, steps: seq<Step>, k: nat, a: TaskId, b: TaskId)
    requires IsRun(worlds, steps) && k <= |steps| && a in worlds[k].rows && b in worlds[k].rows
    requires Active(worlds[k].rows[a]) && Active(worlds[k].rows[b])
    requires worlds[k].rows[a].uniqueKey.Some? && worlds[k].rows[a].uniqueKey == worlds[k].rows[b].uniqueKey
    ensures a == b
  {
    RunInvariant(worlds, steps, k);
  }

  /** Rows are never removed, and a terminal row never changes again. */
  lemma {:induction false} TerminalStatesAreFinal(worlds: seq<World>, steps: seq<Step>, i: nat, j: nat, id: TaskId)
    requires IsRun(worlds, steps) && i <= j <= |steps| && id in worlds[i].rows
    ensures id in worlds[j].rows
    ensures Terminal(worlds[i].rows[id]) ==> worlds[j].rows[id] == worlds[i].rows[id]
    decreases j
  {
    hide Do, Enabled;
    if i < j {
      TerminalStatesAreFinal(worlds, steps, i, j - 1, id);
      StepEvolves(worlds[j - 1], steps[j - 1]);
    }
  }

  /** Between two moments at which a task runs in the same attempt, it ran in that attempt throughout. */
  lemma {:induction false} SameAttemptThroughout(
    worlds: seq<World>, steps: seq<Step>, i: nat, k: nat, j: nat, id: TaskId)
    requires IsRun(worlds, steps) && i <= k <= j <= |steps|
    requires id in worlds[i].rows && id in worlds[j].rows
    requires worlds[j].rows[id].state.Running?
    requires worlds[j].rows[id].attemptCount == worlds[i].rows[id].attemptCount
    ensures id in worlds[k].rows
    ensures worlds[k].rows[id].state.Running?
    ensures worlds[k].rows[id].attemptCount == worlds[i].rows[id].attemptCount
    ensures worlds[k].rows[id].policy == worlds[j].rows[id].policy
    decreases j
  {
    hide Do, Enabled;
    AttemptsGrow(worlds, steps, i, k, id);
    AttemptsGrow(worlds, steps, k, j, id);
    if k < j {
      AttemptsGrow(worlds, steps, i, j - 1, id);
      AttemptsGrow(worlds, steps, j - 1, j, id);
      StepEvolves(worlds[j - 1], steps[j - 1]);
      SameAttemptThroughout(worlds, steps, i, k, j - 1, id);
    }
  }

  lemma {:induction false} AttemptsGrow(worlds: seq<World>, steps: seq<Step>, i: nat, j: nat, id: TaskId)
    requires IsRun(worlds, steps) && i <= j <= |steps| && id in worlds[i].rows
    ensures id in worlds[j].rows
    ensures worlds[i].rows[id].attemptCount <= worlds[j].rows[id].attemptCount
    ensures worlds[i].rows[id].policy == worlds[j].rows[id].policy
    decreases j
  {
    hide Do, Enabled;
    if i < j {
      AttemptsGrow(worlds, steps, i, j - 1, id);
      StepEvolves(worlds[j - 1], steps[j - 1]);
    }
  }

  /**
    * A failure report acts like one atomic read-and-write at the moment it writes, and then the task was in the
    * attempt it read all along; or it does nothing.
    */
  lemma FailureReportIsAtomic(worlds: seq<World>, steps: seq<Step>, i: nat, j: nat, id: TaskId)
    requires IsRun(worlds, steps) && i < j < |steps|
    requires steps[i].ReadFailureStep? && steps[i].id == id
    requires steps[j].WriteFailureStep? && steps[j].call == steps[i].call
    ensures id in worlds[i].rows && worlds[i].rows[id].state.Running?
    ensures id in worlds[j].rows
    ensures worlds[j].rows[id].state.Running? ==> worlds[j].rows[id].attemptCount >= 1
    ensures var write := steps[j];
            if worlds[j].rows[id].state.Running? && worlds[j].rows[id].attemptCount == worlds[i].rows[id].attemptCount
            then
              && worlds[j + 1].rows == FailAtOnce(worlds[j].rows, id, write.error, write.now, write.clock, write.random)
              && forall k :: i <= k <= j ==>
                   && id in worlds[k].rows
                   && worlds[k].rows[id].state.Running?
                   && worlds[k].rows[id].attemptCount == worlds[i].rows[id].attemptCount
            else worlds[j + 1].rows == worlds[j].rows
  {
    hide Decide, Invariant;
    RunInvariant(worlds, steps, j);
    ReportsPersist(worlds, steps, i, j);
    assert worlds[j].reports[steps[i].call] == Report(id, ReadRunning(worlds[i].rows, id));
    AttemptsGrow(worlds, steps, i, j, id);
    if worlds[j].rows[id].state.Running? && worlds[j].rows[id].attemptCount == worlds[i].rows[id].attemptCount {
      forall k | i <= k <= j
        ensures id in worlds[k].rows && worlds[k].rows[id].state.Running?
                && worlds[k].rows[id].attemptCount == worlds[i].rows[id].attemptCount
      {
        SameAttemptThroughout(worlds, steps, i, k, j, id);
      }
    }
  }

  lemma {:induction false} ReportsPersist(worlds: seq<World>, steps: seq<Step>, i: nat, j: nat)
    requires IsRun(worlds, steps) && i < j <= |steps| && steps[i].ReadFailureStep?
    ensures var call := steps[i].call;
            && call in worlds[j].reports
            && worlds[j].reports[call] == Report(steps[i].id, ReadRunning(worlds[i].rows, steps[i].id))
    decreases j
  {
    if i + 1 < j {
      ReportsPersist(worlds, steps, i, j - 1);
      assert worlds[j - 1 + 1] == Do(worlds[j - 1], steps[j - 1]);
    } else {
      assert worlds[i + 1] == Do(worlds[i], steps[i]);
    }
  }

  // ---------- Whose attempt a report settles ----------

  /** A later report is about the attempt its caller claimed exactly when the task was not claimed again. */
  lemma {:induction false} OwnAttemptUnlessReclaimed(
    worlds: seq<World>, steps: seq<Step>, i: nat, k: nat, id: TaskId)
    requires IsRun(worlds, steps) && i <= k <= |steps| && id in worlds[i].rows
    ensures id in worlds[k].rows
    ensures worlds[k].rows[id].attemptCount >= worlds[i].rows[id].attemptCount
    ensures worlds[k].rows[id].attemptCount == worlds[i].rows[id].attemptCount
            <==> forall m :: i <= m < k ==> !(steps[m].ClaimStep? && id in steps[m].batch)
    decreases k
  {
    hide Do, Enabled;
    if i < k {
      OwnAttemptUnlessReclaimed(worlds, steps, i, k - 1, id);
      AttemptMovesByClaim(worlds[k - 1], steps[k - 1], id);
      assert worlds[k - 1 + 1] == Do(worlds[k - 1], steps[k - 1]);
    }
  }

  // ---------- When attempts pass the maximum ----------

  /** The step recovers the task although it has no attempt left. */
  predicate RecoversSpent(w: World, step: Step, id: TaskId) {
    && step.RecoverStep? && id in w.rows && Hanging(w.rows[id], step.cutoff)
    && w.rows[id].attemptCount >= w.rows[id].policy.maxAttempts
  }

  predicate Claims(step: Step, id: TaskId) {
    step.ClaimStep? && id in step.batch
  }

  /** No attempt beyond the maximum, and one left while pending. */
  predicate WithinMaximum(t: Task) {
    t.attemptCount <= t.policy.maxAttempts && (t.state.Pending? ==> t.attemptCount < t.policy.maxAttempts)
  }

  /** Every statement keeps a row within its maximum, save a recovery of a task that has no attempt left. */
  lemma StepStaysWithin(w: World, step: Step, id: TaskId)
    requires Invariant(w) && Enabled(w, step) && id in Do(w, step).rows
    requires id in w.rows ==> WithinMaximum(w.rows[id]) && !RecoversSpent(w, step, id)
    ensures WithinMaximum(Do(w, step).rows[id])
  {
    hide ClaimsInvariant, WriteFailure, KeysDistinct, AttemptBounded;
    if step.WriteFailureStep? {
      assert ReportInvariant(w.rows, w.reports[step.call]);
      PendingWithAttemptsLeft(w.rows, w.reports[step.call], step.error, step.now, step.clock, step.random);
    } else if step.ClaimStep? && id in step.batch {
      assert id in DueTimes(w.rows, step.now, step.taskTypes);
    }
  }

  /** The first step to take a row beyond is such a recovery. */
  lemma {:induction false} FirstRecoveryOfSpent(worlds: seq<World>, steps: seq<Step>, k: nat, id: TaskId)
    returns (i: nat)
    requires IsRun(worlds, steps) && k <= |steps| && id in worlds[k].rows && !WithinMaximum(worlds[k].rows[id])
    ensures i < k && RecoversSpent(worlds[i], steps[i], id) && WithinMaximum(worlds[i].rows[id])
  {
    hide Do, Enabled, Invariant, WithinMaximum, RecoversSpent;
    var w := worlds[k - 1];
    RunInvariant(worlds, steps, k - 1);
    if id in w.rows && !WithinMaximum(w.rows[id]) {
      i := FirstRecoveryOfSpent(worlds, steps, k - 1, id);
    } else {
      if !(id in w.rows && RecoversSpent(w, steps[k - 1], id)) {
        StepStaysWithin(w, steps[k - 1], id);
      }
      i := k - 1;
    }
  }

  /**
    * In every run, a task has passed its maximum of attempts if and only if it was recovered with none left and
    * claimed again after that.
    */
  lemma PassesMaximumExactlyWhen(worlds: seq<World>, steps: seq<Step>, k: nat, id: TaskId)
    requires IsRun(worlds, steps) && k <= |steps| && id in worlds[k].rows
    ensures worlds[k].rows[id].attemptCount > worlds[k].rows[id].policy.maxAttempts <==>
            exists i, m :: 0 <= i < m < k && RecoversSpent(worlds[i], steps[i], id) && Claims(steps[m], id)
  {
    hide Do, Enabled;
    if worlds[k].rows[id].attemptCount > worlds[k].rows[id].policy.maxAttempts {
      var i := FirstRecoveryOfSpent(worlds, steps, k, id);
      AttemptsGrow(worlds, steps, i, k, id);
      OwnAttemptUnlessReclaimed(worlds, steps, i, k, id);
      var m :| i <= m < k && steps[m].ClaimStep? && id in steps[m].batch;
      assert Claims(steps[m], id) && m != i;
    }
    forall i, m | 0 <= i < m < k && RecoversSpent(worlds[i], steps[i], id) && Claims(steps[m], id)
      ensures worlds[k].rows[id].attemptCount > worlds[k].rows[id].policy.maxAttempts
    {
      AttemptsGrow(worlds, steps, i, m, id);
      ClaimedAtStep(worlds, steps, m, id);
      AttemptsGrow(worlds, steps, m + 1, k, id);
      AttemptsGrow(worlds, steps, i, k, id);
    }
  }

  lemma ClaimedAtStep(worlds: seq<World>, steps: seq<Step>, m: nat, id: TaskId)
    requires IsRun(worlds, steps) && m < |steps| && id in worlds[m].rows && Claims(steps[m], id)
    ensures id in worlds[m + 1].rows
    ensures worlds[m + 1].rows[id].attemptCount == worlds[m].rows[id].attemptCount + 1
  {
    hide Do, Enabled;
    AttemptMovesByClaim(worlds[m], steps[m], id);
  }

  lemma ClaimOfOnlyTask(w: World, id: TaskId, now: int)
    requires w.rows.Keys == {id} && w.recoveries.Keys == {id} && Due(w.rows[id], now, [])
    ensures Enabled(w, ClaimStep([id], 1, [], now))
    ensures Do(w, ClaimStep([id], 1, [], now))
         == w.(rows := map[id := ClaimedTask(w.rows[id], now)],
               claims := w.claims + [Claimed(id, w.rows[id].attemptCount + 1)])
  {
    assert DueTimes(w.rows, now, []) == map[id := w.rows[id].scheduledAt];
    assert ClaimLog(w.rows, [id]) == [Claimed(id, w.rows[id].attemptCount + 1)];
    assert Claim(w.rows, [id], now) == map[id := ClaimedTask(w.rows[id], now)];
  }

  lemma RecoveryOfOnlyTask(w: World, id: TaskId, cutoff: int, now: int)
    requires w.rows.Keys == {id} && w.recoveries.Keys == {id} && Hanging(w.rows[id], cutoff)
    ensures Enabled(w, RecoverStep(cutoff, now))
    ensures Do(w, RecoverStep(cutoff, now))
         == w.(rows := map[id := RecoveredTask(w.rows[id], now)], recoveries := map[id := w.recoveries[id] + 1])
  {
    assert Recover(w.rows, cutoff, now) == map[id := RecoveredTask(w.rows[id], now)];
    assert CountRecovered(w, cutoff) == map[id := w.recoveries[id] + 1];
  }

  lemma InsertionOfOnlyTask(id: TaskId, d: Definition)
    requires ValidPolicy(d.policy)
    ensures Enabled(EmptyWorld, InsertStep(id, d))
    ensures Do(EmptyWorld, InsertStep(id, d)) == World(map[id := NewTask(d)], map[], [], map[id := 0])
  {
  }

  lemma CompletionOfOnlyTask(w: World, id: TaskId, holder: nat, now: int)
    requires w.rows.Keys == {id} && w.recoveries.Keys == {id} && w.rows[id].state.Running?
    requires Claimed(id, holder) in w.claims
    ensures Enabled(w, CompleteStep(id, holder, now))
    ensures Do(w, CompleteStep(id, holder, now)).rows
         == map[id := w.rows[id].(state := Completed, completedAt := Some(now))]
  {
  }

  /** One step more makes a longer run. */
  lemma Extend(worlds: seq<World>, steps: seq<Step>, step: Step)
    requires IsRun(worlds, steps)
    requires worlds[|steps|].recoveries.Keys == worlds[|steps|].rows.Keys && Enabled(worlds[|steps|], step)
    ensures IsRun(worlds + [Do(worlds[|steps|], step)], steps + [step])
  {
    hide Do, Enabled;
  }

  /**
    * Reports name a task and not an attempt: here a task is recovered from its first worker and claimed by a
    * second, and the first worker's late success settles the second attempt.
    */
  lemma StaleSuccessSettlesNewerAttempt(id: TaskId, d: Definition) returns (worlds: seq<World>, steps: seq<Step>)
    requires ValidPolicy(d.policy) && d.scheduledAt <= 0
    ensures IsRun(worlds, steps) && |steps| == 5
    ensures steps[4].CompleteStep? && steps[4].id == id && steps[4].holder == 1
    ensures id in worlds[4].rows && worlds[4].rows[id].state.Running? && worlds[4].rows[id].attemptCount == 2
    ensures id in worlds[5].rows && worlds[5].rows[id].state.Completed?
  {
    hide Do, Enabled, IsRun;
    StartRun();
    InsertionOfOnlyTask(id, d);
    Extend([EmptyWorld], [], InsertStep(id, d));
    worlds, steps := [EmptyWorld] + [Do(EmptyWorld, InsertStep(id, d))], [] + [InsertStep(id, d)];
    var claim, recover, again := ClaimStep([id], 1, [], 0), RecoverStep(0, 1), ClaimStep([id], 1, [], 1);
    ClaimOfOnlyTask(worlds[1], id, 0);
    RecoveryOfOnlyTask(Do(worlds[1], claim), id, 0, 1);
    worlds, steps := ExtendTwice(worlds, steps, claim, recover);
    ClaimOfOnlyTask(worlds[3], id, 1);
    var w4 := Do(worlds[3], again);
    assert w4.claims == [Claimed(id, 1), Claimed(id, 2)];
    assert w4.claims[0] == Claimed(id, 1);
    CompletionOfOnlyTask(w4, id, 1, 2);
    worlds, steps := ExtendTwice(worlds, steps, again, CompleteStep(id, 1, 2));
  }

  lemma StartRun()
    ensures IsRun([EmptyWorld], [])
  {
  }

  // ---------- The bound on attempts is reached ----------

  /** One task is all there is: pending, with these attempts, recoveries and reports made. */
  ghost predicate PendingAlone(w: World, id: TaskId, d: Definition, attempts: nat, recoveries: nat, reports: nat) {
    && w.rows.Keys == {id} && w.recoveries == map[id := recoveries]
    && w.rows[id].state.Pending? && w.rows[id].attemptCount == attempts && w.rows[id].policy == d.policy
    && forall call :: call in w.reports ==> call < reports
  }

  /** A claim of the task and a report of a passing failure leave it pending, one attempt on. */
  lemma FailedAttempt(w: World, id: TaskId, d: Definition, attempts: nat, recoveries: nat, reports: nat)
    returns (claim: Step, read: Step, write: Step)
    requires PendingAlone(w, id, d, attempts, recoveries, reports) && attempts + 1 < d.policy.maxAttempts
    ensures w.recoveries.Keys == w.rows.Keys && Enabled(w, claim)
    ensures Do(w, claim).recoveries.Keys == Do(w, claim).rows.Keys && Enabled(Do(w, claim), read)
    ensures var read' := Do(Do(w, claim), read);
            && read'.recoveries.Keys == read'.rows.Keys && Enabled(read', write)
            && PendingAlone(Do(read', write), id, d, attempts + 1, recoveries, reports + 1)
  {
    hide Do, Enabled;
    var now := w.rows[id].scheduledAt;
    claim := ClaimStep([id], 1, [], now);
    ClaimOfOnlyTask(w, id, now);
    var w1 := Do(w, claim);
    assert w1.claims[|w1.claims| - 1] == Claimed(id, attempts + 1);
    read := ReadFailureStep(reports, id, attempts + 1);
    ReadOfOnlyTask(w1, id, reports, attempts + 1);
    write := WriteFailureStep(reports, OtherError(""), now, now, 0.5);
    WriteOfOnlyTask(Do(w1, read), id, reports, now);
  }

  lemma ReadOfOnlyTask(w: World, id: TaskId, call: nat, holder: nat)
    requires w.rows.Keys == {id} && w.recoveries.Keys == {id} && w.rows[id].state.Running?
    requires call !in w.reports && Claimed(id, holder) in w.claims
    ensures Enabled(w, ReadFailureStep(call, id, holder))
    ensures Do(w, ReadFailureStep(call, id, holder))
         == w.(reports := w.reports[call := Report(id, Some(w.rows[id]))])
  {
  }

  /** A passing failure with an attempt left. */
  lemma WriteOfOnlyTask(w: World, id: TaskId, call: nat, now: int)
    requires w.rows.Keys == {id} && w.recoveries.Keys == {id} && w.rows[id].state.Running?
    requires call in w.reports && w.reports[call] == Report(id, Some(w.rows[id]))
    requires 1 <= w.rows[id].attemptCount < w.rows[id].policy.maxAttempts
    ensures var write := WriteFailureStep(call, OtherError(""), now, now, 0.5);
            && Enabled(w, write)
            && var w' := Do(w, write);
               && w'.rows.Keys == {id} && w'.recoveries == w.recoveries && w'.reports == w.reports
               && w'.rows[id].state.Pending? && w'.rows[id].policy == w.rows[id].policy
               && w'.rows[id].attemptCount == w.rows[id].attemptCount
  {
    hide Decide;
    RetriesWhileAttemptsRemain(OtherError(""), w.rows[id].attemptCount, w.rows[id].policy, 0.5);
  }

  /** A claim of the task and its recovery leave it pending, one attempt and one recovery on. */
  lemma RecoveredAttempt(w: World, id: TaskId, d: Definition, attempts: nat, recoveries: nat, reports: nat)
    returns (claim: Step, recover: Step)
    requires PendingAlone(w, id, d, attempts, recoveries, reports)
    ensures w.recoveries.Keys == w.rows.Keys && Enabled(w, claim)
    ensures Do(w, claim).recoveries.Keys == Do(w, claim).rows.Keys && Enabled(Do(w, claim), recover)
    ensures PendingAlone(Do(Do(w, claim), recover), id, d, attempts + 1, recoveries + 1, reports)
  {
    hide Decide, Do, Enabled;
    var now := w.rows[id].scheduledAt;
    claim, recover := ClaimStep([id], 1, [], now), RecoverStep(now, now);
    ClaimOfOnlyTask(w, id, now);
    RecoveryOfOnlyTask(Do(w, claim), id, now, now);
  }

  lemma {:induction false} RunTo(id: TaskId, d: Definition, failures: nat, recoveries: nat)
    returns (worlds: seq<World>, steps: seq<Step>)
    requires ValidPolicy(d.policy) && failures < d.policy.maxAttempts
    ensures IsRun(worlds, steps) && |worlds| == |steps| + 1
    ensures PendingAlone(worlds[|steps|], id, d, failures + recoveries, recoveries, failures)
    decreases failures + recoveries
  {
    hide Do, Enabled, IsRun, PendingAlone;
    if recoveries > 0 {
      worlds, steps := RunTo(id, d, failures, recoveries - 1);
      var w := worlds[|steps|];
      var claim, recover := RecoveredAttempt(w, id, d, failures + recoveries - 1, recoveries - 1, failures);
      worlds, steps := ExtendTwice(worlds, steps, claim, recover);
    } else if failures > 0 {
      worlds, steps := RunTo(id, d, failures - 1, 0);
      var w := worlds[|steps|];
      var claim, read, write := FailedAttempt(w, id, d, failures - 1, 0, failures - 1);
      worlds, steps := ExtendTwice(worlds, steps, claim, read);
      Extend(worlds, steps, write);
      worlds, steps := worlds + [Do(worlds[|steps|], write)], steps + [write];
    } else {
      StartRun();
      InsertionOfOnlyTask(id, d);
      Extend([EmptyWorld], [], InsertStep(id, d));
      worlds, steps := [EmptyWorld] + [Do(EmptyWorld, InsertStep(id, d))], [] + [InsertStep(id, d)];
      InsertedAlone(id, d);
    }
  }

  lemma InsertedAlone(id: TaskId, d: Definition)
    ensures PendingAlone(World(map[id := NewTask(d)], map[], [], map[id := 0]), id, d, 0, 0, 0)
  {
  }

  lemma ExtendTwice(worlds: seq<World>, steps: seq<Step>, first: Step, second: Step)
    returns (longer: seq<World>, more: seq<Step>)
    requires IsRun(worlds, steps)
    requires worlds[|steps|].recoveries.Keys == worlds[|steps|].rows.Keys && Enabled(worlds[|steps|], first)
    requires var next := Do(worlds[|steps|], first); next.recoveries.Keys == next.rows.Keys && Enabled(next, second)
    ensures IsRun(longer, more) && |longer| == |worlds| + 2 && |more| == |steps| + 2
    ensures longer[|more| - 1] == Do(worlds[|steps|], first)
    ensures longer[|more|] == Do(Do(worlds[|steps|], first), second)
    ensures more[|more| - 1] == second
  {
    hide Do, Enabled, IsRun;
    assert |worlds| == |steps| + 1 by {
      RunLength(worlds, steps);
    }
    Extend(worlds, steps, first);
    longer, more := worlds + [Do(worlds[|steps|], first)], steps + [first];
    Extend(longer, more, second);
    longer, more := longer + [Do(longer[|more|], second)], more + [second];
  }

  lemma RunLength(worlds: seq<World>, steps: seq<Step>)
    requires IsRun(worlds, steps)
    ensures |worlds| == |steps| + 1
  {
  }

  /** For every policy and every number of recoveries there is a run in which the attempts reach their bound. */
  lemma AttemptBoundIsReached(id: TaskId, d: Definition, recoveries: nat)
    returns (worlds: seq<World>, steps: seq<Step>)
    requires ValidPolicy(d.policy)
    ensures IsRun(worlds, steps)
    ensures var last := worlds[|steps|];
            && id in last.rows && id in last.recoveries && last.recoveries[id] == recoveries
            && last.rows[id].policy == d.policy
            && last.rows[id].attemptCount == d.policy.maxAttempts + recoveries
  {
    hide Do, Enabled, IsRun;
    worlds, steps := RunTo(id, d, d.policy.maxAttempts - 1, recoveries);
    var w := worlds[|steps|];
    var claim := ClaimStep([id], 1, [], w.rows[id].scheduledAt);
    ClaimOfOnlyTask(w, id, w.rows[id].scheduledAt);
    Extend(worlds, steps, claim);
    worlds, steps := worlds + [Do(w, claim)], steps + [claim];
  }
}
