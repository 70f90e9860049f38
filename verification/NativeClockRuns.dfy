/** The same runs with native clocks, which saturate silently where the others refuse to issue. */
module NativeClockRuns {
  import opened HybridLogicalClock
  import opened NativeClock
  import opened ClockRuns
  import opened Wrappers

  /** The native clock of a node before the event at position `i`. */
  ghost function NativeBefore(start: Start, es: seq<Event>, i: nat, node: nat): Clock
    requires i <= |es|
    decreases i, 0
  {
    if i == 0 then Clock(start(node), 0)
    else if es[i - 1].node == node then NativeIssue(start, es, i - 1)
    else NativeBefore(start, es, i - 1, node)
  }

  /** What event `i` makes of its node's clock, and issues. */
  ghost function NativeIssue(start: Start, es: seq<Event>, i: nat): Clock
    requires i < |es|
    decreases i, 1
  {
    var before := NativeBefore(start, es, i, es[i].node);
    match es[i]
    case Local(_, physical) => NativeTick(before, physical)
    case Receive(_, physical, from) =>
      if from < i then NativeMerge(before, NativeIssue(start, es, from), physical) else before
  }

  /** Readings a machine integer can hold, and receipts only of stamps issued before. */
  ghost predicate IsNativeRun(start: Start, es: seq<Event>) {
    && (forall node :: start(node) <= U64_MAX)
    && (forall i :: 0 <= i < |es| ==> es[i].physical <= U64_MAX)
    && (forall i :: 0 <= i < |es| && es[i].Receive? ==> es[i].from < i)
  }

  /** The event goes on from no clock at its last value, neither its node's nor the one received. */
  ghost predicate GoesOn(start: Start, es: seq<Event>, i: nat)
    requires i < |es|
  {
    && NativeBefore(start, es, i, es[i].node) != LastClock
    && (es[i].Receive? && es[i].from < i ==> NativeIssue(start, es, es[i].from) != LastClock)
  }

  ghost predicate Unsaturated(start: Start, es: seq<Event>) {
    forall i :: 0 <= i < |es| ==> GoesOn(start, es, i)
  }

  ghost predicate ClockCondition(start: Start, es: seq<Event>) {
    forall i, j :: 0 <= i < |es| && 0 <= j < |es| && HappenedBefore(es, i, j) ==>
      Earlier(NativeIssue(start, es, i), NativeIssue(start, es, j))
  }

  // ---------- Never saturated, always forward ----------

  lemma {:induction false} NativeBeforeFits(start: Start, es: seq<Event>, i: nat, node: nat)
    requires i <= |es| && IsNativeRun(start, es)
    ensures Fits(NativeBefore(start, es, i, node))
    decreases i, 0
  {
    if i > 0 {
      if es[i - 1].node == node {
        NativeStep(start, es, i - 1);
      } else {
        NativeBeforeFits(start, es, i - 1, node);
      }
    }
  }

  /** One event: in range, not behind the wall clock, and past what it goes on from unless that is saturated. */
  lemma {:induction false} NativeStep(start: Start, es: seq<Event>, i: nat)
    requires i < |es| && IsNativeRun(start, es)
    ensures Fits(NativeIssue(start, es, i))
    ensures es[i].physical <= NativeIssue(start, es, i).time
    ensures GoesOn(start, es, i) <==>
            && Earlier(NativeBefore(start, es, i, es[i].node), NativeIssue(start, es, i))
            && (es[i].Receive? ==> Earlier(NativeIssue(start, es, es[i].from), NativeIssue(start, es, i)))
    decreases i, 1
  {
    hide NativeTick, NativeMerge;
    var before := NativeBefore(start, es, i, es[i].node);
    NativeBeforeFits(start, es, i, es[i].node);
    match es[i] {
      case Local(_, physical) => TickForwardUnlessSaturated(before, physical);
      case Receive(_, physical, from) =>
        NativeStep(start, es, from);
        MergeForwardUnlessSaturated(before, NativeIssue(start, es, from), physical);
    }
  }

  lemma {:induction false} NativeNeverFallsBack(start: Start, es: seq<Event>, i: nat, j: nat, node: nat)
    requires i <= j <= |es| && IsNativeRun(start, es) && Unsaturated(start, es)
    ensures NotLater(NativeBefore(start, es, i, node), NativeBefore(start, es, j, node))
    decreases j
  {
    hide GoesOn;
    if i < j {
      NativeNeverFallsBack(start, es, i, j - 1, node);
      NativeStep(start, es, j - 1);
    }
  }

  lemma NativePrecedingIsEarlier(start: Start, es: seq<Event>, i: nat, j: nat)
    requires i < |es| && j < |es| && IsNativeRun(start, es) && Unsaturated(start, es) && Precedes(es, i, j)
    ensures Earlier(NativeIssue(start, es, i), NativeIssue(start, es, j))
  {
    hide GoesOn;
    NativeStep(start, es, j);
    if es[i].node == es[j].node {
      NativeNeverFallsBack(start, es, i + 1, j, es[i].node);
    }
  }

  lemma {:induction false} NativeHappenedBeforeIsEarlier(start: Start, es: seq<Event>, i: nat, j: nat)
    requires i < |es| && j < |es| && HappenedBefore(es, i, j)
    requires IsNativeRun(start, es) && Unsaturated(start, es)
    ensures Earlier(NativeIssue(start, es, i), NativeIssue(start, es, j))
    decreases j
  {
    hide Unsaturated;
    if Precedes(es, i, j) {
      NativePrecedingIsEarlier(start, es, i, j);
    } else {
      var k :| 0 <= k < j && HappenedBefore(es, i, k) && Precedes(es, k, j);
      NativeHappenedBeforeIsEarlier(start, es, i, k);
      NativePrecedingIsEarlier(start, es, k, j);
    }
  }

  // ---------- Saturated, not forward ----------

  /** A clock is its start or what the last event at its node issued. */
  lemma {:induction false} ClockComesFrom(start: Start, es: seq<Event>, i: nat, node: nat) returns (k: Option<nat>)
    requires i <= |es|
    ensures match k
            case None => NativeBefore(start, es, i, node) == Clock(start(node), 0)
            case Some(k) => k < i && es[k].node == node && NativeIssue(start, es, k) == NativeBefore(start, es, i, node)
  {
    if i == 0 {
      k := None;
    } else if es[i - 1].node == node {
      k := Some(i - 1);
    } else {
      k := ClockComesFrom(start, es, i - 1, node);
    }
  }

  lemma SaturatedBreaksCondition(start: Start, es: seq<Event>, j: nat)
    requires j < |es| && IsNativeRun(start, es) && !GoesOn(start, es, j)
    ensures exists i :: 0 <= i < |es| && HappenedBefore(es, i, j) &&
                        !Earlier(NativeIssue(start, es, i), NativeIssue(start, es, j))
  {
    hide NativeTick, NativeMerge;
    var before := NativeBefore(start, es, j, es[j].node);
    NativeBeforeFits(start, es, j, es[j].node);
    if es[j].Receive? {
      NativeStep(start, es, es[j].from);
      SaturatedFallsBack(before, NativeIssue(start, es, es[j].from), es[j].physical);
    } else {
      SaturatedFallsBack(before, before, es[j].physical);
    }
    if before == LastClock {
      var k := ClockComesFrom(start, es, j, es[j].node);
      assert Precedes(es, k.value, j);
      assert HappenedBefore(es, k.value, j);
    } else {
      assert Precedes(es, es[j].from, j);
      assert HappenedBefore(es, es[j].from, j);
    }
  }

  /**
    * The clock condition of native clocks, exact: in a run, everything that happened before has the smaller stamp if
    * and only if no event goes on from a clock at its last value.
    */
  lemma ClockConditionExactlyWhenUnsaturated(start: Start, es: seq<Event>)
    requires IsNativeRun(start, es)
    ensures ClockCondition(start, es) <==> Unsaturated(start, es)
  {
    hide GoesOn;
    if Unsaturated(start, es) {
      forall i, j | 0 <= i < |es| && 0 <= j < |es| && HappenedBefore(es, i, j)
        ensures Earlier(NativeIssue(start, es, i), NativeIssue(start, es, j))
      {
        NativeHappenedBeforeIsEarlier(start, es, i, j);
      }
    }
    if ClockCondition(start, es) {
      forall i | 0 <= i < |es| ensures GoesOn(start, es, i) {
        if !GoesOn(start, es, i) {
          SaturatedBreaksCondition(start, es, i);
        }
      }
    }
  }

  // ---------- The drift bound ----------

  ghost function NativeTakenIn(start: Start, es: seq<Event>, i: nat): Clock
    requires i < |es|
  {
    match es[i]
    case Local(node, _) => NativeBefore(start, es, i, node)
    case Receive(node, _, from) =>
      if from < i then NativeIssue(start, es, from) else NativeBefore(start, es, i, node)
  }

  /** The event counts up a 32-bit counter that stands at its last value. */
  ghost predicate NativeOverflows(start: Start, es: seq<Event>, i: nat)
    requires i < |es|
  {
    Counted(NativeBefore(start, es, i, es[i].node), NativeTakenIn(start, es, i), es[i].physical) == Some(U32_MAX)
  }

  ghost predicate NoNativeOverflowBehind(start: Start, es: seq<Event>, i: nat)
    requires i < |es|
  {
    && !NativeOverflows(start, es, i)
    && forall k :: 0 <= k < i && HappenedBefore(es, k, i) ==> !NativeOverflows(start, es, k)
  }

  lemma NativeTimeBelowOverflow(c: Clock, remote: Clock, physical: nat)
    requires Fits(c) && Fits(remote)
    ensures Counted(c, c, physical) != Some(U32_MAX) ==> NativeTick(c, physical).time == Max(c.time, physical)
    ensures Counted(c, remote, physical) != Some(U32_MAX) ==>
              NativeMerge(c, remote, physical).time == Max(Max(c.time, remote.time), physical)
  {
  }

  lemma NoNativeOverflowBehindThat(start: Start, es: seq<Event>, k: nat, i: nat)
    requires k < |es| && i < |es| && Precedes(es, k, i) && NoNativeOverflowBehind(start, es, i)
    ensures NoNativeOverflowBehind(start, es, k)
  {
    forall m | 0 <= m < k && HappenedBefore(es, m, k) ensures !NativeOverflows(start, es, m) {
      HappenedBeforeThen(es, m, k, i);
    }
  }

  lemma {:induction false} NativeTimeBefore(start: Start, es: seq<Event>, n: nat, i: nat)
    requires n <= i < |es| && IsNativeRun(start, es) && NoNativeOverflowBehind(start, es, i)
    ensures NativeBefore(start, es, n, es[i].node).time == LatestBefore(start, es, n, es[i].node)
    decreases n, 0
  {
    hide NoNativeOverflowBehind;
    if n > 0 {
      if es[n - 1].node == es[i].node {
        NoNativeOverflowBehindThat(start, es, n - 1, i);
        NativeTimeAt(start, es, n - 1);
      } else {
        NativeTimeBefore(start, es, n - 1, i);
      }
    }
  }

  lemma {:induction false} NativeTimeAt(start: Start, es: seq<Event>, i: nat)
    requires i < |es| && IsNativeRun(start, es) && NoNativeOverflowBehind(start, es, i)
    ensures NativeIssue(start, es, i).time == LatestAt(start, es, i)
    decreases i, 1
  {
    hide NativeTick, NativeMerge;
    var before := NativeBefore(start, es, i, es[i].node);
    NativeTimeBefore(start, es, i, i);
    NativeBeforeFits(start, es, i, es[i].node);
    match es[i] {
      case Local(_, physical) => NativeTimeBelowOverflow(before, before, physical);
      case Receive(_, physical, from) =>
        NoNativeOverflowBehindThat(start, es, from, i);
        NativeTimeAt(start, es, from);
        NativeStep(start, es, from);
        NativeTimeBelowOverflow(before, NativeIssue(start, es, from), physical);
    }
  }

  /** Absent counter overflow in its causal past, a native stamp's time is the latest reading of that past. */
  lemma NativeTimeIsLatestReading(start: Start, es: seq<Event>, i: nat, reading: nat)
    requires i < |es| && IsNativeRun(start, es) && NoNativeOverflowBehind(start, es, i)
    ensures InCausalPast(start, es, i, NativeIssue(start, es, i).time)
    ensures InCausalPast(start, es, i, reading) ==> reading <= NativeIssue(start, es, i).time
  {
    hide NoNativeOverflowBehind;
    NativeTimeAt(start, es, i);
    LatestIsInPast(start, es, i);
    if InCausalPast(start, es, i, reading) {
      LatestBoundsPast(start, es, i, reading);
    }
  }
}
