/**
  * Any number of nodes, each with a clock, exchanging stamps. A stamp may be delivered late, again, or never, and
  * to any node.
  */
module ClockRuns {
  import opened HybridLogicalClock
  import opened Wrappers

  /** An event at a node: a local one, or the receipt of the stamp that event `from` issued. */
  datatype Event =
    | Local(node: nat, physical: nat)
    | Receive(node: nat, physical: nat, from: nat)

  /** The wall-clock reading each node's clock was made at. */
  type Start = nat -> nat

  /** The clock of a node before the event at position `i`. */
  ghost function ClockBefore(start: Start, es: seq<Event>, i: nat, node: nat): Clock
    requires i <= |es|
    decreases i, 0
  {
    if i == 0 then Clock(start(node), 0)
    else if es[i - 1].node == node then StepAt(start, es, i - 1).clock
    else ClockBefore(start, es, i - 1, node)
  }

  /** What event `i` makes of its node's clock. A stamp not issued cannot be received. */
  ghost function StepAt(start: Start, es: seq<Event>, i: nat): Stepped
    requires i < |es|
    decreases i, 1
  {
    var before := ClockBefore(start, es, i, es[i].node);
    match es[i]
    case Local(_, physical) => Tick(before, physical)
    case Receive(_, physical, from) =>
      if from < i && StepAt(start, es, from).issued
      then Merge(before, StepAt(start, es, from).clock, physical)
      else Stepped(before, false)
  }

  ghost predicate Issued(start: Start, es: seq<Event>, i: nat)
    requires i < |es|
  {
    StepAt(start, es, i).issued
  }

  ghost function Issue(start: Start, es: seq<Event>, i: nat): Clock
    requires i < |es|
  {
    StepAt(start, es, i).clock
  }

  /** Readings a number can hold exactly, and receipts only of stamps that were issued before. */
  ghost predicate IsRun(start: Start, es: seq<Event>) {
    && (forall node :: start(node) <= MAX_SAFE_INTEGER)
    && (forall i :: 0 <= i < |es| ==> es[i].physical <= MAX_SAFE_INTEGER)
    && (forall i :: 0 <= i < |es| && es[i].Receive? ==> es[i].from < i && Issued(start, es, es[i].from))
  }

  /** Any events at any nodes are a run as long as they receive nothing and read what a number holds exactly. */
  lemma LocalEventsAreARun(start: Start, es: seq<Event>)
    requires forall node :: start(node) <= 9007199254740991
    requires forall i :: 0 <= i < |es| ==> es[i].Local? && es[i].physical <= 9007199254740991
    ensures IsRun(start, es)
  {
  }

  /** One node's first stamp can be received by another. */
  lemma FirstStampIsReceived(start: Start, a: nat, b: nat, now: nat, later: nat)
    requires forall node :: start(node) < 9007199254740991
    requires now <= 9007199254740991 && later <= 9007199254740991
    ensures IsRun(start, [Local(a, now), Receive(b, later, 0)])
  {
    var es := [Local(a, now), Receive(b, later, 0)];
    assert ClockBefore(start, es, 0, a) == Clock(start(a), 0);
    assert Issued(start, es, 0);
  }

  /** One event directly precedes another: at the same node, or by its stamp being received. */
  ghost predicate Precedes(es: seq<Event>, i: nat, j: nat)
    requires i < |es| && j < |es|
  {
    i < j && (es[i].node == es[j].node || (es[j].Receive? && es[j].from == i))
  }

  ghost predicate HappenedBefore(es: seq<Event>, i: nat, j: nat)
    requires i < |es| && j < |es|
    decreases j
  {
    Precedes(es, i, j) || exists k :: 0 <= k < j && HappenedBefore(es, i, k) && Precedes(es, k, j)
  }

  // ---------- The clock condition ----------

  lemma {:induction false} ClockInRange(start: Start, es: seq<Event>, i: nat, node: nat)
    requires i <= |es| && IsRun(start, es)
    ensures InRange(ClockBefore(start, es, i, node))
    decreases i, 0
  {
    if i > 0 {
      if es[i - 1].node == node {
        StepInRange(start, es, i - 1);
      } else {
        ClockInRange(start, es, i - 1, node);
      }
    }
  }

  /** A stamp lies past its node's clock and past what was received, and not behind the wall clock. */
  lemma {:induction false} StepInRange(start: Start, es: seq<Event>, i: nat)
    requires i < |es| && IsRun(start, es)
    ensures InRange(Issue(start, es, i))
    ensures es[i].physical <= Issue(start, es, i).time
    ensures var before := ClockBefore(start, es, i, es[i].node);
            && NotLater(before, Issue(start, es, i))
            && (Issued(start, es, i) ==> Earlier(before, Issue(start, es, i)))
    ensures es[i].Receive? ==>
              && NotLater(Issue(start, es, es[i].from), Issue(start, es, i))
              && (Issued(start, es, i) ==> Earlier(Issue(start, es, es[i].from), Issue(start, es, i)))
    decreases i, 1
  {
    var before := ClockBefore(start, es, i, es[i].node);
    ClockInRange(start, es, i, es[i].node);
    match es[i] {
      case Local(_, physical) => TickMovesForward(before, physical);
      case Receive(_, physical, from) =>
        StepInRange(start, es, from);
        MergeMovesForward(before, Issue(start, es, from), physical);
    }
  }

  lemma {:induction false} ClockNeverFallsBack(start: Start, es: seq<Event>, i: nat, j: nat, node: nat)
    requires i <= j <= |es| && IsRun(start, es)
    ensures NotLater(ClockBefore(start, es, i, node), ClockBefore(start, es, j, node))
    decreases j
  {
    if i < j {
      ClockNeverFallsBack(start, es, i, j - 1, node);
      StepInRange(start, es, j - 1);
    }
  }

  lemma PrecedingIsEarlier(start: Start, es: seq<Event>, i: nat, j: nat)
    requires i < |es| && j < |es| && IsRun(start, es) && Precedes(es, i, j)
    ensures NotLater(Issue(start, es, i), Issue(start, es, j))
    ensures Issued(start, es, j) ==> Earlier(Issue(start, es, i), Issue(start, es, j))
  {
    StepInRange(start, es, j);
    if es[i].node == es[j].node {
      ClockNeverFallsBack(start, es, i + 1, j, es[i].node);
    }
  }

  /** The clock condition: in every run, what happened before has the smaller stamp. */
  lemma {:induction false} HappenedBeforeIsEarlier(start: Start, es: seq<Event>, i: nat, j: nat)
    requires i < |es| && j < |es| && IsRun(start, es) && HappenedBefore(es, i, j)
    ensures NotLater(Issue(start, es, i), Issue(start, es, j))
    ensures Issued(start, es, j) ==> Earlier(Issue(start, es, i), Issue(start, es, j))
    decreases j
  {
    if Precedes(es, i, j) {
      PrecedingIsEarlier(start, es, i, j);
    } else {
      var k :| 0 <= k < j && HappenedBefore(es, i, k) && Precedes(es, k, j);
      HappenedBeforeIsEarlier(start, es, i, k);
      PrecedingIsEarlier(start, es, k, j);
    }
  }

  // ---------- The drift bound ----------

  /** The latest wall-clock reading known to a node before event `i`, its own start included. */
  ghost function LatestBefore(start: Start, es: seq<Event>, i: nat, node: nat): nat
    requires i <= |es|
    decreases i, 0
  {
    if i == 0 then start(node)
    else if es[i - 1].node == node then LatestAt(start, es, i - 1)
    else LatestBefore(start, es, i - 1, node)
  }

  ghost function LatestAt(start: Start, es: seq<Event>, i: nat): nat
    requires i < |es|
    decreases i, 1
  {
    var own := Max(LatestBefore(start, es, i, es[i].node), es[i].physical);
    match es[i]
    case Local(_, _) => own
    case Receive(_, _, from) => if from < i then Max(own, LatestAt(start, es, from)) else own
  }

  /** A reading in the causal past of event `i`: its own, an earlier event's, or a start they depend on. */
  ghost predicate InCausalPast(start: Start, es: seq<Event>, i: nat, reading: nat)
    requires i < |es|
  {
    || reading == es[i].physical
    || reading == start(es[i].node)
    || exists k :: 0 <= k < i && HappenedBefore(es, k, i)
                   && (reading == es[k].physical || reading == start(es[k].node))
  }

  lemma {:induction false} HappenedBeforeThen(es: seq<Event>, i: nat, k: nat, j: nat)
    requires i < |es| && k < |es| && j < |es| && k < j
    requires HappenedBefore(es, i, k) && Precedes(es, k, j)
    ensures HappenedBefore(es, i, j)
  {
  }

  lemma CausalPastGrows(start: Start, es: seq<Event>, k: nat, i: nat, reading: nat)
    requires k < i < |es| && Precedes(es, k, i) && InCausalPast(start, es, k, reading)
    ensures InCausalPast(start, es, i, reading)
  {
    if reading != es[k].physical && reading != start(es[k].node) {
      var m :| 0 <= m < k && HappenedBefore(es, m, k)
               && (reading == es[m].physical || reading == start(es[m].node));
      HappenedBeforeThen(es, m, k, i);
    }
  }

  /** The latest reading is one of the causal past's. */
  lemma {:induction false} LatestIsInPast(start: Start, es: seq<Event>, i: nat)
    requires i < |es|
    ensures InCausalPast(start, es, i, LatestAt(start, es, i))
    decreases i, 1
  {
    LatestBeforeIsInPast(start, es, i, i);
    if es[i].Receive? && es[i].from < i {
      LatestIsInPast(start, es, es[i].from);
      CausalPastGrows(start, es, es[i].from, i, LatestAt(start, es, es[i].from));
    }
  }

  lemma {:induction false} LatestBeforeIsInPast(start: Start, es: seq<Event>, n: nat, i: nat)
    requires n <= i < |es|
    ensures InCausalPast(start, es, i, LatestBefore(start, es, n, es[i].node))
    decreases n, 0
  {
    if n > 0 {
      if es[n - 1].node == es[i].node {
        LatestIsInPast(start, es, n - 1);
        CausalPastGrows(start, es, n - 1, i, LatestAt(start, es, n - 1));
      } else {
        LatestBeforeIsInPast(start, es, n - 1, i);
      }
    }
  }

  lemma {:induction false} LatestNeverFallsBack(start: Start, es: seq<Event>, i: nat, j: nat, node: nat)
    requires i <= j <= |es|
    ensures LatestBefore(start, es, i, node) <= LatestBefore(start, es, j, node)
    decreases j
  {
    if i < j {
      LatestNeverFallsBack(start, es, i, j - 1, node);
    }
  }

  lemma LatestAfterPreceding(start: Start, es: seq<Event>, k: nat, i: nat)
    requires k < |es| && i < |es| && Precedes(es, k, i)
    ensures LatestAt(start, es, k) <= LatestAt(start, es, i)
  {
    if es[k].node == es[i].node {
      LatestNeverFallsBack(start, es, k + 1, i, es[k].node);
    }
  }

  lemma {:induction false} LatestAfterEarlier(start: Start, es: seq<Event>, k: nat, i: nat)
    requires k < |es| && i < |es| && HappenedBefore(es, k, i)
    ensures LatestAt(start, es, k) <= LatestAt(start, es, i)
    decreases i
  {
    if Precedes(es, k, i) {
      LatestAfterPreceding(start, es, k, i);
    } else {
      var m :| 0 <= m < i && HappenedBefore(es, k, m) && Precedes(es, m, i);
      LatestAfterEarlier(start, es, k, m);
      LatestAfterPreceding(start, es, m, i);
    }
  }

  /** No reading of the causal past is later. */
  lemma LatestBoundsPast(start: Start, es: seq<Event>, i: nat, reading: nat)
    requires i < |es| && InCausalPast(start, es, i, reading)
    ensures reading <= LatestAt(start, es, i)
  {
    LatestNeverFallsBack(start, es, 0, i, es[i].node);
    if reading != es[i].physical && reading != start(es[i].node) {
      var k :| 0 <= k < i && HappenedBefore(es, k, i)
               && (reading == es[k].physical || reading == start(es[k].node));
      LatestAfterEarlier(start, es, k, i);
      LatestNeverFallsBack(start, es, 0, k, es[k].node);
    }
  }

  /** Until an event has more predecessors than a counter can count, no counter carries. */
  lemma {:induction false} NoCarryBefore(start: Start, es: seq<Event>, i: nat, node: nat)
    requires i <= |es| && i <= MAX_SAFE_INTEGER && IsRun(start, es)
    ensures var c := ClockBefore(start, es, i, node);
            c.counter <= i && c.time == LatestBefore(start, es, i, node)
    decreases i, 0
  {
    if i > 0 {
      if es[i - 1].node == node {
        NoCarryAt(start, es, i - 1);
      } else {
        NoCarryBefore(start, es, i - 1, node);
      }
    }
  }

  lemma {:induction false} NoCarryAt(start: Start, es: seq<Event>, i: nat)
    requires i < |es| && i < MAX_SAFE_INTEGER && IsRun(start, es)
    ensures Issued(start, es, i)
    ensures Issue(start, es, i).counter <= i + 1
    ensures Issue(start, es, i).time == LatestAt(start, es, i)
    decreases i, 1
  {
    var before := ClockBefore(start, es, i, es[i].node);
    NoCarryBefore(start, es, i, es[i].node);
    match es[i] {
      case Local(_, physical) =>
        StepsWithoutOverflow(before, before, physical);
      case Receive(_, physical, from) =>
        NoCarryAt(start, es, from);
        StepsWithoutOverflow(before, Issue(start, es, from), physical);
    }
  }

  /** The counter that a step is about to count up, if it does. */
  function Counted(c: Clock, remote: Clock, physical: nat): Option<nat> {
    if physical > c.time && physical > remote.time then None
    else if c.time == remote.time then Some(Max(c.counter, remote.counter))
    else if remote.time > c.time then Some(remote.counter)
    else Some(c.counter)
  }

  /** The stamp an event takes in, or its own clock again for a local event. */
  ghost function TakenIn(start: Start, es: seq<Event>, i: nat): Clock
    requires i < |es|
  {
    match es[i]
    case Local(node, _) => ClockBefore(start, es, i, node)
    case Receive(node, _, from) => if from < i then Issue(start, es, from) else ClockBefore(start, es, i, node)
  }

  /** The event counts up a counter that stands at its last value. */
  ghost predicate Overflows(start: Start, es: seq<Event>, i: nat)
    requires i < |es|
  {
    Counted(ClockBefore(start, es, i, es[i].node), TakenIn(start, es, i), es[i].physical) == Some(MAX_SAFE_INTEGER)
  }

  /** No counter overflows at the event or at any that happened before it. */
  ghost predicate NoOverflowBehind(start: Start, es: seq<Event>, i: nat)
    requires i < |es|
  {
    !Overflows(start, es, i) && forall k :: 0 <= k < i && HappenedBefore(es, k, i) ==> !Overflows(start, es, k)
  }

  lemma TickBelowOverflow(c: Clock, physical: nat)
    requires InRange(c) && Counted(c, c, physical) != Some(MAX_SAFE_INTEGER)
    ensures Tick(c, physical).issued && Tick(c, physical).clock.time == Max(c.time, physical)
  {
  }

  lemma MergeBelowOverflow(c: Clock, remote: Clock, physical: nat)
    requires InRange(c) && InRange(remote) && Counted(c, remote, physical) != Some(MAX_SAFE_INTEGER)
    ensures Merge(c, remote, physical).issued
    ensures Merge(c, remote, physical).clock.time == Max(Max(c.time, remote.time), physical)
  {
  }

  lemma NoOverflowBehindThat(start: Start, es: seq<Event>, k: nat, i: nat)
    requires k < |es| && i < |es| && Precedes(es, k, i) && NoOverflowBehind(start, es, i)
    ensures NoOverflowBehind(start, es, k)
  {
    forall m | 0 <= m < k && HappenedBefore(es, m, k) ensures !Overflows(start, es, m) {
      HappenedBeforeThen(es, m, k, i);
    }
  }

  lemma {:induction false} TimeBefore(start: Start, es: seq<Event>, n: nat, i: nat)
    requires n <= i < |es| && IsRun(start, es) && NoOverflowBehind(start, es, i)
    ensures ClockBefore(start, es, n, es[i].node).time == LatestBefore(start, es, n, es[i].node)
    decreases n, 0
  {
    hide NoOverflowBehind;
    if n > 0 {
      if es[n - 1].node == es[i].node {
        NoOverflowBehindThat(start, es, n - 1, i);
        TimeAt(start, es, n - 1);
      } else {
        TimeBefore(start, es, n - 1, i);
      }
    }
  }

  lemma {:induction false} TimeAt(start: Start, es: seq<Event>, i: nat)
    requires i < |es| && IsRun(start, es) && NoOverflowBehind(start, es, i)
    ensures Issued(start, es, i) && Issue(start, es, i).time == LatestAt(start, es, i)
    decreases i, 1
  {
    var before := ClockBefore(start, es, i, es[i].node);
    TimeBefore(start, es, i, i);
    ClockInRange(start, es, i, es[i].node);
    match es[i] {
      case Local(_, physical) => TickBelowOverflow(before, physical);
      case Receive(_, physical, from) =>
        NoOverflowBehindThat(start, es, from, i);
        TimeAt(start, es, from);
        StepInRange(start, es, from);
        MergeBelowOverflow(before, Issue(start, es, from), physical);
    }
  }

  /**
    * The drift bound: absent counter overflow in an event's causal past, the event issues a stamp whose time is the
    * latest wall-clock reading of that past, neither ahead of all of them nor behind any.
    */
  lemma StampTimeIsLatestReading(start: Start, es: seq<Event>, i: nat, reading: nat)
    requires i < |es| && IsRun(start, es) && NoOverflowBehind(start, es, i)
    ensures Issued(start, es, i)
    ensures InCausalPast(start, es, i, Issue(start, es, i).time)
    ensures InCausalPast(start, es, i, reading) ==> reading <= Issue(start, es, i).time
  {
    hide NoOverflowBehind;
    TimeAt(start, es, i);
    LatestIsInPast(start, es, i);
    if InCausalPast(start, es, i, reading) {
      LatestBoundsPast(start, es, i, reading);
    }
  }

  /** No counter overflows before there have been more events than a counter can count. */
  lemma OverflowTakesManyEvents(start: Start, es: seq<Event>, i: nat)
    requires i < |es| && i < MAX_SAFE_INTEGER && IsRun(start, es)
    ensures NoOverflowBehind(start, es, i)
  {
    forall k | 0 <= k <= i ensures !Overflows(start, es, k) {
      NoCarryBefore(start, es, k, es[k].node);
      if es[k].Receive? {
        NoCarryAt(start, es, es[k].from);
      }
    }
  }
}
