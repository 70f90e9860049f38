/** Authentications and logouts get to their end, and the session in place is one that was verified. */
module SessionProgress {
  import opened SessionStore
  import opened Wrappers

  /** A call that is not over can take a step, or waits for the lock while its holder can. */
  lemma NoDeadlock(stores: seq<Store>, steps: seq<Step>, k: nat, c: nat) returns (d: nat, move: Move)
    requires IsRun(stores, steps) && k <= |steps| && c in stores[k].calls && !Over(stores[k].calls[c])
    ensures Enabled(stores[k], d, move)
    ensures d == c || (stores[k].holder == Some(d) && (stores[k].calls[c].Wanting? || stores[k].calls[c].LoggingOut?))
  {
    HolderIsActive(stores, steps, k);
    var s := stores[k];
    d := c;
    match s.calls[c]
    case Starting => move := Begin;
    case Verifying(_) => move := Verify(None);
    case Wanting(_, _) => d, move := TakeLock(s, c);
    case Checking(_, _) => move := Check;
    case Writing(_, _) => move := Write;
    case LoggingOut => d, move := TakeLock(s, c);
    case Bumping => move := Bump;
    case Clearing(_) => move := Clear;
  }

  lemma TakeLock(s: Store, c: nat) returns (d: nat, move: Move)
    requires c in s.calls && (s.calls[c].Wanting? || s.calls[c].LoggingOut?)
    requires HeldByActive(s)
    ensures Enabled(s, d, move) && (d == c || s.holder == Some(d))
  {
    if s.holder.None? {
      d, move := c, Lock;
    } else {
      d := s.holder.value;
      move := match s.calls[d]
              case Checking(_, _) => Check
              case Writing(_, _) => Write
              case Bumping => Bump
              case _ => Clear;
    }
  }

  /** Whoever is recorded as holding the lock is at a step that needs it. */
  ghost predicate HeldByActive(s: Store) {
    s.holder.Some? ==> s.holder.value in s.calls && Holds(s.calls[s.holder.value])
  }

  lemma {:induction false} HolderIsActive(stores: seq<Store>, steps: seq<Step>, k: nat)
    requires IsRun(stores, steps) && k <= |steps|
    ensures HeldByActive(stores[k])
  {
    if k > 0 {
      HolderIsActive(stores, steps, k - 1);
      RunInvariant(stores, steps, k - 1);
      StepKeepsHolder(stores[k - 1], steps[k - 1].call, steps[k - 1].move);
    }
  }

  lemma StepKeepsHolder(s: Store, c: nat, move: Move)
    requires Invariant(s) && HeldByActive(s) && Enabled(s, c, move)
    ensures HeldByActive(Do(s, c, move))
  {
    assert CallInvariant(s, c);
  }

  /** How many steps a call has still to take at most. */
  function StepsLeft(pc: Pc): nat {
    match pc
    case Starting => 5
    case Verifying(_) => 4
    case Wanting(_, _) => 3
    case Checking(_, _) => 2
    case Writing(_, _) => 1
    case LoggingOut => 3
    case Bumping => 2
    case Clearing(_) => 1
    case _ => 0
  }

  /** Every step a call takes brings it nearer its end, five at most in all; the others' steps leave it where it is. */
  lemma StepsCountDown(s: Store, c: nat, move: Move, d: nat)
    requires Enabled(s, c, move)
    ensures d in s.calls <==> d in Do(s, c, move).calls
    ensures d in s.calls && d != c ==> Do(s, c, move).calls[d] == s.calls[d]
    ensures c in s.calls && StepsLeft(Do(s, c, move).calls[c]) < StepsLeft(s.calls[c]) <= 5
  {
  }

  // ---------- What the session is ----------

  /** The step gives the call its verified principal. */
  ghost predicate Verifies(step: Step, c: nat, principal: Principal) {
    step.call == c && step.move == Verify(Some(principal))
  }

  /** The principal a call carries on its way to the session. */
  function Carried(pc: Pc): Option<Principal> {
    match pc
    case Wanting(_, principal) => Some(principal)
    case Checking(_, principal) => Some(principal)
    case Writing(_, principal) => Some(principal)
    case _ => None
  }

  lemma {:induction false} CarriedWasVerified(stores: seq<Store>, steps: seq<Step>, k: nat, c: nat) returns (i: nat)
    requires IsRun(stores, steps) && k <= |steps| && c in stores[k].calls && Carried(stores[k].calls[c]).Some?
    ensures i < k && Verifies(steps[i], c, Carried(stores[k].calls[c]).value)
  {
    var s, step := stores[k - 1], steps[k - 1];
    StepsCountDown(s, step.call, step.move, c);
    if Verifies(step, c, Carried(stores[k].calls[c]).value) {
      i := k - 1;
    } else {
      CarriedFrom(s, step.call, step.move, c);
      i := CarriedWasVerified(stores, steps, k - 1, c);
    }
  }

  lemma CarriedFrom(s: Store, c: nat, move: Move, d: nat)
    requires Enabled(s, c, move) && d in Do(s, c, move).calls && Carried(Do(s, c, move).calls[d]).Some?
    ensures d in s.calls
    ensures || Carried(s.calls[d]) == Carried(Do(s, c, move).calls[d])
            || Verifies(Step(c, move), d, Carried(Do(s, c, move).calls[d]).value)
  {
  }

  /** In every run the session in place has the principal its own authentication verified. */
  lemma {:induction false} SessionWasVerified(stores: seq<Store>, steps: seq<Step>, k: nat) returns (i: nat)
    requires IsRun(stores, steps) && k <= |steps| && stores[k].current.Some?
    ensures i < k && Verifies(steps[i], stores[k].current.value.owner, stores[k].current.value.principal)
  {
    var s, step := stores[k - 1], steps[k - 1];
    if s.current == stores[k].current {
      i := SessionWasVerified(stores, steps, k - 1);
    } else {
      SetByWriting(s, step.call, step.move);
      i := CarriedWasVerified(stores, steps, k - 1, step.call);
    }
  }

  lemma SetByWriting(s: Store, c: nat, move: Move)
    requires Enabled(s, c, move) && Do(s, c, move).current != s.current && Do(s, c, move).current.Some?
    ensures c in s.calls && s.calls[c].Writing?
    ensures Do(s, c, move).current.value == Session(s.calls[c].principal, c)
    ensures Carried(s.calls[c]) == Some(s.calls[c].principal)
  {
  }

  /** A write sets the session and a finished logout takes it away; no other step touches it. */
  lemma WhatTouchesTheSession(s: Store, c: nat, move: Move)
    requires Enabled(s, c, move)
    ensures c in s.calls
    ensures move.Write? ==>
              s.calls[c].Writing? && Do(s, c, move).current == Some(Session(s.calls[c].principal, c))
    ensures move.Clear? ==> Do(s, c, move).current == None
    ensures !move.Write? && !move.Clear? ==> Do(s, c, move).current == s.current
  {
  }
}
