/**
  * The one session a device holds: a mutex around the principal and an atomic counter that every transition takes a
  * number from, first the class on its own and then any number of calls interleaved step by step.
  */
module SessionStore {
  import opened Wrappers

  datatype Principal = Principal(userId: string, deviceId: string, organisationId: string, permissions: seq<string>)

  datatype SessionError = AuthenticationFailed | SessionSuperseded | SessionMissing

  class NativeSessionStore {
    var current: Option<Principal>
    var generation: nat

    constructor ()
      ensures current == None && generation == 0
    {
      current, generation := None, 0;
    }

    method NextGeneration() returns (taken: nat)
      modifies `generation
      ensures taken == old(generation) + 1 && generation == taken
    {
      generation := generation + 1;
      taken := generation;
    }

    /** The password check's outcome, with nothing else going on meanwhile: only a failed check can refuse. */
    method Authenticate(checked: Result<Principal, SessionError>) returns (result: Result<Principal, SessionError>)
      modifies this
      ensures result == checked && generation == old(generation) + 1
      ensures current == if checked.Success? then Some(checked.value) else old(current)
    {
      var taken := NextGeneration();
      if checked.Failure? {
        return checked;
      }
      result := CommitAuthentication(taken, checked.value);
    }

    /** Only the latest transition may set the session; any other leaves it as it is. */
    method CommitAuthentication(taken: nat, principal: Principal) returns (result: Result<Principal, SessionError>)
      modifies `current
      ensures result == if taken == generation then Success(principal) else Failure(SessionSuperseded)
      ensures current == if taken == generation then Some(principal) else old(current)
    {
      if generation != taken {
        return Failure(SessionSuperseded);
      }
      current := Some(principal);
      result := Success(principal);
    }

    method CurrentPrincipal() returns (result: Result<Principal, SessionError>)
      ensures result == if current.Some? then Success(current.value) else Failure(SessionMissing)
    {
      match current
      case Some(principal) => result := Success(principal);
      case None => result := Failure(SessionMissing);
    }

    method Logout()
      modifies this
      ensures current == None && generation == old(generation) + 1
    {
      generation := generation + 1;
      current := None;
    }
  }

  // ---------- Calls step by step ----------

  /** Where a call is: an authentication, or from `LoggingOut` on a logout. */
  datatype Pc =
    | Starting
    | Verifying(taken: nat)
    | Wanting(taken: nat, principal: Principal)
    | Checking(taken: nat, principal: Principal)
    | Writing(taken: nat, principal: Principal)
    | Committed(taken: nat)
    | Refused(taken: nat)
    | LoggingOut
    | Bumping
    | Clearing(taken: nat)
    | LoggedOut(taken: nat)

  /** The session and the call that set it. */
  datatype Session = Session(principal: Principal, owner: nat)

  /** The last two fields only remember the numbers of the last commit and of the last finished logout. */
  datatype Store = Store(current: Option<Session>, generation: nat, holder: Option<nat>, calls: map<nat, Pc>,
                         committed: nat, loggedOut: nat)

  datatype Move =
    | Begin
    | Verify(outcome: Option<Principal>)
    | Lock
    | Check
    | Write
    | Bump
    | Clear

  predicate Enabled(s: Store, c: nat, move: Move) {
    && c in s.calls
    && match move
       case Begin => s.calls[c].Starting?
       case Verify(_) => s.calls[c].Verifying?
       case Lock => (s.calls[c].Wanting? || s.calls[c].LoggingOut?) && s.holder.None?
       case Check => s.calls[c].Checking?
       case Write => s.calls[c].Writing?
       case Bump => s.calls[c].Bumping?
       case Clear => s.calls[c].Clearing?
  }

  function Go(s: Store, c: nat, pc: Pc): Store {
    s.(calls := s.calls[c := pc])
  }

  function Do(s: Store, c: nat, move: Move): Store
    requires Enabled(s, c, move)
  {
    var pc := s.calls[c];
    match move
    case Begin => Go(s.(generation := s.generation + 1), c, Verifying(s.generation + 1))
    case Verify(outcome) =>
      Go(s, c, if outcome.Some? then Wanting(pc.taken, outcome.value) else Refused(pc.taken))
    case Lock =>
      Go(s.(holder := Some(c)), c, if pc.Wanting? then Checking(pc.taken, pc.principal) else Bumping)
    case Check =>
      if s.generation == pc.taken then Go(s, c, Writing(pc.taken, pc.principal))
      else Go(s.(holder := None), c, Refused(pc.taken))
    case Write =>
      Go(s.(current := Some(Session(pc.principal, c)), holder := None, committed := pc.taken), c, Committed(pc.taken))
    case Bump => Go(s.(generation := s.generation + 1), c, Clearing(s.generation + 1))
    case Clear => Go(s.(current := None, holder := None, loggedOut := pc.taken), c, LoggedOut(pc.taken))
  }

  // ---------- What every reachable state satisfies ----------

  predicate Holds(pc: Pc) {
    pc.Checking? || pc.Writing? || pc.Bumping? || pc.Clearing?
  }

  /** The number a call has taken, if it has. */
  function Taken(pc: Pc): Option<nat> {
    if pc.Starting? || pc.LoggingOut? || pc.Bumping? then None else Some(pc.taken)
  }

  predicate Over(pc: Pc) {
    pc.Committed? || pc.Refused? || pc.LoggedOut?
  }

  ghost predicate CallInvariant(s: Store, c: nat)
    requires c in s.calls
  {
    var pc := s.calls[c];
    && (Holds(pc) ==> s.holder == Some(c))
    && (Taken(pc).Some? ==> Taken(pc).value <= s.generation)
    && (Taken(pc).Some? && !Over(pc) ==> Taken(pc).value != s.committed && Taken(pc).value != s.loggedOut)
    && (pc.Writing? ==> s.committed < pc.taken)
    && (pc.Writing? || pc.Clearing? ==> s.loggedOut < pc.taken)
  }

  ghost predicate NumbersDiffer(s: Store) {
    forall c, d :: c in s.calls && d in s.calls && c != d && Taken(s.calls[c]).Some? ==>
      Taken(s.calls[c]) != Taken(s.calls[d])
  }

  ghost predicate SessionInvariant(s: Store) {
    && s.committed <= s.generation && s.loggedOut <= s.generation
    && (s.current.Some? ==>
          && s.current.value.owner in s.calls
          && s.calls[s.current.value.owner] == Committed(s.committed)
          && s.loggedOut < s.committed)
  }

  ghost predicate Invariant(s: Store) {
    && SessionInvariant(s)
    && (forall c :: c in s.calls ==> CallInvariant(s, c))
    && NumbersDiffer(s)
  }

  // ---------- One step ----------

  /** A step changes no call but its own, and never takes a number back. */
  lemma StepMovesOneCall(s: Store, c: nat, move: Move)
    requires Enabled(s, c, move)
    ensures var t := Do(s, c, move);
            && t.calls.Keys == s.calls.Keys
            && (forall d :: d in s.calls && d != c ==> t.calls[d] == s.calls[d])
            && t.generation == s.generation + (if move.Begin? || move.Bump? then 1 else 0)
            && Taken(t.calls[c]) == (if move.Begin? || move.Bump? then Some(t.generation) else Taken(s.calls[c]))
            && (Over(s.calls[c]) ==> false)
  {
  }

  lemma StepKeepsNumbersApart(s: Store, c: nat, move: Move)
    requires Invariant(s) && Enabled(s, c, move)
    ensures NumbersDiffer(Do(s, c, move))
  {
    hide Do, Enabled, Taken;
    StepMovesOneCall(s, c, move);
    var t := Do(s, c, move);
    forall d, e | d in t.calls && e in t.calls && d != e && Taken(t.calls[d]).Some?
      ensures Taken(t.calls[d]) != Taken(t.calls[e])
    {
      assert CallInvariant(s, d) && CallInvariant(s, e);
      assert d != c ==> t.calls[d] == s.calls[d];
      assert e != c ==> t.calls[e] == s.calls[e];
    }
  }

  lemma MoverInvariant(s: Store, c: nat, move: Move)
    requires Invariant(s) && Enabled(s, c, move)
    ensures c in Do(s, c, move).calls && CallInvariant(Do(s, c, move), c)
  {
    hide NumbersDiffer;
    assert CallInvariant(s, c);
  }

  lemma OthersInvariant(s: Store, c: nat, move: Move, d: nat)
    requires Invariant(s) && Enabled(s, c, move) && d in s.calls && d != c
    ensures d in Do(s, c, move).calls && CallInvariant(Do(s, c, move), d)
  {
    assert CallInvariant(s, c) && CallInvariant(s, d);
    assert Taken(s.calls[c]).Some? ==> Taken(s.calls[c]) != Taken(s.calls[d]);
  }

  lemma StepKeepsSession(s: Store, c: nat, move: Move)
    requires Invariant(s) && Enabled(s, c, move)
    ensures SessionInvariant(Do(s, c, move))
  {
    hide NumbersDiffer;
    assert CallInvariant(s, c);
  }

  lemma StepKeepsInvariant(s: Store, c: nat, move: Move)
    requires Invariant(s) && Enabled(s, c, move)
    ensures Invariant(Do(s, c, move))
  {
    hide NumbersDiffer, CallInvariant, SessionInvariant, Do, Enabled;
    StepKeepsNumbersApart(s, c, move);
    StepKeepsSession(s, c, move);
    MoverInvariant(s, c, move);
    StepMovesOneCall(s, c, move);
    var t := Do(s, c, move);
    forall d | d in t.calls ensures CallInvariant(t, d) {
      if d != c {
        OthersInvariant(s, c, move, d);
      }
    }
  }

  /** The numbers of the last commit and the last finished logout only grow. */
  lemma StepMovesOn(s: Store, c: nat, move: Move)
    requires Invariant(s) && Enabled(s, c, move)
    ensures var t := Do(s, c, move);
            && s.committed <= t.committed
            && (move.Write? ==> s.committed < t.committed && Taken(s.calls[c]) == Some(t.committed))
            && s.loggedOut <= t.loggedOut
            && (move.Clear? ==> Taken(s.calls[c]) == Some(t.loggedOut))
  {
    assert CallInvariant(s, c);
  }

  // ---------- Whole runs ----------

  datatype Step = Step(call: nat, move: Move)

  /** Any number of authentications and logouts about to start. */
  predicate Initial(s: Store) {
    && s.current == None && s.generation == 0 && s.holder == None && s.committed == 0 && s.loggedOut == 0
    && forall c :: c in s.calls ==> s.calls[c].Starting? || s.calls[c].LoggingOut?
  }

  ghost predicate IsRun(stores: seq<Store>, steps: seq<Step>) {
    && |stores| == |steps| + 1
    && Initial(stores[0])
    && forall k :: 0 <= k < |steps| ==>
         && Enabled(stores[k], steps[k].call, steps[k].move)
         && stores[k + 1] == Do(stores[k], steps[k].call, steps[k].move)
  }

  lemma {:induction false} RunInvariant(stores: seq<Store>, steps: seq<Step>, k: nat)
    requires IsRun(stores, steps) && k <= |steps|
    ensures Invariant(stores[k])
  {
    hide Do, Enabled;
    if k > 0 {
      RunInvariant(stores, steps, k - 1);
      StepKeepsInvariant(stores[k - 1], steps[k - 1].call, steps[k - 1].move);
    }
  }

  /** Along a run the three numbers never fall, and a call keeps the number it took. */
  lemma {:induction false} RunMovesOn(stores: seq<Store>, steps: seq<Step>, i: nat, j: nat)
    requires IsRun(stores, steps) && i <= j <= |steps|
    ensures stores[i].committed <= stores[j].committed
    ensures stores[i].loggedOut <= stores[j].loggedOut
    ensures stores[i].generation <= stores[j].generation
    ensures stores[i].calls.Keys == stores[j].calls.Keys
    ensures forall c :: c in stores[i].calls && Taken(stores[i].calls[c]).Some? ==>
              Taken(stores[j].calls[c]) == Taken(stores[i].calls[c])
    decreases j
  {
    hide Do, Enabled, Taken;
    if i < j {
      var s, step := stores[j - 1], steps[j - 1];
      RunMovesOn(stores, steps, i, j - 1);
      RunInvariant(stores, steps, j - 1);
      StepMovesOneCall(s, step.call, step.move);
      StepMovesOn(s, step.call, step.move);
      NumberIsTakenOnce(s, step.call, step.move);
    }
  }

  lemma NumberIsTakenOnce(s: Store, c: nat, move: Move)
    requires Enabled(s, c, move)
    ensures c in s.calls && c in Do(s, c, move).calls
    ensures Taken(s.calls[c]).Some? ==> Taken(Do(s, c, move).calls[c]) == Taken(s.calls[c])
  {
  }

  /** The number a call holds when it takes a step. */
  function Number(stores: seq<Store>, steps: seq<Step>, k: nat): Option<nat>
    requires k < |stores| && k < |steps|
  {
    if steps[k].call in stores[k].calls then Taken(stores[k].calls[steps[k].call]) else None
  }

  /** In every interleaving, commits follow the order in which their authentications began. */
  lemma CommitsInOrder(stores: seq<Store>, steps: seq<Step>, i: nat, j: nat)
    requires IsRun(stores, steps) && i < j < |steps|
    requires steps[i].move.Write? && steps[j].move.Write?
    ensures Number(stores, steps, i).Some? && Number(stores, steps, j).Some?
    ensures Number(stores, steps, i).value < Number(stores, steps, j).value
  {
    hide Do, Taken;
    RunInvariant(stores, steps, i);
    StepMovesOn(stores[i], steps[i].call, steps[i].move);
    RunMovesOn(stores, steps, i + 1, j);
    RunInvariant(stores, steps, j);
    StepMovesOn(stores[j], steps[j].call, steps[j].move);
  }

  /** The number a call takes as it begins, or as a logout bumps the counter, is above every number taken before. */
  lemma NumbersGrow(stores: seq<Store>, steps: seq<Step>, i: nat, j: nat)
    requires IsRun(stores, steps) && i < j < |steps|
    requires steps[i].move.Begin? && steps[j].move.Bump?
    ensures steps[i].call in stores[j].calls && steps[j].call in stores[j + 1].calls
    ensures var begun, bumped := Taken(stores[j].calls[steps[i].call]), Taken(stores[j + 1].calls[steps[j].call]);
            begun.Some? && bumped.Some? && begun.value < bumped.value
  {
    hide Do, Taken;
    StepMovesOneCall(stores[i], steps[i].call, steps[i].move);
    RunMovesOn(stores, steps, i + 1, j);
    StepMovesOneCall(stores[j], steps[j].call, steps[j].move);
  }

  /**
    * In every interleaving, once a logout has finished, no authentication begun before it took its number sets the
    * session any more, and the session in place is never such an authentication's.
    */
  lemma LogoutIsFinal(stores: seq<Store>, steps: seq<Step>, begun: nat, bumped: nat, cleared: nat, k: nat)
    requires IsRun(stores, steps) && begun < bumped < cleared < k <= |steps|
    requires steps[begun].move.Begin? && steps[bumped].move.Bump? && steps[cleared].move.Clear?
    requires steps[bumped].call == steps[cleared].call
    ensures stores[k].current.Some? ==> stores[k].current.value.owner != steps[begun].call
    ensures k < |steps| && steps[k].move.Write? ==> steps[k].call != steps[begun].call
  {
    hide Do, Enabled, Taken, Invariant;
    var l := steps[bumped].call;
    NumbersGrow(stores, steps, begun, bumped);
    RunMovesOn(stores, steps, bumped + 1, cleared);
    RunInvariant(stores, steps, cleared);
    StepMovesOn(stores[cleared], l, steps[cleared].move);
    RunMovesOn(stores, steps, cleared + 1, k);
    RunMovesOn(stores, steps, bumped, k);
    RunInvariant(stores, steps, k);
    OutrunByLogout(stores[k], steps[begun].call);
    if k < |steps| {
      WritersAreWriting(stores[k], steps[k].call, steps[k].move);
    }
  }

  lemma WritersAreWriting(s: Store, c: nat, move: Move)
    ensures Enabled(s, c, move) && move.Write? ==> c in s.calls && s.calls[c].Writing?
  {
  }

  /** A call whose number is below the last logout's has no session and is not about to set one. */
  lemma OutrunByLogout(s: Store, c: nat)
    requires Invariant(s) && c in s.calls && Taken(s.calls[c]).Some? && Taken(s.calls[c]).value < s.loggedOut
    ensures !s.calls[c].Writing?
    ensures s.current.Some? ==> s.current.value.owner != c
  {
    assert CallInvariant(s, c);
  }

  predicate TakesNumber(move: Move) {
    move.Begin? || move.Bump?
  }

  /** The counter stands still exactly while no call takes a number. */
  lemma {:induction false} CounterStandsStill(stores: seq<Store>, steps: seq<Step>, i: nat, j: nat)
    requires IsRun(stores, steps) && i <= j <= |steps|
    ensures stores[j].generation == stores[i].generation <==>
            (forall k :: i <= k < j ==> !TakesNumber(steps[k].move))
    decreases j
  {
    hide Do, Enabled;
    if i < j {
      CounterStandsStill(stores, steps, i, j - 1);
      RunMovesOn(stores, steps, i, j - 1);
      StepMovesOneCall(stores[j - 1], steps[j - 1].call, steps[j - 1].move);
    }
  }

  /** An authentication is let through exactly when no other call took a number since it began. */
  lemma LetThroughUnlessSuperseded(stores: seq<Store>, steps: seq<Step>, begun: nat, checked: nat)
    requires IsRun(stores, steps) && begun < checked < |steps|
    requires steps[begun].call == steps[checked].call
    requires steps[begun].move.Begin? && steps[checked].move.Check?
    ensures steps[checked].call in stores[checked + 1].calls
    ensures stores[checked + 1].calls[steps[checked].call].Writing? <==>
            (forall k :: begun < k < checked ==> !TakesNumber(steps[k].move))
  {
    CounterStandsStill(stores, steps, begun + 1, checked);
    StepMovesOneCall(stores[begun], steps[begun].call, steps[begun].move);
    RunMovesOn(stores, steps, begun + 1, checked);
  }

  /**
    * The check and the write are two steps: a newer authentication may begin between them, and the older one still
    * sets the session.
    */
  lemma NewerBeginMayPrecedeOlderWrite(p: Principal) returns (stores: seq<Store>, steps: seq<Step>)
    ensures IsRun(stores, steps) && |steps| == 6
    ensures steps[4] == Step(1, Begin) && steps[5] == Step(0, Write)
    ensures stores[6].current == Some(Session(p, 0)) && stores[6].calls[1].Verifying?
  {
    var s0 := Store(None, 0, None, map[0 := Starting, 1 := Starting], 0, 0);
    var s1 := Do(s0, 0, Begin);
    var s2 := Do(s1, 0, Verify(Some(p)));
    var s3 := Do(s2, 0, Lock);
    var s4 := Do(s3, 0, Check);
    var s5 := Do(s4, 1, Begin);
    var s6 := Do(s5, 0, Write);
    stores := [s0, s1, s2, s3, s4, s5, s6];
    steps := [Step(0, Begin), Step(0, Verify(Some(p))), Step(0, Lock), Step(0, Check), Step(1, Begin), Step(0, Write)];
  }
}
