/** Processes that load or create the device key get there: nothing is stuck, nothing goes on for ever. */
module DeviceKeyProgress {
  import opened Bytes
  import opened DeviceKey
  import opened Wrappers

  // ---------- What each call comes to ----------

  /** Only this process moves on, and files, path and temporary names stay as they are. */
  ghost predicate OnlyLooks(w: World, w': World, p: nat) {
    && w'.files == w.files && w'.path == w.path && w'.temps == w.temps
    && w'.procs.Keys == w.procs.Keys && forall q :: q in w.procs && q != p ==> w'.procs[q] == w.procs[q]
  }

  /**
    * Looking at the path: with nothing there a key is drawn, the second time given up; 32 bytes are opened; more are
    * given up; and fewer are looked at again, up to fifty times.
    */
  lemma LookingComesTo(w: World, p: nat)
    requires Enabled(w, p, StatMove)
    ensures p in w.procs && w.procs[p].Stating? && p in Do(w, p, StatMove).procs
    ensures OnlyLooks(w, Do(w, p, StatMove), p)
    ensures var pc, next := w.procs[p], Do(w, p, StatMove).procs[p];
            && (w.path == None && !pc.again ==> next == Generating)
            && (w.path == None && pc.again ==> next == Stopped)
            && (w.path.Some? ==>
                  var length := |w.files[w.path.value]|;
                  && (length == 32 ==> next == Opening(pc.again, w.path.value))
                  && (length > 32 ==> next == Stopped)
                  && (length < 32 && pc.incompleteReads < 49 ==> next == Stating(pc.again, pc.incompleteReads + 1))
                  && (length < 32 && pc.incompleteReads >= 49 ==> next == Stopped))
  {
  }

  /** Opening and reading go on with the file looked at, if it is still there and has 32 bytes. */
  lemma OpeningComesTo(w: World, p: nat, move: Move)
    requires Enabled(w, p, move) && (move.OpenMove? || move.ReadMove?)
    ensures p in w.procs && p in Do(w, p, move).procs && OnlyLooks(w, Do(w, p, move), p)
    ensures var pc, next := w.procs[p], Do(w, p, move).procs[p];
            && (move.OpenMove? && w.path.Some? && w.path.value == pc.inode && |w.files[pc.inode]| == 32 ==>
                  next == ReadingBytes(pc.inode))
            && (move.OpenMove? && (w.path != Some(pc.inode) || |w.files[pc.inode]| != 32) ==> next == Stopped)
            && (move.ReadMove? && |w.files[pc.inode]| == 32 ==> next == Returned(w.files[pc.inode]))
            && (move.ReadMove? && |w.files[pc.inode]| != 32 ==> next == Stopped)
  {
  }

  /** A free name gets an empty file of its own; a taken one costs one of ten tries. */
  lemma NamingComesTo(w: World, p: nat, temp: nat, inode: nat)
    requires Enabled(w, p, NameMove(temp, inode))
    ensures p in w.procs && w.procs[p].Naming? && p in Do(w, p, NameMove(temp, inode)).procs
    ensures var pc, w' := w.procs[p], Do(w, p, NameMove(temp, inode));
            && (pc.namesTried >= 10 ==> w'.procs[p] == Stopped && OnlyLooks(w, w', p))
            && (pc.namesTried < 10 && temp in w.temps ==>
                  w'.procs[p] == Naming(pc.seed, pc.namesTried + 1) && OnlyLooks(w, w', p))
            && (pc.namesTried < 10 && temp !in w.temps ==>
                  && w'.procs[p] == Writing(pc.seed, temp, inode) && w'.path == w.path
                  && w'.files.Keys == w.files.Keys + {inode} && w'.files[inode] == []
                  && w'.temps.Keys == w.temps.Keys + {temp} && w'.temps[temp] == inode)
  {
  }

  /** However it ends, the temporary name goes if it can be removed; a linked key is returned, another is looked for. */
  lemma CleaningUpComesTo(w: World, p: nat, removed: bool)
    requires p in w.procs && (w.procs[p].Unlinking? || w.procs[p].Linking? || w.procs[p].Writing?)
    requires w.path.Some? ==> w.path.value in w.files
    ensures var pc, move := w.procs[p], if w.procs[p].Unlinking? then UnlinkMove(removed) else ErrorMove(removed);
            && Enabled(w, p, move)
            && var w' := Do(w, p, move);
               && w'.files == w.files && w'.path == w.path && p in w'.procs
               && (forall name :: name in w'.temps <==> name in w.temps && (removed ==> name != pc.temp))
               && (pc.Unlinking? && pc.linked ==> w'.procs[p] == Returned(pc.seed))
               && (pc.Unlinking? && !pc.linked ==> w'.procs[p] == Stating(true, 0))
               && (!pc.Unlinking? ==> w'.procs[p] == Stopped)
  {
  }

  // ---------- Why a process stops ----------

  /** The step is a process's death, or a failing write or link. */
  predicate IsMishap(move: Move) {
    move.StopMove? || move.ErrorMove?
  }

  /** What is at the path is no key of 32 bytes. */
  predicate MeetsNoKey(w: World) {
    w.path.Some? && w.path.value in w.files && |w.files[w.path.value]| != 32
  }

  /** A name is wanted and ten have been tried. */
  predicate OutOfNames(w: World, p: nat, move: Move) {
    move.NameMove? && p in w.procs && w.procs[p].Naming? && w.procs[p].namesTried >= 10
  }

  lemma StepStopsOnlyFor(w: World, p: nat, move: Move)
    requires Invariant(w) && Enabled(w, p, move) && p in Do(w, p, move).procs
    requires Do(w, p, move).procs[p].Stopped? && !w.procs[p].Stopped?
    ensures IsMishap(move) || MeetsNoKey(w) || OutOfNames(w, p, move)
  {
    hide OwnersApart;
    assert ProcInvariant(w, w.procs[p]);
  }

  lemma OnlyTheMoverChanges(w: World, p: nat, move: Move, q: nat)
    requires Invariant(w) && Enabled(w, p, move)
    ensures q in Do(w, p, move).procs <==> q in w.procs
    ensures q in w.procs && q != p ==> Do(w, p, move).procs[q] == w.procs[q]
  {
    hide Do, Invariant, Enabled;
    OwnerMoves(w, p, move);
  }

  /**
    * In every run a process that has stopped died, had a write or link fail, met something at the path that is no key
    * of 32 bytes, or found ten names taken.
    */
  lemma {:induction false} StoppedFor(worlds: seq<World>, steps: seq<Step>, k: nat, p: nat) returns (i: nat)
    requires IsRun(worlds, steps) && k <= |steps| && p in worlds[k].procs && worlds[k].procs[p].Stopped?
    ensures i < k && steps[i].p == p && Enabled(worlds[i], p, steps[i].move)
    ensures IsMishap(steps[i].move) || MeetsNoKey(worlds[i]) || OutOfNames(worlds[i], p, steps[i].move)
  {
    hide Do, Enabled, Invariant, MeetsNoKey, OutOfNames;
    var w, step := worlds[k - 1], steps[k - 1];
    RunInvariant(worlds, steps, k - 1);
    OnlyTheMoverChanges(w, step.p, step.move, p);
    if w.procs[p].Stopped? {
      i := StoppedFor(worlds, steps, k - 1, p);
    } else {
      StepStopsOnlyFor(w, p, step.move);
      i := k - 1;
    }
  }

  // ---------- A process that is not done can go on ----------

  lemma FreshNumber(taken: set<nat>) returns (n: nat)
    ensures n !in taken
    ensures forall m :: m in taken ==> m < n
    decreases taken
  {
    if taken == {} {
      n := 0;
    } else {
      var m :| m in taken;
      var rest := FreshNumber(taken - {m});
      n := if rest > m then rest else m + 1;
      forall other | other in taken ensures other < n {
        assert other == m || other in taken - {m};
      }
    }
  }

  /** Unless it has returned or stopped, there is a step for it that is no mishap and takes it on. */
  lemma CanGoOn(w: World, p: nat) returns (move: Move)
    requires Invariant(w) && p in w.procs && !w.procs[p].Returned? && !w.procs[p].Stopped?
    requires w.procs[p].Writing? ==> |w.files[w.procs[p].inode]| < 32
    ensures !IsMishap(move) && Enabled(w, p, move)
  {
    var pc := w.procs[p];
    assert ProcInvariant(w, pc);
    match pc
    case Stating(_, _) => move := StatMove;
    case Opening(_, _) => move := OpenMove;
    case ReadingBytes(_) => move := ReadMove;
    case Generating => move := GenerateMove(seq(32, _ => 0));
    case Naming(_, _) =>
      var unused := FreshNumber(w.files.Keys);
      move := NameMove(0, unused);
    case Writing(seed, _, inode) => move := WriteMove(32);
    case Linking(_, _, _) => move := LinkMove;
    case Unlinking(_, _, _) => move := UnlinkMove(true);
  }

  // ---------- A process takes only so many steps ----------

  function Left(used: nat, limit: nat): nat {
    if used < limit then limit - used else 0
  }

  /** How many steps a process may still take. */
  function StepsLeft(w: World, p: nat): nat
    requires p in w.procs
  {
    var pc := w.procs[p];
    match pc
    case Returned(_) => 0
    case Stopped => 0
    case ReadingBytes(_) => 1
    case Opening(_, _) => 2
    case Stating(again, incomplete) => (if again then 3 else 102) + Left(incomplete, 50)
    case Unlinking(_, _, _) => 54
    case Linking(_, _, _) => 55
    case Writing(_, _, inode) => 55 + (if inode in w.files then Left(|w.files[inode]|, 32) else 0)
    case Naming(_, tried) => 88 + Left(tried, 11)
    case Generating => 101
  }

  lemma OwnStepCounts(w: World, p: nat, move: Move)
    requires Invariant(w) && Enabled(w, p, move) && !w.procs[p].Stopped?
    ensures p in w.procs && p in Do(w, p, move).procs
    ensures StepsLeft(Do(w, p, move), p) < StepsLeft(w, p)
  {
    hide OwnersApart, Published;
    assert ProcInvariant(w, w.procs[p]);
  }

  lemma OthersStepDoesNotCount(w: World, q: nat, move: Move, p: nat)
    requires Invariant(w) && Enabled(w, q, move) && p in w.procs && p != q
    ensures p in Do(w, q, move).procs
    ensures StepsLeft(Do(w, q, move), p) == StepsLeft(w, p)
  {
    hide Do, Enabled, Published, ProcInvariant, Invariant;
    OnlyTheMoverChanges(w, q, move, p);
    HandsOff(w, q, move, p);
  }

  /** Nobody touches the file another process is writing. */
  lemma HandsOff(w: World, q: nat, move: Move, p: nat)
    requires Invariant(w) && Enabled(w, q, move) && p in w.procs && p != q
    ensures w.procs[p].Writing? ==>
              var inode := w.procs[p].inode;
              inode in w.files && inode in Do(w, q, move).files && Do(w, q, move).files[inode] == w.files[inode]
  {
    hide Do;
    if w.procs[p].Writing? {
      StepKeepsOthers(w, q, move);
      assert ProcInvariant(w, w.procs[p]);
      assert q in w.procs ==> Owned(w.procs[p]) != Owned(w.procs[q]);
    }
  }

  /** How many of the first `k` steps are this process's, taken before it stopped. */
  function OwnSteps(worlds: seq<World>, steps: seq<Step>, k: nat, p: nat): nat
    requires k <= |steps| && |worlds| == |steps| + 1
  {
    if k == 0 then 0
    else
      OwnSteps(worlds, steps, k - 1, p)
      + if steps[k - 1].p == p && p in worlds[k - 1].procs && !worlds[k - 1].procs[p].Stopped? then 1 else 0
  }

  /** In every run a process takes at most 152 steps, whatever the others do: no one waits or retries for ever. */
  lemma {:induction false} StepsAreBounded(worlds: seq<World>, steps: seq<Step>, k: nat, p: nat)
    requires IsRun(worlds, steps) && k <= |steps| && p in worlds[0].procs
    ensures p in worlds[k].procs
    ensures OwnSteps(worlds, steps, k, p) + StepsLeft(worlds[k], p) <= 152
    ensures OwnSteps(worlds, steps, k, p) <= 152
  {
    hide Do, Enabled, Invariant, StepsLeft;
    if k == 0 {
      AtTheStart(worlds[0], p);
    } else {
      var w, step := worlds[k - 1], steps[k - 1];
      StepsAreBounded(worlds, steps, k - 1, p);
      RunInvariant(worlds, steps, k - 1);
      OnlyTheMoverChanges(w, step.p, step.move, p);
      if step.p != p {
        OthersStepDoesNotCount(w, step.p, step.move, p);
      } else if !w.procs[p].Stopped? {
        OwnStepCounts(w, p, step.move);
      } else {
        StoppedStays(w, p, step.move);
      }
    }
  }

  lemma AtTheStart(w: World, p: nat)
    requires Initial(w) && p in w.procs
    ensures StepsLeft(w, p) == 152
  {
  }

  lemma StoppedStays(w: World, p: nat, move: Move)
    requires Enabled(w, p, move) && w.procs[p].Stopped?
    ensures p in Do(w, p, move).procs && Do(w, p, move).procs[p].Stopped? && StepsLeft(Do(w, p, move), p) == 0
    ensures StepsLeft(w, p) == 0
  {
  }

  /** A process that is writing has not written everything. */
  ghost predicate WritersWrite(w: World) {
    forall p :: p in w.procs && w.procs[p].Writing? && w.procs[p].inode in w.files ==>
      |w.files[w.procs[p].inode]| < 32
  }

  lemma StepKeepsWriters(w: World, q: nat, move: Move)
    requires Invariant(w) && WritersWrite(w) && Enabled(w, q, move)
    ensures WritersWrite(Do(w, q, move))
  {
    hide OwnersApart;
    var w' := Do(w, q, move);
    forall p | p in w'.procs && w'.procs[p].Writing? && w'.procs[p].inode in w'.files
      ensures |w'.files[w'.procs[p].inode]| < 32
    {
      if p != q {
        OnlyTheMoverChanges(w, q, move, p);
        HandsOff(w, q, move, p);
      } else {
        assert ProcInvariant(w, w.procs[q]);
      }
    }
  }

  lemma {:induction false} RunKeepsWriters(worlds: seq<World>, steps: seq<Step>, k: nat)
    requires IsRun(worlds, steps) && k <= |steps|
    ensures WritersWrite(worlds[k])
  {
    hide Do, Enabled, Invariant;
    if k > 0 {
      RunInvariant(worlds, steps, k - 1);
      RunKeepsWriters(worlds, steps, k - 1);
      StepKeepsWriters(worlds[k - 1], steps[k - 1].p, steps[k - 1].move);
    }
  }

  /** In every run, unless it has returned or stopped, a process has a step to take that is no mishap. */
  lemma NobodyIsStuck(worlds: seq<World>, steps: seq<Step>, k: nat, p: nat) returns (move: Move)
    requires IsRun(worlds, steps) && k <= |steps| && p in worlds[k].procs
    requires !worlds[k].procs[p].Returned? && !worlds[k].procs[p].Stopped?
    ensures !IsMishap(move) && Enabled(worlds[k], p, move)
  {
    hide Do, Enabled;
    RunInvariant(worlds, steps, k);
    RunKeepsWriters(worlds, steps, k);
    assert ProcInvariant(worlds[k], worlds[k].procs[p]);
    move := CanGoOn(worlds[k], p);
  }

  // ---------- How it ends when nothing goes wrong ----------

  /** Another step makes a longer run. */
  lemma Extend(worlds: seq<World>, steps: seq<Step>, p: nat, move: Move)
    requires IsRun(worlds, steps) && Enabled(worlds[|steps|], p, move)
    ensures IsRun(worlds + [Do(worlds[|steps|], p, move)], steps + [Step(p, move)])
  {
    hide Do, Enabled;
  }

  /** With a key of 32 bytes at the path, a process that is about to look reads it and returns it. */
  lemma ReadsTheKey(worlds: seq<World>, steps: seq<Step>, p: nat)
    returns (longer: seq<World>, more: seq<Step>)
    requires IsRun(worlds, steps) && p in worlds[|steps|].procs && worlds[|steps|].procs[p].Stating?
    requires var w := worlds[|steps|];
             w.path.Some? && w.path.value in w.files && |w.files[w.path.value]| == 32
    ensures IsRun(longer, more) && |more| == |steps| + 3 && longer[0] == worlds[0]
    ensures var w, last := worlds[|steps|], longer[|more|];
            && last.path == w.path && last.files == w.files && last.temps == w.temps
            && last.procs == w.procs[p := Returned(w.files[w.path.value])]
  {
    hide IsRun;
    RunLength(worlds, steps);
    var w := worlds[|steps|];
    var w1 := Do(w, p, StatMove);
    var w2 := Do(w1, p, OpenMove);
    Extend(worlds, steps, p, StatMove);
    Extend(worlds + [w1], steps + [Step(p, StatMove)], p, OpenMove);
    Extend(worlds + [w1] + [w2], steps + [Step(p, StatMove)] + [Step(p, OpenMove)], p, ReadMove);
    longer := worlds + [w1] + [w2] + [Do(w2, p, ReadMove)];
    more := steps + [Step(p, StatMove)] + [Step(p, OpenMove)] + [Step(p, ReadMove)];
  }

  lemma RunLength(worlds: seq<World>, steps: seq<Step>)
    requires IsRun(worlds, steps)
    ensures |worlds| == |steps| + 1
  {
  }

  /** A process alone with a complete key at the path returns that key. */
  lemma StoredKeyIsReturned(w: World, p: nat) returns (worlds: seq<World>, steps: seq<Step>)
    requires Initial(w) && p in w.procs
    requires w.path.Some? && |w.files[w.path.value]| == 32
    ensures IsRun(worlds, steps) && worlds[0] == w
    ensures worlds[|steps|] == w.(procs := w.procs[p := Returned(w.files[w.path.value])])
  {
    assert IsRun([w], []);
    worlds, steps := ReadsTheKey([w], [], p);
  }

  /** From nothing at the path to a complete file in hand. */
  lemma WritesAFile(worlds: seq<World>, steps: seq<Step>, p: nat, drawn: Bytes, temp: nat, inode: nat)
    returns (longer: seq<World>, more: seq<Step>)
    requires IsRun(worlds, steps) && p in worlds[|steps|].procs && worlds[|steps|].procs[p] == Stating(false, 0)
    requires worlds[|steps|].path == None && |drawn| == 32
    requires temp !in worlds[|steps|].temps && inode !in worlds[|steps|].files
    ensures IsRun(longer, more) && longer[0] == worlds[0]
    ensures var w, last := worlds[|steps|], longer[|more|];
            && last.path == None && last.files == w.files[inode := drawn]
            && last.temps == w.temps[temp := inode]
            && last.procs == w.procs[p := Linking(drawn, temp, inode)]
  {
    hide IsRun;
    RunLength(worlds, steps);
    var w := worlds[|steps|];
    var w1 := Do(w, p, StatMove);
    var w2 := Do(w1, p, GenerateMove(drawn));
    var w3 := Do(w2, p, NameMove(temp, inode));
    assert drawn[..32] == drawn;
    var w4 := Do(w3, p, WriteMove(32));
    Extend(worlds, steps, p, StatMove);
    Extend(worlds + [w1], steps + [Step(p, StatMove)], p, GenerateMove(drawn));
    longer, more := worlds + [w1] + [w2], steps + [Step(p, StatMove)] + [Step(p, GenerateMove(drawn))];
    Extend(longer, more, p, NameMove(temp, inode));
    longer, more := longer + [w3], more + [Step(p, NameMove(temp, inode))];
    Extend(longer, more, p, WriteMove(32));
    longer, more := longer + [w4], more + [Step(p, WriteMove(32))];
  }

  /** The file in hand is linked, or is refused because there is a key, and its temporary name is removed. */
  lemma LinksAndUnlinks(worlds: seq<World>, steps: seq<Step>, p: nat)
    returns (longer: seq<World>, more: seq<Step>)
    requires IsRun(worlds, steps) && p in worlds[|steps|].procs && worlds[|steps|].procs[p].Linking?
    requires worlds[|steps|].path.Some? ==> worlds[|steps|].path.value in worlds[|steps|].files
    requires worlds[|steps|].procs[p].inode in worlds[|steps|].files
    ensures IsRun(longer, more) && longer[0] == worlds[0]
    ensures var w, last := worlds[|steps|], longer[|more|];
            var pc := w.procs[p];
            && last.files == w.files
            && last.path == (if w.path.None? then Some(pc.inode) else w.path)
            && last.procs == w.procs[p := if w.path.None? then Returned(pc.seed) else Stating(true, 0)]
  {
    hide IsRun;
    RunLength(worlds, steps);
    var w := worlds[|steps|];
    var w1 := Do(w, p, LinkMove);
    Extend(worlds, steps, p, LinkMove);
    longer, more := worlds + [w1], steps + [Step(p, LinkMove)];
    Extend(longer, more, p, UnlinkMove(true));
    longer, more := longer + [Do(w1, p, UnlinkMove(true))], more + [Step(p, UnlinkMove(true))];
  }

  /** A process alone with nothing at the path returns the key it has drawn, and that is the key then stored. */
  lemma DrawnKeyIsStored(w: World, p: nat, drawn: Bytes) returns (worlds: seq<World>, steps: seq<Step>)
    requires Initial(w) && p in w.procs && w.path == None && |drawn| == 32
    ensures IsRun(worlds, steps) && worlds[0] == w
    ensures var last := worlds[|steps|];
            p in last.procs && last.procs[p] == Returned(drawn) && Published(last) == Some(drawn)
  {
    var temp := FreshNumber(w.temps.Keys);
    var inode := FreshNumber(w.files.Keys);
    assert IsRun([w], []);
    worlds, steps := WritesAFile([w], [], p, drawn, temp, inode);
    worlds, steps := LinksAndUnlinks(worlds, steps, p);
  }

  /** Two processes create the key at once: the one that links second returns the other's. */
  lemma LoserReturnsTheWinnersKey(w: World, winner: nat, loser: nat, key: Bytes, other: Bytes)
    returns (worlds: seq<World>, steps: seq<Step>)
    requires Initial(w) && winner in w.procs && loser in w.procs && winner != loser
    requires w.path == None && |key| == 32 && |other| == 32
    ensures IsRun(worlds, steps) && worlds[0] == w
    ensures var last := worlds[|steps|];
            && winner in last.procs && last.procs[winner] == Returned(key)
            && loser in last.procs && last.procs[loser] == Returned(key)
            && Published(last) == Some(key)
  {
    hide IsRun;
    var temp := FreshNumber(w.temps.Keys);
    var inode := FreshNumber(w.files.Keys);
    StartIsRun(w);
    worlds, steps := WritesAFile([w], [], winner, key, temp, inode);
    worlds, steps := WritesAFile(worlds, steps, loser, other, temp + 1, inode + 1);
    worlds, steps := LinksAndUnlinks(worlds, steps, winner);
    worlds, steps := LinksAndUnlinks(worlds, steps, loser);
    worlds, steps := ReadsTheKey(worlds, steps, loser);
  }

  lemma StartIsRun(w: World)
    requires Initial(w)
    ensures IsRun([w], [])
  {
  }
}
