/**
  * Any number of processes loading or creating the device key at one path, each file-system call one step. A
  * process may fail or die at any step and leave its temporary file behind.
  */
module DeviceKey {
  import opened Bytes
  import opened Wrappers

  const SEED_LENGTH := 32
  const MAX_INCOMPLETE_READS := 50
  const MAX_TEMP_NAMES := 10

  /** Where a process is. `again` marks the reading made after another process won the creation. */
  datatype Pc =
    | Stating(again: bool, incompleteReads: nat)
    | Opening(again: bool, inode: nat)
    | ReadingBytes(inode: nat)
    | Generating
    | Naming(seed: Bytes, namesTried: nat)
    | Writing(seed: Bytes, temp: nat, inode: nat)
    | Linking(seed: Bytes, temp: nat, inode: nat)
    | Unlinking(seed: Bytes, temp: nat, linked: bool)
    | Returned(seed: Bytes)
    | Stopped

  /** File contents by inode, the key path, the temporary names, and the processes. */
  datatype World = World(files: map<nat, Bytes>, path: Option<nat>, temps: map<nat, nat>, procs: map<nat, Pc>)

  /** What the step leaves open: bytes drawn, names drawn, how much one write call writes, what fails. */
  datatype Move =
    | StatMove
    | OpenMove
    | ReadMove
    | GenerateMove(drawn: Bytes)
    | NameMove(temp: nat, freshInode: nat)
    | WriteMove(upTo: nat)
    | LinkMove
    | UnlinkMove(removed: bool)
    | ErrorMove(removed: bool)
    | StopMove

  function Go(w: World, p: nat, pc: Pc): World {
    w.(procs := w.procs[p := pc])
  }

  /** A read of the path's metadata: nothing there, a complete key, a key still short, or something too long. */
  function Stat(w: World, p: nat, pc: Pc): World
    requires pc.Stating? && (w.path.Some? ==> w.path.value in w.files)
  {
    if w.path.None? then Go(w, p, if pc.again then Stopped else Generating)
    else
      var length := |w.files[w.path.value]|;
      if length == SEED_LENGTH then Go(w, p, Opening(pc.again, w.path.value))
      else if length > SEED_LENGTH then Go(w, p, Stopped)
      else if pc.incompleteReads + 1 >= MAX_INCOMPLETE_READS then Go(w, p, Stopped)
      else Go(w, p, Stating(pc.again, pc.incompleteReads + 1))
  }

  function Open(w: World, p: nat, pc: Pc): World
    requires pc.Opening? && (w.path.Some? ==> w.path.value in w.files)
  {
    if w.path != Some(pc.inode) || |w.files[pc.inode]| != SEED_LENGTH then Go(w, p, Stopped)
    else Go(w, p, ReadingBytes(pc.inode))
  }

  function Read(w: World, p: nat, pc: Pc): World
    requires pc.ReadingBytes? && pc.inode in w.files
  {
    if |w.files[pc.inode]| == SEED_LENGTH then Go(w, p, Returned(w.files[pc.inode])) else Go(w, p, Stopped)
  }

  /** Exclusive creation of a temporary file; a name already taken costs one of the tries. */
  function Name(w: World, p: nat, pc: Pc, temp: nat, freshInode: nat): World
    requires pc.Naming?
  {
    if pc.namesTried >= MAX_TEMP_NAMES then Go(w, p, Stopped)
    else if temp in w.temps then Go(w, p, Naming(pc.seed, pc.namesTried + 1))
    else
      Go(w.(files := w.files[freshInode := []], temps := w.temps[temp := freshInode]), p,
         Writing(pc.seed, temp, freshInode))
  }

  /** The file grows by some of the seed's bytes; with the last of them it is complete and synced. */
  function Write(w: World, p: nat, pc: Pc, upTo: nat): World
    requires pc.Writing? && upTo <= |pc.seed|
  {
    Go(w.(files := w.files[pc.inode := pc.seed[..upTo]]), p,
       if upTo == |pc.seed| then Linking(pc.seed, pc.temp, pc.inode) else pc)
  }

  /** A hard link onto the path succeeds only if nothing is there. */
  function Link(w: World, p: nat, pc: Pc): World
    requires pc.Linking?
  {
    if w.path.None? then Go(w.(path := Some(pc.inode)), p, Unlinking(pc.seed, pc.temp, true))
    else Go(w, p, Unlinking(pc.seed, pc.temp, false))
  }

  function Unlink(w: World, p: nat, pc: Pc, removed: bool): World
    requires pc.Unlinking?
  {
    Go(if removed then w.(temps := w.temps - {pc.temp}) else w, p,
       if pc.linked then Returned(pc.seed) else Stating(true, 0))
  }

  /** A write that fails, or a link that fails for any reason but a taken path: the temporary file goes if it can. */
  function GiveUp(w: World, p: nat, pc: Pc, removed: bool): World
    requires pc.Writing? || pc.Linking?
  {
    Go(if removed then w.(temps := w.temps - {pc.temp}) else w, p, Stopped)
  }

  ghost predicate Enabled(w: World, p: nat, move: Move) {
    && p in w.procs
    && (w.path.Some? ==> w.path.value in w.files)
    && var pc := w.procs[p];
       match move
       case StatMove => pc.Stating?
       case OpenMove => pc.Opening?
       case ReadMove => pc.ReadingBytes? && pc.inode in w.files
       case GenerateMove(drawn) => pc.Generating? && |drawn| == SEED_LENGTH
       case NameMove(_, freshInode) => pc.Naming? && freshInode !in w.files
       case WriteMove(upTo) => pc.Writing? && pc.inode in w.files && |w.files[pc.inode]| < upTo <= |pc.seed|
       case LinkMove => pc.Linking?
       case UnlinkMove(_) => pc.Unlinking?
       case ErrorMove(_) => pc.Writing? || pc.Linking?
       case StopMove => !pc.Returned?
  }

  ghost function Do(w: World, p: nat, move: Move): World
    requires Enabled(w, p, move)
  {
    var pc := w.procs[p];
    match move
    case StatMove => Stat(w, p, pc)
    case OpenMove => Open(w, p, pc)
    case ReadMove => Read(w, p, pc)
    case GenerateMove(drawn) => Go(w, p, Naming(drawn, 0))
    case NameMove(temp, freshInode) => Name(w, p, pc, temp, freshInode)
    case WriteMove(upTo) => Write(w, p, pc, upTo)
    case LinkMove => Link(w, p, pc)
    case UnlinkMove(removed) => Unlink(w, p, pc, removed)
    case ErrorMove(removed) => GiveUp(w, p, pc, removed)
    case StopMove => Go(w, p, Stopped)
  }

  // ---------- What every reachable state satisfies ----------

  /** The stored key, if one has been published. */
  function Published(w: World): Option<Bytes> {
    if w.path.Some? && w.path.value in w.files then Some(w.files[w.path.value]) else None
  }

  ghost predicate ProcInvariant(w: World, pc: Pc) {
    match pc
    case Stating(again, _) => again ==> w.path.Some?
    case Opening(_, inode) => w.path == Some(inode) && inode in w.files
    case ReadingBytes(inode) => w.path == Some(inode) && inode in w.files
    case Generating => true
    case Naming(seed, _) => |seed| == SEED_LENGTH
    case Writing(seed, _, inode) =>
      |seed| == SEED_LENGTH && inode in w.files && w.files[inode] <= seed && w.path != Some(inode)
    case Linking(seed, _, inode) => |seed| == SEED_LENGTH && inode in w.files && w.files[inode] == seed
    case Unlinking(seed, _, linked) =>
      |seed| == SEED_LENGTH && if linked then Published(w) == Some(seed) else w.path.Some?
    case Returned(seed) => Published(w) == Some(seed) && |seed| == SEED_LENGTH
    case Stopped => true
  }

  /** The file a process still has in hand before it is published. */
  function Owned(pc: Pc): Option<nat> {
    match pc
    case Writing(_, _, inode) => Some(inode)
    case Linking(_, _, inode) => Some(inode)
    case _ => None
  }

  /** Files in hand are nobody else's and not at the path. */
  ghost predicate OwnersApart(w: World) {
    && (forall p, q :: p in w.procs && q in w.procs && p != q && Owned(w.procs[p]).Some? ==>
          Owned(w.procs[p]) != Owned(w.procs[q]))
    && (forall p :: p in w.procs && Owned(w.procs[p]).Some? ==>
          w.path != Owned(w.procs[p]) && Owned(w.procs[p]).value in w.files)
  }

  ghost predicate Invariant(w: World) {
    && (w.path.Some? ==> w.path.value in w.files)
    && (forall p :: p in w.procs ==> ProcInvariant(w, w.procs[p]))
    && OwnersApart(w)
  }

  /** A published key stays, byte for byte; files in others' hands and the path are left alone. */
  ghost predicate Keeps(w: World, w': World, p: nat) {
    && (w.path.Some? ==> w'.path == w.path && Published(w') == Published(w))
    && (forall inode :: inode in w.files ==> inode in w'.files)
    && (forall inode :: inode in w.files && (p in w.procs ==> Owned(w.procs[p]) != Some(inode)) ==>
          w'.files[inode] == w.files[inode])
  }

  lemma StepKeepsOthers(w: World, p: nat, move: Move)
    requires Invariant(w) && Enabled(w, p, move)
    ensures Keeps(w, Do(w, p, move), p)
  {
    assert ProcInvariant(w, w.procs[p]);
  }

  lemma OtherProcKept(w: World, w': World, p: nat, q: nat)
    requires Invariant(w) && p in w.procs && q in w.procs && q != p
    requires Keeps(w, w', p)
    requires w'.path == w.path || w'.path == Owned(w.procs[p])
    ensures ProcInvariant(w', w.procs[q])
  {
    assert ProcInvariant(w, w.procs[q]);
  }

  lemma MoverInvariant(w: World, p: nat, move: Move)
    requires Invariant(w) && Enabled(w, p, move)
    ensures p in Do(w, p, move).procs && ProcInvariant(Do(w, p, move), Do(w, p, move).procs[p])
  {
    hide OwnersApart;
    assert ProcInvariant(w, w.procs[p]);
  }

  /** A step keeps the file in hand, takes a fresh one, or lets go of it; only letting go can publish it. */
  lemma OwnerMoves(w: World, p: nat, move: Move)
    requires Invariant(w) && Enabled(w, p, move)
    ensures p in w.procs
    ensures var w' := Do(w, p, move);
            var before, after := Owned(w.procs[p]), Owned(w'.procs[p]);
            && w'.procs.Keys == w.procs.Keys
            && (forall q :: q in w.procs && q != p ==> w'.procs[q] == w.procs[q])
            && (w'.path == w.path || (w'.path == before && after.None?))
            && (after.Some? ==> after.value in w'.files && (after == before || after.value !in w.files))
  {
    hide OwnersApart, Published;
    assert ProcInvariant(w, w.procs[p]);
  }

  lemma StepKeepsOwnersApart(w: World, p: nat, move: Move)
    requires Invariant(w) && Enabled(w, p, move)
    ensures OwnersApart(Do(w, p, move))
  {
    hide Do, Enabled, ProcInvariant, Owned;
    OwnerMoves(w, p, move);
    StepKeepsOthers(w, p, move);
    var w' := Do(w, p, move);
    forall q | q in w'.procs && Owned(w'.procs[q]).Some?
      ensures w'.path != Owned(w'.procs[q]) && Owned(w'.procs[q]).value in w'.files
    {
      if q != p {
        assert w'.procs[q] == w.procs[q];
        assert Owned(w.procs[p]).Some? ==> Owned(w.procs[p]) != Owned(w.procs[q]);
      }
    }
    forall q, r | q in w'.procs && r in w'.procs && q != r && Owned(w'.procs[q]).Some?
      ensures Owned(w'.procs[q]) != Owned(w'.procs[r])
    {
      assert q != p ==> w'.procs[q] == w.procs[q];
      assert r != p ==> w'.procs[r] == w.procs[r];
    }
  }

  lemma StepKeepsInvariant(w: World, p: nat, move: Move)
    requires Invariant(w) && Enabled(w, p, move)
    ensures Invariant(Do(w, p, move))
  {
    hide Do, Enabled, OwnersApart, ProcInvariant;
    var w' := Do(w, p, move);
    StepKeepsOthers(w, p, move);
    StepKeepsOwnersApart(w, p, move);
    MoverInvariant(w, p, move);
    OwnerMoves(w, p, move);
    PathKept(w, p, move);
    forall q | q in w'.procs ensures ProcInvariant(w', w'.procs[q]) {
      if q != p {
        OtherProcKept(w, w', p, q);
      }
    }
  }

  lemma PathKept(w: World, p: nat, move: Move)
    requires Invariant(w) && Enabled(w, p, move)
    ensures p in w.procs
    ensures Do(w, p, move).path.Some? ==> Do(w, p, move).path.value in Do(w, p, move).files
  {
    assert ProcInvariant(w, w.procs[p]);
  }

  // ---------- Whole runs ----------

  /** A start: perhaps a file at the path, perhaps leftover temporary files, and processes about to look. */
  ghost predicate Initial(w: World) {
    && (w.path.Some? ==> w.path.value in w.files)
    && (forall p :: p in w.procs ==> w.procs[p] == Stating(false, 0))
  }

  datatype Step = Step(p: nat, move: Move)

  ghost predicate IsRun(worlds: seq<World>, steps: seq<Step>) {
    && |worlds| == |steps| + 1
    && Initial(worlds[0])
    && forall k :: 0 <= k < |steps| ==>
         && Enabled(worlds[k], steps[k].p, steps[k].move)
         && worlds[k + 1] == Do(worlds[k], steps[k].p, steps[k].move)
  }

  lemma {:induction false} RunInvariant(worlds: seq<World>, steps: seq<Step>, k: nat)
    requires IsRun(worlds, steps) && k <= |steps|
    ensures Invariant(worlds[k])
  {
    hide Do, Enabled;
    if k > 0 {
      RunInvariant(worlds, steps, k - 1);
      StepKeepsInvariant(worlds[k - 1], steps[k - 1].p, steps[k - 1].move);
    }
  }

  /** In every interleaving, once a key is at the path it never changes. */
  lemma {:induction false} PublishedKeyNeverChanges(worlds: seq<World>, steps: seq<Step>, i: nat, j: nat)
    requires IsRun(worlds, steps) && i <= j <= |steps| && Published(worlds[i]).Some?
    ensures worlds[j].path == worlds[i].path && Published(worlds[j]) == Published(worlds[i])
    decreases j
  {
    hide Do, Enabled;
    if i < j {
      PublishedKeyNeverChanges(worlds, steps, i, j - 1);
      RunInvariant(worlds, steps, j - 1);
      StepKeepsOthers(worlds[j - 1], steps[j - 1].p, steps[j - 1].move);
    }
  }

  /** In every interleaving, every call that succeeds returns the one stored key, 32 bytes long. */
  lemma EveryoneReturnsTheStoredKey(worlds: seq<World>, steps: seq<Step>, i: nat, j: nat, p: nat, q: nat)
    requires IsRun(worlds, steps) && i <= j <= |steps|
    requires p in worlds[i].procs && worlds[i].procs[p].Returned?
    requires q in worlds[j].procs && worlds[j].procs[q].Returned?
    ensures worlds[i].procs[p].seed == worlds[j].procs[q].seed
    ensures Published(worlds[j]) == Some(worlds[j].procs[q].seed) && |worlds[j].procs[q].seed| == SEED_LENGTH
  {
    RunInvariant(worlds, steps, i);
    RunInvariant(worlds, steps, j);
    assert ProcInvariant(worlds[i], worlds[i].procs[p]);
    assert ProcInvariant(worlds[j], worlds[j].procs[q]);
    PublishedKeyNeverChanges(worlds, steps, i, j);
  }

  /** A key that was at the path to begin with is the key everyone returns. */
  lemma ExistingKeyIsKept(worlds: seq<World>, steps: seq<Step>, k: nat, p: nat)
    requires IsRun(worlds, steps) && k <= |steps| && Published(worlds[0]).Some?
    requires p in worlds[k].procs && worlds[k].procs[p].Returned?
    ensures Published(worlds[0]) == Some(worlds[k].procs[p].seed)
  {
    RunInvariant(worlds, steps, k);
    assert ProcInvariant(worlds[k], worlds[k].procs[p]);
    PublishedKeyNeverChanges(worlds, steps, 0, k);
  }
}
