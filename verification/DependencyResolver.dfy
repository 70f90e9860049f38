/** Orders feature manifests so that every feature follows what it depends on. */
module DependencyResolver {
  import opened Sorting
  import opened Wrappers

  /** Feature ids and permission names, compared as whole strings. */
  datatype Name = Name(text: string)

  datatype Migration = Migration(version: int, name: string)

  datatype Manifest = Manifest(
    id: Name,
    dependencies: seq<Name>,
    optionalDependencies: Option<seq<Name>>,
    permissions: seq<Name>,
    migrations: seq<Migration>)

  datatype OwnedMigration = OwnedMigration(featureId: Name, migration: Migration)

  datatype ResolvedGraph = ResolvedGraph(
    orderedManifests: seq<Manifest>,
    orderedMigrations: seq<OwnedMigration>)

  datatype ResolveError =
    | DuplicateId(id: Name)
    | PermissionCollision(permission: Name, owner: Name, claimant: Name)
    | MissingDependency(dependent: Name, dependency: Name)
    | CircularDependency(cycle: seq<Name>)

  type Graph = map<Name, Manifest>

  // ---------- What a resolvable set of manifests is, by the manifests' own fields ----------

  ghost predicate UniqueIds(manifests: seq<Manifest>) {
    forall i, j :: 0 <= i < j < |manifests| ==> manifests[i].id != manifests[j].id
  }

  ghost predicate Supplied(manifests: seq<Manifest>, id: Name) {
    exists m :: m in manifests && m.id == id
  }

  /** The one feature requires the other, or would use it and it is supplied. */
  ghost predicate Needs(manifests: seq<Manifest>, a: Name, b: Name) {
    exists m :: m in manifests && m.id == a && UsedBy(manifests, m, b)
  }

  ghost predicate UsedBy(manifests: seq<Manifest>, m: Manifest, id: Name) {
    || id in m.dependencies
    || (m.optionalDependencies.Some? && id in m.optionalDependencies.value && Supplied(manifests, id))
  }

  /** Features each of which needs the next, the last being the first again. */
  ghost predicate NeedsInCircle(manifests: seq<Manifest>, p: seq<Name>) {
    && |p| >= 2
    && p[0] == p[|p| - 1]
    && forall i :: 0 <= i < |p| - 1 ==> Needs(manifests, p[i], p[i + 1])
  }

  /** Whether the one place of a permission comes before the other: in an earlier feature, or earlier in the same. */
  predicate PlacedBefore(i: nat, p: nat, j: nat, q: nat) {
    i < j || (i == j && p < q)
  }

  /** The permission stands in the owner's list and again, later, in the claimant's; an empty owner goes unnoticed. */
  ghost predicate BothDeclare(manifests: seq<Manifest>, name: Name, owner: Name, claimant: Name) {
    && owner != Name("")
    && exists i: nat, p: nat, j: nat, q: nat ::
         && i < |manifests| && p < |manifests[i].permissions| && j < |manifests| && q < |manifests[j].permissions|
         && PlacedBefore(i, p, j, q)
         && manifests[i].permissions[p] == name == manifests[j].permissions[q]
         && manifests[i].id == owner && manifests[j].id == claimant
  }

  ghost predicate Resolvable(manifests: seq<Manifest>) {
    && UniqueIds(manifests)
    && (forall name, owner, claimant :: !BothDeclare(manifests, name, owner, claimant))
    && (forall m, d :: m in manifests && d in m.dependencies ==> Supplied(manifests, d))
    && (forall p :: !NeedsInCircle(manifests, p))
  }

  /** Everything a feature uses stands strictly before it. */
  ghost predicate UsedFeaturesFirst(manifests: seq<Manifest>, order: seq<Manifest>) {
    forall j, id :: 0 <= j < |order| && UsedBy(manifests, order[j], id) ==> exists i :: 0 <= i < j && order[i].id == id
  }

  // ---------- The same by the graph ----------

  function GraphOf(manifests: seq<Manifest>): (g: Graph)
    ensures forall id :: id in g ==> g[id].id == id && g[id] in manifests
    ensures forall m :: m in manifests ==> m.id in g
  {
    if manifests == [] then map[]
    else
      var last := manifests[|manifests| - 1];
      var init := manifests[..|manifests| - 1];
      assert manifests == init + [last];
      GraphOf(init)[last.id := last]
  }

  function Present(g: Graph, ids: seq<Name>): (r: seq<Name>)
    ensures forall id :: id in r <==> id in ids && id in g
  {
    if ids == [] then []
    else (if ids[0] in g then [ids[0]] else []) + Present(g, ids[1..])
  }

  /** Hard dependencies, then the optional ones that are installed. */
  function Dependencies(g: Graph, id: Name): seq<Name>
    requires id in g
  {
    g[id].dependencies
    + match g[id].optionalDependencies { case None => [] case Some(ids) => Present(g, ids) }
  }

  ghost predicate DependsOn(g: Graph, a: Name, b: Name) {
    a in g && b in Dependencies(g, a)
  }

  ghost predicate IsCycle(g: Graph, p: seq<Name>) {
    && |p| >= 2
    && p[0] == p[|p| - 1]
    && forall i :: 0 <= i < |p| - 1 ==> DependsOn(g, p[i], p[i + 1])
  }

  ghost predicate Acyclic(g: Graph) {
    forall p :: !IsCycle(g, p)
  }

  ghost predicate DependenciesPresent(manifests: seq<Manifest>) {
    var g := GraphOf(manifests);
    forall m, d :: m in manifests && d in m.dependencies ==> d in g
  }

  /** A permission as declared: its name and the feature declaring it. */
  datatype Declaration = Declaration(name: Name, owner: Name)

  function DeclaredBy(owner: Name, permissions: seq<Name>): (ds: seq<Declaration>)
    ensures |ds| == |permissions|
    ensures forall k :: 0 <= k < |ds| ==> ds[k] == Declaration(permissions[k], owner)
  {
    seq(|permissions|, k requires 0 <= k < |permissions| => Declaration(permissions[k], owner))
  }

  function Declarations(manifests: seq<Manifest>): seq<Declaration> {
    if manifests == [] then []
    else
      var last := manifests[|manifests| - 1];
      Declarations(manifests[..|manifests| - 1]) + DeclaredBy(last.id, last.permissions)
  }

  /** The owner found for a name is tested for truth, so an owner with an empty id is overlooked. */
  ghost predicate Clash(ds: seq<Declaration>, i: int, j: int) {
    0 <= i < j < |ds| && ds[i].name == ds[j].name && ds[i].owner != Name("")
  }

  ghost predicate ClashBetween(ds: seq<Declaration>, name: Name, owner: Name, claimant: Name) {
    exists i, j :: Clash(ds, i, j) && ds[i] == Declaration(name, owner) && ds[j] == Declaration(name, claimant)
  }

  ghost predicate SharesPermission(manifests: seq<Manifest>) {
    exists i, j :: Clash(Declarations(manifests), i, j)
  }

  ghost predicate GraphResolvable(manifests: seq<Manifest>) {
    && UniqueIds(manifests)
    && !SharesPermission(manifests)
    && DependenciesPresent(manifests)
    && Acyclic(GraphOf(manifests))
  }

  function Ids(manifests: seq<Manifest>): (ids: seq<Name>)
    ensures |ids| == |manifests|
    ensures forall i :: 0 <= i < |ids| ==> ids[i] == manifests[i].id
  {
    seq(|manifests|, i requires 0 <= i < |manifests| => manifests[i].id)
  }

  /** No id repeats, and whatever an id depends on stands strictly earlier. */
  ghost predicate DependenciesFirst(g: Graph, ids: seq<Name>) {
    && (forall i :: 0 <= i < |ids| ==> ids[i] in g)
    && (forall i, j :: 0 <= i < j < |ids| ==> ids[i] != ids[j])
    && (forall i, d :: 0 <= i < |ids| && d in Dependencies(g, ids[i]) ==> d in ids[..i])
  }

  function IndexOf(ids: seq<Name>, id: Name): (i: nat)
    requires id in ids
    ensures i < |ids| && ids[i] == id && id !in ids[..i]
  {
    if ids[0] == id then 0
    else
      assert ids == [ids[0]] + ids[1..];
      1 + IndexOf(ids[1..], id)
  }

  /** Along a walk the positions fall, so nothing ordered this way can lie on a cycle. */
  lemma {:induction false} PositionsFall(g: Graph, ids: seq<Name>, p: seq<Name>, k: nat)
    requires DependenciesFirst(g, ids)
    requires k < |p| && p[0] in ids
    requires forall i :: 0 <= i < |p| - 1 ==> DependsOn(g, p[i], p[i + 1])
    ensures p[k] in ids && IndexOf(ids, p[k]) + k <= IndexOf(ids, p[0])
  {
    if k > 0 {
      PositionsFall(g, ids, p, k - 1);
      var at := IndexOf(ids, p[k - 1]);
      assert DependsOn(g, p[k - 1], p[k - 1 + 1]);
      assert p[k] in ids[..at];
      var j :| 0 <= j < at && ids[j] == p[k];
    }
  }

  lemma OrderedMeansAcyclic(g: Graph, ids: seq<Name>)
    requires DependenciesFirst(g, ids)
    requires forall id :: id in g ==> id in ids
    ensures Acyclic(g)
  {
    forall p ensures !IsCycle(g, p) {
      if IsCycle(g, p) {
        assert DependsOn(g, p[0], p[0 + 1]);
        PositionsFall(g, ids, p, |p| - 1);
      }
    }
  }

  // ---------- The checks made before the search ----------

  lemma GraphOfNext(manifests: seq<Manifest>, n: nat)
    requires n < |manifests|
    ensures GraphOf(manifests[..n + 1]) == GraphOf(manifests[..n])[manifests[n].id := manifests[n]]
  {
    assert manifests[..n + 1][..n] == manifests[..n];
  }

  lemma RepeatedId(manifests: seq<Manifest>, n: nat)
    requires n < |manifests|
    ensures manifests[n].id in GraphOf(manifests[..n])
            <==> exists i :: 0 <= i < n && manifests[i].id == manifests[n].id
  {
    if manifests[n].id in GraphOf(manifests[..n]) {
      var earlier := GraphOf(manifests[..n])[manifests[n].id];
      var i :| 0 <= i < n && manifests[..n][i] == earlier;
      assert manifests[i].id == manifests[n].id;
    }
    forall i | 0 <= i < n && manifests[i].id == manifests[n].id
      ensures manifests[n].id in GraphOf(manifests[..n])
    {
      assert manifests[..n][i] in manifests[..n];
    }
  }

  method IndexManifests(manifests: seq<Manifest>) returns (r: Result<Graph, ResolveError>)
    ensures r.Success? ==> UniqueIds(manifests) && r.value == GraphOf(manifests)
    ensures r.Failure? ==>
              && r.error.DuplicateId?
              && exists i, j :: 0 <= i < j < |manifests| && manifests[i].id == manifests[j].id == r.error.id
  {
    hide GraphOf;
    var manifestMap: Graph := map[];
    for n := 0 to |manifests|
      invariant manifestMap == GraphOf(manifests[..n])
      invariant forall i, j :: 0 <= i < j < n ==> manifests[i].id != manifests[j].id
    {
      var m := manifests[n];
      RepeatedId(manifests, n);
      if m.id in manifestMap {
        return Failure(DuplicateId(m.id));
      }
      GraphOfNext(manifests, n);
      manifestMap := manifestMap[m.id := m];
    }
    assert manifests[..|manifests|] == manifests;
    return Success(manifestMap);
  }

  /** What the owner table holds after the declarations `ds`, none of which clashed. */
  ghost predicate OwnersOf(ds: seq<Declaration>, owners: map<Name, Name>) {
    && (forall i, j :: !Clash(ds, i, j))
    && (forall k :: 0 <= k < |ds| ==> ds[k].name in owners
                                      && (ds[k].owner != Name("") ==> owners[ds[k].name] == ds[k].owner))
    && (forall name :: name in owners ==> Declaration(name, owners[name]) in ds)
  }

  lemma NoClashExtends(seen: seq<Declaration>, owners: map<Name, Name>, d: Declaration)
    requires OwnersOf(seen, owners)
    requires d.name in owners ==> owners[d.name] == Name("")
    ensures OwnersOf(seen + [d], owners[d.name := d.owner])
  {
    var next := seen + [d];
    var owners' := owners[d.name := d.owner];
    forall i, j ensures !Clash(next, i, j) {
      assert !Clash(seen, i, j);
    }
    forall name | name in owners' ensures Declaration(name, owners'[name]) in next {
      if name == d.name {
        assert next[|seen|] == Declaration(name, owners'[name]);
      } else {
        assert Declaration(name, owners[name]) in seen;
      }
    }
  }

  lemma ClashFound(manifests: seq<Manifest>, seen: seq<Declaration>, owners: map<Name, Name>, d: Declaration)
    requires OwnersOf(seen, owners)
    requires d.name in owners && owners[d.name] != Name("")
    requires seen + [d] <= Declarations(manifests)
    ensures ClashBetween(Declarations(manifests), d.name, owners[d.name], d.owner)
  {
    var all := Declarations(manifests);
    assert Declaration(d.name, owners[d.name]) in seen;
    var i :| 0 <= i < |seen| && seen[i] == Declaration(d.name, owners[d.name]);
    assert all[i] == (seen + [d])[i] && all[|seen|] == (seen + [d])[|seen|];
    assert Clash(all, i, |seen|);
  }

  method CheckPermissions(manifests: seq<Manifest>) returns (r: Option<ResolveError>)
    ensures r.None? <==> !SharesPermission(manifests)
    ensures r.Some? ==>
              && r.value.PermissionCollision?
              && ClashBetween(Declarations(manifests), r.value.permission, r.value.owner, r.value.claimant)
  {
    var owners: map<Name, Name> := map[];
    ghost var seen: seq<Declaration> := [];
    for n := 0 to |manifests|
      invariant seen == Declarations(manifests[..n])
      invariant OwnersOf(seen, owners)
    {
      var manifest := manifests[n];
      ghost var own := DeclaredBy(manifest.id, manifest.permissions);
      ghost var before := seen;
      assert manifests[..n + 1][..n] == manifests[..n];
      DeclarationsPrefix(manifests, n + 1);
      for k := 0 to |manifest.permissions|
        invariant seen == before + own[..k]
        invariant OwnersOf(seen, owners)
      {
        var permission := manifest.permissions[k];
        ghost var d := Declaration(permission, manifest.id);
        assert seen + [d] == before + own[..k + 1];
        if permission in owners && owners[permission] != Name("") {
          ClashFound(manifests, seen, owners, d);
          return Some(PermissionCollision(permission, owners[permission], manifest.id));
        }
        NoClashExtends(seen, owners, d);
        owners := owners[permission := manifest.id];
        seen := seen + [d];
      }
      assert own[..|own|] == own;
    }
    assert manifests[..|manifests|] == manifests;
    return None;
  }

  lemma {:induction false} DeclarationsPrefix(manifests: seq<Manifest>, n: nat)
    requires n <= |manifests|
    ensures Declarations(manifests[..n]) <= Declarations(manifests)
    decreases |manifests| - n
  {
    if n < |manifests| {
      DeclarationsPrefix(manifests, n + 1);
      assert manifests[..n + 1][..n] == manifests[..n];
    } else {
      assert manifests[..n] == manifests;
    }
  }

  ghost predicate DeclaredTwice(manifests: seq<Manifest>) {
    var ds := Declarations(manifests);
    exists i, j :: 0 <= i < j < |ds| && ds[i].name == ds[j].name
  }

  /** Two features declare the same permission and still resolve, because the first one's id is the empty text. */
  lemma EmptyOwnerGoesUnnoticed(claimant: Name, permission: Name)
    requires claimant != Name("")
    ensures var manifests := [Manifest(Name(""), [], None, [permission], []),
                              Manifest(claimant, [], None, [permission], [])];
            DeclaredTwice(manifests) && Resolvable(manifests)
  {
    var a := Manifest(Name(""), [], None, [permission], []);
    var b := Manifest(claimant, [], None, [permission], []);
    TwoDeclarations(a, b, permission);
    var ds := Declarations([a, b]);
    assert ds[0].name == ds[1].name;
    NothingNeeded([a, b]);
    ResolvableByGraph([a, b]);
  }

  lemma TwoDeclarations(a: Manifest, b: Manifest, permission: Name)
    requires a.permissions == [permission] && b.permissions == [permission]
    ensures Declarations([a, b]) == [Declaration(permission, a.id), Declaration(permission, b.id)]
  {
    assert [a, b][..1] == [a] && [a][..0] == [];
    assert Declarations([a]) == [Declaration(permission, a.id)];
  }

  lemma NothingNeeded(manifests: seq<Manifest>)
    requires forall m :: m in manifests ==> m.dependencies == [] && m.optionalDependencies.None?
    ensures Acyclic(GraphOf(manifests))
  {
    var g := GraphOf(manifests);
    assert forall x, y :: !DependsOn(g, x, y);
    assert forall p :: IsCycle(g, p) ==> DependsOn(g, p[0], p[1]);
  }

  method CheckDependencies(manifests: seq<Manifest>, g: Graph) returns (r: Option<ResolveError>)
    requires g == GraphOf(manifests)
    ensures r.None? <==> DependenciesPresent(manifests)
    ensures r.Some? ==>
              && r.value.MissingDependency?
              && r.value.dependency !in g
              && exists m :: m in manifests && m.id == r.value.dependent && r.value.dependency in m.dependencies
  {
    hide GraphOf;
    for n := 0 to |manifests|
      invariant forall i, d :: 0 <= i < n && d in manifests[i].dependencies ==> d in g
    {
      var manifest := manifests[n];
      for k := 0 to |manifest.dependencies|
        invariant forall j :: 0 <= j < k ==> manifest.dependencies[j] in g
      {
        var dependency := manifest.dependencies[k];
        if dependency !in g {
          assert manifest in manifests;
          return Some(MissingDependency(manifest.id, dependency));
        }
      }
    }
    return None;
  }

  // ---------- The depth-first search ----------

  datatype Mark = Visiting | Visited

  datatype Frame = Frame(id: Name, dependencies: seq<Name>, nextDependency: nat)

  ghost predicate Closed(g: Graph) {
    && (forall id :: id in g ==> g[id].id == id)
    && (forall id, d :: id in g && d in Dependencies(g, id) ==> d in g)
  }

  ghost predicate OrderInvariant(g: Graph, visited: map<Name, Mark>, order: seq<Manifest>) {
    && (forall i :: 0 <= i < |order| ==> order[i].id in g && order[i] == g[order[i].id])
    && DependenciesFirst(g, Ids(order))
    && (forall id :: id in visited ==> id in g)
    && (forall id :: id in visited && visited[id].Visited? <==> id in Ids(order))
  }

  ghost predicate FrameInvariant(g: Graph, frame: Frame) {
    && frame.id in g
    && frame.dependencies == Dependencies(g, frame.id)
    && frame.nextDependency <= |frame.dependencies|
  }

  /** The stack mirrors the path, and the path is exactly what is being visited. */
  ghost predicate OnPath(g: Graph, visited: map<Name, Mark>, stack: seq<Frame>, path: seq<Name>) {
    && |path| == |stack|
    && (forall k :: 0 <= k < |stack| ==> FrameInvariant(g, stack[k]) && path[k] == stack[k].id)
    && (forall i, j :: 0 <= i < j < |path| ==> path[i] != path[j])
    && (forall id :: id in visited && visited[id].Visiting? <==> id in path)
  }

  /** The stack is a walk: the last dependency a frame consumed is the frame above it. */
  ghost predicate Linked(stack: seq<Frame>) {
    forall k :: 0 <= k < |stack| - 1 ==>
                  && 0 < stack[k].nextDependency <= |stack[k].dependencies|
                  && stack[k].dependencies[stack[k].nextDependency - 1] == stack[k + 1].id
  }

  /** Whatever a frame consumed earlier is finished. */
  ghost predicate EarlierFinished(visited: map<Name, Mark>, stack: seq<Frame>) {
    forall k, j :: 0 <= k < |stack| && 0 <= j < Settled(stack, k) && j < |stack[k].dependencies| ==>
                     && stack[k].dependencies[j] in visited
                     && visited[stack[k].dependencies[j]].Visited?
  }

  ghost predicate StackInvariant(g: Graph, visited: map<Name, Mark>, stack: seq<Frame>, path: seq<Name>) {
    OnPath(g, visited, stack, path) && Linked(stack) && EarlierFinished(visited, stack)
  }

  ghost function Settled(stack: seq<Frame>, k: nat): int
    requires k < |stack|
  {
    if k == |stack| - 1 then stack[k].nextDependency else stack[k].nextDependency - 1
  }

  lemma ClosingEdgeMakesCycle(g: Graph, visited: map<Name, Mark>, stack: seq<Frame>, path: seq<Name>, at: nat, d: Name)
    requires StackInvariant(g, visited, stack, path)
    requires at < |path| && path[at] == d
    requires d in stack[|stack| - 1].dependencies
    ensures IsCycle(g, path[at..] + [d])
  {
    var p := path[at..] + [d];
    forall i | 0 <= i < |p| - 1 ensures DependsOn(g, p[i], p[i + 1]) {
      assert stack[at + i].id == p[i];
      if i < |p| - 2 {
        assert p[i + 1] == path[at + i + 1];
        assert stack[at + i].dependencies[stack[at + i].nextDependency - 1] == p[i + 1];
      }
    }
  }

  lemma IdsOfAppend(order: seq<Manifest>, m: Manifest)
    ensures Ids(order + [m]) == Ids(order) + [m.id]
  {
  }

  lemma FinishingKeepsOrder(g: Graph, visited: map<Name, Mark>, order: seq<Manifest>, id: Name)
    requires Closed(g) && OrderInvariant(g, visited, order)
    requires id in visited && visited[id].Visiting?
    requires forall d :: d in Dependencies(g, id) ==> d in visited && visited[d].Visited?
    ensures OrderInvariant(g, visited[id := Visited], order + [g[id]])
  {
    var order' := order + [g[id]];
    var ids := Ids(order);
    IdsOfAppend(order, g[id]);
    var ids' := Ids(order');
    assert id !in ids;
    forall i, d | 0 <= i < |ids'| && d in Dependencies(g, ids'[i]) ensures d in ids'[..i] {
      if i < |ids| {
        assert ids'[..i] == ids[..i];
      } else {
        assert ids'[..i] == ids;
      }
    }
  }

  ghost predicate Extends(g: Graph, visited: map<Name, Mark>, stack: seq<Frame>, path: seq<Name>) {
    stack != [] && StackInvariant(g, visited, stack, path)
  }

  /** Consuming a finished dependency moves only the top frame's cursor. */
  lemma AdvanceKeepsStack(g: Graph, visited: map<Name, Mark>, stack: seq<Frame>, path: seq<Name>)
    requires Extends(g, visited, stack, path)
    requires var f := stack[|stack| - 1];
             && f.nextDependency < |f.dependencies|
             && f.dependencies[f.nextDependency] in visited
             && visited[f.dependencies[f.nextDependency]].Visited?
    ensures StackInvariant(g, visited, Advanced(stack), path)
  {
    hide Dependencies;
    var stack' := Advanced(stack);
    forall k, j | 0 <= k < |stack'| && 0 <= j < Settled(stack', k) && j < |stack'[k].dependencies|
      ensures stack'[k].dependencies[j] in visited && visited[stack'[k].dependencies[j]].Visited?
    {
      assert j < Settled(stack, k) || (k == |stack| - 1 && j == stack[k].nextDependency);
    }
  }

  /** The stack with its top cursor moved one dependency on. */
  function Advanced(stack: seq<Frame>): (r: seq<Frame>)
    requires stack != []
    ensures |r| == |stack|
  {
    var f := stack[|stack| - 1];
    stack[|stack| - 1 := f.(nextDependency := f.nextDependency + 1)]
  }

  lemma PushKeepsStack(g: Graph, visited: map<Name, Mark>, stack: seq<Frame>, path: seq<Name>, d: Name)
    requires Closed(g) && Extends(g, visited, stack, path)
    requires d in g && d !in visited
    requires var f := stack[|stack| - 1];
             f.nextDependency < |f.dependencies| && f.dependencies[f.nextDependency] == d
    ensures StackInvariant(g, visited[d := Visiting], Advanced(stack) + [Frame(d, Dependencies(g, d), 0)], path + [d])
  {
    hide Dependencies;
    var visited' := visited[d := Visiting];
    var stack' := Advanced(stack) + [Frame(d, Dependencies(g, d), 0)];
    var path' := path + [d];
    assert OnPath(g, visited', stack', path') by {
      forall k | 0 <= k < |stack'| ensures FrameInvariant(g, stack'[k]) && path'[k] == stack'[k].id {
        if k < |stack| {
          assert FrameInvariant(g, stack[k]);
        }
      }
      assert forall id :: id in path' <==> id in path || id == d;
    }
    assert EarlierFinished(visited', stack') by {
      forall k, j | 0 <= k < |stack'| && 0 <= j < Settled(stack', k) && j < |stack'[k].dependencies|
        ensures stack'[k].dependencies[j] in visited' && visited'[stack'[k].dependencies[j]].Visited?
      {
        assert k < |stack| && j < Settled(stack, k) && stack'[k].dependencies == stack[k].dependencies;
      }
    }
  }

  lemma PopKeepsStack(g: Graph, visited: map<Name, Mark>, stack: seq<Frame>, path: seq<Name>)
    requires Extends(g, visited, stack, path)
    ensures var top := |stack| - 1;
            StackInvariant(g, visited[stack[top].id := Visited], stack[..top], path[..top])
  {
    hide Dependencies;
    var top := |stack| - 1;
    var id0 := stack[top].id;
    var visited' := visited[id0 := Visited];
    var stack' := stack[..top];
    assert OnPath(g, visited', stack', path[..top]) by {
      assert path == path[..top] + [id0];
      assert forall id :: id in path <==> id in path[..top] || id == id0;
    }
    assert EarlierFinished(visited', stack') by {
      forall k, j | 0 <= k < |stack'| && 0 <= j < Settled(stack', k) && j < |stack'[k].dependencies|
        ensures stack'[k].dependencies[j] in visited' && visited'[stack'[k].dependencies[j]].Visited?
      {
        assert j < Settled(stack, k) || k + 1 == top;
      }
    }
  }

  lemma MarkingKeepsOrder(g: Graph, visited: map<Name, Mark>, order: seq<Manifest>, d: Name)
    requires OrderInvariant(g, visited, order) && d in g && d !in visited
    ensures OrderInvariant(g, visited[d := Visiting], order)
  {
  }

  /** Every dependency of a frame whose cursor has reached the end is finished. */
  lemma ExhaustedMeansFinished(g: Graph, visited: map<Name, Mark>, stack: seq<Frame>, path: seq<Name>)
    requires Extends(g, visited, stack, path)
    requires var f := stack[|stack| - 1]; f.nextDependency == |f.dependencies|
    ensures var id := stack[|stack| - 1].id;
            && id in g && id in visited && visited[id].Visiting?
            && forall d :: d in Dependencies(g, id) ==> d in visited && visited[d].Visited?
  {
    var top := |stack| - 1;
    assert FrameInvariant(g, stack[top]);
    assert path[top] in path;
    forall d | d in Dependencies(g, stack[top].id) ensures d in visited && visited[d].Visited? {
      var j :| 0 <= j < |stack[top].dependencies| && stack[top].dependencies[j] == d;
      assert j < Settled(stack, top);
    }
  }

  /** What the loop reads off the top frame. */
  lemma TopFrame(g: Graph, visited: map<Name, Mark>, stack: seq<Frame>, path: seq<Name>)
    requires Closed(g) && Extends(g, visited, stack, path)
    ensures |path| == |stack| && path[|path| - 1] == stack[|stack| - 1].id
    ensures var f := stack[|stack| - 1];
            && f.id in g && f.id in visited
            && f.nextDependency <= |f.dependencies|
            && forall d :: d in f.dependencies ==> d in g
    ensures forall id :: id in visited && visited[id].Visiting? ==> id in path
  {
    assert FrameInvariant(g, stack[|stack| - 1]);
    assert path[|path| - 1] in path;
  }

  lemma NothingVisiting(g: Graph, visited: map<Name, Mark>, stack: seq<Frame>, path: seq<Name>)
    requires StackInvariant(g, visited, stack, path) && stack == []
    ensures forall id :: id in visited ==> visited[id].Visited?
  {
    assert path == [];
  }

  lemma RootStack(g: Graph, visited: map<Name, Mark>, order: seq<Manifest>, root: Name)
    requires root in g && root !in visited && AtRest(g, visited, order)
    ensures OrderInvariant(g, visited[root := Visiting], order)
    ensures StackInvariant(g, visited[root := Visiting], [Frame(root, Dependencies(g, root), 0)], [root])
  {
    hide Dependencies;
    MarkingKeepsOrder(g, visited, order, root);
    assert FrameInvariant(g, Frame(root, Dependencies(g, root), 0));
  }

  /** Between roots nothing is being visited. */
  ghost predicate AtRest(g: Graph, visited: map<Name, Mark>, order: seq<Manifest>) {
    && OrderInvariant(g, visited, order)
    && forall id :: id in visited ==> visited[id].Visited?
  }

  /** Visits everything reachable from an unvisited root, depth first. */
  method Visit(g: Graph, root: Name, visited0: map<Name, Mark>, order0: seq<Manifest>)
    returns (r: Result<(map<Name, Mark>, seq<Manifest>), ResolveError>)
    requires Closed(g) && root in g && root !in visited0
    requires AtRest(g, visited0, order0)
    ensures r.Success? ==>
              && AtRest(g, r.value.0, r.value.1)
              && visited0.Keys <= r.value.0.Keys
              && root in r.value.0
    ensures r.Failure? ==> r.error.CircularDependency? && IsCycle(g, r.error.cycle)
  {
    hide Dependencies, StackInvariant, OrderInvariant;
    var visited, order := visited0, order0;
    var path := [root];
    var stack := [Frame(root, Dependencies(g, root), 0)];
    RootStack(g, visited, order, root);
    visited := visited[root := Visiting];
    while |stack| > 0
      invariant OrderInvariant(g, visited, order)
      invariant StackInvariant(g, visited, stack, path)
      invariant visited0.Keys <= visited.Keys && root in visited
      decreases g.Keys - visited.Keys, |stack|,
                if stack == [] then 0
                else |stack[|stack| - 1].dependencies| - stack[|stack| - 1].nextDependency
    {
      var top := |stack| - 1;
      var frame := stack[top];
      TopFrame(g, visited, stack, path);
      if frame.nextDependency < |frame.dependencies| {
        var dependencyId := frame.dependencies[frame.nextDependency];
        if dependencyId in visited {
          if visited[dependencyId].Visiting? {
            var cycleStart := IndexOf(path, dependencyId);
            ClosingEdgeMakesCycle(g, visited, stack, path, cycleStart, dependencyId);
            return Failure(CircularDependency(path[cycleStart..] + [dependencyId]));
          }
          AdvanceKeepsStack(g, visited, stack, path);
          stack := Advanced(stack);
        } else {
          PushKeepsStack(g, visited, stack, path, dependencyId);
          MarkingKeepsOrder(g, visited, order, dependencyId);
          assert dependencyId in g.Keys - visited.Keys;
          visited := visited[dependencyId := Visiting];
          path := path + [dependencyId];
          stack := Advanced(stack) + [Frame(dependencyId, Dependencies(g, dependencyId), 0)];
        }
      } else {
        ExhaustedMeansFinished(g, visited, stack, path);
        FinishingKeepsOrder(g, visited, order, frame.id);
        PopKeepsStack(g, visited, stack, path);
        assert visited[frame.id := Visited].Keys == visited.Keys;
        visited := visited[frame.id := Visited];
        order := order + [g[frame.id]];
        stack := stack[..top];
        path := path[..top];
      }
    }
    NothingVisiting(g, visited, stack, path);
    return Success((visited, order));
  }

  /** The search from every root in turn: an order of all features, or a cycle. */
  method Search(manifests: seq<Manifest>, g: Graph) returns (r: Result<seq<Manifest>, ResolveError>)
    requires Closed(g)
    requires forall m :: m in manifests ==> m.id in g
    ensures r.Success? ==> exists visited :: AtRest(g, visited, r.value)
                                             && forall m :: m in manifests ==> m.id in visited
    ensures r.Failure? ==> r.error.CircularDependency? && IsCycle(g, r.error.cycle)
  {
    NothingDone(g);
    hide AtRest;
    var visited: map<Name, Mark> := map[];
    var order: seq<Manifest> := [];
    for n := 0 to |manifests|
      invariant AtRest(g, visited, order)
      invariant forall m :: m in manifests[..n] ==> m.id in visited
    {
      var m := manifests[n];
      if m.id !in visited {
        var step := Visit(g, m.id, visited, order);
        if step.Failure? {
          return Failure(step.error);
        }
        visited, order := step.value.0, step.value.1;
      }
      assert manifests[..n + 1] == manifests[..n] + [m];
    }
    assert manifests[..|manifests|] == manifests;
    return Success(order);
  }

  lemma NothingDone(g: Graph)
    ensures AtRest(g, map[], [])
  {
  }

  lemma CompleteSearch(manifests: seq<Manifest>, g: Graph, visited: map<Name, Mark>, order: seq<Manifest>)
    requires UniqueIds(manifests) && g == GraphOf(manifests)
    requires AtRest(g, visited, order)
    requires forall m :: m in manifests ==> m.id in visited
    ensures Acyclic(g)
    ensures DependenciesFirst(g, Ids(order))
    ensures multiset(order) == multiset(manifests)
  {
    forall id | id in g ensures id in Ids(order) {
      assert g[id] in manifests;
    }
    OrderedMeansAcyclic(g, Ids(order));
    SameManifests(manifests, g, order);
  }

  lemma {:induction false} DistinctCounts(s: seq<Manifest>)
    requires UniqueIds(s)
    ensures forall m :: multiset(s)[m] == if m in s then 1 else 0
  {
    if s != [] {
      var last := s[|s| - 1];
      var init := s[..|s| - 1];
      DistinctCounts(init);
      assert s == init + [last];
      assert last !in init;
    }
  }

  lemma SameManifests(manifests: seq<Manifest>, g: Graph, order: seq<Manifest>)
    requires UniqueIds(manifests) && g == GraphOf(manifests)
    requires DependenciesFirst(g, Ids(order))
    requires forall i :: 0 <= i < |order| ==> order[i].id in g && order[i] == g[order[i].id]
    requires forall id :: id in g ==> id in Ids(order)
    ensures multiset(order) == multiset(manifests)
  {
    forall i, j | 0 <= i < j < |order| ensures order[i].id != order[j].id {
      assert Ids(order)[i] != Ids(order)[j];
    }
    DistinctCounts(manifests);
    DistinctCounts(order);
    forall m | m in manifests ensures m in order {
      assert m.id in Ids(order);
      var i :| 0 <= i < |order| && Ids(order)[i] == m.id;
      SameIdSameManifest(manifests, order[i], m);
    }
  }

  lemma SameIdSameManifest(manifests: seq<Manifest>, a: Manifest, b: Manifest)
    requires UniqueIds(manifests) && a in manifests && b in manifests && a.id == b.id
    ensures a == b
  {
    var i :| 0 <= i < |manifests| && manifests[i] == a;
    var j :| 0 <= j < |manifests| && manifests[j] == b;
    assert !(i < j) && !(j < i);
  }

  // ---------- Collecting migrations ----------

  const ByVersion := (a: Migration, b: Migration) => a.version <= b.version

  /** A feature's migrations ascend by version, and equal versions stay in the order they were declared. */
  lemma MigrationsAscend(ms: seq<Migration>, v: int)
    ensures forall i, j :: 0 <= i < j < |Sort(ms, ByVersion)| ==>
              Sort(ms, ByVersion)[i].version <= Sort(ms, ByVersion)[j].version
    ensures multiset(Sort(ms, ByVersion)) == multiset(ms)
    ensures Matching(Sort(ms, ByVersion), (m: Migration) => m.version == v) ==
            Matching(ms, (m: Migration) => m.version == v)
  {
    SortIsStable(ms, ByVersion, (m: Migration) => m.version == v);
  }

  function Owned(featureId: Name, ms: seq<Migration>): (r: seq<OwnedMigration>)
    ensures |r| == |ms|
    ensures forall i :: 0 <= i < |r| ==> r[i] == OwnedMigration(featureId, ms[i])
  {
    seq(|ms|, i requires 0 <= i < |ms| => OwnedMigration(featureId, ms[i]))
  }

  function MigrationsOf(order: seq<Manifest>): seq<OwnedMigration> {
    if order == [] then []
    else
      var last := order[|order| - 1];
      MigrationsOf(order[..|order| - 1]) + Owned(last.id, Sort(last.migrations, ByVersion))
  }

  method CollectMigrations(order: seq<Manifest>) returns (collected: seq<OwnedMigration>)
    ensures collected == MigrationsOf(order)
  {
    collected := [];
    for n := 0 to |order|
      invariant collected == MigrationsOf(order[..n])
    {
      var manifest := order[n];
      var sorted := Sort(manifest.migrations, ByVersion);
      ghost var before := collected;
      assert order[..n + 1][..n] == order[..n];
      for k := 0 to |sorted|
        invariant collected == before + Owned(manifest.id, sorted)[..k]
      {
        collected := collected + [OwnedMigration(manifest.id, sorted[k])];
      }
      assert Owned(manifest.id, sorted)[..|sorted|] == Owned(manifest.id, sorted);
    }
    assert order[..|order|] == order;
  }

  lemma {:induction false} MigrationsComeFromOrder(order: seq<Manifest>)
    ensures forall k :: 0 <= k < |MigrationsOf(order)| ==> MigrationsOf(order)[k].featureId in Ids(order)
  {
    if order != [] {
      var init := order[..|order| - 1];
      MigrationsComeFromOrder(init);
      assert order == init + [order[|order| - 1]];
      IdsOfAppend(init, order[|order| - 1]);
    }
  }

  /** The migrations of one feature, in the order they come in. */
  function OfFeature(ms: seq<OwnedMigration>, id: Name): seq<Migration> {
    if ms == [] then []
    else
      var n := |ms| - 1;
      OfFeature(ms[..n], id) + if ms[n].featureId == id then [ms[n].migration] else []
  }

  lemma {:induction false} OfFeatureAppend(a: seq<OwnedMigration>, b: seq<OwnedMigration>, id: Name)
    ensures OfFeature(a + b, id) == OfFeature(a, id) + OfFeature(b, id)
  {
    if b == [] {
      assert a + b == a;
    } else {
      OfFeatureAppend(a, b[..|b| - 1], id);
      assert (a + b)[..|a + b| - 1] == a + b[..|b| - 1];
    }
  }

  lemma {:induction false} OfFeatureOwned(owner: Name, ms: seq<Migration>, id: Name)
    ensures OfFeature(Owned(owner, ms), id) == if owner == id then ms else []
  {
    if ms != [] {
      var n := |ms| - 1;
      OfFeatureOwned(owner, ms[..n], id);
      assert Owned(owner, ms)[..n] == Owned(owner, ms[..n]);
      assert ms == ms[..n] + [ms[n]];
    }
  }

  /** Whatever the order, each feature has all its own migrations in it, sorted, and nothing is added. */
  lemma {:induction false} EachFeatureKeepsItsMigrations(order: seq<Manifest>, id: Name)
    requires UniqueIds(order)
    ensures forall m :: m in order && m.id == id ==> OfFeature(MigrationsOf(order), id) == Sort(m.migrations, ByVersion)
    ensures (forall m :: m in order ==> m.id != id) ==> OfFeature(MigrationsOf(order), id) == []
  {
    if order != [] {
      var n := |order| - 1;
      var init, last := order[..n], order[n];
      EachFeatureKeepsItsMigrations(init, id);
      OfFeatureAppend(MigrationsOf(init), Owned(last.id, Sort(last.migrations, ByVersion)), id);
      OfFeatureOwned(last.id, Sort(last.migrations, ByVersion), id);
      assert forall m :: m in order <==> m in init || m == last;
      if last.id == id {
        assert forall m :: m in init ==> m.id != id;
      }
    }
  }

  lemma FirstFeaturesFirst(g: Graph, order: seq<Manifest>)
    requires DependenciesFirst(g, Ids(order)) && order != []
    ensures DependenciesFirst(g, Ids(order[..|order| - 1]))
    ensures Ids(order)[..|order| - 1] == Ids(order[..|order| - 1])
  {
    var init := order[..|order| - 1];
    assert order == init + [order[|order| - 1]];
    IdsOfAppend(init, order[|order| - 1]);
    assert Ids(order)[..|init|] == Ids(init);
    forall i, d | 0 <= i < |init| && d in Dependencies(g, Ids(init)[i]) ensures d in Ids(init)[..i] {
      assert Ids(order)[i] == Ids(init)[i] && Ids(order)[..i] == Ids(init)[..i];
    }
    forall i, j | 0 <= i < j < |init| ensures Ids(init)[i] != Ids(init)[j] {
      assert Ids(order)[i] != Ids(order)[j];
    }
  }

  /** The last feature is needed by none in the order. */
  lemma LastIsNotNeeded(g: Graph, order: seq<Manifest>, id: Name)
    requires DependenciesFirst(g, Ids(order)) && order != [] && id in Ids(order)
    ensures !DependsOn(g, id, order[|order| - 1].id)
  {
    var n := |order| - 1;
    var i :| 0 <= i <= n && Ids(order)[i] == id;
    assert order[n].id == Ids(order)[n] && Ids(order)[n] !in Ids(order)[..i];
  }

  /** A feature's migrations all come after the migrations of everything it depends on. */
  lemma {:induction false} MigrationsFollowDependencies(g: Graph, order: seq<Manifest>, p: nat, q: nat)
    requires DependenciesFirst(g, Ids(order))
    requires p < |MigrationsOf(order)| && q < |MigrationsOf(order)|
    requires DependsOn(g, MigrationsOf(order)[p].featureId, MigrationsOf(order)[q].featureId)
    ensures q < p
  {
    hide DependenciesFirst, DependsOn, Sort;
    var init := order[..|order| - 1];
    var earlier := MigrationsOf(init);
    FirstFeaturesFirst(g, order);
    MigrationsComeFromOrder(order);
    if q < |earlier| {
      if p < |earlier| {
        MigrationsFollowDependencies(g, init, p, q);
      }
    } else {
      LastIsNotNeeded(g, order, MigrationsOf(order)[p].featureId);
    }
  }

  // ---------- The graph says what the manifests say ----------

  lemma ManifestIsSupplied(manifests: seq<Manifest>, id: Name)
    ensures id in GraphOf(manifests) ==> GraphOf(manifests)[id] in manifests
  {
  }

  lemma SuppliedInGraph(manifests: seq<Manifest>, id: Name)
    ensures Supplied(manifests, id) <==> id in GraphOf(manifests)
  {
  }

  lemma UsedByManifest(manifests: seq<Manifest>, m: Manifest, id: Name)
    requires UniqueIds(manifests) && m in manifests
    ensures UsedBy(manifests, m, id) <==> DependsOn(GraphOf(manifests), m.id, id)
  {
    var g := GraphOf(manifests);
    SameIdSameManifest(manifests, g[m.id], m);
    SuppliedInGraph(manifests, id);
  }

  lemma NeedsInGraph(manifests: seq<Manifest>, a: Name, b: Name)
    requires UniqueIds(manifests)
    ensures Needs(manifests, a, b) <==> DependsOn(GraphOf(manifests), a, b)
  {
    hide DependsOn, UsedBy;
    forall m | m in manifests && m.id == a ensures UsedBy(manifests, m, b) <==> DependsOn(GraphOf(manifests), a, b) {
      UsedByManifest(manifests, m, b);
    }
    if DependsOn(GraphOf(manifests), a, b) {
      DependentIsThere(GraphOf(manifests), a, b);
      assert GraphOf(manifests)[a] in manifests;
    }
  }

  lemma DependentIsThere(g: Graph, a: Name, b: Name)
    ensures DependsOn(g, a, b) ==> a in g
  {
  }

  lemma CirclesInGraph(manifests: seq<Manifest>, p: seq<Name>)
    requires UniqueIds(manifests)
    ensures NeedsInCircle(manifests, p) <==> IsCycle(GraphOf(manifests), p)
  {
    hide Needs, DependsOn;
    forall i | 0 <= i < |p| - 1
      ensures Needs(manifests, p[i], p[i + 1]) <==> DependsOn(GraphOf(manifests), p[i], p[i + 1])
    {
      NeedsInGraph(manifests, p[i], p[i + 1]);
    }
  }

  lemma OrderByGraph(manifests: seq<Manifest>, order: seq<Manifest>)
    requires UniqueIds(manifests) && multiset(order) == multiset(manifests)
    requires DependenciesFirst(GraphOf(manifests), Ids(order))
    ensures UsedFeaturesFirst(manifests, order)
  {
    hide UsedBy;
    PermutationKeepsElements(order, manifests);
    forall j, id | 0 <= j < |order| && UsedBy(manifests, order[j], id)
      ensures exists i :: 0 <= i < j && order[i].id == id
    {
      UsedByManifest(manifests, order[j], id);
      assert Ids(order)[j] == order[j].id;
      var i :| 0 <= i < j && Ids(order)[..j][i] == id;
      assert order[i].id == id;
    }
  }

  lemma {:induction false} DeclaredSomewhere(manifests: seq<Manifest>, d: Declaration)
    ensures d in Declarations(manifests) <==> DeclaredBefore(manifests, d.name, d.owner)
  {
    if manifests != [] {
      var n := |manifests| - 1;
      var init, last := manifests[..n], manifests[n];
      DeclaredSomewhere(init, d);
      if d in Declarations(init) {
        var i: nat, p: nat :| i < n && p < |init[i].permissions|
                              && d == Declaration(init[i].permissions[p], init[i].id);
        assert manifests[i] == init[i];
      } else if d in DeclaredBy(last.id, last.permissions) {
        var p :| 0 <= p < |last.permissions| && d == DeclaredBy(last.id, last.permissions)[p];
        assert d == Declaration(manifests[n].permissions[p], manifests[n].id);
      }
      forall i: nat, p: nat | i < |manifests| && p < |manifests[i].permissions|
                              && d == Declaration(manifests[i].permissions[p], manifests[i].id)
        ensures d in Declarations(manifests)
      {
        if i < n {
          assert init[i] == manifests[i];
        } else {
          assert d == DeclaredBy(last.id, last.permissions)[p];
        }
      }
    }
  }

  /** Two declarations clash in the list of all of them exactly when two features, or one twice, declare the name. */
  lemma {:induction false} ClashesAreDeclaredTwice(manifests: seq<Manifest>, name: Name, owner: Name, claimant: Name)
    ensures ClashBetween(Declarations(manifests), name, owner, claimant) <==>
            BothDeclare(manifests, name, owner, claimant)
  {
    if manifests != [] {
      var n := |manifests| - 1;
      var init, last := manifests[..n], manifests[n];
      ClashesAreDeclaredTwice(init, name, owner, claimant);
      DeclaredSomewhere(init, Declaration(name, owner));
      ClashInLast(Declarations(init), last, name, owner, claimant);
      BothDeclareInLast(manifests, name, owner, claimant);
    }
  }

  ghost predicate DeclaresTwice(m: Manifest, name: Name) {
    exists p, q :: 0 <= p < q < |m.permissions| && m.permissions[p] == name == m.permissions[q]
  }

  /** The last feature repeats a name that was declared before it, or that it declares itself. */
  ghost predicate Repeats(before: bool, last: Manifest, name: Name, owner: Name, claimant: Name) {
    && owner != Name("") && last.id == claimant
    && ((before && name in last.permissions) || (last.id == owner && DeclaresTwice(last, name)))
  }

  lemma ClashInLast(ds: seq<Declaration>, last: Manifest, name: Name, owner: Name, claimant: Name)
    ensures ClashBetween(ds + DeclaredBy(last.id, last.permissions), name, owner, claimant) <==>
            || ClashBetween(ds, name, owner, claimant)
            || Repeats(Declaration(name, owner) in ds, last, name, owner, claimant)
  {
    hide ClashBetween, Repeats;
    if ClashBetween(ds + DeclaredBy(last.id, last.permissions), name, owner, claimant) {
      ClashOnlyInLast(ds, last, name, owner, claimant);
    }
    if ClashBetween(ds, name, owner, claimant) {
      ClashStays(ds, DeclaredBy(last.id, last.permissions), name, owner, claimant);
    }
    if Repeats(Declaration(name, owner) in ds, last, name, owner, claimant) {
      RepeatsMeansClash(ds, last, name, owner, claimant);
    }
  }

  lemma ClashOnlyInLast(ds: seq<Declaration>, last: Manifest, name: Name, owner: Name, claimant: Name)
    requires ClashBetween(ds + DeclaredBy(last.id, last.permissions), name, owner, claimant)
    ensures || ClashBetween(ds, name, owner, claimant)
            || Repeats(Declaration(name, owner) in ds, last, name, owner, claimant)
  {
    var own := DeclaredBy(last.id, last.permissions);
    var all := ds + own;
    var i, j :| Clash(all, i, j) && all[i] == Declaration(name, owner) && all[j] == Declaration(name, claimant);
    if j < |ds| {
      assert Clash(ds, i, j);
    } else if i < |ds| {
      assert own[j - |ds|] == all[j] && ds[i] == all[i];
    } else {
      assert own[i - |ds|] == all[i] && own[j - |ds|] == all[j];
    }
  }

  lemma ClashStays(ds: seq<Declaration>, more: seq<Declaration>, name: Name, owner: Name, claimant: Name)
    requires ClashBetween(ds, name, owner, claimant)
    ensures ClashBetween(ds + more, name, owner, claimant)
  {
    var i, j :| Clash(ds, i, j) && ds[i] == Declaration(name, owner) && ds[j] == Declaration(name, claimant);
    assert Clash(ds + more, i, j);
  }

  lemma RepeatsMeansClash(ds: seq<Declaration>, last: Manifest, name: Name, owner: Name, claimant: Name)
    requires Repeats(Declaration(name, owner) in ds, last, name, owner, claimant)
    ensures ClashBetween(ds + DeclaredBy(last.id, last.permissions), name, owner, claimant)
  {
    var own := DeclaredBy(last.id, last.permissions);
    var all := ds + own;
    if Declaration(name, owner) in ds && name in last.permissions {
      var i :| 0 <= i < |ds| && ds[i] == Declaration(name, owner);
      var q :| 0 <= q < |last.permissions| && last.permissions[q] == name;
      assert all[|ds| + q] == own[q] && all[i] == ds[i] && Clash(all, i, |ds| + q);
    } else {
      var p, q :| 0 <= p < q < |last.permissions| && last.permissions[p] == name == last.permissions[q];
      assert all[|ds| + p] == own[p] && all[|ds| + q] == own[q] && Clash(all, |ds| + p, |ds| + q);
    }
  }

  ghost predicate DeclaredBefore(manifests: seq<Manifest>, name: Name, owner: Name) {
    exists i: nat, p: nat :: i < |manifests| && p < |manifests[i].permissions|
                             && Declaration(name, owner) == Declaration(manifests[i].permissions[p], manifests[i].id)
  }

  lemma BothDeclareInLast(manifests: seq<Manifest>, name: Name, owner: Name, claimant: Name)
    requires manifests != []
    ensures var init, last := manifests[..|manifests| - 1], manifests[|manifests| - 1];
            BothDeclare(manifests, name, owner, claimant) <==>
            || BothDeclare(init, name, owner, claimant)
            || Repeats(DeclaredBefore(init, name, owner), last, name, owner, claimant)
  {
    hide BothDeclare, Repeats, DeclaredBefore;
    var init, last := manifests[..|manifests| - 1], manifests[|manifests| - 1];
    if BothDeclare(manifests, name, owner, claimant) {
      BothDeclareOnlyInLast(manifests, name, owner, claimant);
    }
    if BothDeclare(init, name, owner, claimant) {
      BothStillDeclare(manifests, name, owner, claimant);
    }
    if Repeats(DeclaredBefore(init, name, owner), last, name, owner, claimant) {
      RepeatsMeansBothDeclare(manifests, name, owner, claimant);
    }
  }

  lemma BothDeclareOnlyInLast(manifests: seq<Manifest>, name: Name, owner: Name, claimant: Name)
    requires manifests != [] && BothDeclare(manifests, name, owner, claimant)
    ensures var init, last := manifests[..|manifests| - 1], manifests[|manifests| - 1];
            || BothDeclare(init, name, owner, claimant)
            || Repeats(DeclaredBefore(init, name, owner), last, name, owner, claimant)
  {
    var n := |manifests| - 1;
    var init := manifests[..n];
    var i: nat, p: nat, j: nat, q: nat :|
      && i < |manifests| && p < |manifests[i].permissions| && j < |manifests| && q < |manifests[j].permissions|
      && PlacedBefore(i, p, j, q)
      && manifests[i].permissions[p] == name == manifests[j].permissions[q]
      && manifests[i].id == owner && manifests[j].id == claimant;
    if j < n {
      assert init[i] == manifests[i] && init[j] == manifests[j];
    } else if i < n {
      assert Declaration(name, owner) == Declaration(init[i].permissions[p], init[i].id);
    }
  }

  lemma BothStillDeclare(manifests: seq<Manifest>, name: Name, owner: Name, claimant: Name)
    requires manifests != [] && BothDeclare(manifests[..|manifests| - 1], name, owner, claimant)
    ensures BothDeclare(manifests, name, owner, claimant)
  {
    var init := manifests[..|manifests| - 1];
    var i: nat, p: nat, j: nat, q: nat :|
      && i < |init| && p < |init[i].permissions| && j < |init| && q < |init[j].permissions|
      && PlacedBefore(i, p, j, q)
      && init[i].permissions[p] == name == init[j].permissions[q]
      && init[i].id == owner && init[j].id == claimant;
    assert init[i] == manifests[i] && init[j] == manifests[j];
  }

  lemma RepeatsMeansBothDeclare(manifests: seq<Manifest>, name: Name, owner: Name, claimant: Name)
    requires manifests != []
    requires var init, last := manifests[..|manifests| - 1], manifests[|manifests| - 1];
             Repeats(DeclaredBefore(init, name, owner), last, name, owner, claimant)
    ensures BothDeclare(manifests, name, owner, claimant)
  {
    var n := |manifests| - 1;
    var init, last := manifests[..n], manifests[n];
    if DeclaredBefore(init, name, owner) && name in last.permissions {
      var i: nat, p: nat :| i < n && p < |init[i].permissions|
                            && Declaration(name, owner) == Declaration(init[i].permissions[p], init[i].id);
      var q: nat :| q < |last.permissions| && last.permissions[q] == name;
      assert PlacedBefore(i, p, n, q) && manifests[i] == init[i];
    } else {
      var p: nat, q: nat :| p < q < |last.permissions| && last.permissions[p] == name == last.permissions[q];
      assert PlacedBefore(n, p, n, q);
    }
  }

  /** The migrations of a feature come after all those of the features it needs. */
  ghost predicate MigrationsAfterUsed(manifests: seq<Manifest>, ms: seq<OwnedMigration>) {
    forall p: nat, q: nat :: p < |ms| && q < |ms| && Needs(manifests, ms[p].featureId, ms[q].featureId) ==> q < p
  }

  lemma MigrationsComplete(manifests: seq<Manifest>, order: seq<Manifest>)
    requires UniqueIds(manifests) && multiset(order) == multiset(manifests)
    requires DependenciesFirst(GraphOf(manifests), Ids(order))
    ensures forall m :: m in manifests ==> OfFeature(MigrationsOf(order), m.id) == Sort(m.migrations, ByVersion)
    ensures MigrationsAfterUsed(manifests, MigrationsOf(order))
  {
    hide Needs, DependsOn, GraphOf, MigrationsOf, OfFeature, Sort;
    PermutationKeepsElements(order, manifests);
    forall i, j | 0 <= i < j < |order| ensures order[i].id != order[j].id {
      assert Ids(order)[i] != Ids(order)[j];
    }
    forall m | m in manifests ensures OfFeature(MigrationsOf(order), m.id) == Sort(m.migrations, ByVersion) {
      EachFeatureKeepsItsMigrations(order, m.id);
    }
    var ms := MigrationsOf(order);
    forall p: nat, q: nat | p < |ms| && q < |ms| && Needs(manifests, ms[p].featureId, ms[q].featureId) ensures q < p {
      NeedsInGraph(manifests, ms[p].featureId, ms[q].featureId);
      MigrationsFollowDependencies(GraphOf(manifests), order, p, q);
    }
  }

  /** What the search finds out about the graph holds of the manifests themselves. */
  lemma ResolvableByGraph(manifests: seq<Manifest>)
    ensures Resolvable(manifests) <==> GraphResolvable(manifests)
  {
    hide BothDeclare, NeedsInCircle, IsCycle, GraphOf;
    if UniqueIds(manifests) {
      forall p ensures NeedsInCircle(manifests, p) <==> IsCycle(GraphOf(manifests), p) {
        CirclesInGraph(manifests, p);
      }
    }
    forall d ensures Supplied(manifests, d) <==> d in GraphOf(manifests) {
      SuppliedInGraph(manifests, d);
    }
    SharedExactly(manifests);
  }

  lemma SharedExactly(manifests: seq<Manifest>)
    ensures SharesPermission(manifests) <==>
            exists name, owner, claimant :: BothDeclare(manifests, name, owner, claimant)
  {
    hide BothDeclare;
    var ds := Declarations(manifests);
    if SharesPermission(manifests) {
      var i, j :| Clash(ds, i, j);
      ClashesAreDeclaredTwice(manifests, ds[i].name, ds[i].owner, ds[j].owner);
      assert ClashBetween(ds, ds[i].name, ds[i].owner, ds[j].owner);
    }
    if name, owner, claimant :| BothDeclare(manifests, name, owner, claimant) {
      ClashesAreDeclaredTwice(manifests, name, owner, claimant);
    }
  }

  // ---------- The resolver ----------

  method Resolve(manifests: seq<Manifest>) returns (r: Result<ResolvedGraph, ResolveError>)
    ensures r.Success? <==> Resolvable(manifests)
    ensures r.Success? ==>
              && multiset(r.value.orderedManifests) == multiset(manifests)
              && UsedFeaturesFirst(manifests, r.value.orderedManifests)
              && (forall m :: m in manifests ==>
                    OfFeature(r.value.orderedMigrations, m.id) == Sort(m.migrations, ByVersion))
              && MigrationsAfterUsed(manifests, r.value.orderedMigrations)
    ensures r.Failure? ==>
              match r.error
              case DuplicateId(id) =>
                exists i, j :: 0 <= i < j < |manifests| && manifests[i].id == manifests[j].id == id
              case PermissionCollision(permission, owner, claimant) =>
                UniqueIds(manifests) && BothDeclare(manifests, permission, owner, claimant)
              case MissingDependency(dependent, dependency) =>
                && UniqueIds(manifests)
                && (forall name, owner, claimant :: !BothDeclare(manifests, name, owner, claimant))
                && !Supplied(manifests, dependency)
                && exists m :: m in manifests && m.id == dependent && dependency in m.dependencies
              case CircularDependency(cycle) =>
                && UniqueIds(manifests)
                && (forall name, owner, claimant :: !BothDeclare(manifests, name, owner, claimant))
                && (forall m, d :: m in manifests && d in m.dependencies ==> Supplied(manifests, d))
                && NeedsInCircle(manifests, cycle)
  {
    hide BothDeclare, NeedsInCircle, IsCycle, Supplied, UsedFeaturesFirst, GraphOf, Needs, MigrationsOf, OfFeature;
    ResolvableByGraph(manifests);
    SharedExactly(manifests);
    forall d ensures Supplied(manifests, d) <==> d in GraphOf(manifests) {
      SuppliedInGraph(manifests, d);
    }
    var indexed := IndexManifests(manifests);
    if indexed.Failure? {
      return Failure(indexed.error);
    }
    var g := indexed.value;
    var collision := CheckPermissions(manifests);
    if collision.Some? {
      ClashesAreDeclaredTwice(manifests, collision.value.permission, collision.value.owner, collision.value.claimant);
      return Failure(collision.value);
    }
    var missing := CheckDependencies(manifests, g);
    if missing.Some? {
      return Failure(missing.value);
    }
    forall id, d | id in g && d in Dependencies(g, id) ensures d in g {
      ManifestIsSupplied(manifests, id);
    }
    var searched := Search(manifests, g);
    if searched.Failure? {
      CirclesInGraph(manifests, searched.error.cycle);
      return Failure(searched.error);
    }
    ghost var visited :| AtRest(g, visited, searched.value) && forall m :: m in manifests ==> m.id in visited;
    CompleteSearch(manifests, g, visited, searched.value);
    OrderByGraph(manifests, searched.value);
    var migrations := CollectMigrations(searched.value);
    MigrationsComplete(manifests, searched.value);
    return Success(ResolvedGraph(searched.value, migrations));
  }
}
