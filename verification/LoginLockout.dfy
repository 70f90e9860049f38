/** Password checks and the lock that repeated failures put on a user, with the number of guesses it allows. */
module LoginLockout {
  import opened Wrappers
  import opened Selection
  import opened TextOrder

  datatype UserId = UserId(text: string)

  datatype DeviceId = DeviceId(text: string)

  datatype Password = Password(text: string)

  datatype Verifier = Verifier(hash: string)

  const MAX_AUTHENTICATION_FAILURES := 5
  const LOCKOUT_SECONDS := 300
  const I64_MAX := 0x7fff_ffff_ffff_ffff

  /** A stored lock time that does not read as an unsigned number counts as none. */
  datatype User = User(organisation: string, active: bool, verifier: Option<Verifier>, failures: int,
                       lockedUntil: Option<nat>)

  /** `usable` is an approved or active device; `owner` is the user it is bound to, if any. */
  datatype Device = Device(usable: bool, owner: Option<UserId>)

  datatype RoleId = RoleId(text: string)

  datatype PermissionId = PermissionId(text: string)

  datatype GivenId = GivenId(text: string)

  /** A role given to a user within one organisation. */
  datatype UserRole = UserRole(user: UserId, role: RoleId, organisation: string)

  /** Roles belong to organisations; permissions have names. */
  datatype Rights = Rights(
    userRoles: map<GivenId, UserRole>,
    roles: map<RoleId, string>,
    rolePermissions: set<(RoleId, PermissionId)>,
    permissions: map<PermissionId, string>)

  datatype Store = Store(users: map<UserId, User>, devices: map<DeviceId, Device>, rights: Rights)

  /** What a successful login gives. */
  datatype Principal = Principal(user: UserId, device: DeviceId, organisation: string, permissions: seq<string>)

  datatype Attempt = Attempt(user: UserId, device: DeviceId, password: Password, now: nat)

  datatype LoginError = AuthFailed | AuthLocked

  /** What becomes of an attempt. Only the last two compare the password. */
  datatype Judgement = Unknown | Locked | Mismatch | Match

  type Check = (Password, Verifier) -> bool

  predicate DeviceValid(s: Store, a: Attempt) {
    && a.device in s.devices && s.devices[a.device].usable
    && (s.devices[a.device].owner == None || s.devices[a.device].owner == Some(a.user))
  }

  predicate IsLocked(user: User, now: nat) {
    user.lockedUntil.Some? && user.lockedUntil.value > now
  }

  function Judge(s: Store, verifies: Check, a: Attempt): Judgement {
    if a.user !in s.users || !s.users[a.user].active || !DeviceValid(s, a) then Unknown
    else
      var user := s.users[a.user];
      if IsLocked(user, a.now) then Locked
      else if user.verifier.Some? && verifies(a.password, user.verifier.value) then Match
      else Mismatch
  }

  function AfterFailure(user: User, now: nat): User {
    var failures := if user.failures >= I64_MAX then I64_MAX else user.failures + 1;
    user.(failures := failures,
          lockedUntil := if failures >= MAX_AUTHENTICATION_FAILURES then Some(now + LOCKOUT_SECONDS) else None)
  }

  function Settle(s: Store, a: Attempt, judgement: Judgement): Store {
    if a.user !in s.users then s
    else
      match judgement
      case Unknown => s
      case Locked => s
      case Mismatch => s.(users := s.users[a.user := AfterFailure(s.users[a.user], a.now)])
      case Match => s.(users := s.users[a.user := s.users[a.user].(failures := 0, lockedUntil := None)])
  }

  // ---------- What a user may do ----------

  /** The role is the user's within the organisation, is the organisation's own, and carries the permission. */
  predicate Applies(r: Rights, user: UserId, organisation: string, given: GivenId, carried: (RoleId, PermissionId)) {
    && given in r.userRoles && carried in r.rolePermissions && carried.1 in r.permissions
    && r.userRoles[given] == UserRole(user, carried.0, organisation)
    && carried.0 in r.roles && r.roles[carried.0] == organisation
  }

  /** The join: one row for each role given and each permission it carries, with the permission's name. */
  function Granted(r: Rights, user: UserId, organisation: string): map<(GivenId, PermissionId), string> {
    map given, carried | given in r.userRoles && carried in r.rolePermissions
                         && Applies(r, user, organisation, given, carried)
      :: (given, carried.1) := r.permissions[carried.1]
  }

  function Names(granted: map<(GivenId, PermissionId), string>, keys: seq<(GivenId, PermissionId)>)
    : (names: seq<string>)
    requires forall i :: 0 <= i < |keys| ==> keys[i] in granted
    ensures |names| == |keys| && forall i :: 0 <= i < |keys| ==> names[i] == granted[keys[i]]
  {
    seq(|keys|, i requires 0 <= i < |keys| => granted[keys[i]])
  }

  /** All rows of the join, in the order of their names. */
  ghost predicate Lists(granted: map<(GivenId, PermissionId), string>, names: seq<string>) {
    exists keys :: FirstByRank(granted, NotAfterText, |granted|, keys) && names == Names(granted, keys)
  }

  /** Some role given to the user within the organisation carries a permission of this name. */
  ghost predicate MayUse(r: Rights, user: UserId, organisation: string, name: string) {
    exists given, carried ::
      Applies(r, user, organisation, given, carried) && r.permissions[carried.1] == name
  }

  /** A session's permissions are those, and only those, that the user may use, and they come in order. */
  lemma PermissionsAreExactlyGranted(r: Rights, user: UserId, organisation: string, names: seq<string>)
    requires Lists(Granted(r, user, organisation), names)
    ensures forall name :: name in names <==> MayUse(r, user, organisation, name)
    ensures forall i, j :: 0 <= i < j < |names| ==> NotAfterText(names[i], names[j])
  {
    hide MayUse, Granted, NotAfterText, Names;
    var granted := Granted(r, user, organisation);
    var keys :| FirstByRank(granted, NotAfterText, |granted|, keys) && names == Names(granted, keys);
    WithoutLimit(granted, NotAfterText, keys);
    NamesInOrder(granted, keys);
    forall name ensures name in names <==> MayUse(r, user, organisation, name) {
      NamedExactlyWhen(r, user, organisation, name);
      NamesOfAll(granted, keys, name);
    }
  }

  lemma NamesInOrder(granted: map<(GivenId, PermissionId), string>, keys: seq<(GivenId, PermissionId)>)
    requires FirstByRank(granted, NotAfterText, |granted|, keys)
    ensures var names := Names(granted, keys);
            forall i, j :: 0 <= i < j < |names| ==> NotAfterText(names[i], names[j])
  {
    hide NotAfterText;
  }

  lemma NamesOfAll(granted: map<(GivenId, PermissionId), string>, keys: seq<(GivenId, PermissionId)>, name: string)
    requires forall key :: key in keys <==> key in granted
    ensures name in Names(granted, keys) <==> exists key :: key in granted && granted[key] == name
  {
    var names := Names(granted, keys);
    if name in names {
      var i :| 0 <= i < |names| && names[i] == name;
      assert keys[i] in keys;
    }
    if key :| key in granted && granted[key] == name {
      var i :| 0 <= i < |keys| && keys[i] == key;
      assert names[i] == name;
    }
  }

  /** By the columns that the query joins. */
  lemma MayUseByColumns(r: Rights, user: UserId, organisation: string, name: string)
    ensures MayUse(r, user, organisation, name) <==>
            exists given, role, permission ::
              && given in r.userRoles && role in r.roles && permission in r.permissions
              && r.userRoles[given].user == user && r.userRoles[given].role == role
              && r.userRoles[given].organisation == organisation
              && r.roles[role] == organisation
              && (role, permission) in r.rolePermissions
              && r.permissions[permission] == name
  {
    if MayUse(r, user, organisation, name) {
      var given, carried :| Applies(r, user, organisation, given, carried) && r.permissions[carried.1] == name;
      assert (carried.0, carried.1) == carried;
    }
    forall given, role, permission |
        && given in r.userRoles && role in r.roles && permission in r.permissions
        && r.userRoles[given].user == user && r.userRoles[given].role == role
        && r.userRoles[given].organisation == organisation
        && r.roles[role] == organisation
        && (role, permission) in r.rolePermissions
        && r.permissions[permission] == name
      ensures MayUse(r, user, organisation, name)
    {
      assert Applies(r, user, organisation, given, (role, permission));
    }
  }

  lemma NamedExactlyWhen(r: Rights, user: UserId, organisation: string, name: string)
    ensures var granted := Granted(r, user, organisation);
            MayUse(r, user, organisation, name) <==> exists key :: key in granted && granted[key] == name
  {
    var granted := Granted(r, user, organisation);
    if MayUse(r, user, organisation, name) {
      var given, carried :| Applies(r, user, organisation, given, carried) && r.permissions[carried.1] == name;
      assert (given, carried.1) in granted;
    }
  }

  class DurableDatabase {
    var store: Store

    constructor (initial: Store)
      ensures store == initial
    {
      store := initial;
    }

    method AuthenticateUser(a: Attempt, verifies: Check) returns (r: Result<Principal, LoginError>)
      modifies this
      ensures store == Settle(old(store), a, Judge(old(store), verifies, a))
      ensures r.Success? <==> Judge(old(store), verifies, a) == Match
      ensures r.Success? ==>
                && a.user in old(store).users
                && var organisation := old(store).users[a.user].organisation;
                   && r.value == Principal(a.user, a.device, organisation, r.value.permissions)
                   && Lists(Granted(old(store).rights, a.user, organisation), r.value.permissions)
      ensures r == Failure(AuthLocked) <==> Judge(old(store), verifies, a) == Locked
    {
      if a.user !in store.users {
        return Failure(AuthFailed);
      }
      var user := store.users[a.user];
      if !user.active {
        return Failure(AuthFailed);
      }
      if !DeviceValid(store, a) {
        return Failure(AuthFailed);
      }
      if user.lockedUntil.Some? && user.lockedUntil.value > a.now {
        return Failure(AuthLocked);
      }
      var valid := user.verifier.Some? && verifies(a.password, user.verifier.value);
      if !valid {
        var nextFailures := if user.failures >= I64_MAX then I64_MAX else user.failures + 1;
        var nextLock := None;
        if nextFailures >= MAX_AUTHENTICATION_FAILURES {
          nextLock := Some(a.now + LOCKOUT_SECONDS);
        }
        store := store.(users := store.users[a.user := user.(failures := nextFailures, lockedUntil := nextLock)]);
        return Failure(AuthFailed);
      }
      var granted := Granted(store.rights, a.user, user.organisation);
      TextIsOrdering();
      var keys := SelectFirst(granted, NotAfterText, |granted|);
      store := store.(users := store.users[a.user := user.(failures := 0, lockedUntil := None)]);
      r := Success(Principal(a.user, a.device, user.organisation, Names(granted, keys)));
    }

    /** A new credential clears the count and the lock. */
    method SetCredential(id: UserId, verifier: Verifier) returns (changed: bool)
      modifies this
      ensures changed == (id in old(store).users)
      ensures store ==
              if id !in old(store).users then old(store)
              else old(store).(users := old(store).users[id :=
                old(store).users[id].(verifier := Some(verifier), failures := 0, lockedUntil := None)])
    {
      changed := id in store.users;
      if changed {
        var user := store.users[id];
        store := store.(users := store.users[id :=
          user.(verifier := Some(verifier), failures := 0, lockedUntil := None)]);
      }
    }
  }

  // ---------- A login by the fields of user and device ----------

  /** An active user, on a device that is in use and bound to no one else. */
  ghost predicate KnownOnDevice(s: Store, a: Attempt) {
    && a.user in s.users && s.users[a.user].active == true
    && a.device in s.devices && s.devices[a.device].usable == true
    && (s.devices[a.device].owner.Some? ==> s.devices[a.device].owner.value == a.user)
  }

  /** Who is let in, who is locked out, whose password is wrong, and who is turned away before it is looked at. */
  lemma JudgedByFields(s: Store, verifies: Check, a: Attempt)
    ensures Judge(s, verifies, a) == Unknown <==> !KnownOnDevice(s, a)
    ensures Judge(s, verifies, a) == Locked <==>
            && KnownOnDevice(s, a)
            && s.users[a.user].lockedUntil.Some? && a.now < s.users[a.user].lockedUntil.value
    ensures Judge(s, verifies, a) == Match <==>
            && KnownOnDevice(s, a)
            && (s.users[a.user].lockedUntil.Some? ==> s.users[a.user].lockedUntil.value <= a.now)
            && s.users[a.user].verifier.Some? && verifies(a.password, s.users[a.user].verifier.value)
  {
  }

  /**
    * A wrong password adds one to the count, and from five on locks the user for 300 seconds; a right one clears both;
    * nothing else in the database changes.
    */
  lemma SettledByFields(s: Store, verifies: Check, a: Attempt)
    ensures var t := Settle(s, a, Judge(s, verifies, a));
            && t.devices == s.devices && t.rights == s.rights && t.users.Keys == s.users.Keys
            && (forall other :: other in s.users && other != a.user ==> t.users[other] == s.users[other])
            && (a.user in s.users ==>
                  var u, u' := s.users[a.user], t.users[a.user];
                  && u'.organisation == u.organisation && u'.active == u.active && u'.verifier == u.verifier
                  && (match Judge(s, verifies, a)
                      case Match => u'.failures == 0 && u'.lockedUntil == None
                      case Mismatch =>
                        && (u.failures < 0x7fff_ffff_ffff_ffff ==> u'.failures - u.failures == 1)
                        && (u.failures >= 0x7fff_ffff_ffff_ffff ==> u'.failures == 0x7fff_ffff_ffff_ffff)
                        && (u'.failures < 5 ==> u'.lockedUntil == None)
                        && (u'.failures >= 5 ==> u'.lockedUntil == Some(a.now + 300))
                      case _ => u' == u))
  {
    hide Judge;
    LookedUpIsThere(s, verifies, a);
  }

  lemma LookedUpIsThere(s: Store, verifies: Check, a: Attempt)
    ensures Judge(s, verifies, a) != Unknown ==> a.user in s.users
  {
  }

  // ---------- Runs, seen by one user ----------

  /** An attempt by anyone, or any other change that leaves this user's count and lock alone. */
  datatype Event = Login(attempt: Attempt) | Other

  ghost predicate Follows(u: UserId, verifies: Check, s: Store, e: Event, t: Store) {
    && u in s.users && u in t.users
    && match e
       case Login(a) => t == Settle(s, a, Judge(s, verifies, a))
       case Other =>
         && t.users[u].failures == s.users[u].failures
         && t.users[u].lockedUntil == s.users[u].lockedUntil
  }

  predicate ChecksPassword(u: UserId, verifies: Check, s: Store, e: Event) {
    e.Login? && e.attempt.user == u && Judge(s, verifies, e.attempt) in {Mismatch, Match}
  }

  /** From no recorded failures on: the clock does not run backwards and this user never logs in. */
  ghost predicate IsGuessing(u: UserId, verifies: Check, stores: seq<Store>, events: seq<Event>) {
    && |stores| == |events| + 1
    && u in stores[0].users && stores[0].users[u].failures == 0
    && (forall k :: 0 <= k < |events| ==> Follows(u, verifies, stores[k], events[k], stores[k + 1]))
    && (forall i, k :: 0 <= i < k < |events| && events[i].Login? && events[k].Login? ==>
          events[i].attempt.now <= events[k].attempt.now)
    && (forall k :: 0 <= k < |events| && events[k].Login? && events[k].attempt.user == u ==>
          Judge(stores[k], verifies, events[k].attempt) != Match)
  }

  /** The positions among the first `k` events at which this user's password is checked. */
  function Checks(u: UserId, verifies: Check, stores: seq<Store>, events: seq<Event>, k: nat): (r: seq<nat>)
    requires k <= |events| < |stores|
    ensures forall i :: 0 <= i < |r| ==> r[i] < k && events[r[i]].Login?
    ensures forall i, j :: 0 <= i < j < |r| ==> r[i] < r[j]
  {
    if k == 0 then []
    else
      Checks(u, verifies, stores, events, k - 1) +
      if ChecksPassword(u, verifies, stores[k - 1], events[k - 1]) then [k - 1] else []
  }

  ghost predicate GuessInvariant(user: User, events: seq<Event>, checks: seq<nat>)
    requires forall i :: 0 <= i < |checks| ==> checks[i] < |events| && events[checks[i]].Login?
  {
    if |checks| < MAX_AUTHENTICATION_FAILURES then user.failures == |checks|
    else
      var last := events[checks[|checks| - 1]].attempt.now;
      && user.failures >= MAX_AUTHENTICATION_FAILURES
      && user.lockedUntil == Some(last + LOCKOUT_SECONDS)
      && last >= events[checks[0]].attempt.now + LOCKOUT_SECONDS * (|checks| - MAX_AUTHENTICATION_FAILURES)
  }

  /** What one event does to this user, given that the password is not right. */
  lemma OneEvent(u: UserId, verifies: Check, s: Store, e: Event, t: Store)
    requires Follows(u, verifies, s, e, t)
    requires e.Login? && e.attempt.user == u ==> Judge(s, verifies, e.attempt) != Match
    ensures u in s.users && u in t.users
    ensures ChecksPassword(u, verifies, s, e) ==> e.Login?
    ensures if ChecksPassword(u, verifies, s, e)
            then !IsLocked(s.users[u], e.attempt.now) && t.users[u] == AfterFailure(s.users[u], e.attempt.now)
            else t.users[u].failures == s.users[u].failures && t.users[u].lockedUntil == s.users[u].lockedUntil
  {
  }

  lemma {:induction false} GuessesSpreadOut(u: UserId, verifies: Check, stores: seq<Store>, events: seq<Event>, k: nat)
    requires IsGuessing(u, verifies, stores, events) && k <= |events|
    ensures u in stores[k].users
    ensures GuessInvariant(stores[k].users[u], events, Checks(u, verifies, stores, events, k))
  {
    hide Judge, Settle, ChecksPassword, GuessInvariant, Follows, AfterFailure, IsLocked;
    var checks := Checks(u, verifies, stores, events, k);
    if k == 0 {
      NothingChecked(stores[0].users[u], events);
    } else {
      GuessesSpreadOut(u, verifies, stores, events, k - 1);
      var before, e := Checks(u, verifies, stores, events, k - 1), events[k - 1];
      OneEvent(u, verifies, stores[k - 1], e, stores[k]);
      if ChecksPassword(u, verifies, stores[k - 1], e) {
        OneMoreCheck(stores[k - 1].users[u], events, before, k - 1);
      } else {
        assert checks == before;
        NoMoreCheck(stores[k - 1].users[u], stores[k].users[u], events, before);
      }
    }
  }

  lemma NothingChecked(user: User, events: seq<Event>)
    requires user.failures == 0
    ensures GuessInvariant(user, events, [])
  {
  }

  lemma NoMoreCheck(user: User, user': User, events: seq<Event>, checks: seq<nat>)
    requires forall i :: 0 <= i < |checks| ==> checks[i] < |events| && events[checks[i]].Login?
    requires GuessInvariant(user, events, checks)
    requires user'.failures == user.failures && user'.lockedUntil == user.lockedUntil
    ensures GuessInvariant(user', events, checks)
  {
  }

  lemma OneMoreCheck(user: User, events: seq<Event>, checks: seq<nat>, k: nat)
    requires forall i :: 0 <= i < |checks| ==> checks[i] < |events| && events[checks[i]].Login?
    requires k < |events| && events[k].Login? && !IsLocked(user, events[k].attempt.now)
    requires checks != [] ==> events[checks[0]].attempt.now <= events[k].attempt.now
    requires GuessInvariant(user, events, checks)
    ensures GuessInvariant(AfterFailure(user, events[k].attempt.now), events, checks + [k])
  {
  }

  /**
    * However attempts, devices and other users are interleaved: between the first and the last check of this user's
    * password there is room for five checks and one more for every 300 seconds.
    */
  lemma GuessesAreBounded(u: UserId, verifies: Check, stores: seq<Store>, events: seq<Event>)
    requires IsGuessing(u, verifies, stores, events)
    ensures var checks := Checks(u, verifies, stores, events, |events|);
            checks != [] ==>
              var span := events[checks[|checks| - 1]].attempt.now - events[checks[0]].attempt.now;
              |checks| <= MAX_AUTHENTICATION_FAILURES + span / LOCKOUT_SECONDS
  {
    GuessesSpreadOut(u, verifies, stores, events, |events|);
    var checks := Checks(u, verifies, stores, events, |events|);
    if checks != [] {
      var first, last := checks[0], checks[|checks| - 1];
      assert first == last || first < last;
      var span := events[last].attempt.now - events[first].attempt.now;
      assert span >= LOCKOUT_SECONDS * (|checks| - MAX_AUTHENTICATION_FAILURES);
    }
  }

  /**
    * The lock is exact: for a user who was not locked to begin with, the right password on a valid device is refused
    * exactly when at least five checks have failed and the last of them was less than 300 seconds ago.
    */
  lemma RightPasswordRefusedWhileLocked(u: UserId, verifies: Check, stores: seq<Store>, events: seq<Event>, a: Attempt)
    requires IsGuessing(u, verifies, stores, events) && stores[0].users[u].lockedUntil == None
    requires a.user == u && u in stores[|events|].users
    requires stores[|events|].users[u].active && DeviceValid(stores[|events|], a)
    requires stores[|events|].users[u].verifier.Some? && verifies(a.password, stores[|events|].users[u].verifier.value)
    ensures var checks := Checks(u, verifies, stores, events, |events|);
            Judge(stores[|events|], verifies, a) ==
              if |checks| >= MAX_AUTHENTICATION_FAILURES &&
                 a.now < events[checks[|checks| - 1]].attempt.now + LOCKOUT_SECONDS then Locked
              else Match
  {
    hide Settle, Follows, ChecksPassword, AfterFailure, DeviceValid;
    GuessesSpreadOut(u, verifies, stores, events, |events|);
    NoLockBeforeFiveChecks(u, verifies, stores, events, |events|);
  }

  lemma {:induction false} NoLockBeforeFiveChecks(u: UserId, verifies: Check, stores: seq<Store>, events: seq<Event>,
                                                  k: nat)
    requires IsGuessing(u, verifies, stores, events) && stores[0].users[u].lockedUntil == None && k <= |events|
    ensures u in stores[k].users
    ensures |Checks(u, verifies, stores, events, k)| < MAX_AUTHENTICATION_FAILURES ==>
              stores[k].users[u].lockedUntil == None
  {
    hide Judge, Settle, ChecksPassword;
    if k > 0 {
      NoLockBeforeFiveChecks(u, verifies, stores, events, k - 1);
      GuessesSpreadOut(u, verifies, stores, events, k - 1);
      assert Follows(u, verifies, stores[k - 1], events[k - 1], stores[k]);
      OneEvent(u, verifies, stores[k - 1], events[k - 1], stores[k]);
    }
  }

  // ---------- The bound is reached ----------

  function GuessTime(k: nat): nat {
    if k < MAX_AUTHENTICATION_FAILURES then 0 else LOCKOUT_SECONDS * (k - 4)
  }

  /** An active user and a valid device, with a password that does not match. */
  predicate CanGuess(s: Store, a: Attempt, verifies: Check) {
    && a.user in s.users && s.users[a.user].active && DeviceValid(s, a)
    && (s.users[a.user].verifier.Some? ==> !verifies(a.password, s.users[a.user].verifier.value))
  }

  lemma OneMoreGuess(s: Store, a: Attempt, verifies: Check)
    requires CanGuess(s, a, verifies) && !IsLocked(s.users[a.user], a.now)
    ensures var t := Settle(s, a, Judge(s, verifies, a));
            && Follows(a.user, verifies, s, Login(a), t)
            && ChecksPassword(a.user, verifies, s, Login(a))
            && Judge(s, verifies, a) != Match
            && (forall now :: CanGuess(t, a.(now := now), verifies))
            && t.users[a.user] == AfterFailure(s.users[a.user], a.now)
  {
  }

  /** Five guesses at once and then one every 300 seconds are all checked: the bound cannot be lowered. */
  lemma {:induction false} BoundIsReached(s: Store, a: Attempt, verifies: Check, n: nat)
      returns (stores: seq<Store>, events: seq<Event>)
    requires CanGuess(s, a.(now := 0), verifies)
    requires s.users[a.user].failures == 0 && s.users[a.user].lockedUntil == None
    ensures IsGuessing(a.user, verifies, stores, events) && stores[0] == s && |events| == n
    ensures forall k :: 0 <= k < n ==> events[k] == Login(a.(now := GuessTime(k)))
    ensures |Checks(a.user, verifies, stores, events, n)| == n
    ensures CanGuess(stores[n], a.(now := GuessTime(n)), verifies)
    ensures !IsLocked(stores[n].users[a.user], GuessTime(n))
  {
    hide Judge, Settle, ChecksPassword, CanGuess, Follows, GuessTime;
    if n == 0 {
      StartUnlocked(s, a, verifies);
      stores, events := [s], [];
    } else {
      var stores', events' := BoundIsReached(s, a, verifies, n - 1);
      var guess := a.(now := GuessTime(n - 1));
      var next := Settle(stores'[n - 1], guess, Judge(stores'[n - 1], verifies, guess));
      stores, events := stores' + [next], events' + [Login(guess)];
      OneMoreGuess(stores'[n - 1], guess, verifies);
      assert a.(now := GuessTime(n)) == guess.(now := GuessTime(n));
      ChecksPrefix(a.user, verifies, stores', events', stores, events, n - 1);
      GuessTimesAscend(n);
      StillGuessing(a.user, verifies, stores', events', next, Login(guess));
      GuessesSpreadOut(a.user, verifies, stores, events, n);
      assert Checks(a.user, verifies, stores, events, n)[n - 1] == n - 1;
    }
  }

  lemma StartUnlocked(s: Store, a: Attempt, verifies: Check)
    requires CanGuess(s, a.(now := 0), verifies)
    ensures a.user in s.users && GuessTime(0) == 0
  {
  }

  lemma GuessTimesAscend(n: nat)
    requires n > 0
    ensures forall k :: 0 <= k < n ==> GuessTime(k) <= GuessTime(n - 1)
    ensures n >= MAX_AUTHENTICATION_FAILURES ==> GuessTime(n - 1) + LOCKOUT_SECONDS == GuessTime(n)
  {
  }

  lemma StillGuessing(u: UserId, verifies: Check, stores: seq<Store>, events: seq<Event>, next: Store, e: Event)
    requires IsGuessing(u, verifies, stores, events)
    requires Follows(u, verifies, stores[|events|], e, next)
    requires e.Login? ==>
               && (forall i :: 0 <= i < |events| && events[i].Login? ==> events[i].attempt.now <= e.attempt.now)
               && Judge(stores[|events|], verifies, e.attempt) != Match
    ensures IsGuessing(u, verifies, stores + [next], events + [e])
  {
    hide Judge, Follows;
  }

  lemma {:induction false} ChecksPrefix(u: UserId, verifies: Check, stores: seq<Store>, events: seq<Event>,
                                        longerStores: seq<Store>, longerEvents: seq<Event>, k: nat)
    requires k <= |events| < |stores| && |longerEvents| < |longerStores|
    requires stores <= longerStores && events <= longerEvents
    ensures Checks(u, verifies, stores, events, k) == Checks(u, verifies, longerStores, longerEvents, k)
  {
    if k > 0 {
      ChecksPrefix(u, verifies, stores, events, longerStores, longerEvents, k - 1);
    }
  }
}
