/**
 VXLAN assignments: which user holds which VNI and UDP port, over the
 self-service and admin endpoints and the addition and removal of users.
 */
module Vxlan {
  import opened Options
  import opened Sets

  /** The stored settings; missing ones take defaults that depend on the user id. `rest` is everything else. */
  datatype Stored = Stored(enabled: Option<bool>, mode: Option<string>, vni: Option<int>, port: Option<int>, rest: string)

  datatype User = User(userid: Option<nat>, vxlan: Option<Stored>)

  type Users = map<string, User>

  datatype Settings = Settings(enabled: bool, mode: string, vni: int, port: int, rest: string)

  /** The effective settings of a user with the given id. */
  function Effective(u: User, userid: nat): Settings {
    match u.vxlan
    case None => Settings(false, "l3", userid + 1, 4789, "")
    case Some(v) =>
      var mode := v.mode.GetOr("l3");
      Settings(v.enabled.GetOr(false), if mode == "l2" || mode == "l3" then mode else "l3",
               v.vni.GetOr(userid + 1), v.port.GetOr(4789), v.rest)
  }

  function Keep(s: Settings): Stored {
    Stored(Some(s.enabled), Some(s.mode), Some(s.vni), Some(s.port), s.rest)
  }

  /** Each missing setting has its default - off, mode l3, the VNI after the user id, port 4789 - and an unknown mode reads l3. */
  lemma EffectiveDefaults(u: User, userid: nat)
    ensures var s := Effective(u, userid);
            && (u.vxlan.None? ==> s == Settings(false, "l3", userid + 1, 4789, ""))
            && (u.vxlan.Some? ==>
                  var v := u.vxlan.value;
                  && (s.enabled <==> v.enabled == Some(true))
                  && (s.mode == "l2" <==> v.mode == Some("l2")) && (s.mode == "l2" || s.mode == "l3")
                  && (v.vni.None? ==> s.vni == userid + 1) && (v.vni.Some? ==> s.vni == v.vni.value)
                  && (v.port.None? ==> s.port == 4789) && (v.port.Some? ==> s.port == v.port.value) && s.rest == v.rest)
  {
    assert "l2"[1] != "l3"[1];
  }

  function Get(users: Users, name: string, userid: nat): Settings {
    Effective(if name in users then users[name] else User(None, None), userid)
  }

  /** The other users that carry a user id and hold the VNI, on the same or on another port. */
  function Holders(users: Users, name: string, vni: int): set<string> {
    set other | other in users && other != name && users[other].userid.Some?
                && Effective(users[other], users[other].userid.value).vni == vni
  }

  function SamePort(users: Users, name: string, vni: int, port: int): set<string> {
    set other | other in Holders(users, name, vni)
                && Effective(users[other], users[other].userid.value).port == port
  }

  function OtherPort(users: Users, name: string, vni: int, port: int): set<string> {
    Holders(users, name, vni) - SamePort(users, name, vni, port)
  }

  datatype Permission = ReadOnly | ReadWrite | Admin

  datatype Op =
    | SelfService(name: string, permission: Permission, enable: bool, mode: Option<string>, vni: Option<int>,
                  port: Option<int>, rest: Option<string>)
    | Assign(caller: Permission, name: string, enabled: Option<bool>, mode: Option<string>, vni: Option<int>,
             port: Option<int>, force: bool)
    | AddUser(name: string, userid: nat) // the id asked for or generated
    | RemoveUser(name: string)

  datatype Reply = Done | Denied | Error | Conflict

  function ValidMode(mode: Option<string>): Option<string> {
    if mode == Some("l2") || mode == Some("l3") then mode else None
  }

  /** Stored settings with the request's values on top. */
  function Merge(s: Settings, mode: Option<string>, vni: Option<int>, port: Option<int>): Settings {
    s.(mode := mode.GetOr(s.mode), vni := vni.GetOr(s.vni), port := port.GetOr(s.port))
  }

  function Store(users: Users, name: string, s: Settings): Users
    requires name in users
  {
    users[name := users[name].(vxlan := Some(Keep(s)))]
  }

  /** The settings the self-service request would store. */
  function Requested(users: Users, op: Op): Settings
    requires op.SelfService? && op.name in users
  {
    var s := Get(users, op.name, users[op.name].userid.GetOr(0));
    Merge(s, ValidMode(op.mode), op.vni, op.port).(enabled := op.enable, rest := op.rest.GetOr(s.rest))
  }

  function Assigned(users: Users, op: Op): Settings
    requires op.Assign? && op.name in users && users[op.name].userid.Some?
  {
    var s := Merge(Get(users, op.name, users[op.name].userid.value), op.mode, op.vni, op.port);
    s.(enabled := op.enabled.GetOr(s.enabled))
  }

  /** The reply and the users after one operation. */
  function Step(users: Users, op: Op): (Reply, Users)
    requires op.SelfService? ==> op.name in users
  {
    match op
    case SelfService(name, permission, enable, mode, vni, port, rest) =>
      var wanted := Requested(users, op);
      if permission == ReadOnly || (vni.Some? && permission != Admin) then (Denied, users)
      else if wanted.enabled && SamePort(users, name, wanted.vni, wanted.port) != {} then (Conflict, users)
      else (Done, Store(users, name, wanted))
    case Assign(caller, name, enabled, mode, vni, port, force) =>
      if caller != Admin then (Denied, users)
      else if name !in users || users[name].userid.None? then (Error, users)
      else if mode.Some? && ValidMode(mode).None? then (Error, users)
      else
        var wanted := Assigned(users, op);
        if SamePort(users, name, wanted.vni, wanted.port) != {} && (vni.Some? || port.Some? || wanted.enabled) then (Conflict, users)
        else if OtherPort(users, name, wanted.vni, wanted.port) != {} && vni.Some? && !force then (Conflict, users)
        else (Done, Store(users, name, wanted))
    case AddUser(name, userid) => (Done, users[name := User(Some(userid), None)])
    case RemoveUser(name) =>
      if name in users && users[name].userid.Some? && users[name].userid.value != 0 then (Done, users - {name})
      else (Error, users)
  }

  // ----- Collision freedom

  /** The device pair of a user that carries an id and is enabled. */
  ghost predicate Holds(users: Users, name: string, vni: int, port: int) {
    name in users && users[name].userid.Some? &&
    var s := Effective(users[name], users[name].userid.value);
    s.enabled && s.vni == vni && s.port == port
  }

  /** No two enabled users share both VNI and UDP port. */
  ghost predicate CollisionFree(users: Users) {
    forall a, b, vni, port :: Holds(users, a, vni, port) && Holds(users, b, vni, port) ==> a == b
  }

  lemma HolderIsCounted(users: Users, name: string, other: string, vni: int, port: int)
    ensures Holds(users, other, vni, port) && other != name ==> other in SamePort(users, name, vni, port)
  {
  }

  /** Storing settings that are off, or that nobody else holds, keeps the users collision free. */
  lemma StoreKeepsFree(users: Users, name: string, s: Settings)
    requires CollisionFree(users) && name in users
    requires s.mode == "l2" || s.mode == "l3"
    requires s.enabled && users[name].userid.Some? ==> SamePort(users, name, s.vni, s.port) == {}
    ensures CollisionFree(Store(users, name, s))
  {
    var after := Store(users, name, s);
    forall a, b, vni, port | Holds(after, a, vni, port) && Holds(after, b, vni, port) ensures a == b {
      HolderIsCounted(users, name, a, vni, port);
      HolderIsCounted(users, name, b, vni, port);
      assert a != name ==> Holds(users, a, vni, port);
      assert b != name ==> Holds(users, b, vni, port);
    }
  }

  lemma StepKeepsFree(users: Users, op: Op)
    requires CollisionFree(users) && (op.SelfService? ==> op.name in users)
    ensures CollisionFree(Step(users, op).1)
  {
    match op
    case SelfService(name, permission, enable, mode, vni, port, rest) =>
      if Step(users, op).0 == Done { StoreKeepsFree(users, name, Requested(users, op)); }
    case Assign(caller, name, enabled, mode, vni, port, force) =>
      if Step(users, op).0 == Done { StoreKeepsFree(users, name, Assigned(users, op)); }
    case AddUser(name, userid) =>
      var after := Step(users, op).1;
      forall a, b, vni, port | Holds(after, a, vni, port) && Holds(after, b, vni, port) ensures a == b {
        assert a != name && b != name;
        assert Holds(users, a, vni, port) && Holds(users, b, vni, port);
      }
    case RemoveUser(name) =>
      var after := Step(users, op).1;
      forall a, b, vni, port | Holds(after, a, vni, port) && Holds(after, b, vni, port) ensures a == b {
        assert Holds(users, a, vni, port) && Holds(users, b, vni, port);
      }
  }

  // ----- What a request leaves behind

  /** Another user with an id is assigned the pair, enabled or not. */
  ghost predicate Taken(users: Users, name: string, vni: int, port: int) {
    exists other :: other in users && other != name && Assigns(users[other], vni, port)
  }

  predicate Assigns(u: User, vni: int, port: int) {
    u.userid.Some? && var s := Effective(u, u.userid.value); s.vni == vni && s.port == port
  }

  lemma TakenIff(users: Users, name: string, vni: int, port: int)
    ensures Taken(users, name, vni, port) <==> SamePort(users, name, vni, port) != {}
  {
    if Taken(users, name, vni, port) {
      var other :| other in users && other != name && Assigns(users[other], vni, port);
      assert other in SamePort(users, name, vni, port);
    } else {
      forall other ensures other !in SamePort(users, name, vni, port) { }
    }
  }

  /**
   Only one user's settings change: given values are taken over, and values that were not given,
   defaults included, stay in force.
   */
  ghost predicate Updated(before: Users, after: Users, name: string, enabled: Option<bool>, mode: Option<string>,
                          vni: Option<int>, port: Option<int>, rest: Option<string>)
    requires name in before
  {
    && after.Keys == before.Keys
    && (forall other :: other in before && other != name ==> after[other] == before[other])
    && after[name].userid == before[name].userid
    && var id := before[name].userid.GetOr(0);
       var was, now := Effective(before[name], id), Effective(after[name], id);
       && now.enabled == enabled.GetOr(was.enabled) && now.mode == mode.GetOr(was.mode)
       && now.vni == vni.GetOr(was.vni) && now.port == port.GetOr(was.port) && now.rest == rest.GetOr(was.rest)
  }

  /** Storing merged settings updates just what was given. */
  lemma StoreUpdates(users: Users, name: string, s: Settings, enabled: Option<bool>, mode: Option<string>, vni: Option<int>,
                     port: Option<int>, rest: Option<string>)
    requires name in users && (mode == None || mode == Some("l2") || mode == Some("l3"))
    requires var was := Effective(users[name], users[name].userid.GetOr(0));
             s == Merge(was, mode, vni, port).(enabled := enabled.GetOr(was.enabled), rest := rest.GetOr(was.rest))
    ensures Updated(users, Store(users, name, s), name, enabled, mode, vni, port, rest)
  {
  }

  /** Another user with an id is assigned the VNI on another port. */
  ghost predicate TakenElsewhere(users: Users, name: string, vni: int, port: int) {
    exists other, port' :: other in users && other != name && port' != port && Assigns(users[other], vni, port')
  }

  lemma TakenElsewhereIff(users: Users, name: string, vni: int, port: int)
    ensures TakenElsewhere(users, name, vni, port) <==> OtherPort(users, name, vni, port) != {}
  {
    if other, port' :| other in users && other != name && port' != port && Assigns(users[other], vni, port') {
      assert other in OtherPort(users, name, vni, port);
    }
    if OtherPort(users, name, vni, port) != {} {
      var other := Member(OtherPort(users, name, vni, port));
      var port' := Effective(users[other], users[other].userid.value).port;
      assert port' != port && Assigns(users[other], vni, port');
    }
  }

  /** A user's settings before a request. */
  function Current(users: Users, name: string): Settings
    requires name in users
  {
    Effective(users[name], users[name].userid.GetOr(0))
  }

  class Registry {
    var users: Users

    /** The self-service endpoint. */
    method SetOwn(op: Op) returns (reply: Reply)
      requires op.SelfService? && op.name in users
      modifies this
      ensures (reply, users) == Step(old(users), op)
      ensures reply == Denied <==> op.permission == ReadOnly || (op.vni.Some? && op.permission != Admin)
      ensures reply == Conflict <==>
                && reply != Denied && op.enable
                && var was := Current(old(users), op.name);
                   Taken(old(users), op.name, op.vni.GetOr(was.vni), op.port.GetOr(was.port))
      ensures reply != Done ==> users == old(users)
      ensures reply == Done ==>
                Updated(old(users), users, op.name, Some(op.enable), ValidMode(op.mode), op.vni, op.port, op.rest)
      ensures CollisionFree(old(users)) ==> CollisionFree(users)
    {
      ghost var before := users;
      if CollisionFree(before) { StepKeepsFree(before, op); }
      if op.permission == ReadOnly {
        return Denied;
      }
      if op.vni.Some? && op.permission != Admin {
        return Denied;
      }
      var wanted := Requested(users, op);
      TakenIff(users, op.name, wanted.vni, wanted.port);
      if wanted.enabled {
        var samePort := SamePort(users, op.name, wanted.vni, wanted.port);
        if samePort != {} {
          return Conflict;
        }
      }
      StoreUpdates(users, op.name, wanted, Some(op.enable), ValidMode(op.mode), op.vni, op.port, op.rest);
      users := Store(users, op.name, wanted);
      return Done;
    }

    /** The admin endpoint. */
    method AssignOther(op: Op) returns (reply: Reply)
      requires op.Assign?
      modifies this
      ensures (reply, users) == Step(old(users), op)
      ensures reply == Denied <==> op.caller != Admin
      ensures reply == Error <==>
                reply != Denied && (op.name !in old(users) || old(users)[op.name].userid.None? || op.mode !in [None, Some("l2"), Some("l3")])
      ensures reply != Done ==> users == old(users)
      ensures reply == Done ==>
                && op.name in old(users)
                && Updated(old(users), users, op.name, op.enabled, op.mode, op.vni, op.port, None)
      ensures reply == Conflict <==>
                && reply != Denied && reply != Error
                && var was := Current(old(users), op.name);
                   var vni, port := op.vni.GetOr(was.vni), op.port.GetOr(was.port);
                   || (Taken(old(users), op.name, vni, port) && (op.vni.Some? || op.port.Some? || op.enabled.GetOr(was.enabled)))
                   || (TakenElsewhere(old(users), op.name, vni, port) && op.vni.Some? && !op.force)
      // A pair somebody else holds is never handed out, forced or not; only switching its holder off is allowed.
      ensures reply == Done && op.name in users && users[op.name].userid.Some? ==>
                var s := Effective(users[op.name], users[op.name].userid.value);
                Taken(old(users), op.name, s.vni, s.port) ==> op.vni.None? && op.port.None? && !s.enabled
      ensures CollisionFree(old(users)) ==> CollisionFree(users)
    {
      ghost var before := users;
      if CollisionFree(before) { StepKeepsFree(before, op); }
      if op.caller != Admin {
        return Denied;
      }
      if op.name !in users || users[op.name].userid.None? {
        return Error;
      }
      if op.mode.Some? && ValidMode(op.mode).None? {
        return Error;
      }
      var wanted := Assigned(users, op);
      TakenIff(users, op.name, wanted.vni, wanted.port);
      TakenElsewhereIff(users, op.name, wanted.vni, wanted.port);
      var samePort := SamePort(users, op.name, wanted.vni, wanted.port);
      var otherPort := OtherPort(users, op.name, wanted.vni, wanted.port);
      var assigning := op.vni.Some? || op.port.Some?;
      if samePort != {} && (assigning || wanted.enabled) {
        return Conflict;
      }
      if otherPort != {} && op.vni.Some? && !op.force {
        return Conflict;
      }
      StoreUpdates(users, op.name, wanted, op.enabled, op.mode, op.vni, op.port, None);
      users := Store(users, op.name, wanted);
      return Done;
    }
  }

  // ----- Runs

  /** A run; self-service requests of unknown users are skipped, as they cannot log in. */
  function Run(users: Users, ops: seq<Op>): Users {
    if ops == [] then users
    else
      var before, op := Run(users, ops[..|ops| - 1]), ops[|ops| - 1];
      if op.SelfService? && op.name !in before then before else Step(before, op).1
  }

  /** Over every run, no two enabled users with an id hold the same VNI and UDP port. */
  lemma {:induction false} RunKeepsFree(users: Users, ops: seq<Op>)
    requires CollisionFree(users)
    ensures CollisionFree(Run(users, ops))
  {
    if ops != [] {
      var before, op := Run(users, ops[..|ops| - 1]), ops[|ops| - 1];
      RunKeepsFree(users, ops[..|ops| - 1]);
      if !(op.SelfService? && op.name !in before) { StepKeepsFree(before, op); }
    }
  }

  /**
   Enabling by the self-service endpoint, by anybody who may use it, succeeds exactly when nobody
   else with an id is assigned the pair - enabled or not.
   */
  lemma EnableAcceptedIff(users: Users, op: Op)
    requires op.SelfService? && op.name in users && op.enable
    requires op.permission != ReadOnly && (op.vni.Some? ==> op.permission == Admin)
    ensures var was := Current(users, op.name);
            Step(users, op).0 == Done <==> !Taken(users, op.name, op.vni.GetOr(was.vni), op.port.GetOr(was.port))
  {
    TakenIff(users, op.name, Requested(users, op).vni, Requested(users, op).port);
  }

  /** Adding a user and removing it again leaves the others as they were; only an id of 0 is protected. */
  lemma AddThenRemoveIff(users: Users, name: string, userid: nat)
    requires name !in users
    ensures Step(users, AddUser(name, userid)) == (Done, users[name := User(Some(userid), None)])
    ensures Step(Step(users, AddUser(name, userid)).1, RemoveUser(name)).1 == users <==> userid != 0
    ensures Step(users, RemoveUser(name)) == (Error, users)
  {
    assert users[name := User(Some(userid), None)] - {name} == users;
  }

  /** Disabled users may hold colliding pairs: a fresh user's default pair may already be taken. */
  lemma DisabledMayCollide()
    ensures var users := map["a" := User(Some(3), Some(Stored(Some(true), Some("l3"), Some(5), Some(4789), "")))];
            var after := Step(users, AddUser("b", 4)).1;
            && CollisionFree(after)
            && Effective(after["a"], 3).vni == Effective(after["b"], 4).vni
            && Effective(after["a"], 3).port == Effective(after["b"], 4).port
  {
    var users := map["a" := User(Some(3), Some(Stored(Some(true), Some("l3"), Some(5), Some(4789), "")))];
    var after := Step(users, AddUser("b", 4)).1;
    assert CollisionFree(users);
    StepKeepsFree(users, AddUser("b", 4));
  }
}
