/**
 The group manager: four maps that refer to each other. `GroupManager` is the object, `Groups` its
 abstract value, on which whole histories are reasoned about.
 */
module GroupManagement {
  import opened Wrappers
  import opened Sequences

  type Uuid = nat

  datatype Group = Group(id: Uuid, name: string, description: Option<string>)

  datatype Error = GroupNotFound | GroupAlreadyExists | InvalidGroupName | InvalidUuid

  /** Length in UTF-8 bytes, which is what the name check counts. */
  function Utf8Len(s: string): nat {
    if s == [] then 0
    else
      var c := s[0] as int;
      (if c < 0x80 then 1 else if c < 0x800 then 2 else if c < 0x1_0000 then 3 else 4) + Utf8Len(s[1..])
  }

  datatype Groups = Groups(
    groups: map<Uuid, Group>, index: map<string, Uuid>,
    permissions: map<Uuid, set<string>>, members: map<string, set<Uuid>>)
  {
    /** The index is the inverse of the names, and the other maps mention live groups only. */
    ghost predicate Valid() {
      && (forall id :: id in groups ==>
            && groups[id].id == id && Utf8Len(groups[id].name) >= 2
            && groups[id].name in index && index[groups[id].name] == id)
      && (forall n :: n in index ==> index[n] in groups && groups[index[n]].name == n)
      && permissions.Keys <= groups.Keys
      && (forall u :: u in members ==> members[u] <= groups.Keys)
    }

    function PermissionsOf(id: Uuid): set<string> {
      if id in permissions then permissions[id] else {}
    }

    function GroupsOf(user: string): set<Uuid> {
      if user in members then members[user] else {}
    }

    /** The names `get_user_groups` reports for a user. */
    function GroupNames(user: string): set<string> {
      set id | id in GroupsOf(user) && id in groups :: groups[id].name
    }

    /** Everything the groups in `ids` grant. */
    function Granted(ids: set<Uuid>): set<string> {
      set id, p | id in ids && p in PermissionsOf(id) :: p
    }

    function UserPermissions(user: string): set<string> {
      Granted(GroupsOf(user))
    }

    function PermissionsForNames(names: set<string>): set<string> {
      set n, p | n in names && n in index && p in PermissionsOf(index[n]) :: p
    }

    lemma GrantedStep(ids: set<Uuid>, id: Uuid)
      ensures Granted(ids + {id}) == Granted(ids) + PermissionsOf(id)
    {
    }

    lemma PermissionsForNamesStep(names: set<string>, n: string)
      ensures PermissionsForNames(names + {n}) ==
              PermissionsForNames(names) + if n in index then PermissionsOf(index[n]) else {}
    {
    }

    /** `id` is the new group's identifier. */
    function Create(id: Uuid, name: string, description: Option<string>): Result<Groups, Error> {
      if Utf8Len(name) < 2 then Err(InvalidGroupName)
      else if name in index then Err(GroupAlreadyExists)
      else Ok(this.(groups := groups[id := Group(id, name, description)], index := index[name := id]))
    }

    function Delete(id: Uuid): Result<Groups, Error> {
      if id !in groups then Err(GroupNotFound)
      else Ok(Groups(groups - {id}, index - {groups[id].name}, permissions - {id},
                     map u | u in members :: members[u] - {id}))
    }

    function AddPermission(id: Uuid, permission: string): Result<Groups, Error> {
      if id !in groups then Err(GroupNotFound)
      else Ok(this.(permissions := permissions[id := PermissionsOf(id) + {permission}]))
    }

    function RemovePermission(id: Uuid, permission: string): Groups {
      if id in permissions then this.(permissions := permissions[id := permissions[id] - {permission}]) else this
    }

    function AddUser(user: string, id: Uuid): Result<Groups, Error> {
      if id !in groups then Err(GroupNotFound)
      else Ok(this.(members := members[user := GroupsOf(user) + {id}]))
    }

    function RemoveUser(user: string, id: Uuid): Groups {
      if user in members then this.(members := members[user := members[user] - {id}]) else this
    }
  }

  /** The names that are too short: the empty one, and one ASCII character. */
  lemma ShortNames(name: string)
    ensures Utf8Len(name) < 2 <==> name == "" || (|name| == 1 && name[0] < '\U{0080}')
  {
  }

  const EMPTY := Groups(map[], map[], map[], map[])

  /** An identifier string that does not parse as a UUID is `None`. */
  class GroupManager {
    var groups: map<Uuid, Group>
    var groupIndex: map<string, Uuid>
    var groupPermissions: map<Uuid, set<string>>
    var userGroups: map<string, set<Uuid>>

    function State(): Groups
      reads this
    {
      Groups(groups, groupIndex, groupPermissions, userGroups)
    }

    constructor ()
      ensures State() == EMPTY
    {
      groups, groupIndex, groupPermissions, userGroups := map[], map[], map[], map[];
    }

    method CreateGroup(id: Uuid, name: string, description: Option<string>) returns (r: Result<Group, Error>)
      modifies this
      ensures match old(State()).Create(id, name, description)
              case Ok(s) => State() == s && r == Ok(Group(id, name, description))
              case Err(e) => State() == old(State()) && r == Err(e)
      ensures r == Err(InvalidGroupName) <==> name == "" || (|name| == 1 && name[0] < '\U{0080}')
      ensures r == Err(GroupAlreadyExists) <==> r != Err(InvalidGroupName) && name in old(groupIndex)
    {
      ShortNames(name);
      if name == [] || Utf8Len(name) < 2 {
        return Err(InvalidGroupName);
      }
      if name in groupIndex {
        return Err(GroupAlreadyExists);
      }
      var group := Group(id, name, description);
      groups := groups[id := group];
      groupIndex := groupIndex[name := id];
      return Ok(group);
    }

    /** What is found under an identifier carries it, and is found again under its name. */
    method GetGroup(groupId: Option<Uuid>) returns (r: Result<Group, Error>)
      ensures r.Err? ==> r.error == if groupId.None? then InvalidUuid else GroupNotFound
      ensures r.Ok? <==> groupId.Some? && groupId.value in groups
      ensures r.Ok? && State().Valid() ==>
        && groupId == Some(r.value.id) && r.value.name in groupIndex && groupIndex[r.value.name] == r.value.id
    {
      if groupId.None? {
        return Err(InvalidUuid);
      }
      return if groupId.value in groups then Ok(groups[groupId.value]) else Err(GroupNotFound);
    }

    /** A live name always resolves to the group that carries it. */
    method GetGroupByName(name: string) returns (r: Result<Group, Error>)
      requires State().Valid()
      ensures r.Ok? <==> exists id :: id in groups && groups[id].name == name
      ensures r.Ok? ==> r.value.name == name && r.value.id in groups && groups[r.value.id] == r.value
      ensures r.Err? ==> r == Err(GroupNotFound)
    {
      if name !in groupIndex {
        return Err(GroupNotFound);
      }
      var id := groupIndex[name];
      return if id in groups then Ok(groups[id]) else Err(GroupNotFound);
    }

    method DeleteGroup(groupId: Option<Uuid>) returns (r: Result<(), Error>)
      modifies this
      ensures groupId.None? ==> State() == old(State()) && r == Err(InvalidUuid)
      ensures groupId.Some? ==>
        match old(State()).Delete(groupId.value)
        case Ok(s) => State() == s && r == Ok(())
        case Err(e) => State() == old(State()) && r == Err(e)
      ensures groupId.Some? ==> r == if groupId.value in old(groups) then Ok(()) else Err(GroupNotFound)
    {
      if groupId.None? {
        return Err(InvalidUuid);
      }
      var id := groupId.value;
      if id !in groups {
        return Err(GroupNotFound);
      }
      var group := groups[id];
      groups := groups - {id};
      groupIndex := groupIndex - {group.name};
      groupPermissions := groupPermissions - {id};
      var users := userGroups.Keys;
      while users != {}
        invariant users <= userGroups.Keys == old(userGroups).Keys
        invariant groups == old(groups) - {id} && groupIndex == old(groupIndex) - {group.name}
        invariant groupPermissions == old(groupPermissions) - {id}
        invariant forall u :: u in userGroups ==>
          userGroups[u] == if u in users then old(userGroups)[u] else old(userGroups)[u] - {id}
        decreases users
      {
        var u :| u in users;
        userGroups := userGroups[u := userGroups[u] - {id}];
        users := users - {u};
      }
      return Ok(());
    }

    method AddGroupPermission(groupId: Option<Uuid>, permission: string) returns (r: Result<(), Error>)
      modifies this
      ensures groupId.None? ==> State() == old(State()) && r == Err(InvalidUuid)
      ensures groupId.Some? ==>
        match old(State()).AddPermission(groupId.value, permission)
        case Ok(s) => State() == s && r == Ok(())
        case Err(e) => State() == old(State()) && r == Err(e)
      ensures groupId.Some? ==> r == if groupId.value in old(groups) then Ok(()) else Err(GroupNotFound)
    {
      if groupId.None? {
        return Err(InvalidUuid);
      }
      var id := groupId.value;
      if id !in groups {
        return Err(GroupNotFound);
      }
      groupPermissions := groupPermissions[
        id := (if id in groupPermissions then groupPermissions[id] else {}) + {permission}];
      return Ok(());
    }

    method RemoveGroupPermission(groupId: Option<Uuid>, permission: string) returns (r: Result<(), Error>)
      modifies this
      ensures groupId.None? ==> State() == old(State()) && r == Err(InvalidUuid)
      ensures groupId.Some? ==> State() == old(State()).RemovePermission(groupId.value, permission) && r == Ok(())
    {
      if groupId.None? {
        return Err(InvalidUuid);
      }
      var id := groupId.value;
      if id in groupPermissions {
        groupPermissions := groupPermissions[id := groupPermissions[id] - {permission}];
      }
      return Ok(());
    }

    method AddUserToGroup(username: string, groupId: Option<Uuid>) returns (r: Result<(), Error>)
      modifies this
      ensures groupId.None? ==> State() == old(State()) && r == Err(InvalidUuid)
      ensures groupId.Some? ==>
        match old(State()).AddUser(username, groupId.value)
        case Ok(s) => State() == s && r == Ok(())
        case Err(e) => State() == old(State()) && r == Err(e)
      ensures groupId.Some? ==> r == if groupId.value in old(groups) then Ok(()) else Err(GroupNotFound)
    {
      if groupId.None? {
        return Err(InvalidUuid);
      }
      var id := groupId.value;
      if id !in groups {
        return Err(GroupNotFound);
      }
      userGroups := userGroups[username := (if username in userGroups then userGroups[username] else {}) + {id}];
      return Ok(());
    }

    method RemoveUserFromGroup(username: string, groupId: Option<Uuid>) returns (r: Result<(), Error>)
      modifies this
      ensures groupId.None? ==> State() == old(State()) && r == Err(InvalidUuid)
      ensures groupId.Some? ==> State() == old(State()).RemoveUser(username, groupId.value) && r == Ok(())
    {
      if groupId.None? {
        return Err(InvalidUuid);
      }
      if username in userGroups {
        userGroups := userGroups[username := userGroups[username] - {groupId.value}];
      }
      return Ok(());
    }

    /** The user's groups, in no particular order. */
    method GetUserGroups(username: string) returns (result: set<Group>)
      ensures forall g :: g in result <==> exists id :: id in State().GroupsOf(username) && id in groups && g == groups[id]
      ensures (set g | g in result :: g.name) == State().GroupNames(username)
    {
      var ids := if username in userGroups then userGroups[username] else {};
      result := {};
      while ids != {}
        invariant ids <= State().GroupsOf(username)
        invariant forall g :: g in result <==>
          exists id :: id in State().GroupsOf(username) && id !in ids && id in groups && g == groups[id]
        decreases ids
      {
        var id :| id in ids;
        if id in groups {
          result := result + {groups[id]};
        }
        ids := ids - {id};
      }
    }

    method GetUserPermissions(username: string) returns (all: set<string>)
      ensures all == State().UserPermissions(username)
    {
      var ids := if username in userGroups then userGroups[username] else {};
      ghost var done: set<Uuid> := {};
      all := {};
      while ids != {}
        invariant done + ids == State().GroupsOf(username)
        invariant all == State().Granted(done)
        decreases ids
      {
        var id :| id in ids;
        State().GrantedStep(done, id);
        if id in groupPermissions {
          all := all + groupPermissions[id];
        }
        ids, done := ids - {id}, done + {id};
      }
      assert done == State().GroupsOf(username);
    }

    /** With no writer active, so that both locks can be taken. */
    method GetPermissionsForGroupsSync(names: seq<string>) returns (result: set<string>)
      ensures result == State().PermissionsForNames(Elems(names))
    {
      result := {};
      for i := 0 to |names|
        invariant result == State().PermissionsForNames(Elems(names[..i]))
      {
        State().PermissionsForNamesStep(Elems(names[..i]), names[i]);
        if names[i] in groupIndex && groupIndex[names[i]] in groupPermissions {
          result := result + groupPermissions[groupIndex[names[i]]];
        }
        assert names[..i + 1] == names[..i] + [names[i]];
        ElemsStep(names[..i], names[i]);
      }
      assert names[..|names|] == names;
    }
  }

  // ----- Whole histories -----

  datatype Operation =
    | Create(id: Uuid, name: string, description: Option<string>)
    | Delete(id: Uuid)
    | AddPermission(id: Uuid, permission: string)
    | RemovePermission(id: Uuid, permission: string)
    | AddUser(user: string, id: Uuid)
    | RemoveUser(user: string, id: Uuid)

  /** An operation that fails leaves the state as it was. */
  function Apply(s: Groups, op: Operation): Groups {
    match op
    case Create(id, name, description) => OrSame(s.Create(id, name, description), s)
    case Delete(id) => OrSame(s.Delete(id), s)
    case AddPermission(id, p) => OrSame(s.AddPermission(id, p), s)
    case RemovePermission(id, p) => s.RemovePermission(id, p)
    case AddUser(u, id) => OrSame(s.AddUser(u, id), s)
    case RemoveUser(u, id) => s.RemoveUser(u, id)
  }

  function OrSame(r: Result<Groups, Error>, s: Groups): Groups {
    match r case Ok(s') => s' case Err(_) => s
  }

  function Run(ops: seq<Operation>): Groups {
    if ops == [] then EMPTY else Apply(Run(ops[..|ops| - 1]), ops[|ops| - 1])
  }

  /** Version 7 UUIDs do not repeat. */
  ghost predicate FreshIds(ops: seq<Operation>) {
    forall i, j :: 0 <= i < j < |ops| && ops[i].Create? && ops[j].Create? ==> ops[i].id != ops[j].id
  }

  lemma ApplyKeepsValid(s: Groups, op: Operation)
    requires s.Valid() && (op.Create? ==> op.id !in s.groups)
    ensures Apply(s, op).Valid()
    ensures forall id :: id in Apply(s, op).groups ==> id in s.groups || (op.Create? && op.id == id)
  {
    hide Utf8Len, Groups.Valid, Groups.Create, Groups.Delete, Groups.AddPermission;
    hide Groups.AddUser, Groups.RemovePermission, Groups.RemoveUser;
    match op
    case Create(id, name, description) => CreateKeepsValid(s, id, name, description);
    case Delete(id) => if s.Delete(id).Ok? { DeleteKeepsValid(s, id); }
    case AddPermission(id, p) => PermissionKeepsValid(s, id, p);
    case RemovePermission(id, p) => PermissionKeepsValid(s, id, p);
    case AddUser(u, id) => MemberKeepsValid(s, u, id);
    case RemoveUser(u, id) => MemberKeepsValid(s, u, id);
  }

  lemma CreateKeepsValid(s: Groups, id: Uuid, name: string, description: Option<string>)
    requires s.Valid() && id !in s.groups
    ensures var r := s.Create(id, name, description);
            r.Ok? ==> r.value.Valid() && r.value.groups.Keys == s.groups.Keys + {id}
  {
    hide Utf8Len;
  }

  lemma PermissionKeepsValid(s: Groups, id: Uuid, p: string)
    requires s.Valid()
    ensures var r := s.AddPermission(id, p); r.Ok? ==> r.value.Valid() && r.value.groups == s.groups
    ensures var r := s.RemovePermission(id, p); r.Valid() && r.groups == s.groups
  {
  }

  lemma MemberKeepsValid(s: Groups, u: string, id: Uuid)
    requires s.Valid()
    ensures var r := s.AddUser(u, id); r.Ok? ==> r.value.Valid() && r.value.groups == s.groups
    ensures var r := s.RemoveUser(u, id); r.Valid() && r.groups == s.groups
  {
    hide Utf8Len;
  }

  lemma DeleteKeepsValid(s: Groups, id: Uuid)
    requires s.Valid() && s.Delete(id).Ok?
    ensures s.Delete(id).value.Valid() && s.Delete(id).value.groups.Keys <= s.groups.Keys
  {
  }

  lemma {:induction false} RunIsValid(ops: seq<Operation>)
    requires FreshIds(ops)
    ensures Run(ops).Valid()
    ensures forall id :: id in Run(ops).groups ==> exists i :: 0 <= i < |ops| && ops[i].Create? && ops[i].id == id
  {
    if ops != [] {
      var front, op := ops[..|ops| - 1], ops[|ops| - 1];
      RunIsValid(front);
      hide Groups.Valid, Apply;
      ApplyKeepsValid(Run(front), op);
      forall id | id in Run(ops).groups ensures exists i :: 0 <= i < |ops| && ops[i].Create? && ops[i].id == id {
        if id in Run(front).groups {
          var i :| 0 <= i < |front| && front[i].Create? && front[i].id == id;
          assert ops[i] == front[i];
        } else {
          assert ops[|ops| - 1].Create? && ops[|ops| - 1].id == id;
        }
      }
    }
  }

  /** Operation `k` created the group under `id`, and nothing deleted it since. */
  ghost predicate CreatedAndKept(ops: seq<Operation>, k: nat, id: Uuid)
    requires k < |ops|
  {
    && ops[k].Create? && ops[k].id == id && Run(ops[..k]).Create(id, ops[k].name, ops[k].description).Ok?
    && forall j :: k < j < |ops| ==> ops[j] != Delete(id)
  }

  /** A group exists exactly when it was created and not deleted since; it is still what was created. */
  lemma {:induction false} LiveGroups(ops: seq<Operation>, id: Uuid)
    requires FreshIds(ops)
    ensures id in Run(ops).groups <==> exists k :: 0 <= k < |ops| && CreatedAndKept(ops, k, id)
    ensures forall k :: 0 <= k < |ops| && CreatedAndKept(ops, k, id) && id in Run(ops).groups ==>
      Run(ops).groups[id] == Group(id, ops[k].name, ops[k].description)
  {
    if ops != [] {
      var n := |ops| - 1;
      var front, op := ops[..n], ops[n];
      LiveGroups(front, id);
      assert Run(ops) == Apply(Run(front), op);
      GroupsStep(Run(front), op, id);
      hide Groups.Create, Groups.Valid, Apply, Run;
      forall k | 0 <= k < n ensures CreatedAndKept(ops, k, id) <==> CreatedAndKept(front, k, id) && op != Delete(id) {
        assert front[..k] == ops[..k];
      }
      if op.Create? && op.id == id {
        assert forall k :: 0 <= k < n ==> !CreatedAndKept(front, k, id);
        assert CreatedAndKept(ops, n, id) <==> id in Run(ops).groups;
      }
    }
  }

  /** What one operation does to the group under `id`. */
  lemma GroupsStep(s: Groups, op: Operation, id: Uuid)
    ensures var t := Apply(s, op);
            if op.Create? && op.id == id && s.Create(id, op.name, op.description).Ok?
            then id in t.groups && t.groups[id] == Group(id, op.name, op.description)
            else if op == Delete(id) then id !in t.groups
            else (id in t.groups <==> id in s.groups) && (id in s.groups ==> t.groups[id] == s.groups[id])
  {
    hide Utf8Len;
  }

  /** Resolving a user's group names synchronously gives exactly the permissions of the user's groups. */
  lemma SyncAgrees(ops: seq<Operation>, user: string)
    requires FreshIds(ops)
    ensures Run(ops).PermissionsForNames(Run(ops).GroupNames(user)) == Run(ops).UserPermissions(user)
  {
    RunIsValid(ops);
    SyncAgreesIn(Run(ops), user);
  }

  lemma SyncAgreesIn(s: Groups, user: string)
    requires s.Valid()
    ensures s.PermissionsForNames(s.GroupNames(user)) == s.UserPermissions(user)
  {
  }

  lemma FreshBefore(ops: seq<Operation>, op: Operation)
    requires FreshIds(ops + [op])
    ensures FreshIds(ops) && forall i :: 0 <= i < |ops| && ops[i].Create? && op.Create? ==> ops[i].id != op.id
  {
    var all := ops + [op];
    assert all[|ops|] == op && forall i :: 0 <= i < |ops| ==> all[i] == ops[i];
  }

  /**
   After any history, a group starts with no members and no permissions, whatever group had its name before;
   it is created exactly when its name is long enough and free, and no membership changes.
   */
  lemma NewGroupIsEmpty(ops: seq<Operation>, id: Uuid, name: string, description: Option<string>)
    requires FreshIds(ops + [Create(id, name, description)])
    ensures var s := Run(ops + [Create(id, name, description)]);
            && (id in s.groups <==> Utf8Len(name) >= 2 && name !in Run(ops).index)
            && (id in s.groups ==> name in s.index && s.index[name] == id && s.PermissionsForNames({name}) == {})
            && s.PermissionsOf(id) == {}
            && forall u :: id !in s.GroupsOf(u) && s.GroupsOf(u) == Run(ops).GroupsOf(u)
  {
    var op := Create(id, name, description);
    FreshBefore(ops, op);
    RunIsValid(ops);
    assert (ops + [op])[..|ops|] == ops;
    hide Utf8Len, Run;
    assert id !in Run(ops).groups;
  }

  /**
   A group that is deleted stays gone, for every user, whatever happens afterwards; one created later under its
   name starts empty.
   */
  lemma RecreatedGroupIsEmpty(ops: seq<Operation>, old_: Uuid, between: seq<Operation>, new_: Uuid, description: Option<string>)
    requires old_ in Run(ops).groups
    requires FreshIds(ops + [Delete(old_)] + between + [Create(new_, Run(ops).groups[old_].name, description)])
    ensures var name, before := Run(ops).groups[old_].name, ops + [Delete(old_)] + between;
            var s := Run(before + [Create(new_, name, description)]);
            && old_ !in s.groups && s.PermissionsOf(old_) == {} && (forall u :: old_ !in s.GroupsOf(u))
            && s.PermissionsOf(new_) == {} && (forall u :: new_ !in s.GroupsOf(u))
            && (name !in Run(before).index ==>
                name in s.index && s.index[name] == new_ && s.PermissionsForNames({name}) == {})
  {
    hide *;
    var name, before := Run(ops).groups[old_].name, ops + [Delete(old_)] + between;
    var all := before + [Create(new_, name, description)];
    assert all == ops + [Delete(old_)] + (between + [Create(new_, name, description)]);
    DeletedStaysGone(ops, old_, between + [Create(new_, name, description)]);
    LongEnough(ops, old_);
    NewGroupIsEmpty(before, new_, name, description);
  }

  lemma DeletedStaysGone(ops: seq<Operation>, id: Uuid, later: seq<Operation>)
    requires FreshIds(ops + [Delete(id)] + later) && id in Run(ops).groups
    ensures FreshIds(ops)
    ensures var s := Run(ops + [Delete(id)] + later);
            id !in s.groups && s.PermissionsOf(id) == {} && forall u :: id !in s.GroupsOf(u)
  {
    hide Run, Utf8Len;
    var all := ops + [Delete(id)] + later;
    FreshPrefix(all, |ops|);
    assert all[..|ops|] == ops && all[|ops|] == Delete(id);
    RunIsValid(ops);
    RunIsValid(all);
    var i :| 0 <= i < |ops| && ops[i].Create? && ops[i].id == id;
    assert all[i] == ops[i];
    LiveGroups(all, id);
    forall k | 0 <= k < |all| ensures !CreatedAndKept(all, k, id) {
      assert k != i && all[k].Create? ==> all[k].id != id;
    }
  }

  lemma FreshPrefix(ops: seq<Operation>, n: nat)
    requires FreshIds(ops) && n <= |ops|
    ensures FreshIds(ops[..n])
  {
  }

  lemma LongEnough(ops: seq<Operation>, id: Uuid)
    requires FreshIds(ops) && id in Run(ops).groups
    ensures Utf8Len(Run(ops).groups[id].name) >= 2
  {
    RunIsValid(ops);
  }

  // ----- What a history grants -----

  /** Operation `k` gave the permission to the group, which existed then, and nothing took it away since. */
  ghost predicate PermissionKept(ops: seq<Operation>, k: nat, id: Uuid, p: string) {
    && k < |ops| && ops[k] == AddPermission(id, p) && id in Run(ops[..k]).groups
    && forall j :: k < j < |ops| ==> ops[j] != RemovePermission(id, p) && ops[j] != Delete(id)
  }

  /** Operation `k` put the user into the group, which existed then, and nothing took them out since. */
  ghost predicate MembershipKept(ops: seq<Operation>, k: nat, user: string, id: Uuid) {
    && k < |ops| && ops[k] == AddUser(user, id) && id in Run(ops[..k]).groups
    && forall j :: k < j < |ops| ==> ops[j] != RemoveUser(user, id) && ops[j] != Delete(id)
  }

  lemma PermissionStep(s: Groups, op: Operation, id: Uuid, p: string)
    requires s.Valid()
    ensures p in Apply(s, op).PermissionsOf(id) <==>
            || (op == AddPermission(id, p) && id in s.groups)
            || (p in s.PermissionsOf(id) && op != RemovePermission(id, p) && op != Delete(id))
  {
    hide Utf8Len;
  }

  lemma MembershipStep(s: Groups, op: Operation, user: string, id: Uuid)
    requires s.Valid()
    ensures id in Apply(s, op).GroupsOf(user) <==>
            || (op == AddUser(user, id) && id in s.groups)
            || (id in s.GroupsOf(user) && op != RemoveUser(user, id) && op != Delete(id))
  {
    hide Utf8Len;
  }

  lemma PermissionKeptStep(ops: seq<Operation>, id: Uuid, p: string)
    requires ops != []
    ensures var n := |ops| - 1; var front, op := ops[..n], ops[n];
            (exists k: nat :: PermissionKept(ops, k, id, p)) <==>
            || (op == AddPermission(id, p) && id in Run(front).groups)
            || ((exists k: nat :: PermissionKept(front, k, id, p)) && op != RemovePermission(id, p) && op != Delete(id))
  {
    hide Run;
    var n := |ops| - 1;
    var front, op := ops[..n], ops[n];
    forall k: nat | k < n
      ensures PermissionKept(ops, k, id, p) <==>
              PermissionKept(front, k, id, p) && op != RemovePermission(id, p) && op != Delete(id)
    {
      assert front[..k] == ops[..k];
    }
    assert PermissionKept(ops, n, id, p) <==> op == AddPermission(id, p) && id in Run(front).groups;
  }

  /** A group has a permission exactly when it was given it while it existed, and not deprived of it or deleted since. */
  lemma {:induction false} PermissionsExactly(ops: seq<Operation>, id: Uuid, p: string)
    requires FreshIds(ops)
    ensures p in Run(ops).PermissionsOf(id) <==> exists k: nat :: PermissionKept(ops, k, id, p)
  {
    if ops == [] {
      assert !exists k: nat :: PermissionKept(ops, k, id, p);
    } else {
      var n := |ops| - 1;
      var front, op := ops[..n], ops[n];
      assert ops == front + [op];
      FreshBefore(front, op);
      PermissionsExactly(front, id, p);
      RunIsValid(front);
      PermissionStep(Run(front), op, id, p);
      assert Run(ops) == Apply(Run(front), op);
      hide *;
      PermissionKeptStep(ops, id, p);
    }
  }

  lemma MembershipKeptStep(ops: seq<Operation>, user: string, id: Uuid)
    requires ops != []
    ensures var n := |ops| - 1; var front, op := ops[..n], ops[n];
            (exists k: nat :: MembershipKept(ops, k, user, id)) <==>
            || (op == AddUser(user, id) && id in Run(front).groups)
            || ((exists k: nat :: MembershipKept(front, k, user, id)) && op != RemoveUser(user, id) && op != Delete(id))
  {
    hide Run;
    var n := |ops| - 1;
    var front, op := ops[..n], ops[n];
    forall k: nat | k < n
      ensures MembershipKept(ops, k, user, id) <==>
              MembershipKept(front, k, user, id) && op != RemoveUser(user, id) && op != Delete(id)
    {
      assert front[..k] == ops[..k];
    }
    assert MembershipKept(ops, n, user, id) <==> op == AddUser(user, id) && id in Run(front).groups;
  }

  /** A user is in a group exactly when they were put there while it existed, and not removed nor the group deleted since. */
  lemma {:induction false} MembershipsExactly(ops: seq<Operation>, user: string, id: Uuid)
    requires FreshIds(ops)
    ensures id in Run(ops).GroupsOf(user) <==> exists k: nat :: MembershipKept(ops, k, user, id)
  {
    if ops == [] {
      assert !exists k: nat :: MembershipKept(ops, k, user, id);
    } else {
      var n := |ops| - 1;
      var front, op := ops[..n], ops[n];
      assert ops == front + [op];
      FreshBefore(front, op);
      MembershipsExactly(front, user, id);
      RunIsValid(front);
      MembershipStep(Run(front), op, user, id);
      assert Run(ops) == Apply(Run(front), op);
      hide *;
      MembershipKeptStep(ops, user, id);
    }
  }

  /** A user holds a permission exactly when some group was given it, and they were put there, and all of that still stands. */
  lemma GrantsExactly(ops: seq<Operation>, user: string, p: string)
    requires FreshIds(ops)
    ensures p in Run(ops).UserPermissions(user) <==>
            exists id, j: nat, k: nat :: MembershipKept(ops, j, user, id) && PermissionKept(ops, k, id, p)
  {
    hide Run, Groups.PermissionsOf, Groups.GroupsOf, MembershipKept, PermissionKept;
    var s := Run(ops);
    if p in s.UserPermissions(user) {
      var id :| id in s.GroupsOf(user) && p in s.PermissionsOf(id);
      MembershipsExactly(ops, user, id);
      PermissionsExactly(ops, id, p);
      var j: nat :| MembershipKept(ops, j, user, id);
      var k: nat :| PermissionKept(ops, k, id, p);
    }
    if id, j: nat, k: nat :| MembershipKept(ops, j, user, id) && PermissionKept(ops, k, id, p) {
      MembershipsExactly(ops, user, id);
      PermissionsExactly(ops, id, p);
      assert id in s.GroupsOf(user) && p in s.PermissionsOf(id);
    }
  }

  /** Names stand for the groups that carry them. */
  lemma NamesGrantExactly(s: Groups, names: set<string>, p: string)
    requires s.Valid()
    ensures p in s.PermissionsForNames(names) <==>
            exists id :: id in s.groups && s.groups[id].name in names && p in s.PermissionsOf(id)
  {
    hide Utf8Len;
    hide Groups.PermissionsOf;
    if p in s.PermissionsForNames(names) {
      var n :| n in names && n in s.index && p in s.PermissionsOf(s.index[n]);
      var id := s.index[n];
      assert id in s.groups && s.groups[id].name in names && p in s.PermissionsOf(id);
    }
    if id :| id in s.groups && s.groups[id].name in names && p in s.PermissionsOf(id) {
      var n := s.groups[id].name;
      assert n in names && n in s.index && p in s.PermissionsOf(s.index[n]);
    }
  }

  /** Deleting a group takes from each user exactly the permissions that no other of their groups grants. */
  lemma DeleteRevokesExactly(s: Groups, id: Uuid, user: string)
    requires s.Valid() && id in s.groups
    ensures Apply(s, Delete(id)).UserPermissions(user) ==
            s.Granted(s.GroupsOf(user) - {id})
  {
    var s' := Apply(s, Delete(id));
    assert s'.GroupsOf(user) == s.GroupsOf(user) - {id};
    forall other | other != id ensures s'.PermissionsOf(other) == s.PermissionsOf(other) {}
  }
}
