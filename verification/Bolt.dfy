/**
 * The relations between users, admins, groups, folders and roles in the Bolt provider. Each relation
 * is stored twice: as references in the referring record and as a member list in the record referred to.
 */
module Bolt {
  import opened NameLists

  datatype User = User(groups: seq<string>, folders: seq<string>, role: string)
  datatype Admin = Admin(groups: seq<string>, role: string)

  /** The names a group, a folder or a role lists as its members. */
  datatype Members = Members(users: seq<string>, admins: seq<string>, groups: seq<string>)

  datatype Kind = AUser | AnAdmin | AGroup

  /** A group, a folder or a role; only groups refer to folders. */
  datatype Object = Object(folders: seq<string>, members: Members)
  {
    function Get(kind: Kind): seq<string>
    {
      match kind
      case AUser => members.users
      case AnAdmin => members.admins
      case AGroup => members.groups
    }

    function Set(kind: Kind, list: seq<string>): Object
    {
      match kind
      case AUser => this.(members := members.(users := list))
      case AnAdmin => this.(members := members.(admins := list))
      case AGroup => this.(members := members.(groups := list))
    }
  }

  const NO_MEMBERS := Members([], [], [])

  type Bucket = map<string, Object>

  /** An API key names a user, an admin, or neither. */
  datatype APIKey = APIKey(user: string, admin: string)

  datatype Db = Db(users: map<string, User>, admins: map<string, Admin>, groups: Bucket, folders: Bucket, roles: Bucket,
                   shares: map<string, string>, apiKeys: map<string, APIKey>)

  // ---------------------------------------------------------------- consistency

  ghost predicate HasMember(bucket: Bucket, key: string, kind: Kind, name: string)
  {
    key in bucket && name in bucket[key].Get(kind)
  }

  /** Which keys each record refers to. */
  type Refs = map<string, seq<string>>

  function RoleKeys(role: string): seq<string>
  {
    if role == "" then [] else [role]
  }

  ghost function GroupsOfUsers(users: map<string, User>): Refs { map u | u in users :: users[u].groups }
  ghost function FoldersOfUsers(users: map<string, User>): Refs { map u | u in users :: users[u].folders }
  ghost function RolesOfUsers(users: map<string, User>): Refs { map u | u in users :: RoleKeys(users[u].role) }
  ghost function GroupsOfAdmins(admins: map<string, Admin>): Refs { map a | a in admins :: admins[a].groups }
  ghost function RolesOfAdmins(admins: map<string, Admin>): Refs { map a | a in admins :: RoleKeys(admins[a].role) }
  ghost function FoldersOfGroups(groups: Bucket): Refs { map g | g in groups :: groups[g].folders }

  /** A record refers to a key exactly when the record under that key lists it as a member. */
  ghost predicate Mirrors(refs: Refs, bucket: Bucket, kind: Kind)
  {
    forall name, key :: HasMember(bucket, key, kind, name) <==> name in refs && key in refs[name]
  }

  /** Shares and API keys only name existing users and admins. */
  ghost predicate NoOrphans(db: Db)
  {
    && (forall s :: s in db.shares ==> db.shares[s] in db.users)
    && (forall k :: k in db.apiKeys && db.apiKeys[k].user != "" ==> db.apiKeys[k].user in db.users)
    && (forall k :: k in db.apiKeys && db.apiKeys[k].admin != "" ==> db.apiKeys[k].admin in db.admins)
  }

  ghost predicate NoName(db: Db)
  {
    "" !in db.users && "" !in db.admins && "" !in db.groups && "" !in db.folders && "" !in db.roles
  }

  /** No record lists a member twice. */
  ghost predicate NoRepeats(bucket: Bucket)
  {
    forall key, kind :: key in bucket ==> Distinct(bucket[key].Get(kind))
  }

  /** Both sides of every relation agree. */
  ghost predicate Consistent(db: Db)
  {
    && Mirrors(GroupsOfUsers(db.users), db.groups, AUser)
    && Mirrors(FoldersOfUsers(db.users), db.folders, AUser)
    && Mirrors(RolesOfUsers(db.users), db.roles, AUser)
    && Mirrors(GroupsOfAdmins(db.admins), db.groups, AnAdmin)
    && Mirrors(RolesOfAdmins(db.admins), db.roles, AnAdmin)
    && Mirrors(FoldersOfGroups(db.groups), db.folders, AGroup)
    && NoOrphans(db) && NoName(db)
    && NoRepeats(db.groups) && NoRepeats(db.folders) && NoRepeats(db.roles)
  }

  /** The database without the redundant member lists: what transactions are asked to store. */
  datatype Primary = Primary(users: map<string, User>, admins: map<string, Admin>, groups: map<string, seq<string>>,
                             folders: set<string>, roles: set<string>, shares: map<string, string>,
                             apiKeys: map<string, APIKey>)

  ghost function PrimaryOf(db: Db): Primary
  {
    Primary(db.users, db.admins, FoldersOfGroups(db.groups), db.folders.Keys, db.roles.Keys, db.shares, db.apiKeys)
  }

  // ---------------------------------------------------------------- member lists

  /** The objects are the same, up to their members. */
  ghost predicate SameObjects(before: Bucket, after: Bucket)
  {
    after.Keys == before.Keys && forall k :: k in before ==> after[k].folders == before[k].folders
  }

  ghost predicate MemberAdded(before: Bucket, after: Bucket, keys: seq<string>, kind: Kind, name: string)
  {
    forall k, kind', x :: HasMember(after, k, kind', x) <==>
                            HasMember(before, k, kind', x) || (kind' == kind && x == name && k in keys)
  }

  ghost predicate MemberRemoved(before: Bucket, after: Bucket, keys: seq<string>, kind: Kind, name: string)
  {
    forall k, kind', x :: HasMember(after, k, kind', x) <==>
                            HasMember(before, k, kind', x) && !(kind' == kind && x == name && k in keys)
  }

  /** Replacing one list of one record changes nothing else. */
  lemma ListReplaced(bucket: Bucket, key: string, kind: Kind, list: seq<string>)
    requires key in bucket && NoRepeats(bucket) && Distinct(list)
    ensures var after := bucket[key := bucket[key].Set(kind, list)];
            && SameObjects(bucket, after) && NoRepeats(after)
            && forall k, kind', x :: HasMember(after, k, kind', x) <==>
                                       if k == key && kind' == kind then x in list else HasMember(bucket, k, kind', x)
  {
    var after := bucket[key := bucket[key].Set(kind, list)];
    forall k, kind' | k in after
      ensures after[k].Get(kind') == if k == key && kind' == kind then list else bucket[k].Get(kind')
    {
    }
  }

  /** Adds a name to the members of one record, once; the record must exist. */
  method AddMapping(bucket: Bucket, key: string, kind: Kind, name: string) returns (ok: bool, after: Bucket)
    requires NoRepeats(bucket)
    ensures ok <==> key in bucket
    ensures ok ==> SameObjects(bucket, after) && NoRepeats(after) && MemberAdded(bucket, after, [key], kind, name)
  {
    if key !in bucket {
      return false, bucket;
    }
    var record := bucket[key];
    if name !in record.Get(kind) {
      DistinctAppend(record.Get(kind), name);
      ListReplaced(bucket, key, kind, record.Get(kind) + [name]);
      return true, bucket[key := record.Set(kind, record.Get(kind) + [name])];
    }
    return true, bucket;
  }

  /** Removes a name from the members of one record; a missing record is reported. */
  method RemoveMapping(bucket: Bucket, key: string, kind: Kind, name: string) returns (found: bool, after: Bucket)
    requires NoRepeats(bucket)
    ensures found <==> key in bucket
    ensures SameObjects(bucket, after) && NoRepeats(after) && MemberRemoved(bucket, after, [key], kind, name)
  {
    if key !in bucket {
      return false, bucket;
    }
    var record := bucket[key];
    var names := RemoveName(record.Get(kind), name);
    DroppedMembers(record.Get(kind), name);
    ListReplaced(bucket, key, kind, names);
    return true, bucket[key := record.Set(kind, names)];
  }

  /** Adds a name to the members of several objects; any missing one is an error. */
  method AddMappings(bucket: Bucket, keys: seq<string>, kind: Kind, name: string) returns (ok: bool, after: Bucket)
    requires NoRepeats(bucket)
    ensures ok <==> forall k <- keys :: k in bucket
    ensures ok ==> SameObjects(bucket, after) && NoRepeats(after) && MemberAdded(bucket, after, keys, kind, name)
  {
    ok, after := true, bucket;
    for i := 0 to |keys|
      invariant forall j :: 0 <= j < i ==> keys[j] in bucket
      invariant SameObjects(bucket, after) && NoRepeats(after) && MemberAdded(bucket, after, keys[..i], kind, name)
    {
      ghost var before := after;
      ok, after := AddMapping(after, keys[i], kind, name);
      if !ok {
        return;
      }
      assert keys[..i + 1] == keys[..i] + [keys[i]];
    }
    assert keys[..|keys|] == keys;
    ok := true;
  }

  /** Removes a name from the members of several objects; a missing one is an error only when strict. */
  method RemoveMappings(bucket: Bucket, keys: seq<string>, kind: Kind, name: string, strict: bool)
    returns (ok: bool, after: Bucket)
    requires NoRepeats(bucket)
    ensures ok <==> (strict ==> forall k <- keys :: k in bucket)
    ensures ok ==> SameObjects(bucket, after) && NoRepeats(after) && MemberRemoved(bucket, after, keys, kind, name)
  {
    ok, after := true, bucket;
    for i := 0 to |keys|
      invariant strict ==> forall j :: 0 <= j < i ==> keys[j] in bucket
      invariant SameObjects(bucket, after) && NoRepeats(after) && MemberRemoved(bucket, after, keys[..i], kind, name)
    {
      var found: bool;
      found, after := RemoveMapping(after, keys[i], kind, name);
      if !found && strict {
        return false, after;
      }
      assert keys[..i + 1] == keys[..i] + [keys[i]];
    }
    assert keys[..|keys|] == keys;
    ok := true;
  }

  /** Roles are optional: "" names none, and then nothing is recorded. */
  method AddToRole(roles: Bucket, role: string, kind: Kind, name: string) returns (ok: bool, after: Bucket)
    requires NoRepeats(roles) && "" !in roles
    ensures ok <==> role == "" || role in roles
    ensures ok ==> SameObjects(roles, after) && NoRepeats(after)
    ensures ok ==> MemberAdded(roles, after, if role == "" then [] else [role], kind, name)
  {
    if role == "" {
      return true, roles;
    }
    ok, after := AddMapping(roles, role, kind, name);
  }

  method RemoveFromRole(roles: Bucket, role: string, kind: Kind, name: string) returns (after: Bucket)
    requires NoRepeats(roles) && "" !in roles
    ensures SameObjects(roles, after) && NoRepeats(after)
    ensures MemberRemoved(roles, after, [role], kind, name)
  {
    if role == "" {
      return roles;
    }
    var _, after' := RemoveMapping(roles, role, kind, name);
    return after';
  }

  // ---------------------------------------------------------------- what relinking one record does

  /** The members of one kind and name are now listed under exactly these keys; nothing else changed. */
  ghost predicate Relinked(before: Bucket, after: Bucket, kind: Kind, name: string, keys: seq<string>)
  {
    && SameObjects(before, after) && NoRepeats(after)
    && forall k, kind', x :: HasMember(after, k, kind', x) <==>
                               if kind' == kind && x == name then k in keys else HasMember(before, k, kind', x)
  }

  lemma RelinkedByAdd(before: Bucket, after: Bucket, kind: Kind, name: string, keys: seq<string>)
    requires SameObjects(before, after) && NoRepeats(after) && MemberAdded(before, after, keys, kind, name)
    requires forall k :: !HasMember(before, k, kind, name)
    ensures Relinked(before, after, kind, name, keys)
  {
  }

  lemma RelinkedByRemove(before: Bucket, after: Bucket, kind: Kind, name: string, keys: seq<string>)
    requires SameObjects(before, after) && NoRepeats(after) && MemberRemoved(before, after, keys, kind, name)
    requires forall k :: HasMember(before, k, kind, name) ==> k in keys
    ensures Relinked(before, after, kind, name, [])
  {
  }

  lemma RelinkedTwice(before: Bucket, middle: Bucket, after: Bucket, kind: Kind, name: string, keys: seq<string>)
    requires Relinked(before, middle, kind, name, [])
    requires SameObjects(middle, after) && NoRepeats(after) && MemberAdded(middle, after, keys, kind, name)
    ensures Relinked(before, after, kind, name, keys)
  {
  }

  lemma MirrorStored(refs: Refs, before: Bucket, after: Bucket, kind: Kind, name: string, keys: seq<string>)
    requires Mirrors(refs, before, kind) && Relinked(before, after, kind, name, keys)
    ensures Mirrors(refs[name := keys], after, kind)
  {
  }

  lemma MirrorDeleted(refs: Refs, before: Bucket, after: Bucket, kind: Kind, name: string)
    requires Mirrors(refs, before, kind) && Relinked(before, after, kind, name, [])
    ensures Mirrors(refs - {name}, after, kind)
  {
  }

  lemma MirrorOfOtherKind(refs: Refs, before: Bucket, after: Bucket, kind: Kind, name: string, keys: seq<string>,
                          other: Kind)
    requires Mirrors(refs, before, other) && Relinked(before, after, kind, name, keys) && other != kind
    ensures Mirrors(refs, after, other)
  {
  }

  lemma RelinkedObjects(before: Bucket, after: Bucket, kind: Kind, name: string, keys: seq<string>)
    requires Relinked(before, after, kind, name, keys)
    ensures after.Keys == before.Keys && FoldersOfGroups(after) == FoldersOfGroups(before) && NoRepeats(after)
  {
  }

  lemma UserRefsStored(users: map<string, User>, name: string, user: User)
    ensures GroupsOfUsers(users[name := user]) == GroupsOfUsers(users)[name := user.groups]
    ensures FoldersOfUsers(users[name := user]) == FoldersOfUsers(users)[name := user.folders]
    ensures RolesOfUsers(users[name := user]) == RolesOfUsers(users)[name := RoleKeys(user.role)]
  {
  }

  lemma UserRefsDeleted(users: map<string, User>, name: string)
    ensures GroupsOfUsers(users - {name}) == GroupsOfUsers(users) - {name}
    ensures FoldersOfUsers(users - {name}) == FoldersOfUsers(users) - {name}
    ensures RolesOfUsers(users - {name}) == RolesOfUsers(users) - {name}
  {
  }

  lemma AdminRefsStored(admins: map<string, Admin>, name: string, admin: Admin)
    ensures GroupsOfAdmins(admins[name := admin]) == GroupsOfAdmins(admins)[name := admin.groups]
    ensures RolesOfAdmins(admins[name := admin]) == RolesOfAdmins(admins)[name := RoleKeys(admin.role)]
  {
  }

  lemma AdminRefsDeleted(admins: map<string, Admin>, name: string)
    ensures GroupsOfAdmins(admins - {name}) == GroupsOfAdmins(admins) - {name}
    ensures RolesOfAdmins(admins - {name}) == RolesOfAdmins(admins) - {name}
  {
  }

  lemma GroupRefsStored(groups: Bucket, name: string, group: Object)
    ensures FoldersOfGroups(groups[name := group]) == FoldersOfGroups(groups)[name := group.folders]
  {
  }

  /** Storing a user and relinking it everywhere keeps both sides of its relations equal. */
  lemma UserStored(db: Db, after: Db, name: string, user: User)
    requires Consistent(db) && name != ""
    requires Relinked(db.groups, after.groups, AUser, name, user.groups)
    requires Relinked(db.folders, after.folders, AUser, name, user.folders)
    requires Relinked(db.roles, after.roles, AUser, name, RoleKeys(user.role))
    requires after.users == db.users[name := user]
    requires after.admins == db.admins && after.shares == db.shares && after.apiKeys == db.apiKeys
    ensures Consistent(after)
    ensures PrimaryOf(after) == PrimaryOf(db).(users := after.users)
  {
    var groups, folders, roles := GroupsOfUsers(db.users), FoldersOfUsers(db.users), RolesOfUsers(db.users);
    hide Mirrors, Relinked, NoRepeats;
    MirrorStored(groups, db.groups, after.groups, AUser, name, user.groups);
    MirrorStored(folders, db.folders, after.folders, AUser, name, user.folders);
    MirrorStored(roles, db.roles, after.roles, AUser, name, RoleKeys(user.role));
    UserRefsStored(db.users, name, user);
    OtherMirrorsKept(db, after, name, user.groups, user.folders, RoleKeys(user.role));
  }

  /** Relinking a user touches no relation of admins and groups. */
  lemma OtherMirrorsKept(db: Db, after: Db, name: string, groups: seq<string>, folders: seq<string>, roles: seq<string>)
    requires Consistent(db) && after.admins == db.admins
    requires Relinked(db.groups, after.groups, AUser, name, groups)
    requires Relinked(db.folders, after.folders, AUser, name, folders)
    requires Relinked(db.roles, after.roles, AUser, name, roles)
    ensures Mirrors(GroupsOfAdmins(after.admins), after.groups, AnAdmin)
    ensures Mirrors(RolesOfAdmins(after.admins), after.roles, AnAdmin)
    ensures Mirrors(FoldersOfGroups(after.groups), after.folders, AGroup)
    ensures after.groups.Keys == db.groups.Keys && after.folders.Keys == db.folders.Keys
            && after.roles.Keys == db.roles.Keys
    ensures FoldersOfGroups(after.groups) == FoldersOfGroups(db.groups)
    ensures NoRepeats(after.groups) && NoRepeats(after.folders) && NoRepeats(after.roles)
  {
    hide Mirrors, Relinked;
    RelinkedObjects(db.groups, after.groups, AUser, name, groups);
    RelinkedObjects(db.folders, after.folders, AUser, name, folders);
    RelinkedObjects(db.roles, after.roles, AUser, name, roles);
    MirrorOfOtherKind(GroupsOfAdmins(db.admins), db.groups, after.groups, AUser, name, groups, AnAdmin);
    MirrorOfOtherKind(RolesOfAdmins(db.admins), db.roles, after.roles, AUser, name, roles, AnAdmin);
    MirrorOfOtherKind(FoldersOfGroups(db.groups), db.folders, after.folders, AUser, name, folders, AGroup);
  }

  /** Deleting a user, its links, its shares and its API keys leaves nothing that names it. */
  lemma UserDeleted(db: Db, after: Db, name: string)
    requires Consistent(db)
    requires Relinked(db.groups, after.groups, AUser, name, [])
    requires Relinked(db.folders, after.folders, AUser, name, [])
    requires Relinked(db.roles, after.roles, AUser, name, [])
    requires after.users == db.users - {name} && after.admins == db.admins
    requires after.shares == SharesNotOf(db.shares, name) && after.apiKeys == KeysNotOf(db.apiKeys, AUser, name)
    ensures Consistent(after)
    ensures PrimaryOf(after) ==
            PrimaryOf(db).(users := after.users, shares := after.shares, apiKeys := after.apiKeys)
  {
    hide Mirrors, Relinked, NoRepeats, FoldersOfGroups, FoldersOfUsers, GroupsOfUsers, RolesOfUsers, GroupsOfAdmins,
         RolesOfAdmins;
    var groups, folders, roles := GroupsOfUsers(db.users), FoldersOfUsers(db.users), RolesOfUsers(db.users);
    MirrorDeleted(groups, db.groups, after.groups, AUser, name);
    MirrorDeleted(folders, db.folders, after.folders, AUser, name);
    MirrorDeleted(roles, db.roles, after.roles, AUser, name);
    UserRefsDeleted(db.users, name);
    OtherMirrorsKept(db, after, name, [], [], []);
  }

  lemma AdminStored(db: Db, after: Db, name: string, admin: Admin)
    requires Consistent(db) && name != ""
    requires Relinked(db.groups, after.groups, AnAdmin, name, admin.groups)
    requires Relinked(db.roles, after.roles, AnAdmin, name, RoleKeys(admin.role))
    requires after == db.(admins := db.admins[name := admin], groups := after.groups, roles := after.roles)
    ensures Consistent(after)
    ensures PrimaryOf(after) == PrimaryOf(db).(admins := after.admins)
  {
    hide Mirrors, Relinked, NoRepeats, FoldersOfGroups, FoldersOfUsers, GroupsOfUsers, RolesOfUsers, GroupsOfAdmins,
         RolesOfAdmins;
    var groups, roles := GroupsOfAdmins(db.admins), RolesOfAdmins(db.admins);
    MirrorStored(groups, db.groups, after.groups, AnAdmin, name, admin.groups);
    MirrorStored(roles, db.roles, after.roles, AnAdmin, name, RoleKeys(admin.role));
    AdminRefsStored(db.admins, name, admin);
    UserMirrorsKept(db, after, name, admin.groups, RoleKeys(admin.role));
  }

  /** Relinking an admin touches no relation of users and groups. */
  lemma UserMirrorsKept(db: Db, after: Db, name: string, groups: seq<string>, roles: seq<string>)
    requires Consistent(db) && after.users == db.users && after.folders == db.folders
    requires Relinked(db.groups, after.groups, AnAdmin, name, groups)
    requires Relinked(db.roles, after.roles, AnAdmin, name, roles)
    ensures Mirrors(GroupsOfUsers(after.users), after.groups, AUser)
    ensures Mirrors(RolesOfUsers(after.users), after.roles, AUser)
    ensures after.groups.Keys == db.groups.Keys && after.roles.Keys == db.roles.Keys
    ensures FoldersOfGroups(after.groups) == FoldersOfGroups(db.groups)
    ensures NoRepeats(after.groups) && NoRepeats(after.roles)
  {
    hide Mirrors, Relinked;
    RelinkedObjects(db.groups, after.groups, AnAdmin, name, groups);
    RelinkedObjects(db.roles, after.roles, AnAdmin, name, roles);
    MirrorOfOtherKind(GroupsOfUsers(db.users), db.groups, after.groups, AnAdmin, name, groups, AUser);
    MirrorOfOtherKind(RolesOfUsers(db.users), db.roles, after.roles, AnAdmin, name, roles, AUser);
  }

  lemma AdminDeleted(db: Db, after: Db, name: string)
    requires Consistent(db)
    requires Relinked(db.groups, after.groups, AnAdmin, name, [])
    requires Relinked(db.roles, after.roles, AnAdmin, name, [])
    requires after == db.(admins := db.admins - {name}, groups := after.groups, roles := after.roles,
                          apiKeys := KeysNotOf(db.apiKeys, AnAdmin, name))
    ensures Consistent(after)
    ensures PrimaryOf(after) == PrimaryOf(db).(admins := after.admins, apiKeys := after.apiKeys)
  {
    hide Mirrors, Relinked, NoRepeats, FoldersOfGroups, FoldersOfUsers, GroupsOfUsers, RolesOfUsers, GroupsOfAdmins,
         RolesOfAdmins;
    var groups, roles := GroupsOfAdmins(db.admins), RolesOfAdmins(db.admins);
    MirrorDeleted(groups, db.groups, after.groups, AnAdmin, name);
    MirrorDeleted(roles, db.roles, after.roles, AnAdmin, name);
    AdminRefsDeleted(db.admins, name);
    UserMirrorsKept(db, after, name, [], []);
  }

  /** Storing a group keeps its own members and relinks it to its folders. */
  lemma GroupStored(db: Db, after: Db, name: string, refs: seq<string>)
    requires Consistent(db) && name != ""
    requires Relinked(db.folders, after.folders, AGroup, name, refs)
    requires after == db.(folders := after.folders, groups := db.groups[name :=
                          Object(refs, if name in db.groups then db.groups[name].members else NO_MEMBERS)])
    ensures Consistent(after)
    ensures PrimaryOf(after) == PrimaryOf(db).(groups := FoldersOfGroups(db.groups)[name := refs])
  {
    hide Mirrors, Relinked, NoRepeats;
    GroupRefsStored(db.groups, name, after.groups[name]);
    RelinkedObjects(db.folders, after.folders, AGroup, name, refs);
    MirrorStored(FoldersOfGroups(db.groups), db.folders, after.folders, AGroup, name, refs);
    hide FoldersOfGroups, FoldersOfUsers, GroupsOfUsers, RolesOfUsers, GroupsOfAdmins, RolesOfAdmins;
    MirrorOfOtherKind(FoldersOfUsers(db.users), db.folders, after.folders, AGroup, name, refs, AUser);
    GroupMembersKept(GroupsOfUsers(db.users), db.groups, after.groups, name, AUser);
    GroupMembersKept(GroupsOfAdmins(db.admins), db.groups, after.groups, name, AnAdmin);
  }

  lemma GroupMembersKept(refs: Refs, before: Bucket, after: Bucket, name: string, kind: Kind)
    requires Mirrors(refs, before, kind) && NoRepeats(before)
    requires name in after && after == before[name := after[name]]
    requires after[name].members == if name in before then before[name].members else NO_MEMBERS
    ensures Mirrors(refs, after, kind) && NoRepeats(after)
  {
    forall k, x
      ensures HasMember(after, k, kind, x) <==> HasMember(before, k, kind, x)
    {
    }
    forall k, kind' | k in after
      ensures Distinct(after[k].Get(kind'))
    {
      if k in before {
        assert after[k].Get(kind') == before[k].Get(kind');
      }
    }
  }

  function SharesNotOf(shares: map<string, string>, username: string): map<string, string>
  {
    map s | s in shares && shares[s] != username :: shares[s]
  }

  function KeysNotOf(keys: map<string, APIKey>, kind: Kind, name: string): map<string, APIKey>
  {
    map k | k in keys && (if kind == AUser then keys[k].user != name else keys[k].admin != name) :: keys[k]
  }

  // ---------------------------------------------------------------- deleting what others refer to

  /** The references without one key. */
  ghost function Drop(refs: Refs, key: string): Refs
  {
    map n | n in refs :: Dropped(refs[n], key)
  }

  lemma MirrorKeyDropped(refs: Refs, bucket: Bucket, key: string, kind: Kind)
    requires Mirrors(refs, bucket, kind)
    ensures Mirrors(Drop(refs, key), bucket - {key}, kind)
  {
    MembersLeft(bucket, key, kind);
    forall n, k | n in refs
      ensures k in Drop(refs, key)[n] <==> k in refs[n] && k != key
    {
      DroppedMembers(refs[n], key);
    }
  }

  lemma MembersLeft(bucket: Bucket, key: string, kind: Kind)
    ensures forall k, n :: HasMember(bucket - {key}, k, kind, n) <==> k != key && HasMember(bucket, k, kind, n)
  {
  }

  /** A record without members of a kind can go without any of them referring to it. */
  lemma MirrorUnreferred(refs: Refs, bucket: Bucket, key: string, kind: Kind)
    requires Mirrors(refs, bucket, kind) && (key in bucket ==> bucket[key].Get(kind) == [])
    ensures Mirrors(refs, bucket - {key}, kind)
  {
    MembersLeft(bucket, key, kind);
    forall n
      ensures !HasMember(bucket, key, kind, n)
    {
    }
  }

  ghost function UsersWithoutFolder(users: map<string, User>, folder: string): map<string, User>
  {
    map u | u in users :: users[u].(folders := Dropped(users[u].folders, folder))
  }

  ghost function GroupsWithoutFolder(groups: Bucket, folder: string): Bucket
  {
    map g | g in groups :: groups[g].(folders := Dropped(groups[g].folders, folder))
  }

  ghost function UsersWithoutRole(users: map<string, User>, role: string): map<string, User>
  {
    map u | u in users :: if users[u].role == role then users[u].(role := "") else users[u]
  }

  ghost function AdminsWithoutGroup(admins: map<string, Admin>, group: string): map<string, Admin>
  {
    map a | a in admins :: admins[a].(groups := Dropped(admins[a].groups, group))
  }

  lemma UserFolderDropped(users: map<string, User>, folder: string)
    ensures FoldersOfUsers(UsersWithoutFolder(users, folder)) == Drop(FoldersOfUsers(users), folder)
    ensures GroupsOfUsers(UsersWithoutFolder(users, folder)) == GroupsOfUsers(users)
    ensures RolesOfUsers(UsersWithoutFolder(users, folder)) == RolesOfUsers(users)
  {
  }

  lemma GroupFolderDropped(groups: Bucket, folder: string)
    ensures FoldersOfGroups(GroupsWithoutFolder(groups, folder)) == Drop(FoldersOfGroups(groups), folder)
  {
  }

  lemma UserRoleDropped(users: map<string, User>, role: string)
    requires role != ""
    ensures RolesOfUsers(UsersWithoutRole(users, role)) == Drop(RolesOfUsers(users), role)
  {
    hide Dropped, RoleKeys;
    forall u | u in users
      ensures RolesOfUsers(UsersWithoutRole(users, role))[u] == Drop(RolesOfUsers(users), role)[u]
    {
      OneRole(users[u].role, role);
    }
  }

  lemma UserRoleOnly(users: map<string, User>, role: string)
    ensures GroupsOfUsers(UsersWithoutRole(users, role)) == GroupsOfUsers(users)
    ensures FoldersOfUsers(UsersWithoutRole(users, role)) == FoldersOfUsers(users)
  {
  }

  lemma OneRole(held: string, role: string)
    requires role != ""
    ensures Dropped(RoleKeys(held), role) == RoleKeys(if held == role then "" else held)
  {
  }

  lemma AdminGroupDropped(admins: map<string, Admin>, group: string)
    ensures GroupsOfAdmins(AdminsWithoutGroup(admins, group)) == Drop(GroupsOfAdmins(admins), group)
    ensures RolesOfAdmins(AdminsWithoutGroup(admins, group)) == RolesOfAdmins(admins)
  {
  }

  /** Deleting a folder removes it from its users and groups, and from nothing else. */
  lemma FolderDeleted(db: Db, after: Db, name: string)
    requires Consistent(db)
    requires after == db.(users := UsersWithoutFolder(db.users, name), groups := GroupsWithoutFolder(db.groups, name),
                          folders := db.folders - {name})
    ensures Consistent(after)
  {
    SameMembersMirror(GroupsOfUsers(db.users), db.groups, after.groups, AUser);
    SameMembersMirror(GroupsOfAdmins(db.admins), db.groups, after.groups, AnAdmin);
    hide Mirrors, FoldersOfGroups, FoldersOfUsers, GroupsOfUsers, RolesOfUsers, GroupsOfAdmins, RolesOfAdmins;
    UserFolderDropped(db.users, name);
    GroupFolderDropped(db.groups, name);
    MirrorKeyDropped(FoldersOfUsers(db.users), db.folders, name, AUser);
    MirrorKeyDropped(FoldersOfGroups(db.groups), db.folders, name, AGroup);
    NoRepeatsLeft(db.folders, name);
  }

  lemma NoRepeatsLeft(bucket: Bucket, key: string)
    requires NoRepeats(bucket)
    ensures NoRepeats(bucket - {key})
  {
  }

  lemma SameMembersMirror(refs: Refs, before: Bucket, after: Bucket, kind: Kind)
    requires Mirrors(refs, before, kind)
    requires after.Keys == before.Keys && forall k :: k in before ==> after[k].members == before[k].members
    ensures Mirrors(refs, after, kind) && (NoRepeats(before) ==> NoRepeats(after))
  {
    forall k, x
      ensures HasMember(after, k, kind, x) <==> HasMember(before, k, kind, x)
    {
    }
    forall k, kind' | k in after && NoRepeats(before)
      ensures Distinct(after[k].Get(kind'))
    {
      assert after[k].Get(kind') == before[k].Get(kind');
    }
  }

  /** Deleting a role that no admin has removes it from its users. */
  lemma RoleDeleted(db: Db, after: Db, name: string)
    requires Consistent(db) && name in db.roles && db.roles[name].members.admins == []
    requires after == db.(users := UsersWithoutRole(db.users, name), roles := db.roles - {name})
    ensures Consistent(after)
  {
    hide Mirrors, NoRepeats, FoldersOfGroups, FoldersOfUsers, GroupsOfUsers, RolesOfUsers, GroupsOfAdmins,
         RolesOfAdmins;
    UserRoleDropped(db.users, name);
    UserRoleOnly(db.users, name);
    MirrorKeyDropped(RolesOfUsers(db.users), db.roles, name, AUser);
    MirrorUnreferred(RolesOfAdmins(db.admins), db.roles, name, AnAdmin);
    NoRepeatsLeft(db.roles, name);
  }

  /** Deleting a group without users removes it from its folders and from its admins. */
  lemma GroupDeleted(db: Db, after: Db, name: string)
    requires Consistent(db) && name in db.groups && db.groups[name].members.users == []
    requires Relinked(db.folders, after.folders, AGroup, name, [])
    requires after == db.(groups := db.groups - {name}, folders := after.folders,
                          admins := AdminsWithoutGroup(db.admins, name))
    ensures Consistent(after)
    ensures PrimaryOf(after) ==
            PrimaryOf(db).(groups := FoldersOfGroups(db.groups) - {name}, admins := AdminsWithoutGroup(db.admins, name))
  {
    assert FoldersOfGroups(after.groups) == FoldersOfGroups(db.groups) - {name};
    hide Relinked, Mirrors, NoRepeats;
    hide FoldersOfGroups, FoldersOfUsers, GroupsOfUsers, RolesOfUsers, GroupsOfAdmins, RolesOfAdmins;
    AdminGroupDropped(db.admins, name);
    MirrorUnreferred(GroupsOfUsers(db.users), db.groups, name, AUser);
    MirrorKeyDropped(GroupsOfAdmins(db.admins), db.groups, name, AnAdmin);
    MirrorDeleted(FoldersOfGroups(db.groups), db.folders, after.folders, AGroup, name);
    MirrorOfOtherKind(FoldersOfUsers(db.users), db.folders, after.folders, AGroup, name, [], AUser);
    RelinkedObjects(db.folders, after.folders, AGroup, name, []);
    NoRepeatsLeft(db.groups, name);
  }
}
