/**
 * The Bolt transactions that touch relations. A transaction works on its own copy of the database;
 * it is committed only when it ends without an error.
 */
module BoltProvider {
  import opened Bolt
  import opened NameLists

  predicate UserRefsExist(db: Db, user: User)
  {
    && (forall g <- user.groups :: g in db.groups)
    && (forall f <- user.folders :: f in db.folders)
    && (user.role == "" || user.role in db.roles)
  }

  predicate AdminRefsExist(db: Db, admin: Admin)
  {
    && (forall g <- admin.groups :: g in db.groups)
    && (admin.role == "" || admin.role in db.roles)
  }

  predicate KeyRefsExist(db: Db, key: APIKey)
  {
    (key.user == "" || key.user in db.users) && (key.admin == "" || key.admin in db.admins)
  }

  // ---------------------------------------------------------------- loops over related records

  method RemoveFolderFromUsers(users: map<string, User>, names: seq<string>, folder: string)
    returns (after: map<string, User>)
    requires Distinct(names)
    ensures after.Keys == users.Keys
    ensures forall u :: u in users ==>
              after[u] == (if u in names then users[u].(folders := Dropped(users[u].folders, folder)) else users[u])
  {
    after := users;
    for i := 0 to |names|
      invariant after.Keys == users.Keys
      invariant forall u :: u in users ==>
                  after[u] == (if u in names[..i] then users[u].(folders := Dropped(users[u].folders, folder))
                      else users[u])
    {
      assert names[..i + 1] == names[..i] + [names[i]];
      if names[i] !in after {
        continue;
      }
      var folders := RemoveName(after[names[i]].folders, folder);
      after := after[names[i] := after[names[i]].(folders := folders)];
    }
    assert names[..|names|] == names;
  }

  method RemoveFolderFromGroups(groups: Bucket, names: seq<string>, folder: string) returns (after: Bucket)
    requires Distinct(names)
    ensures after.Keys == groups.Keys
    ensures forall g :: g in groups ==>
              after[g] == (if g in names then groups[g].(folders := Dropped(groups[g].folders, folder)) else groups[g])
  {
    after := groups;
    for i := 0 to |names|
      invariant after.Keys == groups.Keys
      invariant forall g :: g in groups ==>
                  after[g] == (if g in names[..i] then groups[g].(folders := Dropped(groups[g].folders, folder))
                      else groups[g])
    {
      assert names[..i + 1] == names[..i] + [names[i]];
      if names[i] !in after {
        continue;
      }
      var folders := RemoveName(after[names[i]].folders, folder);
      after := after[names[i] := after[names[i]].(folders := folders)];
    }
    assert names[..|names|] == names;
  }

  method RemoveRoleFromUsers(users: map<string, User>, names: seq<string>, role: string)
                             returns (after: map<string, User>)
    ensures after.Keys == users.Keys
    ensures forall u :: u in users ==>
              after[u] == (if u in names && users[u].role == role then users[u].(role := "") else users[u])
  {
    after := users;
    for i := 0 to |names|
      invariant after.Keys == users.Keys
      invariant forall u :: u in users ==>
                  after[u] == (if u in names[..i] && users[u].role == role then users[u].(role := "") else users[u])
    {
      assert names[..i + 1] == names[..i] + [names[i]];
      if names[i] !in after {
        continue;
      }
      if after[names[i]].role == role {
        after := after[names[i] := after[names[i]].(role := "")];
      }
    }
    assert names[..|names|] == names;
  }

  method RemoveGroupFromAdmins(admins: map<string, Admin>, names: seq<string>, group: string)
    returns (after: map<string, Admin>)
    requires Distinct(names)
    ensures after.Keys == admins.Keys
    ensures forall a :: a in admins ==>
              after[a] == (if a in names then admins[a].(groups := Dropped(admins[a].groups, group)) else admins[a])
  {
    after := admins;
    for i := 0 to |names|
      invariant after.Keys == admins.Keys
      invariant forall a :: a in admins ==>
                  after[a] == (if a in names[..i] then admins[a].(groups := Dropped(admins[a].groups, group))
                      else admins[a])
    {
      assert names[..i + 1] == names[..i] + [names[i]];
      if names[i] !in after {
        continue;
      }
      var groups := RemoveName(after[names[i]].groups, group);
      after := after[names[i] := after[names[i]].(groups := groups)];
    }
    assert names[..|names|] == names;
  }

  method DeleteRelatedShares(shares: map<string, string>, username: string) returns (after: map<string, string>)
    ensures after == SharesNotOf(shares, username)
  {
    after := shares;
    var rest := shares.Keys;
    while rest != {}
      invariant rest <= shares.Keys && after.Keys <= shares.Keys
      invariant forall s :: s in after ==> after[s] == shares[s]
      invariant forall s :: s in shares ==> (s in after <==> s in rest || shares[s] != username)
      decreases rest
    {
      var s :| s in rest;
      if shares[s] == username {
        after := after - {s};
      }
      rest := rest - {s};
    }
  }

  method DeleteRelatedAPIKeys(keys: map<string, APIKey>, kind: Kind, name: string) returns (after: map<string, APIKey>)
    ensures after == KeysNotOf(keys, kind, name)
  {
    after := keys;
    var rest := keys.Keys;
    while rest != {}
      invariant rest <= keys.Keys && after.Keys <= keys.Keys
      invariant forall k :: k in after ==> after[k] == keys[k]
      invariant forall k :: k in keys ==> (k in after <==> k in rest || k in KeysNotOf(keys, kind, name))
      decreases rest
    {
      var k :| k in rest;
      if (if kind == AUser then keys[k].user == name else keys[k].admin == name) {
        after := after - {k};
      }
      rest := rest - {k};
    }
  }

  // ---------------------------------------------------------------- when only members of a record are visited

  /** Visiting the listed members is enough: nobody else refers to the deleted record. */
  lemma FolderUsersSuffice(db: Db, folder: string, users: map<string, User>)
    requires Consistent(db) && folder in db.folders && users.Keys == db.users.Keys
    requires forall u :: u in db.users ==>
               users[u] == (if u in db.folders[folder].members.users
               then db.users[u].(folders := Dropped(db.users[u].folders, folder)) else db.users[u])
    ensures users == UsersWithoutFolder(db.users, folder)
  {
    forall u | u in db.users
      ensures users[u] == UsersWithoutFolder(db.users, folder)[u]
    {
      assert HasMember(db.folders, folder, AUser, u) <==> folder in FoldersOfUsers(db.users)[u];
      if folder !in db.users[u].folders {
        DroppedAbsent(db.users[u].folders, folder);
      }
    }
  }

  lemma FolderGroupsSuffice(db: Db, folder: string, groups: Bucket)
    requires Consistent(db) && folder in db.folders && groups.Keys == db.groups.Keys
    requires forall g :: g in db.groups ==>
               groups[g] == (if g in db.folders[folder].members.groups
               then db.groups[g].(folders := Dropped(db.groups[g].folders, folder)) else db.groups[g])
    ensures groups == GroupsWithoutFolder(db.groups, folder)
  {
    forall g | g in db.groups
      ensures groups[g] == GroupsWithoutFolder(db.groups, folder)[g]
    {
      assert HasMember(db.folders, folder, AGroup, g) <==> folder in FoldersOfGroups(db.groups)[g];
      if folder !in db.groups[g].folders {
        DroppedAbsent(db.groups[g].folders, folder);
      }
    }
  }

  lemma RoleUsersSuffice(db: Db, role: string, users: map<string, User>)
    requires Consistent(db) && role in db.roles && users.Keys == db.users.Keys
    requires forall u :: u in db.users ==>
               users[u] == (if u in db.roles[role].members.users && db.users[u].role == role
               then db.users[u].(role := "") else db.users[u])
    ensures users == UsersWithoutRole(db.users, role)
  {
    forall u | u in db.users
      ensures users[u] == UsersWithoutRole(db.users, role)[u]
    {
      assert HasMember(db.roles, role, AUser, u) <==> role in RolesOfUsers(db.users)[u];
    }
  }

  lemma GroupAdminsSuffice(db: Db, group: string, admins: map<string, Admin>)
    requires Consistent(db) && group in db.groups && admins.Keys == db.admins.Keys
    requires forall a :: a in db.admins ==>
               admins[a] == (if a in db.groups[group].members.admins
               then db.admins[a].(groups := Dropped(db.admins[a].groups, group)) else db.admins[a])
    ensures admins == AdminsWithoutGroup(db.admins, group)
  {
    forall a | a in db.admins
      ensures admins[a] == AdminsWithoutGroup(db.admins, group)[a]
    {
      assert HasMember(db.groups, group, AnAdmin, a) <==> group in GroupsOfAdmins(db.admins)[a];
      if group !in db.admins[a].groups {
        DroppedAbsent(db.admins[a].groups, group);
      }
    }
  }

  /** The keys a record refers to exist, and are all the keys that list it. */
  lemma RefsExist(refs: Refs, bucket: Bucket, kind: Kind, name: string)
    requires Mirrors(refs, bucket, kind)
    ensures name in refs ==> forall k <- refs[name] :: k in bucket
    ensures forall k :: HasMember(bucket, k, kind, name) <==> name in refs && k in refs[name]
  {
    if name in refs {
      forall k <- refs[name]
        ensures k in bucket
      {
        assert HasMember(bucket, k, kind, name);
      }
    }
  }

  // ---------------------------------------------------------------- transactions

  class Provider {
    var db: Db

    constructor (db: Db)
      requires Consistent(db)
      ensures this.db == db
    {
      this.db := db;
    }

    method AddUser(name: string, user: User, valid: bool) returns (ok: bool)
      requires Consistent(db)
      modifies this
      ensures Consistent(db)
      ensures ok <==> valid && name != "" && name !in old(db).users && UserRefsExist(old(db), user)
      ensures !ok ==> db == old(db)
      ensures ok ==> PrimaryOf(db) == PrimaryOf(old(db)).(users := old(db).users[name := user])
    {
      if !valid || name == "" || name in db.users {
        return false;
      }
      RefsExist(GroupsOfUsers(db.users), db.groups, AUser, name);
      RefsExist(FoldersOfUsers(db.users), db.folders, AUser, name);
      RefsExist(RolesOfUsers(db.users), db.roles, AUser, name);
      hide Mirrors, NoRepeats, Relinked, MemberAdded;
      var tx := db;
      var done, roles, folders, groups;
      done, roles := AddToRole(tx.roles, user.role, AUser, name);
      if !done {
        return false;
      }
      done, folders := AddMappings(tx.folders, user.folders, AUser, name);
      if !done {
        return false;
      }
      done, groups := AddMappings(tx.groups, user.groups, AUser, name);
      if !done {
        return false;
      }
      RelinkedByAdd(tx.groups, groups, AUser, name, user.groups);
      RelinkedByAdd(tx.folders, folders, AUser, name, user.folders);
      RelinkedByAdd(tx.roles, roles, AUser, name, RoleKeys(user.role));
      tx := tx.(users := tx.users[name := user], groups := groups, folders := folders, roles := roles);
      UserStored(db, tx, name, user);
      db := tx;
      return true;
    }

    method UpdateUser(name: string, user: User, valid: bool) returns (ok: bool)
      requires Consistent(db)
      modifies this
      ensures Consistent(db)
      ensures ok <==> valid && name != "" && name in old(db).users && UserRefsExist(old(db), user)
      ensures !ok ==> db == old(db)
      ensures ok ==> PrimaryOf(db) == PrimaryOf(old(db)).(users := old(db).users[name := user])
    {
      if !valid || name == "" || name !in db.users {
        return false;
      }
      RefsExist(GroupsOfUsers(db.users), db.groups, AUser, name);
      RefsExist(FoldersOfUsers(db.users), db.folders, AUser, name);
      RefsExist(RolesOfUsers(db.users), db.roles, AUser, name);
      hide Mirrors, NoRepeats, Relinked, MemberAdded, MemberRemoved;
      var oldUser := db.users[name];
      var done, folders1, groups1, folders2, groups2, roles2;
      done, folders1 := RemoveMappings(db.folders, oldUser.folders, AUser, name, false);
      done, groups1 := RemoveMappings(db.groups, oldUser.groups, AUser, name, true);
      if !done {
        return false;
      }
      var roles1 := RemoveFromRole(db.roles, oldUser.role, AUser, name);
      RelinkedByRemove(db.folders, folders1, AUser, name, oldUser.folders);
      RelinkedByRemove(db.groups, groups1, AUser, name, oldUser.groups);
      RelinkedByRemove(db.roles, roles1, AUser, name, [oldUser.role]);
      done, folders2 := AddMappings(folders1, user.folders, AUser, name);
      if !done {
        return false;
      }
      done, groups2 := AddMappings(groups1, user.groups, AUser, name);
      if !done {
        return false;
      }
      done, roles2 := AddToRole(roles1, user.role, AUser, name);
      if !done {
        return false;
      }
      RelinkedTwice(db.folders, folders1, folders2, AUser, name, user.folders);
      RelinkedTwice(db.groups, groups1, groups2, AUser, name, user.groups);
      RelinkedTwice(db.roles, roles1, roles2, AUser, name, RoleKeys(user.role));
      var tx := db.(users := db.users[name := user], groups := groups2, folders := folders2, roles := roles2);
      UserStored(db, tx, name, user);
      db := tx;
      return true;
    }

    method DeleteUser(name: string) returns (ok: bool)
      requires Consistent(db)
      modifies this
      ensures Consistent(db)
      ensures ok <==> name in old(db).users
      ensures !ok ==> db == old(db)
      ensures ok ==> PrimaryOf(db) == PrimaryOf(old(db)).(users := old(db).users - {name},
                                        shares := SharesNotOf(old(db).shares, name),
                                        apiKeys := KeysNotOf(old(db).apiKeys, AUser, name))
    {
      if name !in db.users {
        return false;
      }
      RefsExist(GroupsOfUsers(db.users), db.groups, AUser, name);
      RefsExist(FoldersOfUsers(db.users), db.folders, AUser, name);
      RefsExist(RolesOfUsers(db.users), db.roles, AUser, name);
      hide Mirrors, NoRepeats, Relinked, MemberRemoved;
      var oldUser := db.users[name];
      var roles := RemoveFromRole(db.roles, oldUser.role, AUser, name);
      var _, folders := RemoveMappings(db.folders, oldUser.folders, AUser, name, false);
      var done, groups := RemoveMappings(db.groups, oldUser.groups, AUser, name, true);
      if !done {
        return false;
      }
      RelinkedByRemove(db.folders, folders, AUser, name, oldUser.folders);
      RelinkedByRemove(db.groups, groups, AUser, name, oldUser.groups);
      RelinkedByRemove(db.roles, roles, AUser, name, [oldUser.role]);
      var apiKeys := DeleteRelatedAPIKeys(db.apiKeys, AUser, name);
      var shares := DeleteRelatedShares(db.shares, name);
      var tx := db.(users := db.users - {name}, groups := groups, folders := folders, roles := roles,
                    shares := shares, apiKeys := apiKeys);
      UserDeleted(db, tx, name);
      db := tx;
      return true;
    }

    method AddAdmin(name: string, admin: Admin, valid: bool) returns (ok: bool)
      requires Consistent(db)
      modifies this
      ensures Consistent(db)
      ensures ok <==> valid && name != "" && name !in old(db).admins && AdminRefsExist(old(db), admin)
      ensures !ok ==> db == old(db)
      ensures ok ==> PrimaryOf(db) == PrimaryOf(old(db)).(admins := old(db).admins[name := admin])
    {
      if !valid || name == "" || name in db.admins {
        return false;
      }
      RefsExist(GroupsOfAdmins(db.admins), db.groups, AnAdmin, name);
      RefsExist(RolesOfAdmins(db.admins), db.roles, AnAdmin, name);
      hide Mirrors, NoRepeats, Relinked, MemberAdded;
      var done, groups, roles;
      done, groups := AddMappings(db.groups, admin.groups, AnAdmin, name);
      if !done {
        return false;
      }
      done, roles := AddToRole(db.roles, admin.role, AnAdmin, name);
      if !done {
        return false;
      }
      RelinkedByAdd(db.groups, groups, AnAdmin, name, admin.groups);
      RelinkedByAdd(db.roles, roles, AnAdmin, name, RoleKeys(admin.role));
      var tx := db.(admins := db.admins[name := admin], groups := groups, roles := roles);
      AdminStored(db, tx, name, admin);
      db := tx;
      return true;
    }

    method UpdateAdmin(name: string, admin: Admin, valid: bool) returns (ok: bool)
      requires Consistent(db)
      modifies this
      ensures Consistent(db)
      ensures ok <==> valid && name != "" && name in old(db).admins && AdminRefsExist(old(db), admin)
      ensures !ok ==> db == old(db)
      ensures ok ==> PrimaryOf(db) == PrimaryOf(old(db)).(admins := old(db).admins[name := admin])
    {
      if !valid || name == "" || name !in db.admins {
        return false;
      }
      RefsExist(GroupsOfAdmins(db.admins), db.groups, AnAdmin, name);
      RefsExist(RolesOfAdmins(db.admins), db.roles, AnAdmin, name);
      hide Mirrors, NoRepeats, Relinked, MemberAdded, MemberRemoved;
      var oldAdmin := db.admins[name];
      var done, groups1, groups2, roles2;
      var roles1 := RemoveFromRole(db.roles, oldAdmin.role, AnAdmin, name);
      done, groups1 := RemoveMappings(db.groups, oldAdmin.groups, AnAdmin, name, true);
      if !done {
        return false;
      }
      RelinkedByRemove(db.groups, groups1, AnAdmin, name, oldAdmin.groups);
      RelinkedByRemove(db.roles, roles1, AnAdmin, name, [oldAdmin.role]);
      done, roles2 := AddToRole(roles1, admin.role, AnAdmin, name);
      if !done {
        return false;
      }
      done, groups2 := AddMappings(groups1, admin.groups, AnAdmin, name);
      if !done {
        return false;
      }
      RelinkedTwice(db.groups, groups1, groups2, AnAdmin, name, admin.groups);
      RelinkedTwice(db.roles, roles1, roles2, AnAdmin, name, RoleKeys(admin.role));
      var tx := db.(admins := db.admins[name := admin], groups := groups2, roles := roles2);
      AdminStored(db, tx, name, admin);
      db := tx;
      return true;
    }

    method DeleteAdmin(name: string) returns (ok: bool)
      requires Consistent(db)
      modifies this
      ensures Consistent(db)
      ensures ok <==> name in old(db).admins
      ensures !ok ==> db == old(db)
      ensures ok ==> PrimaryOf(db) == PrimaryOf(old(db)).(admins := old(db).admins - {name},
                                        apiKeys := KeysNotOf(old(db).apiKeys, AnAdmin, name))
    {
      if name !in db.admins {
        return false;
      }
      RefsExist(GroupsOfAdmins(db.admins), db.groups, AnAdmin, name);
      RefsExist(RolesOfAdmins(db.admins), db.roles, AnAdmin, name);
      hide Mirrors, NoRepeats, Relinked, MemberRemoved;
      var oldAdmin := db.admins[name];
      var done, groups := RemoveMappings(db.groups, oldAdmin.groups, AnAdmin, name, true);
      if !done {
        return false;
      }
      var roles := RemoveFromRole(db.roles, oldAdmin.role, AnAdmin, name);
      RelinkedByRemove(db.groups, groups, AnAdmin, name, oldAdmin.groups);
      RelinkedByRemove(db.roles, roles, AnAdmin, name, [oldAdmin.role]);
      var apiKeys := DeleteRelatedAPIKeys(db.apiKeys, AnAdmin, name);
      var tx := db.(admins := db.admins - {name}, groups := groups, roles := roles, apiKeys := apiKeys);
      AdminDeleted(db, tx, name);
      db := tx;
      return true;
    }

    /** A new group starts without members, whatever the request says. */
    method AddGroup(name: string, group: Object, valid: bool) returns (ok: bool)
      requires Consistent(db)
      modifies this
      ensures Consistent(db)
      ensures ok <==>
              valid && name != "" && name !in old(db).groups && forall f <- group.folders :: f in old(db).folders
      ensures !ok ==> db == old(db)
      ensures ok ==>
              PrimaryOf(db) == PrimaryOf(old(db)).(groups := FoldersOfGroups(old(db).groups)[name := group.folders])
    {
      if !valid || name == "" || name in db.groups {
        return false;
      }
      RefsExist(FoldersOfGroups(db.groups), db.folders, AGroup, name);
      hide Mirrors, NoRepeats, Relinked, MemberAdded;
      var done, folders := AddMappings(db.folders, group.folders, AGroup, name);
      if !done {
        return false;
      }
      RelinkedByAdd(db.folders, folders, AGroup, name, group.folders);
      var tx := db.(folders := folders, groups := db.groups[name := Object(group.folders, NO_MEMBERS)]);
      GroupStored(db, tx, name, group.folders);
      db := tx;
      return true;
    }

    /** An updated group keeps its members, whatever the request says. */
    method UpdateGroup(name: string, group: Object, valid: bool) returns (ok: bool)
      requires Consistent(db)
      modifies this
      ensures Consistent(db)
      ensures ok <==> valid && name != "" && name in old(db).groups && forall f <- group.folders :: f in old(db).folders
      ensures !ok ==> db == old(db)
      ensures ok ==>
              PrimaryOf(db) == PrimaryOf(old(db)).(groups := FoldersOfGroups(old(db).groups)[name := group.folders])
    {
      if !valid || name == "" || name !in db.groups {
        return false;
      }
      RefsExist(FoldersOfGroups(db.groups), db.folders, AGroup, name);
      hide Mirrors, NoRepeats, Relinked, MemberAdded, MemberRemoved;
      var oldGroup := db.groups[name];
      var _, folders1 := RemoveMappings(db.folders, oldGroup.folders, AGroup, name, false);
      RelinkedByRemove(db.folders, folders1, AGroup, name, oldGroup.folders);
      var done, folders2 := AddMappings(folders1, group.folders, AGroup, name);
      if !done {
        return false;
      }
      RelinkedTwice(db.folders, folders1, folders2, AGroup, name, group.folders);
      var tx := db.(folders := folders2, groups := db.groups[name := Object(group.folders, oldGroup.members)]);
      GroupStored(db, tx, name, group.folders);
      db := tx;
      return true;
    }

    /** A group with users cannot be deleted; its admins just lose it. */
    method DeleteGroup(name: string) returns (ok: bool)
      requires Consistent(db)
      modifies this
      ensures Consistent(db)
      ensures ok <==> name in old(db).groups && forall u :: u in old(db).users ==> name !in old(db).users[u].groups
      ensures !ok ==> db == old(db)
      ensures ok ==> PrimaryOf(db) == PrimaryOf(old(db)).(groups := FoldersOfGroups(old(db).groups) - {name},
                                        admins := AdminsWithoutGroup(old(db).admins, name))
    {
      if name !in db.groups {
        return false;
      }
      GroupUsers(name);
      RefsExist(FoldersOfGroups(db.groups), db.folders, AGroup, name);
      var oldGroup := db.groups[name];
      if |oldGroup.members.users| > 0 {
        return false;
      }
      assert Distinct(oldGroup.Get(AnAdmin));
      hide Mirrors, NoRepeats, Relinked, MemberRemoved;
      var _, folders := RemoveMappings(db.folders, oldGroup.folders, AGroup, name, false);
      RelinkedByRemove(db.folders, folders, AGroup, name, oldGroup.folders);
      var admins := RemoveGroupFromAdmins(db.admins, oldGroup.members.admins, name);
      GroupAdminsSuffice(db, name, admins);
      var tx := db.(groups := db.groups - {name}, folders := folders, admins := admins);
      GroupDeleted(db, tx, name);
      db := tx;
      return true;
    }

    lemma GroupUsers(name: string)
      requires Consistent(db) && name in db.groups
      ensures db.groups[name].members.users == [] <==> forall u :: u in db.users ==> name !in db.users[u].groups
    {
      forall u
        ensures u in db.groups[name].members.users <==> u in db.users && name in db.users[u].groups
      {
        assert HasMember(db.groups, name, AUser, u) <==>
               u in GroupsOfUsers(db.users) && name in GroupsOfUsers(db.users)[u];
      }
      var users := db.groups[name].members.users;
      if users != [] {
        assert users[0] in users;
      }
    }

    method AddFolder(name: string, valid: bool) returns (ok: bool)
      requires Consistent(db)
      modifies this
      ensures Consistent(db)
      ensures ok <==> valid && name != "" && name !in old(db).folders
      ensures !ok ==> db == old(db)
      ensures ok ==> PrimaryOf(db) == PrimaryOf(old(db)).(folders := old(db).folders.Keys + {name})
    {
      if !valid || name == "" || name in db.folders {
        return false;
      }
      EmptyObjectAdded(FoldersOfUsers(db.users), db.folders, name, AUser);
      EmptyObjectAdded(FoldersOfGroups(db.groups), db.folders, name, AGroup);
      hide Mirrors, NoRepeats;
      db := db.(folders := db.folders[name := Object([], NO_MEMBERS)]);
      return true;
    }

    /** A record without members can be added without anyone referring to it. */
    lemma EmptyObjectAdded(refs: Refs, bucket: Bucket, name: string, kind: Kind)
      requires Mirrors(refs, bucket, kind) && NoRepeats(bucket) && name !in bucket
      ensures Mirrors(refs, bucket[name := Object([], NO_MEMBERS)], kind)
      ensures NoRepeats(bucket[name := Object([], NO_MEMBERS)])
    {
      var after := bucket[name := Object([], NO_MEMBERS)];
      assert after[name].Get(AUser) == after[name].Get(AnAdmin) == after[name].Get(AGroup) == [];
      forall k, x
        ensures HasMember(after, k, kind, x) <==> HasMember(bucket, k, kind, x)
      {
      }
      forall k, kind' | k in after
        ensures Distinct(after[k].Get(kind'))
      {
        if k in bucket {
          assert after[k].Get(kind') == bucket[k].Get(kind');
        }
      }
    }

    /** An updated folder keeps its members, so no relation changes. */
    method UpdateFolder(name: string, valid: bool) returns (ok: bool)
      requires Consistent(db)
      modifies this
      ensures ok <==> valid && name in old(db).folders
      ensures db == old(db)
    {
      if !valid || name !in db.folders {
        return false;
      }
      var oldFolder := db.folders[name];
      db := db.(folders := db.folders[name := Object(oldFolder.folders, oldFolder.members)]);
      return true;
    }

    method DeleteFolder(name: string) returns (ok: bool)
      requires Consistent(db)
      modifies this
      ensures Consistent(db)
      ensures ok <==> name in old(db).folders
      ensures !ok ==> db == old(db)
      ensures ok ==> db.users == UsersWithoutFolder(old(db).users, name)
      ensures ok ==> db.groups == GroupsWithoutFolder(old(db).groups, name)
      ensures ok ==> db.folders == old(db).folders - {name}
      ensures db.admins == old(db).admins && db.roles == old(db).roles
      ensures db.shares == old(db).shares && db.apiKeys == old(db).apiKeys
    {
      if name !in db.folders {
        return false;
      }
      var folder := db.folders[name];
      assert Distinct(folder.Get(AUser)) && Distinct(folder.Get(AGroup));
      hide Mirrors, NoRepeats;
      var users := RemoveFolderFromUsers(db.users, folder.members.users, name);
      var groups := RemoveFolderFromGroups(db.groups, folder.members.groups, name);
      FolderUsersSuffice(db, name, users);
      FolderGroupsSuffice(db, name, groups);
      var tx := db.(users := users, groups := groups, folders := db.folders - {name});
      FolderDeleted(db, tx, name);
      db := tx;
      return true;
    }

    method AddRole(name: string, valid: bool) returns (ok: bool)
      requires Consistent(db)
      modifies this
      ensures Consistent(db)
      ensures ok <==> valid && name != "" && name !in old(db).roles
      ensures !ok ==> db == old(db)
      ensures ok ==> PrimaryOf(db) == PrimaryOf(old(db)).(roles := old(db).roles.Keys + {name})
    {
      if !valid || name == "" || name in db.roles {
        return false;
      }
      EmptyObjectAdded(RolesOfUsers(db.users), db.roles, name, AUser);
      EmptyObjectAdded(RolesOfAdmins(db.admins), db.roles, name, AnAdmin);
      hide Mirrors, NoRepeats;
      db := db.(roles := db.roles[name := Object([], NO_MEMBERS)]);
      return true;
    }

    /** A role that an admin has cannot be deleted; its users just lose it. */
    method DeleteRole(name: string) returns (ok: bool)
      requires Consistent(db)
      modifies this
      ensures Consistent(db)
      ensures ok <==> name in old(db).roles && forall a :: a in old(db).admins ==> old(db).admins[a].role != name
      ensures !ok ==> db == old(db)
      ensures ok ==> PrimaryOf(db) == PrimaryOf(old(db)).(roles := old(db).roles.Keys - {name},
                                        users := UsersWithoutRole(old(db).users, name))
    {
      if name !in db.roles {
        return false;
      }
      RoleAdmins(name);
      var oldRole := db.roles[name];
      if |oldRole.members.admins| > 0 {
        return false;
      }
      hide Mirrors, NoRepeats;
      var users := RemoveRoleFromUsers(db.users, oldRole.members.users, name);
      RoleUsersSuffice(db, name, users);
      var tx := db.(users := users, roles := db.roles - {name});
      RoleDeleted(db, tx, name);
      db := tx;
      return true;
    }

    lemma RoleAdmins(name: string)
      requires Consistent(db) && name in db.roles
      ensures db.roles[name].members.admins == [] <==> forall a :: a in db.admins ==> db.admins[a].role != name
    {
      forall a
        ensures a in db.roles[name].members.admins <==> a in db.admins && db.admins[a].role == name
      {
        assert HasMember(db.roles, name, AnAdmin, a) <==>
               a in RolesOfAdmins(db.admins) && name in RolesOfAdmins(db.admins)[a];
      }
      var admins := db.roles[name].members.admins;
      if admins != [] {
        assert admins[0] in admins;
      }
    }

    method AddShare(id: string, username: string, valid: bool) returns (ok: bool)
      requires Consistent(db)
      modifies this
      ensures Consistent(db)
      ensures ok <==> valid && id !in old(db).shares && username in old(db).users
      ensures db == if ok then old(db).(shares := old(db).shares[id := username]) else old(db)
    {
      hide Mirrors, NoRepeats;
      if !valid || id in db.shares || username !in db.users {
        return false;
      }
      db := db.(shares := db.shares[id := username]);
      return true;
    }

    /** A share can only be deleted in the name of its owner. */
    method DeleteShare(id: string, username: string) returns (ok: bool)
      requires Consistent(db)
      modifies this
      ensures Consistent(db)
      ensures ok <==> id in old(db).shares && old(db).shares[id] == username
      ensures db == if ok then old(db).(shares := old(db).shares - {id}) else old(db)
    {
      hide Mirrors, NoRepeats;
      if id !in db.shares || db.shares[id] != username {
        return false;
      }
      db := db.(shares := db.shares - {id});
      return true;
    }

    /** Adds an API key, or with update set replaces an existing one. */
    method StoreAPIKey(id: string, key: APIKey, update: bool, valid: bool) returns (ok: bool)
      requires Consistent(db)
      modifies this
      ensures Consistent(db)
      ensures ok <==> valid && (id in old(db).apiKeys <==> update) && KeyRefsExist(old(db), key)
      ensures db == if ok then old(db).(apiKeys := old(db).apiKeys[id := key]) else old(db)
    {
      hide Mirrors, NoRepeats;
      if !valid || (id in db.apiKeys) != update {
        return false;
      }
      if key.user != "" && key.user !in db.users {
        return false;
      }
      if key.admin != "" && key.admin !in db.admins {
        return false;
      }
      db := db.(apiKeys := db.apiKeys[id := key]);
      return true;
    }
  }
}
