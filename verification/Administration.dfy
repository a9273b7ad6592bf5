/** Whole runs of the directory: starting the server, the requests it serves, and what
    they keep of the administrators' group. */
module Administration {
  import opened Wrappers
  import opened Text
  import opened Schema
  import opened Database
  import opened AccessControl
  import opened Invariants
  import opened Mutations
  import D = Directory

  // ----- The administrators' group -----

  predicate AdminGroupNamed(db: Db) {
    ADMIN_GROUP_ID in db.groups && db.groups[ADMIN_GROUP_ID].displayName == ADMIN_GROUP
  }

  ghost predicate AdminGroupKept(db: Db) {
    AdminGroupNamed(db) && exists m :: m in db.memberships && m.group == ADMIN_GROUP_ID
  }

  predicate IsAdminMember(db: Db, user: string) {
    Membership(user, ADMIN_GROUP_ID) in db.memberships
  }

  /** The permission is derived from group names, yet it stands for membership of group 1:
      no other group can have that name in any case. */
  lemma AdminsAreMembers(db: Db, user: string)
    requires Valid(db) && AdminGroupNamed(db)
    ensures PermissionsFromGroups(user, GroupNamesOf(db, user)).IsAdmin() <==> IsAdminMember(db, user)
  {
    var names := GroupNamesOf(db, user);
    if IsAdminMember(db, user) {
      assert Membership(user, ADMIN_GROUP_ID) in db.memberships;
      assert ADMIN_GROUP in names;
    }
    if InGroup(names, ADMIN_GROUP) {
      var n :| n in names && Lower(n) == Lower(ADMIN_GROUP);
      var m :| m in db.memberships && m.user == user && m.group in db.groups && db.groups[m.group].displayName == n;
      assert db.groups[m.group].lowercaseDisplayName == db.groups[ADMIN_GROUP_ID].lowercaseDisplayName;
    }
  }

  /** The request takes out the only member that the group has. */
  predicate RemovesLastAdmin(db: Db, m: Mutation) {
    && ((m.RemoveUserFromGroup? && m.group == ADMIN_GROUP_ID) || m.DeleteUser?)
    && forall x :: x in db.memberships && x.group == ADMIN_GROUP_ID ==> x.user == Lower(m.id)
  }

  lemma RemainingAdmins(db: Db, user: string)
    requires AdminGroupNamed(db)
    ensures D.RemoveUserFromGroup(db, user, ADMIN_GROUP_ID).Some? ==>
      (AdminGroupKept(D.RemoveUserFromGroup(db, user, ADMIN_GROUP_ID).value) <==>
       exists x :: x in db.memberships && x.group == ADMIN_GROUP_ID && x.user != user)
    ensures D.DeleteUser(db, user).Some? ==>
      (AdminGroupKept(D.DeleteUser(db, user).value) <==>
       exists x :: x in db.memberships && x.group == ADMIN_GROUP_ID && x.user != user)
  {
    var removed := D.RemoveUserFromGroup(db, user, ADMIN_GROUP_ID);
    var deleted := D.DeleteUser(db, user);
    if x :| x in db.memberships && x.group == ADMIN_GROUP_ID && x.user != user {
      if removed.Some? { assert x in removed.value.memberships; }
      if deleted.Some? { assert x in deleted.value.memberships; }
    }
  }

  lemma UpdateKeepsMembers(env: Env, db: Db, actor: ValidationResults, m: Mutation)
    requires m.UpdateUser? && UpdateUserStep(env, db, actor, m).Some?
    ensures var db' := UpdateUserStep(env, db, actor, m).value;
      db'.groups == db.groups && db'.memberships == db.memberships
  {
    hide D.KnownValues, D.KnownNames, D.UpdatedRows, D.RemovedNames, DeserializeAttributes, D.UpsertRows, D.RemoveRows,
      D.EmailFree;
  }

  lemma CreationKeepsMembers(env: Env, db: Db, now: string)
    ensures forall r :: CreateUserStep(env, db, r, now).Some? ==>
      var db' := CreateUserStep(env, db, r, now).value;
      db'.groups == db.groups && db'.memberships == db.memberships
  {
    hide D.KnownValues, D.InsertRows, D.EmailFree, D.UserUuidFree;
  }

  lemma OtherStepsKeepAdminGroup(env: Env, db: Db, actor: ValidationResults, now: string, m: Mutation)
    requires AdminGroupKept(db) && Step(env, db, actor, now, m).Some?
    requires !(m.RemoveUserFromGroup? && m.group == ADMIN_GROUP_ID) && !m.DeleteUser?
    ensures AdminGroupKept(Step(env, db, actor, now, m).value)
  {
    hide D.EmailFree, D.GroupNameFree, D.UserUuidFree, D.GroupUuidFree, D.KnownValues, D.KnownNames, D.UpdatedRows,
      D.RemovedNames;
    hide DeserializeAttributes, D.InsertRows, D.UpsertRows, D.RemoveRows, AddRequest, D.ChangedBuiltins, UpdateUserStep,
      CreateUserStep;
    if m.UpdateUser? {
      UpdateKeepsMembers(env, db, actor, m);
    }
    CreationKeepsMembers(env, db, now);
    var db' := Step(env, db, actor, now, m).value;
    var x :| x in db.memberships && x.group == ADMIN_GROUP_ID;
    assert x in db'.memberships;
  }

  /** An accepted request costs the group its name, its existence or its last member
      exactly if it takes out the last member. */
  lemma AdminGroupLostExactly(env: Env, db: Db, actor: ValidationResults, now: string, m: Mutation)
    requires AdminGroupKept(db) && Step(env, db, actor, now, m).Some?
    ensures AdminGroupKept(Step(env, db, actor, now, m).value) <==> !RemovesLastAdmin(db, m)
  {
    if m.DeleteUser? || (m.RemoveUserFromGroup? && m.group == ADMIN_GROUP_ID) {
      RemainingAdmins(db, Lower(m.id));
    } else {
      OtherStepsKeepAdminGroup(env, db, actor, now, m);
    }
  }

  /** An administrator who still is one cannot do that, because nobody can remove
      themselves. */
  lemma MembersKeepAdminGroup(env: Env, db: Db, actor: ValidationResults, now: string, m: Mutation)
    requires AdminGroupKept(db) && (actor.IsAdmin() ==> IsAdminMember(db, actor.user))
    requires Step(env, db, actor, now, m).Some?
    ensures AdminGroupKept(Step(env, db, actor, now, m).value)
  {
    hide DeserializeAttributes, D.InsertRows, D.UpsertRows, D.RemoveRows, AddRequest, D.DeleteUser;
    AdminGroupLostExactly(env, db, actor, now, m);
  }

  const TWO_USERS: Db := EMPTY_DB.(
    users := map["a" := UserRow("a", "a", None, "", "a", None, None, None),
                 "b" := UserRow("b", "b", None, "", "b", None, None, None)],
    groups := map[1 := GroupRow(ADMIN_GROUP, ADMIN_GROUP, "", "g")],
    memberships := {Membership("b", 1)},
    nextGroupId := 2)

  /** One who no longer is a member, but still holds a token that says so, can. */
  lemma StaleAdminEmptiesGroup(env: Env)
    ensures Valid(TWO_USERS) && AdminGroupKept(TWO_USERS)
    ensures var r := Step(env, TWO_USERS, ValidationResults("a", Admin), "", RemoveUserFromGroup("b", 1));
      r.Some? && !AdminGroupKept(r.value)
  {
    TwoUsersValid();
    assert Membership("b", 1) in TWO_USERS.memberships;
    assert Lower("b") == "b";
  }

  lemma TwoUsersTables()
    ensures ValidUsers(TWO_USERS) && ValidReferences(TWO_USERS)
  {
    hide IsLower;
    OneLetterIds();
    assert TWO_USERS.users["a"].email == "a" && TWO_USERS.users["b"].email == "b";
  }

  lemma OneLetterIds()
    ensures IsLower("a") && IsLower("b") && Lower("a") == "a" && Lower("b") == "b" && "a" != "b"
  {
    assert "a"[0] != "b"[0];
  }

  lemma TwoUsersGroups()
    ensures ValidGroups(TWO_USERS)
  {
    assert IsLower(ADMIN_GROUP);
  }

  lemma TwoUsersValid()
    ensures Valid(TWO_USERS)
  {
    TwoUsersTables();
    TwoUsersGroups();
    EmptyDbValid();
    SameSchema(EMPTY_DB, TWO_USERS);
    hide ValidUsers, ValidGroups, ValidSchema;
  }

  // ----- What a regular user can change -----

  /** Without administrator permission, only one's own entry changes, and of it neither
      dates, ids and passwords, nor the value of an attribute that is not editable. Such
      an attribute can only be taken out, which the code does not check. */
  lemma RegularUserChanges(env: Env, db: Db, actor: ValidationResults, now: string, m: Mutation)
    requires Valid(db) && !actor.IsAdmin() && Step(env, db, actor, now, m).Some?
    ensures m.UpdateUser? && Lower(m.id) == actor.user && actor.user in db.users
    ensures var db' := Step(env, db, actor, now, m).value;
      && db' == db.(users := db'.users, userAttributes := db'.userAttributes)
      && db'.users.Keys == db.users.Keys
      && (forall u :: u in db.users && u != actor.user ==> db'.users[u] == db.users[u])
      && (var row, row' := db.users[actor.user], db'.users[actor.user];
          row' == row.(email := row'.email, lowercaseEmail := row'.lowercaseEmail, displayName := row'.displayName))
    ensures var db' := Step(env, db, actor, now, m).value;
      forall k: AttributeKey<string> ::
        (k.owner != actor.user || (k.name in db.userSchema && !db.userSchema[k.name].isEditable)) ==>
        if k.owner == actor.user && k.name in LowerAll(m.removed) then k !in db'.userAttributes
        else
          (k in db'.userAttributes <==> k in db.userAttributes) &&
          (k in db'.userAttributes ==> db'.userAttributes[k] == db.userAttributes[k])
  {
    hide DeserializeAttributes, D.UpsertRows, D.RemoveRows, WellTyped, D.EmailFree;
    var db' := Step(env, db, actor, now, m).value;
    var inserted := DeserializeAttributes(env.lib, db.userSchema, BUILTIN_USER_ATTRIBUTES, m.inserted, false).value;
    var avatar := DecodePhoto(env.lib, m.avatar).value;
    var r := D.UpdateUserRequest(Lower(m.id), m.newEmail, m.displayName, m.firstName, m.lastName, avatar,
                                 LowerAll(m.removed), inserted);
    assert Some(db') == D.UpdateUser(db, r);
    DeserializedAreEditable(env.lib, db.userSchema, BUILTIN_USER_ATTRIBUTES, m.inserted);
    forall k: AttributeKey<string> | k.owner != actor.user ||
      (k.name in db.userSchema && !db.userSchema[k.name].isEditable)
      ensures
        if k.owner == actor.user && k.name in LowerAll(m.removed) then k !in db'.userAttributes
        else
          (k in db'.userAttributes <==> k in db.userAttributes) &&
          (k in db'.userAttributes ==> db'.userAttributes[k] == db.userAttributes[k])
    {
      D.UpdateUserAttributes(db, r, k);
      if k.owner == actor.user {
        UneditableUntouched(db, r, k.name);
      }
    }
  }

  lemma UneditableUntouched(db: Db, r: D.UpdateUserRequest, name: string)
    requires ValidSchema(db) && D.UpdateFits(r) && name in db.userSchema && !db.userSchema[name].isEditable
    requires forall a :: a in r.insertAttributes && a.name in db.userSchema ==> db.userSchema[a.name].isEditable
    ensures D.LastValue(D.UpdatedRows(r), name).None?
    ensures name in D.RemovedNames(r) <==> name in r.deleteAttributes
  {
    D.LastValueAbsent(D.UpdatedRows(r), name);
  }

  // ----- Starting the server -----

  datatype Config = Config(adminUser: string, adminEmail: string, passwordHash: string)

  function GroupsNamed(db: Db, name: string): set<int> {
    set g | g in db.groups && db.groups[g].lowercaseDisplayName == Lower(name)
  }

  ghost function Pick<T>(s: set<T>): (x: T)
    requires s != {}
    ensures x in s
  {
    var x :| x in s;
    x
  }

  function EnsureGroup(env: Env, db: Db, name: string, now: string): Option<Db> {
    if GroupsNamed(db, name) != {} then Some(db)
    else D.CreateGroup(db, D.CreateGroupRequest(name, []), now, env.uuid(name, now))
  }

  predicate AdminPresent(db: Db) {
    exists m :: m in db.memberships && m.group in GroupsNamed(db, ADMIN_GROUP)
  }

  /** Creates the user, stores the password and joins the group, each on its own. */
  ghost function CreateAdmin(env: Env, db: Db, config: Config, now: string): (Db, bool) {
    var request :=
      D.CreateUserRequest(config.adminUser, config.adminEmail, Some("Administrator"), None, None, None, []);
    match CreateUserStep(env, db, request, now)
    case None => (db, false)
    case Some(created) =>
      var row := created.users[config.adminUser].(passwordHash := Some(config.passwordHash));
      var registered := created.(users := created.users[config.adminUser := row]);
      var groups := GroupsNamed(registered, ADMIN_GROUP);
      if |groups| != 1 then (registered, false)
      else
        var g := Pick(groups);
        match D.AddUserToGroup(registered, config.adminUser, g)
        case None => (registered, false)
        case Some(joined) => (joined, true)
  }

  /** Makes sure that the three groups and an administrator exist. The flag tells whether
      the server starts; what was done before a failure stays. */
  ghost function SetUp(env: Env, db: Db, config: Config, now: string): (Db, bool) {
    match EnsureGroup(env, db, ADMIN_GROUP, now)
    case None => (db, false)
    case Some(first) =>
      match EnsureGroup(env, first, PASSWORD_MANAGER_GROUP, now)
      case None => (first, false)
      case Some(second) =>
        match EnsureGroup(env, second, READONLY_GROUP, now)
        case None => (second, false)
        case Some(third) => if AdminPresent(third) then (third, true) else CreateAdmin(env, third, config, now)
  }

  lemma EnsureGroupKeeps(env: Env, db: Db, name: string, now: string)
    requires Valid(db) && EnsureGroup(env, db, name, now).Some?
    ensures var db' := EnsureGroup(env, db, name, now).value;
      && Valid(db') && GroupsNamed(db', name) != {}
      && (forall other :: GroupsNamed(db, other) <= GroupsNamed(db', other))
      && db'.users == db.users && db'.memberships == db.memberships
      && db.groups.Keys <= db'.groups.Keys && (forall g :: g in db.groups ==> db'.groups[g] == db.groups[g])
  {
    hide WellTyped, ValidUsers, ValidSchema;
    if GroupsNamed(db, name) == {} {
      var r := D.CreateGroupRequest(name, []);
      NoRowsTyped(db.groupSchema);
      CreateGroupKeepsValid(db, r, now, env.uuid(name, now));
      var db' := D.CreateGroup(db, r, now, env.uuid(name, now)).value;
      assert db.nextGroupId in GroupsNamed(db', name);
    }
  }

  lemma AtMostOneNamed(db: Db, name: string)
    requires Valid(db) && GroupsNamed(db, name) != {}
    ensures |GroupsNamed(db, name)| == 1
  {
    var g := Pick(GroupsNamed(db, name));
    forall h: int | h in GroupsNamed(db, name)
      ensures h == g
    {
      assert db.groups[h].lowercaseDisplayName == db.groups[g].lowercaseDisplayName;
    }
    assert GroupsNamed(db, name) == {g};
  }

  /** A new administrator is created unless the user exists already or clashes. */
  lemma CreateAdminWorks(env: Env, db: Db, config: Config, now: string)
    requires Valid(db) && IsLower(config.adminUser) && GroupsNamed(db, ADMIN_GROUP) != {}
    ensures var (db', ok) := CreateAdmin(env, db, config, now);
      && Valid(db')
      && db'.groups == db.groups
      && db.memberships <= db'.memberships
      && (ok ==> AdminPresent(db'))
      && (ok <==> config.adminUser !in db.users && D.EmailFree(db, config.adminEmail, config.adminUser) &&
                  D.UserUuidFree(db, env.uuid(config.adminUser, now)))
  {
    hide Valid, WellTyped;
    var request :=
      D.CreateUserRequest(config.adminUser, config.adminEmail, Some("Administrator"), None, None, None, []);
    NoRowsTyped(db.userSchema);
    CreateUserStepKeepsValid(env, db, request, now);
    if CreateUserStep(env, db, request, now).Some? {
      var created := CreateUserStep(env, db, request, now).value;
      PasswordKeepsValid(created, config.adminUser, config.passwordHash);
      var row := created.users[config.adminUser].(passwordHash := Some(config.passwordHash));
      var registered := created.(users := created.users[config.adminUser := row]);
      assert registered.groups == db.groups;
      assert GroupsNamed(registered, ADMIN_GROUP) == GroupsNamed(db, ADMIN_GROUP);
      AtMostOneNamed(registered, ADMIN_GROUP);
      var g := Pick(GroupsNamed(registered, ADMIN_GROUP));
      NewUserHasNoGroup(db, config.adminUser, g);
      MembershipStepsKeepValid(registered, config.adminUser, g);
      var joined := D.AddUserToGroup(registered, config.adminUser, g);
      if joined.Some? {
        assert Membership(config.adminUser, g) in joined.value.memberships;
        assert g in GroupsNamed(joined.value, ADMIN_GROUP);
      }
    }
  }

  /** The administrator that is created: named and reachable as configured, with the
      configured password, in the administrators' group; nothing else changes, and a
      failure changes nothing. */
  lemma CreatedAdmin(env: Env, db: Db, config: Config, now: string)
    requires Valid(db) && IsLower(config.adminUser) && GroupsNamed(db, ADMIN_GROUP) != {}
    ensures var (db', ok) := CreateAdmin(env, db, config, now);
      && (!ok ==> db' == db)
      && (ok ==>
            && db' == db.(users := db'.users, memberships := db'.memberships)
            && db'.users == db.users[config.adminUser := UserRow(
                  config.adminEmail, Lower(config.adminEmail), Some("Administrator"), now,
                  env.uuid(config.adminUser, now), Some(config.passwordHash), None, None)]
            && exists g :: g in db.groups && Lower(db.groups[g].displayName) == "lldap_admin" &&
                 db'.memberships == db.memberships + {Membership(config.adminUser, g)})
  {
    hide ValidUsers, ValidTypes, ValidSchema, ValidReferences;
    var request :=
      D.CreateUserRequest(config.adminUser, config.adminEmail, Some("Administrator"), None, None, None, []);
    var created := CreateUserStep(env, db, request, now);
    if created.Some? {
      assert created.value.userAttributes == db.userAttributes;
      var row := created.value.users[config.adminUser].(passwordHash := Some(config.passwordHash));
      var registered := created.value.(users := created.value.users[config.adminUser := row]);
      assert registered.groups == db.groups && GroupsNamed(registered, ADMIN_GROUP) == GroupsNamed(db, ADMIN_GROUP);
      AtMostOneNamed(db, ADMIN_GROUP);
      var g := Pick(GroupsNamed(registered, ADMIN_GROUP));
      NewUserHasNoGroup(db, config.adminUser, g);
      assert Lower(ADMIN_GROUP) == "lldap_admin";
      assert registered.users == db.users[config.adminUser := row];
    }
  }

  lemma NewUserHasNoGroup(db: Db, user: string, g: int)
    requires Valid(db) && user !in db.users
    ensures Membership(user, g) !in db.memberships
  {
    hide WellTyped;
  }

  /** Starting keeps the directory valid, successful or not; if it succeeds there is an
      administrator. */
  lemma SetUpKeeps(env: Env, db: Db, config: Config, now: string)
    requires Valid(db) && IsLower(config.adminUser)
    ensures var (db', ok) := SetUp(env, db, config, now);
      && Valid(db')
      && db.groups.Keys <= db'.groups.Keys && (forall g :: g in db.groups ==> db'.groups[g] == db.groups[g])
      && db.memberships <= db'.memberships
      && (ok ==> AdminPresent(db') && GroupsNamed(db', ADMIN_GROUP) != {} &&
                 GroupsNamed(db', PASSWORD_MANAGER_GROUP) != {} && GroupsNamed(db', READONLY_GROUP) != {})
  {
    hide Valid, EnsureGroup, CreateAdmin, AdminPresent;
    if EnsureGroup(env, db, ADMIN_GROUP, now).Some? {
      EnsureGroupKeeps(env, db, ADMIN_GROUP, now);
      var first := EnsureGroup(env, db, ADMIN_GROUP, now).value;
      if EnsureGroup(env, first, PASSWORD_MANAGER_GROUP, now).Some? {
        EnsureGroupKeeps(env, first, PASSWORD_MANAGER_GROUP, now);
        var second := EnsureGroup(env, first, PASSWORD_MANAGER_GROUP, now).value;
        if EnsureGroup(env, second, READONLY_GROUP, now).Some? {
          EnsureGroupKeeps(env, second, READONLY_GROUP, now);
          var third := EnsureGroup(env, second, READONLY_GROUP, now).value;
          CreateAdminWorks(env, third, config, now);
        }
      }
    }
  }

  /** Restarting on a directory in order changes nothing. */
  lemma SetUpIdempotent(env: Env, db: Db, config: Config, now: string)
    requires Valid(db) && AdminPresent(db)
    requires GroupsNamed(db, PASSWORD_MANAGER_GROUP) != {} && GroupsNamed(db, READONLY_GROUP) != {}
    ensures SetUp(env, db, config, now) == (db, true)
  {
    var m :| m in db.memberships && m.group in GroupsNamed(db, ADMIN_GROUP);
    assert GroupsNamed(db, ADMIN_GROUP) != {};
  }

  /** The first start of a server succeeds, and makes group 1 the administrators'. */
  lemma SetUpNew(env: Env, config: Config, now: string)
    requires IsLower(config.adminUser)
    requires var a, b, c :=
      env.uuid(ADMIN_GROUP, now), env.uuid(PASSWORD_MANAGER_GROUP, now), env.uuid(READONLY_GROUP, now);
      a != b && b != c && a != c
    ensures var (db, ok) := SetUp(env, EMPTY_DB, config, now);
      ok && Valid(db) && AdminGroupKept(db)
  {
    hide Valid, CreateAdmin, SetUp;
    EmptyDbValid();
    NewGroups(env, now);
    var first := EnsureGroup(env, EMPTY_DB, ADMIN_GROUP, now).value;
    var second := EnsureGroup(env, first, PASSWORD_MANAGER_GROUP, now).value;
    var third := EnsureGroup(env, second, READONLY_GROUP, now).value;
    EnsureGroupKeeps(env, EMPTY_DB, ADMIN_GROUP, now);
    EnsureGroupKeeps(env, first, PASSWORD_MANAGER_GROUP, now);
    EnsureGroupKeeps(env, second, READONLY_GROUP, now);
    assert 1 in third.groups && third.groups[1] == first.groups[1];
    CreateAdminWorks(env, third, config, now);
    SetUpChain(env, EMPTY_DB, first, second, third, config, now);
    var db := SetUp(env, EMPTY_DB, config, now).0;
    SetUpKeeps(env, EMPTY_DB, config, now);
    var m :| m in db.memberships && m.group in GroupsNamed(db, ADMIN_GROUP);
    OnlyGroupOne(db, m.group);
  }

  lemma OnlyGroupOne(db: Db, g: int)
    requires Valid(db) && AdminGroupNamed(db) && g in GroupsNamed(db, ADMIN_GROUP)
    ensures g == ADMIN_GROUP_ID
  {
    hide WellTyped;
  }

  lemma SetUpChain(env: Env, db: Db, first: Db, second: Db, third: Db, config: Config, now: string)
    requires EnsureGroup(env, db, ADMIN_GROUP, now) == Some(first)
    requires EnsureGroup(env, first, PASSWORD_MANAGER_GROUP, now) == Some(second)
    requires EnsureGroup(env, second, READONLY_GROUP, now) == Some(third)
    ensures SetUp(env, db, config, now) == if AdminPresent(third) then (third, true)
      else CreateAdmin(env, third, config, now)
  {
    hide EnsureGroup, CreateAdmin, AdminPresent;
  }

  /** The three groups get the ids 1 to 3. */
  lemma NewGroups(env: Env, now: string)
    requires var a, b, c :=
      env.uuid(ADMIN_GROUP, now), env.uuid(PASSWORD_MANAGER_GROUP, now), env.uuid(READONLY_GROUP, now);
      a != b && b != c && a != c
    ensures var first := EnsureGroup(env, EMPTY_DB, ADMIN_GROUP, now);
      && first.Some? && AdminGroupNamed(first.value)
      && var second := EnsureGroup(env, first.value, PASSWORD_MANAGER_GROUP, now);
      && second.Some? && EnsureGroup(env, second.value, READONLY_GROUP, now).Some?
  {
    var first := NewGroup(env, EMPTY_DB, ADMIN_GROUP, now);
    GroupNamesDiffer();
    var second := NewGroup(env, first, PASSWORD_MANAGER_GROUP, now);
    var third := NewGroup(env, second, READONLY_GROUP, now);
  }

  lemma GroupNamesDiffer()
    ensures var a, b, c := ADMIN_GROUP, PASSWORD_MANAGER_GROUP, READONLY_GROUP;
      && a != b && b != c && a != c && Lower(a) != Lower(b) && Lower(b) != Lower(c) && Lower(a) != Lower(c)
  {
    assert |ADMIN_GROUP| == 11 && |PASSWORD_MANAGER_GROUP| == 22 && |READONLY_GROUP| == 21;
  }

  lemma NewGroup(env: Env, db: Db, name: string, now: string) returns (db': Db)
    requires db.nextGroupId !in db.groups && db.nextGroupId <= D.MAX_GROUP_ID
    requires D.GroupNameFree(db, name, db.nextGroupId) && D.GroupUuidFree(db, env.uuid(name, now))
    ensures EnsureGroup(env, db, name, now) == Some(db')
    ensures db' == db.(groups := db.groups[db.nextGroupId := GroupRow(name, Lower(name), now, env.uuid(name, now))],
                       nextGroupId := db.nextGroupId + 1)
  {
    db' := db.(groups := db.groups[db.nextGroupId := GroupRow(name, Lower(name), now, env.uuid(name, now))],
               nextGroupId := db.nextGroupId + 1);
    forall g: int
      ensures g !in GroupsNamed(db, name)
    {
    }
  }

  // ----- Runs -----

  datatype Event =
    | Request(actor: ValidationResults, now: string, m: Mutation)
    | Start(config: Config, at: string)

  ghost function After(env: Env, db: Db, e: Event): Db {
    match e
    case Request(actor, now, m) => Step(env, db, actor, now, m).GetOr(db)
    case Start(config, at) => SetUp(env, db, config, at).0
  }

  ghost function Run(env: Env, db: Db, events: seq<Event>): Db
    decreases |events|
  {
    if events == [] then db else Run(env, After(env, db, events[0]), events[1..])
  }

  /** User ids are lower-cased as they enter the server, also the configured one. */
  predicate LowerConfigs(events: seq<Event>) {
    forall e :: e in events && e.Start? ==> IsLower(e.config.adminUser)
  }

  lemma AfterKeepsValid(env: Env, db: Db, e: Event)
    requires Valid(db) && LowerConfigs([e])
    ensures Valid(After(env, db, e))
  {
    hide Valid, Step, SetUp;
    assert e in [e];
    match e
    case Request(actor, now, m) =>
      if Step(env, db, actor, now, m).Some? {
        StepKeepsValid(env, db, actor, now, m);
      }
    case Start(config, at) => SetUpKeeps(env, db, config, at);
  }

  lemma {:induction false} RunKeepsValid(env: Env, db: Db, events: seq<Event>)
    requires Valid(db) && LowerConfigs(events)
    ensures Valid(Run(env, db, events))
    decreases |events|
  {
    hide Valid, After;
    if events != [] {
      AfterKeepsValid(env, db, events[0]);
      RunKeepsValid(env, After(env, db, events[0]), events[1..]);
    }
  }

  /** Each administrator who acts is, at that moment, a member of group 1. */
  ghost predicate FreshAdmins(env: Env, db: Db, events: seq<Event>)
    decreases |events|
  {
    events == [] ||
    (&& (events[0].Request? && events[0].actor.IsAdmin() ==> IsAdminMember(db, events[0].actor.user))
     && FreshAdmins(env, After(env, db, events[0]), events[1..]))
  }

  /** Every such run keeps group 1, its name and a member, and administrators are at any
      time exactly its members. */
  lemma {:induction false} RunKeepsAdminGroup(env: Env, db: Db, events: seq<Event>)
    requires Valid(db) && AdminGroupKept(db) && LowerConfigs(events) && FreshAdmins(env, db, events)
    ensures var db' := Run(env, db, events);
      && AdminGroupKept(db')
      && forall u :: PermissionsFromGroups(u, GroupNamesOf(db', u)).IsAdmin() <==> IsAdminMember(db', u)
    decreases |events|
  {
    hide Valid, Step, SetUp, PermissionsFromGroups, GroupNamesOf;
    if events == [] {
      forall u
        ensures PermissionsFromGroups(u, GroupNamesOf(db, u)).IsAdmin() <==> IsAdminMember(db, u)
      {
        AdminsAreMembers(db, u);
      }
    } else {
      var e := events[0];
      AfterKeepsValid(env, db, e);
      match e {
        case Request(actor, now, m) =>
          if Step(env, db, actor, now, m).Some? {
            MembersKeepAdminGroup(env, db, actor, now, m);
          }
        case Start(config, at) => SetUpKeeps(env, db, config, at);
      }
      RunKeepsAdminGroup(env, After(env, db, e), events[1..]);
    }
  }
}
