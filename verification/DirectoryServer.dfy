/** The directory as it runs: tables changed in place, one statement at a time, inside
    transactions that are rolled back on failure. Each method is tied to the step
    function that the theorems are about. */
module DirectoryServer {
  import opened Wrappers
  import opened Text
  import opened Schema
  import opened Database
  import opened AccessControl
  import D = Directory
  import M = Mutations
  import I = Invariants

  /** Inserts rows one by one; a repeated key or an unknown name stops it. */
  method InsertMany<T(==)>(table: AttributeTable<T>, owner: T, rows: seq<AttributeValue>, names: set<string>)
    returns (ok: bool, result: AttributeTable<T>)
    ensures ok == D.InsertRows(table, owner, rows, names).Some?
    ensures ok ==> result == D.InsertRows(table, owner, rows, names).value
  {
    result := table;
    var i := 0;
    while i < |rows|
      invariant 0 <= i <= |rows|
      invariant D.InsertRows(result, owner, rows[i..], names) == D.InsertRows(table, owner, rows, names)
    {
      var key := AttributeKey(owner, rows[i].name);
      assert rows[i..][1..] == rows[i + 1..];
      if key in result || key.name !in names {
        return false, table;
      }
      result := result[key := rows[i].bytes];
      i := i + 1;
    }
    ok := true;
  }

  /** Inserts rows one by one, overwriting on conflict. */
  method UpsertMany<T(==)>(table: AttributeTable<T>, owner: T, rows: seq<AttributeValue>)
    returns (result: AttributeTable<T>)
    ensures result == D.UpsertRows(table, owner, rows)
  {
    result := table;
    var i := 0;
    while i < |rows|
      invariant 0 <= i <= |rows|
      invariant D.UpsertRows(result, owner, rows[i..]) == D.UpsertRows(table, owner, rows)
    {
      assert rows[i..][1..] == rows[i + 1..];
      result := result[AttributeKey(owner, rows[i].name) := rows[i].bytes];
      i := i + 1;
    }
  }

  /** Checks each attribute against the schema and pushes its row after `start`. */
  method PushKnown(start: seq<AttributeValue>, values: seq<AttributeValue>, schema: map<string, SchemaRow>)
    returns (ok: bool, rows: seq<AttributeValue>)
    ensures ok == D.KnownValues(values, schema)
    ensures ok ==> rows == start + values
  {
    rows := start;
    var i := 0;
    while i < |values|
      invariant 0 <= i <= |values|
      invariant D.KnownValues(values[..i], schema)
      invariant rows == start + values[..i]
    {
      if values[i].name !in schema {
        return false, [];
      }
      rows := rows + [values[i]];
      assert values[..i + 1] == values[..i] + [values[i]];
      i := i + 1;
    }
    assert values[..i] == values;
    ok := true;
  }

  method PushKnownNames(start: seq<string>, names: seq<string>, schema: map<string, SchemaRow>)
    returns (ok: bool, result: seq<string>)
    ensures ok == D.KnownNames(names, schema)
    ensures ok ==> result == start + names
  {
    result := start;
    var i := 0;
    while i < |names|
      invariant 0 <= i <= |names|
      invariant D.KnownNames(names[..i], schema)
      invariant result == start + names[..i]
    {
      if names[i] !in schema {
        return false, [];
      }
      result := result + [names[i]];
      assert names[..i + 1] == names[..i] + [names[i]];
      i := i + 1;
    }
    assert names[..i] == names;
    ok := true;
  }

  /** The rows an update writes and the names it removes, pushed in the order in which
      the request is looked at. */
  method ProcessUpdate(r: D.UpdateUserRequest, schema: map<string, SchemaRow>)
    returns (ok: bool, updated: seq<AttributeValue>, removed: seq<string>)
    requires D.UpdateFits(r)
    ensures ok == (D.KnownValues(r.insertAttributes, schema) && D.KnownNames(r.deleteAttributes, schema))
    ensures ok ==> updated == D.UpdatedRows(r) && removed == D.RemovedNames(r)
  {
    hide D.KnownValues, D.KnownNames, D.SerializedText, D.SerializedPhoto;
    updated, removed := [], [];
    if r.firstName.Some? {
      if r.firstName.value == "" {
        removed := removed + [FIRST_NAME];
      } else {
        updated := updated + [AttributeValue(FIRST_NAME, D.SerializedText(r.firstName.value))];
      }
    }
    assert updated == D.ChangedText(FIRST_NAME, r.firstName) && removed == D.RemovedText(FIRST_NAME, r.firstName);
    if r.lastName.Some? {
      if r.lastName.value == "" {
        removed := removed + [LAST_NAME];
      } else {
        updated := updated + [AttributeValue(LAST_NAME, D.SerializedText(r.lastName.value))];
      }
    }
    assert updated == D.ChangedText(FIRST_NAME, r.firstName) + D.ChangedText(LAST_NAME, r.lastName);
    assert removed == D.RemovedText(FIRST_NAME, r.firstName) + D.RemovedText(LAST_NAME, r.lastName);
    if r.avatar.Some? {
      if r.avatar.value == [] {
        removed := removed + [AVATAR];
      } else {
        updated := updated + [AttributeValue(AVATAR, D.SerializedPhoto(r.avatar.value))];
      }
    }
    ok, updated := PushKnown(updated, r.insertAttributes, schema);
    if !ok {
      return;
    }
    ok, removed := PushKnownNames(removed, r.deleteAttributes, schema);
  }

  /** The rows for the names and the avatar of a new user. */
  method NewRows(r: D.CreateUserRequest) returns (rows: seq<AttributeValue>)
    requires D.CreateFits(r)
    ensures rows + r.attributes == D.NewUserRows(r)
  {
    rows := [];
    if r.firstName.Some? {
      rows := rows + [AttributeValue(FIRST_NAME, D.SerializedText(r.firstName.value))];
    }
    if r.lastName.Some? {
      rows := rows + [AttributeValue(LAST_NAME, D.SerializedText(r.lastName.value))];
    }
    if r.avatar.Some? {
      rows := rows + [AttributeValue(AVATAR, D.SerializedPhoto(r.avatar.value))];
    }
  }

  lemma KnownEnd(start: seq<AttributeValue>, end: seq<AttributeValue>, schema: map<string, SchemaRow>)
    requires D.KnownValues(start + end, schema)
    ensures D.KnownValues(end, schema)
  {
    assert forall i :: 0 <= i < |end| ==> end[i] == (start + end)[|start| + i];
  }

  /** Deletes the rows of some names; a query without names is not sent. */
  method RemoveMany<T(==)>(table: AttributeTable<T>, owner: T, names: seq<string>) returns (result: AttributeTable<T>)
    ensures result == D.RemoveRows(table, owner, names)
  {
    if names == [] {
      RemoveNothing(table, owner);
      return table;
    }
    result := map k | k in table && !(k.owner == owner && k.name in names) :: table[k];
  }

  lemma UpsertNothing<T>(table: AttributeTable<T>, owner: T)
    ensures D.UpsertRows(table, owner, []) == table
  {
  }

  lemma RemoveNothing<T>(table: AttributeTable<T>, owner: T)
    ensures D.RemoveRows(table, owner, []) == table
  {
  }

  class DirectoryServer {
    const env: M.Env
    var users: map<string, UserRow>
    var groups: map<int, GroupRow>
    var memberships: set<Membership>
    var userSchema: map<string, SchemaRow>
    var groupSchema: map<string, SchemaRow>
    var userAttributes: AttributeTable<string>
    var groupAttributes: AttributeTable<int>
    var userClasses: map<string, string>
    var groupClasses: map<string, string>
    var nextGroupId: int

    function Tables(): Db
      reads this
    {
      Db(users, groups, memberships, userSchema, groupSchema, userAttributes, groupAttributes, userClasses,
         groupClasses,
         nextGroupId)
    }

    /** Unique lower-case ids, emails and names, no dangling row, typed values. */
    ghost predicate Valid()
      reads this
    {
      Database.Valid(Tables())
    }

    constructor (env: M.Env)
      ensures Tables() == EMPTY_DB && this.env == env && Valid()
    {
      EmptyDbValid();
      this.env := env;
      users, groups, memberships, nextGroupId := map[], map[], {}, 1;
      userSchema, groupSchema := EMPTY_DB.userSchema, map[];
      userAttributes, groupAttributes, userClasses, groupClasses := map[], map[], map[], map[];
    }

    // ----- Users -----

    method CreateUser(r: D.CreateUserRequest, now: string, uuid: string) returns (ok: bool)
      requires Valid()
      modifies this`users, this`userAttributes
      ensures ok == D.CreateUser(old(Tables()), r, now, uuid).Some?
      ensures Tables() == D.CreateUser(old(Tables()), r, now, uuid).GetOr(old(Tables()))
      ensures IsLower(r.userId) && I.TypedRows(r.attributes, userSchema) ==> Valid()
    {
      hide Database.Valid, I.TypedRows;
      ghost var before := Tables();
      if IsLower(r.userId) && I.TypedRows(r.attributes, userSchema) && D.CreateUser(before, r, now, uuid).Some? {
        I.CreateUserKeepsValid(before, r, now, uuid);
      }
      ok := InsertUser(r, now, uuid);
    }

    method InsertUser(r: D.CreateUserRequest, now: string, uuid: string) returns (ok: bool)
      modifies this`users, this`userAttributes
      ensures ok == D.CreateUser(old(Tables()), r, now, uuid).Some?
      ensures Tables() == D.CreateUser(old(Tables()), r, now, uuid).GetOr(old(Tables()))
    {
      if !D.CreateFits(r) {
        return false;
      }
      var rows := NewRows(r);
      ok, rows := PushKnown(rows, r.attributes, userSchema);
      if !ok {
        return;
      }
      assert rows == D.NewUserRows(r);
      if r.userId in users || !D.EmailFree(Tables(), r.email, r.userId) || !D.UserUuidFree(Tables(), uuid) {
        return false;
      }
      var saved := users;
      users := users[r.userId :=
        UserRow(r.email, Lower(r.email), D.StoredName(r.displayName), now, uuid, None, None, None)];
      var table;
      ok, table := InsertMany(userAttributes, r.userId, rows, userSchema.Keys);
      if !ok {
        users := saved;
        return;
      }
      userAttributes := table;
    }

    method UpdateUser(r: D.UpdateUserRequest) returns (ok: bool)
      requires Valid()
      modifies this`users, this`userAttributes
      ensures ok == D.UpdateUser(old(Tables()), r).Some?
      ensures Tables() == D.UpdateUser(old(Tables()), r).GetOr(old(Tables()))
      ensures I.TypedRows(r.insertAttributes, userSchema) ==> Valid()
    {
      hide Database.Valid, I.TypedRows;
      ghost var before := Tables();
      if I.TypedRows(r.insertAttributes, userSchema) && D.UpdateUser(before, r).Some? {
        I.UpdateUserKeepsValid(before, r);
      }
      ok := ChangeUser(r);
    }

    method ChangeUser(r: D.UpdateUserRequest) returns (ok: bool)
      modifies this`users, this`userAttributes
      ensures ok == D.UpdateUser(old(Tables()), r).Some?
      ensures Tables() == D.UpdateUser(old(Tables()), r).GetOr(old(Tables()))
    {
      if !D.UpdateFits(r) {
        return false;
      }
      var updated, removed;
      ok, updated, removed := ProcessUpdate(r, userSchema);
      hide D.ChangedBuiltins, D.RemovedNames, D.KnownNames, D.KnownValues, D.RemoveRows, D.UpsertRows;
      if !ok {
        ghost var known := D.KnownValues(D.UpdatedRows(r), userSchema);
        if known {
          KnownEnd(D.ChangedBuiltins(r), r.insertAttributes, userSchema);
        }
        return;
      }
      if r.userId !in users || (r.email.Some? && !D.EmailFree(Tables(), r.email.value, r.userId)) {
        return false;
      }
      ok := WriteUpdate(r, updated, removed);
    }

    /** The statements of the transaction. */
    method WriteUpdate(r: D.UpdateUserRequest, updated: seq<AttributeValue>, removed: seq<string>) returns (ok: bool)
      requires r.userId in users
      modifies this`users, this`userAttributes
      ensures ok == D.KnownValues(updated, userSchema)
      ensures !ok ==> Tables() == old(Tables())
      ensures ok ==> users == old(users)[r.userId := D.UpdatedRow(old(users)[r.userId], r)]
      ensures ok ==>
        userAttributes == D.UpsertRows(D.RemoveRows(old(userAttributes), r.userId, removed), r.userId, updated)
    {
      hide D.RemoveRows, D.UpsertRows, D.KnownValues;
      var savedUsers, savedAttributes := users, userAttributes;
      if r.email.Some? {
        users := users[r.userId := users[r.userId].(email := r.email.value, lowercaseEmail := Lower(r.email.value))];
      }
      if r.displayName.Some? {
        users := users[r.userId := users[r.userId].(displayName := D.StoredName(r.displayName))];
      }
      userAttributes := RemoveMany(userAttributes, r.userId, removed);
      UpsertNothing(userAttributes, r.userId);
      ok := D.KnownValues(updated, userSchema);
      if !ok {
        users, userAttributes := savedUsers, savedAttributes;
        return;
      }
      if updated != [] {
        userAttributes := UpsertMany(userAttributes, r.userId, updated);
      }
    }

    /** No row names a deleted user any more, and all others stay. */
    method DeleteUser(u: string) returns (ok: bool)
      requires Valid()
      modifies this`users, this`memberships, this`userAttributes
      ensures ok == (u in old(users))
      ensures !ok ==> Tables() == old(Tables())
      ensures ok ==> forall v :: v in users <==> v in old(users) && v != u
      ensures ok ==> forall m :: m in memberships <==> m in old(memberships) && m.user != u
      ensures ok ==> forall k :: k in userAttributes <==> k in old(userAttributes) && k.owner != u
      ensures Tables() == D.DeleteUser(old(Tables()), u).GetOr(old(Tables()))
      ensures Valid()
    {
      hide Database.Valid;
      ok := u in users;
      if ok {
        I.DeleteUserKeepsValid(Tables(), u);
        users := users - {u};
        memberships := set m | m in memberships && m.user != u;
        userAttributes := map k | k in userAttributes && k.owner != u :: userAttributes[k];
      }
    }

    // ----- Groups -----

    method CreateGroup(r: D.CreateGroupRequest, now: string, uuid: string) returns (ok: bool)
      requires Valid()
      modifies this`groups, this`groupAttributes, this`nextGroupId
      ensures ok == D.CreateGroup(old(Tables()), r, now, uuid).Some?
      ensures Tables() == D.CreateGroup(old(Tables()), r, now, uuid).GetOr(old(Tables()))
      ensures I.TypedRows(r.attributes, groupSchema) ==> Valid()
    {
      hide Database.Valid, I.TypedRows;
      ghost var before := Tables();
      if I.TypedRows(r.attributes, groupSchema) && D.CreateGroup(before, r, now, uuid).Some? {
        I.CreateGroupKeepsValid(before, r, now, uuid);
      }
      ok := InsertGroup(r, now, uuid);
    }

    method InsertGroup(r: D.CreateGroupRequest, now: string, uuid: string) returns (ok: bool)
      modifies this`groups, this`groupAttributes, this`nextGroupId
      ensures ok == D.CreateGroup(old(Tables()), r, now, uuid).Some?
      ensures Tables() == D.CreateGroup(old(Tables()), r, now, uuid).GetOr(old(Tables()))
    {
      var id := nextGroupId;
      if id in groups || id > D.MAX_GROUP_ID || !D.GroupNameFree(Tables(), r.displayName, id) ||
         !D.GroupUuidFree(Tables(), uuid) {
        return false;
      }
      var saved := groups;
      groups := groups[id := GroupRow(r.displayName, Lower(r.displayName), now, uuid)];
      nextGroupId := id + 1;
      var rows;
      ok, rows := PushKnown([], r.attributes, groupSchema);
      if !ok {
        groups, nextGroupId := saved, id;
        return;
      }
      assert rows == r.attributes;
      var table;
      ok, table := InsertMany(groupAttributes, id, rows, groupSchema.Keys);
      if !ok {
        groups, nextGroupId := saved, id;
        return;
      }
      groupAttributes := table;
    }

    method UpdateGroup(r: D.UpdateGroupRequest) returns (ok: bool)
      requires Valid()
      modifies this`groups, this`groupAttributes
      ensures ok == D.UpdateGroup(old(Tables()), r).Some?
      ensures Tables() == D.UpdateGroup(old(Tables()), r).GetOr(old(Tables()))
      ensures I.TypedRows(r.insertAttributes, groupSchema) ==> Valid()
    {
      hide Database.Valid, I.TypedRows;
      ghost var before := Tables();
      if I.TypedRows(r.insertAttributes, groupSchema) && D.UpdateGroup(before, r).Some? {
        I.UpdateGroupKeepsValid(before, r);
      }
      ok := ChangeGroup(r);
    }

    method ChangeGroup(r: D.UpdateGroupRequest) returns (ok: bool)
      modifies this`groups, this`groupAttributes
      ensures ok == D.UpdateGroup(old(Tables()), r).Some?
      ensures Tables() == D.UpdateGroup(old(Tables()), r).GetOr(old(Tables()))
    {
      hide D.KnownValues, D.KnownNames, D.RemoveRows, D.UpsertRows;
      if r.groupId !in groups || (r.displayName.Some? && !D.GroupNameFree(Tables(), r.displayName.value, r.groupId)) {
        return false;
      }
      var saved := groups;
      if r.displayName.Some? {
        groups := groups[r.groupId := groups[r.groupId].(displayName := r.displayName.value,
                                                         lowercaseDisplayName := Lower(r.displayName.value))];
      }
      var rows, removed;
      ok, rows := PushKnown([], r.insertAttributes, groupSchema);
      if ok {
        ok, removed := PushKnownNames([], r.deleteAttributes, groupSchema);
      }
      if !ok {
        groups := saved;
        return;
      }
      assert rows == r.insertAttributes && removed == r.deleteAttributes;
      groupAttributes := RemoveMany(groupAttributes, r.groupId, removed);
      UpsertNothing(groupAttributes, r.groupId);
      if rows != [] {
        groupAttributes := UpsertMany(groupAttributes, r.groupId, rows);
      }
    }

    /** No row names a deleted group any more, and all others stay. */
    method DeleteGroup(g: int) returns (ok: bool)
      requires Valid()
      modifies this`groups, this`memberships, this`groupAttributes
      ensures ok == (g in old(groups))
      ensures !ok ==> Tables() == old(Tables())
      ensures ok ==> forall h: int :: h in groups <==> h in old(groups) && h != g
      ensures ok ==> forall m :: m in memberships <==> m in old(memberships) && m.group != g
      ensures ok ==> forall k :: k in groupAttributes <==> k in old(groupAttributes) && k.owner != g
      ensures Tables() == D.DeleteGroup(old(Tables()), g).GetOr(old(Tables()))
      ensures Valid()
    {
      hide Database.Valid;
      ok := g in groups;
      if ok {
        I.DeleteGroupKeepsValid(Tables(), g);
        groups := groups - {g};
        memberships := set m | m in memberships && m.group != g;
        groupAttributes := map k | k in groupAttributes && k.owner != g :: groupAttributes[k];
      }
    }

    method AddUserToGroup(u: string, g: int) returns (ok: bool)
      modifies this`memberships
      ensures ok == D.AddUserToGroup(old(Tables()), u, g).Some?
      ensures Tables() == D.AddUserToGroup(old(Tables()), u, g).GetOr(old(Tables()))
    {
      ok := Membership(u, g) !in memberships && u in users && g in groups;
      if ok {
        memberships := memberships + {Membership(u, g)};
      }
    }

    method RemoveUserFromGroup(u: string, g: int) returns (ok: bool)
      modifies this`memberships
      ensures ok == D.RemoveUserFromGroup(old(Tables()), u, g).Some?
      ensures Tables() == D.RemoveUserFromGroup(old(Tables()), u, g).GetOr(old(Tables()))
    {
      ok := Membership(u, g) in memberships;
      if ok {
        memberships := memberships - {Membership(u, g)};
      }
    }

    // ----- Schema -----

    method DeleteUserAttribute(name: string)
      modifies this`userSchema, this`userAttributes
      ensures Tables() == D.DeleteUserAttribute(old(Tables()), name)
    {
      userSchema := userSchema - {name};
      userAttributes := map k | k in userAttributes && k.name != name :: userAttributes[k];
    }

    method DeleteGroupAttribute(name: string)
      modifies this`groupSchema, this`groupAttributes
      ensures Tables() == D.DeleteGroupAttribute(old(Tables()), name)
    {
      groupSchema := groupSchema - {name};
      groupAttributes := map k | k in groupAttributes && k.name != name :: groupAttributes[k];
    }

    method ChangeClasses(m: M.Mutation) returns (ok: bool)
      requires m.AddUserClass? || m.AddGroupClass? || m.DeleteUserClass? || m.DeleteGroupClass?
      modifies this`userClasses, this`groupClasses
      ensures forall actor, now :: M.AdminStep(env, old(Tables()), actor, now, m) == if ok then Some(Tables()) else None
      ensures !ok ==> Tables() == old(Tables())
    {
      var name := Lower(m.name);
      ok := true;
      match m
      case AddUserClass(_) =>
        ok := name !in userClasses;
        if ok {
          userClasses := userClasses[name := m.name];
        }
      case AddGroupClass(_) =>
        ok := name !in groupClasses;
        if ok {
          groupClasses := groupClasses[name := m.name];
        }
      case DeleteUserClass(_) => userClasses := userClasses - {name};
      case DeleteGroupClass(_) => groupClasses := groupClasses - {name};
    }

    method ChangeAttributes(m: M.Mutation) returns (ok: bool)
      requires m.AddUserAttribute? || m.AddGroupAttribute? || m.DeleteUserAttribute? || m.DeleteGroupAttribute?
      modifies this`userSchema, this`groupSchema, this`userAttributes, this`groupAttributes
      ensures forall actor, now :: M.AdminStep(env, old(Tables()), actor, now, m) == if ok then Some(Tables()) else None
      ensures !ok ==> Tables() == old(Tables())
    {
      hide D.DeleteUserAttribute, D.DeleteGroupAttribute;
      var name := Lower(m.name);
      match m
      case AddUserAttribute(_, typ, isList, isVisible, isEditable) =>
        ok := name !in userSchema;
        if ok {
          userSchema := userSchema[name := SchemaRow(typ, isList, isVisible, isEditable, false)];
        }
      case AddGroupAttribute(_, typ, isList, isVisible, isEditable) =>
        ok := name !in groupSchema;
        if ok {
          groupSchema := groupSchema[name := SchemaRow(typ, isList, isVisible, isEditable, false)];
        }
      case DeleteUserAttribute(_) =>
        var row := M.PublicRow(userSchema, BUILTIN_USER_ATTRIBUTES, name);
        ok := row.Some? && !row.value.isHardcoded;
        if ok {
          DeleteUserAttribute(name);
        }
      case DeleteGroupAttribute(_) =>
        var row := M.PublicRow(groupSchema, BUILTIN_GROUP_ATTRIBUTES, name);
        ok := row.Some? && !row.value.isHardcoded;
        if ok {
          DeleteGroupAttribute(name);
        }
    }

    // ----- Requests -----

    method HandleUpdateUser(actor: ValidationResults, m: M.Mutation) returns (ok: bool)
      requires Valid() && m.UpdateUser?
      modifies this`users, this`userAttributes
      ensures M.UpdateUserStep(env, old(Tables()), actor, m) == if ok then Some(Tables()) else None
      ensures !ok ==> Tables() == old(Tables())
    {
      hide Database.Valid, I.TypedRows;
      var id := Lower(m.id);
      if !actor.CanWrite(id) {
        return false;
      }
      var avatar := M.DecodePhoto(env.lib, m.avatar);
      if avatar.None? {
        return false;
      }
      var inserted :=
        M.DeserializeAttributes(env.lib, userSchema, BUILTIN_USER_ATTRIBUTES, m.inserted, actor.IsAdmin());
      if inserted.None? {
        return false;
      }
      ok := UpdateUser(D.UpdateUserRequest(id, m.newEmail, m.displayName, m.firstName, m.lastName, avatar.value,
                                           M.LowerAll(m.removed), inserted.value));
    }

    method HandleCreation(actor: ValidationResults, now: string, m: M.Mutation) returns (ok: bool)
      requires Valid()
      requires m.CreateUser? || m.CreateGroup? || m.LdapAdd? || m.UpdateGroup?
      modifies this`users, this`userAttributes, this`groups, this`groupAttributes, this`nextGroupId
      ensures M.AdminStep(env, old(Tables()), actor, now, m) == if ok then Some(Tables()) else None
      ensures !ok ==> Tables() == old(Tables())
    {
      hide D.CreateUser, D.CreateGroup, D.UpdateGroup, M.DeserializeAttributes, M.AddRequest, Database.Valid,
        I.TypedRows;
      match m
      case CreateUser(id, email, displayName, firstName, lastName, photo, attributes) =>
        var avatar := M.DecodePhoto(env.lib, photo);
        var values := M.DeserializeAttributes(env.lib, userSchema, BUILTIN_USER_ATTRIBUTES, attributes, true);
        if avatar.None? || values.None? {
          return false;
        }
        var r := D.CreateUserRequest(Lower(id), email, displayName, firstName, lastName, avatar.value, values.value);
        ok := CreateUser(r, now, env.uuid(r.userId, now));
      case CreateGroup(name, attributes) =>
        var values := M.DeserializeAttributes(env.lib, groupSchema, BUILTIN_GROUP_ATTRIBUTES, attributes, true);
        if values.None? {
          return false;
        }
        ok := CreateGroup(D.CreateGroupRequest(name, values.value), now, env.uuid(name, now));
      case UpdateGroup(group, name, removed, inserted) =>
        if group == M.ADMIN_GROUP_ID && name.Some? {
          return false;
        }
        var values := M.DeserializeAttributes(env.lib, groupSchema, BUILTIN_GROUP_ATTRIBUTES, inserted, true);
        if values.None? {
          return false;
        }
        ok := UpdateGroup(D.UpdateGroupRequest(group, name, M.LowerAll(removed), values.value));
      case LdapAdd(dn, attributes) =>
        var request := M.AddRequest(env, dn, attributes);
        if !request.Ok? {
          return false;
        }
        ok := CreateUser(request.value, now, env.uuid(request.value.userId, now));
    }

    /** One request is exactly one step; a refused one changes nothing. */
    method Handle(actor: ValidationResults, now: string, m: M.Mutation) returns (ok: bool)
      requires Valid()
      modifies this
      ensures M.Step(env, old(Tables()), actor, now, m) == if ok then Some(Tables()) else None
      ensures !ok ==> Tables() == old(Tables())
      ensures Valid()
    {
      hide Database.Valid, M.Step;
      if M.Step(env, Tables(), actor, now, m).Some? {
        M.StepKeepsValid(env, Tables(), actor, now, m);
      }
      ok := Dispatch(actor, now, m);
    }

    method Dispatch(actor: ValidationResults, now: string, m: M.Mutation) returns (ok: bool)
      requires Valid()
      modifies this
      ensures M.Step(env, old(Tables()), actor, now, m) == if ok then Some(Tables()) else None
      ensures !ok ==> Tables() == old(Tables())
    {
      hide D.DeleteUser, D.DeleteGroup, D.AddUserToGroup, D.RemoveUserFromGroup, M.UpdateUserStep, Database.Valid;
      if m.UpdateUser? {
        ok := HandleUpdateUser(actor, m);
        return;
      }
      if !actor.IsAdmin() {
        return false;
      }
      if m.CreateUser? || m.CreateGroup? || m.LdapAdd? || m.UpdateGroup? {
        ok := HandleCreation(actor, now, m);
        return;
      }
      if m.AddUserAttribute? || m.AddGroupAttribute? || m.DeleteUserAttribute? || m.DeleteGroupAttribute? {
        ok := ChangeAttributes(m);
        return;
      }
      if m.AddUserClass? || m.AddGroupClass? || m.DeleteUserClass? || m.DeleteGroupClass? {
        ok := ChangeClasses(m);
        return;
      }
      ok := HandleRemoval(actor, m);
    }

    /** Membership changes and deletions, with the guards on one's own membership and
        on the administrators' group. */
    method HandleRemoval(actor: ValidationResults, m: M.Mutation) returns (ok: bool)
      requires Valid()
      requires m.AddUserToGroup? || m.RemoveUserFromGroup? || m.DeleteUser? || m.DeleteGroup?
      modifies this`users, this`groups, this`memberships, this`userAttributes, this`groupAttributes
      ensures forall now :: M.AdminStep(env, old(Tables()), actor, now, m) == if ok then Some(Tables()) else None
      ensures !ok ==> Tables() == old(Tables())
    {
      hide D.AddUserToGroup, D.RemoveUserFromGroup, Database.Valid;
      match m
      case AddUserToGroup(id, group) => ok := AddUserToGroup(Lower(id), group);
      case RemoveUserFromGroup(id, group) =>
        if actor.user == Lower(id) && group == M.ADMIN_GROUP_ID {
          return false;
        }
        ok := RemoveUserFromGroup(Lower(id), group);
      case DeleteUser(id) =>
        if actor.user == Lower(id) {
          return false;
        }
        ok := DeleteUser(Lower(id));
      case DeleteGroup(group) =>
        if group == M.ADMIN_GROUP_ID {
          return false;
        }
        ok := DeleteGroup(group);
    }
  }
}
