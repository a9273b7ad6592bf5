/** What a reader of the directory finds after a step, and which steps undo others. */
module DirectoryProperties {
  import opened Wrappers
  import opened Codec
  import opened Schema
  import opened Database
  import opened Directory

  // ----- Reading back -----

  lemma NewRowsMembers(r: CreateUserRequest)
    requires CreateFits(r)
    ensures r.firstName.Some? ==> AttributeValue(FIRST_NAME, SerializedText(r.firstName.value)) in NewUserRows(r)
    ensures r.lastName.Some? ==> AttributeValue(LAST_NAME, SerializedText(r.lastName.value)) in NewUserRows(r)
    ensures r.avatar.Some? ==> AttributeValue(AVATAR, SerializedPhoto(r.avatar.value)) in NewUserRows(r)
    ensures forall a :: a in r.attributes ==> a in NewUserRows(r)
  {
    hide SerializedText, SerializedPhoto;
    var first, last, photo := NewText(FIRST_NAME, r.firstName), NewText(LAST_NAME, r.lastName), NewPhoto(r.avatar);
    if r.firstName.Some? { assert AttributeValue(FIRST_NAME, SerializedText(r.firstName.value)) in first; }
    if r.lastName.Some? { assert AttributeValue(LAST_NAME, SerializedText(r.lastName.value)) in last; }
    if r.avatar.Some? { assert AttributeValue(AVATAR, SerializedPhoto(r.avatar.value)) in photo; }
  }

  /** A new user reads back as they were asked for, and nobody else changes. */
  lemma CreatedUserReads(db: Db, r: CreateUserRequest, now: string, uuid: string)
    requires CreateUser(db, r, now, uuid).Some?
    ensures var db' := CreateUser(db, r, now, uuid).value;
      && r.userId !in db.users && db'.users.Keys == db.users.Keys + {r.userId}
      && db'.users[r.userId].email == r.email
      && db'.users[r.userId].displayName == (if r.displayName == Some("") then None else r.displayName)
      && db'.users[r.userId].passwordHash == None
      && (r.firstName.Some? ==> StoredText(db'.userAttributes, r.userId, FIRST_NAME) == r.firstName)
      && (r.lastName.Some? ==> StoredText(db'.userAttributes, r.userId, LAST_NAME) == r.lastName)
      && (r.avatar.Some? ==> StoredBytes(db'.userAttributes, r.userId, AVATAR, JpegPhoto) == r.avatar)
      && (forall a :: a in r.attributes ==>
            AttributeKey(r.userId, a.name) in db'.userAttributes &&
              db'.userAttributes[AttributeKey(r.userId, a.name)] == a.bytes)
      && (forall u :: u in db.users ==> db'.users[u] == db.users[u])
      && (forall k: AttributeKey<string> :: k.owner != r.userId ==>
            (k in db'.userAttributes <==> k in db.userAttributes) &&
            (k in db.userAttributes ==> db'.userAttributes[k] == db.userAttributes[k]))
  {
    hide SerializedText, SerializedPhoto, NewUserRows, InsertRows, StoredText, StoredBytes, EmailFree, KnownValues;
    var db' := CreateUser(db, r, now, uuid).value;
    InsertedValue(db.userAttributes, r.userId, NewUserRows(r), db.userSchema.Keys);
    NewRowsMembers(r);
    if r.firstName.Some? { ReadsText(db'.userAttributes, r.userId, FIRST_NAME, r.firstName.value); }
    if r.lastName.Some? { ReadsText(db'.userAttributes, r.userId, LAST_NAME, r.lastName.value); }
    if r.avatar.Some? { ReadsPhoto(db'.userAttributes, r.userId, r.avatar.value); }
  }

  /** What a name becomes: kept if not mentioned, absent if emptied or removed, and
      otherwise the new one. */
  function NameAfter(before: Option<string>, asked: Option<string>, removed: bool): Option<string> {
    match asked
    case None => if removed then None else before
    case Some(s) => if s == "" then None else Some(s)
  }

  lemma {:induction false} LastValueConcat(a: seq<AttributeValue>, b: seq<AttributeValue>, name: string)
    ensures LastValue(a + b, name) == if LastValue(b, name).Some? then LastValue(b, name) else LastValue(a, name)
    decreases |b|
  {
    if b == [] {
      assert a + b == a;
    } else {
      var all := a + b;
      assert all[|all| - 1] == b[|b| - 1];
      assert all[..|all| - 1] == a + b[..|b| - 1];
      LastValueConcat(a, b[..|b| - 1], name);
    }
  }

  lemma LastOfText(asked: string, s: Option<string>, name: string)
    requires TextFits(s)
    ensures LastValue(ChangedText(asked, s), name) ==
      if s.Some? && s.value != "" && name == asked then Some(SerializedText(s.value)) else None
  {
    hide SerializedText;
  }

  lemma LastOfPhoto(b: Option<seq<byte>>, name: string)
    requires PhotoFits(b)
    ensures LastValue(ChangedPhoto(b), name) ==
      if b.Some? && b.value != [] && name == AVATAR then Some(SerializedPhoto(b.value)) else None
  {
    hide SerializedPhoto;
  }

  lemma LastOfBuiltins(r: UpdateUserRequest, name: string)
    requires UpdateFits(r)
    ensures LastValue(ChangedBuiltins(r), name) ==
      if name == FIRST_NAME then LastValue(ChangedText(FIRST_NAME, r.firstName), name)
      else if name == LAST_NAME then LastValue(ChangedText(LAST_NAME, r.lastName), name)
      else if name == AVATAR then LastValue(ChangedPhoto(r.avatar), name)
      else None
  {
    hide SerializedText, SerializedPhoto, ChangedText, ChangedPhoto, LastValue;
    NamesDiffer();
    var first, last, photo :=
      ChangedText(FIRST_NAME, r.firstName), ChangedText(LAST_NAME, r.lastName), ChangedPhoto(r.avatar);
    LastValueConcat(first + last, photo, name);
    LastValueConcat(first, last, name);
    LastOfText(FIRST_NAME, r.firstName, name);
    LastOfText(LAST_NAME, r.lastName, name);
    LastOfPhoto(r.avatar, name);
  }

  lemma RemovedBuiltins(r: UpdateUserRequest)
    ensures FIRST_NAME in RemovedNames(r) <==> r.firstName == Some("") || FIRST_NAME in r.deleteAttributes
    ensures LAST_NAME in RemovedNames(r) <==> r.lastName == Some("") || LAST_NAME in r.deleteAttributes
  {
    NamesDiffer();
  }

  /** A name after an update: the last value inserted for it, or else what was asked. */
  function UpdatedText(db: Db, r: UpdateUserRequest, name: string, asked: Option<string>): Option<string> {
    var inserted := LastValue(r.insertAttributes, name);
    if inserted.Some? then DecodedText(inserted)
    else NameAfter(StoredText(db.userAttributes, r.userId, name), asked, name in r.deleteAttributes)
  }

  lemma UpdatedName(db: Db, r: UpdateUserRequest, name: string, asked: Option<string>)
    requires UpdateUser(db, r).Some?
    requires (name == FIRST_NAME && asked == r.firstName) || (name == LAST_NAME && asked == r.lastName)
    ensures StoredText(UpdateUser(db, r).value.userAttributes, r.userId, name) == UpdatedText(db, r, name, asked)
  {
    hide SerializedText, SerializedPhoto, LastValue, ChangedText, ChangedPhoto, ChangedBuiltins, RemovedNames, Decode;
    NamesDiffer();
    var db' := UpdateUser(db, r).value;
    UpdateUserAttributes(db, r, AttributeKey(r.userId, name));
    LastValueConcat(ChangedBuiltins(r), r.insertAttributes, name);
    LastOfBuiltins(r, name);
    LastOfText(name, asked, name);
    RemovedBuiltins(r);
    if asked.Some? && asked.value != "" && LastValue(r.insertAttributes, name).None? {
      ReadsText(db'.userAttributes, r.userId, name, asked.value);
    }
  }

  /** After a successful update, first and last name read as asked for; email and
      display name change only if mentioned; dates, ids and passwords stay. */
  lemma UpdatedUserReads(db: Db, r: UpdateUserRequest)
    requires UpdateUser(db, r).Some?
    ensures var db' := UpdateUser(db, r).value;
      && StoredText(db'.userAttributes, r.userId, FIRST_NAME) == UpdatedText(db, r, FIRST_NAME, r.firstName)
      && StoredText(db'.userAttributes, r.userId, LAST_NAME) == UpdatedText(db, r, LAST_NAME, r.lastName)
      && (var row, row' := db.users[r.userId], db'.users[r.userId];
          && row'.email == r.email.GetOr(row.email)
          && row'.displayName ==
            (if r.displayName.None? then row.displayName else NameAfter(None, r.displayName, false))
          && row'.creationDate == row.creationDate && row'.uuid == row.uuid && row'.passwordHash == row.passwordHash)
  {
    hide StoredText, UpsertRows, RemoveRows, UpdatedText;
    UpdatedName(db, r, FIRST_NAME, r.firstName);
    UpdatedName(db, r, LAST_NAME, r.lastName);
  }

  // ----- Undoing -----

  lemma RowsGoAgain<T(!new)>(table: AttributeTable<T>, owner: T, rows: seq<AttributeValue>, names: set<string>)
    requires InsertRows(table, owner, rows, names).Some? && forall k :: k in table ==> k.owner != owner
    ensures var inserted := InsertRows(table, owner, rows, names).value;
      (map k | k in inserted && k.owner != owner :: inserted[k]) == table
  {
    hide InsertRows;
    InsertedValue(table, owner, rows, names);
  }

  /** Deleting a user who was just created leaves the directory as it was: nothing of
      them is left anywhere, and nothing else is touched. */
  lemma DeleteUndoesCreateUser(db: Db, r: CreateUserRequest, now: string, uuid: string)
    requires Valid(db) && CreateUser(db, r, now, uuid).Some?
    ensures DeleteUser(CreateUser(db, r, now, uuid).value, r.userId) == Some(db)
  {
    hide InsertRows, NewUserRows, EmailFree, KnownValues, ValidUsers, ValidGroups, ValidTypes, ValidSchema;
    RowsGoAgain(db.userAttributes, r.userId, NewUserRows(r), db.userSchema.Keys);
    var db' := CreateUser(db, r, now, uuid).value;
    var end := DeleteUser(db', r.userId).value;
    assert end.users == db.users;
    assert end.memberships == db.memberships;
    assert end.userAttributes == db.userAttributes;
  }

  /** The same for groups, except that the id is not used again. */
  lemma DeleteUndoesCreateGroup(db: Db, r: CreateGroupRequest, now: string, uuid: string)
    requires Valid(db) && CreateGroup(db, r, now, uuid).Some?
    ensures DeleteGroup(CreateGroup(db, r, now, uuid).value, db.nextGroupId) ==
      Some(db.(nextGroupId := db.nextGroupId + 1))
  {
    hide InsertRows, GroupNameFree, KnownValues, ValidUsers, ValidGroups, ValidTypes, ValidSchema;
    RowsGoAgain(db.groupAttributes, db.nextGroupId, r.attributes, db.groupSchema.Keys);
    var db' := CreateGroup(db, r, now, uuid).value;
    var end := DeleteGroup(db', db.nextGroupId).value;
    assert end.groups == db.groups;
    assert end.memberships == db.memberships;
    assert end.groupAttributes == db.groupAttributes;
  }

  /** Deleting an attribute that was just added leaves everything as it was; deleting one
      and adding another of its name, of whatever type, finds no value of the old one. */
  lemma AttributeNamesAreReusable(db: Db, name: string, row: SchemaRow)
    requires Valid(db)
    ensures name !in db.userSchema ==> DeleteUserAttribute(AddUserAttribute(db, name, row).value, name) == db
    ensures var r := AddUserAttribute(DeleteUserAttribute(db, name), name, row);
      r.Some? && r.value.userSchema == db.userSchema[name := row] &&
      forall k :: k in r.value.userAttributes <==> k in db.userAttributes && k.name != name
  {
    hide WellTyped;
    if name !in db.userSchema {
      var end := DeleteUserAttribute(AddUserAttribute(db, name, row).value, name);
      assert end.userSchema == db.userSchema;
      assert end.userAttributes == db.userAttributes;
    }
    assert (db.userSchema - {name})[name := row] == db.userSchema[name := row];
  }

  lemma GroupAttributeNamesAreReusable(db: Db, name: string, row: SchemaRow)
    requires Valid(db)
    ensures name !in db.groupSchema ==> DeleteGroupAttribute(AddGroupAttribute(db, name, row).value, name) == db
    ensures var r := AddGroupAttribute(DeleteGroupAttribute(db, name), name, row);
      r.Some? && r.value.groupSchema == db.groupSchema[name := row] &&
      forall k :: k in r.value.groupAttributes <==> k in db.groupAttributes && k.name != name
  {
    hide WellTyped;
    if name !in db.groupSchema {
      var end := DeleteGroupAttribute(AddGroupAttribute(db, name, row).value, name);
      assert end.groupSchema == db.groupSchema;
      assert end.groupAttributes == db.groupAttributes;
    }
    assert (db.groupSchema - {name})[name := row] == db.groupSchema[name := row];
  }

  /** Leaving undoes joining, and joining again undoes leaving. */
  lemma MembershipUndone(db: Db, u: string, g: int)
    requires Valid(db)
    ensures AddUserToGroup(db, u, g).Some? ==> RemoveUserFromGroup(AddUserToGroup(db, u, g).value, u, g) == Some(db)
    ensures RemoveUserFromGroup(db, u, g).Some? ==>
      AddUserToGroup(RemoveUserFromGroup(db, u, g).value, u, g) == Some(db)
  {
    hide WellTyped;
    var m := Membership(u, g);
    if m in db.memberships {
      assert db.memberships - {m} + {m} == db.memberships;
    } else {
      assert db.memberships + {m} - {m} == db.memberships;
    }
  }
}
