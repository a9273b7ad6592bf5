/** Every step of the directory keeps what `Database.Valid` says. */
module Invariants {
  import opened Wrappers
  import opened Text
  import opened Codec
  import opened Schema
  import opened Database
  import opened Directory

  /** Rows that name a known attribute hold a value of its type. */
  ghost predicate TypedRows(rows: seq<AttributeValue>, schema: map<string, SchemaRow>) {
    forall a :: a in rows && a.name in schema ==> WellTyped(a.bytes, schema[a.name])
  }

  /** The attribute part of validity, for users and for groups alike. */
  ghost predicate ValidTable<T(!new)>(owners: set<T>, schema: map<string, SchemaRow>, table: AttributeTable<T>) {
    forall k :: k in table ==> k.owner in owners && k.name in schema && WellTyped(table[k], schema[k.name])
  }

  lemma ValidByParts(db: Db)
    ensures Valid(db) <==>
      && ValidUsers(db) && ValidGroups(db) && ValidSchema(db)
      && (forall m :: m in db.memberships ==> m.user in db.users && m.group in db.groups)
      && ValidTable(db.users.Keys, db.userSchema, db.userAttributes)
      && ValidTable(db.groups.Keys, db.groupSchema, db.groupAttributes)
  {
    hide WellTyped, ValidUsers, ValidGroups, ValidSchema;
  }

  lemma SerializedTextTyped(s: string, row: SchemaRow)
    requires IsText(s) && row.typ == String && !row.isList
    ensures WellTyped(SerializedText(s), row)
  {
    assert HasType(One(Bytes(TextBytes(s))), String, false);
  }

  lemma SerializedPhotoTyped(b: seq<byte>, row: SchemaRow)
    requires |b| < TWO_64 && row.typ == JpegPhoto && !row.isList
    ensures WellTyped(SerializedPhoto(b), row)
  {
    assert HasType(One(Bytes(b)), JpegPhoto, false);
  }

  /** The rows for the names and the avatar are of their hard-coded types. */
  lemma BuiltinRowsTyped(db: Db, first: Option<string>, last: Option<string>, avatar: Option<seq<byte>>)
    requires ValidSchema(db) && TextFits(first) && TextFits(last) && PhotoFits(avatar)
    ensures TypedRows(NewText(FIRST_NAME, first), db.userSchema)
    ensures TypedRows(NewText(LAST_NAME, last), db.userSchema)
    ensures TypedRows(NewPhoto(avatar), db.userSchema)
  {
    if first.Some? { SerializedTextTyped(first.value, db.userSchema[FIRST_NAME]); }
    if last.Some? { SerializedTextTyped(last.value, db.userSchema[LAST_NAME]); }
    if avatar.Some? { SerializedPhotoTyped(avatar.value, db.userSchema[AVATAR]); }
  }

  lemma UpdatedRowsTyped(db: Db, r: UpdateUserRequest)
    requires ValidSchema(db) && UpdateFits(r) && TypedRows(r.insertAttributes, db.userSchema)
    ensures TypedRows(UpdatedRows(r), db.userSchema)
  {
    BuiltinRowsTyped(db, r.firstName, r.lastName, r.avatar);
  }

  lemma {:induction false} UpsertedRowsFrom<T>(table: AttributeTable<T>, owner: T, rows: seq<AttributeValue>)
    ensures var r := UpsertRows(table, owner, rows);
      forall k :: k in r ==>
        || (k.owner == owner && AttributeValue(k.name, r[k]) in rows)
        || (k in table && r[k] == table[k])
    decreases |rows|
  {
    if rows != [] {
      UpsertedRowsFrom(table[AttributeKey(owner, rows[0].name) := rows[0].bytes], owner, rows[1..]);
    }
  }

  lemma CreateUserKeepsValid(db: Db, r: CreateUserRequest, now: string, uuid: string)
    requires Valid(db) && IsLower(r.userId) && TypedRows(r.attributes, db.userSchema)
    requires CreateUser(db, r, now, uuid).Some?
    ensures Valid(CreateUser(db, r, now, uuid).value)
  {
    var rows := NewUserRows(r);
    var db' := CreateUser(db, r, now, uuid).value;
    BuiltinRowsTyped(db, r.firstName, r.lastName, r.avatar);
    InsertedValue(db.userAttributes, r.userId, rows, db.userSchema.Keys);
    assert TypedRows(rows, db.userSchema);
    assert db'.userSchema == db.userSchema;
    assert ValidUsers(db');
    assert ValidReferences(db');
    forall k | k in db'.userAttributes
      ensures WellTyped(db'.userAttributes[k], db'.userSchema[k.name])
    {
      if k !in db.userAttributes {
        assert AttributeValue(k.name, db'.userAttributes[k]) in rows;
      }
    }
  }

  lemma UpsertKeepsTable<T(!new)>(owners: set<T>, schema: map<string, SchemaRow>, table: AttributeTable<T>, owner: T,
                                  removed: seq<string>, rows: seq<AttributeValue>)
    requires ValidTable(owners, schema, table) && owner in owners && TypedRows(rows, schema)
    requires KnownValues(rows, schema)
    ensures ValidTable(owners, schema, UpsertRows(RemoveRows(table, owner, removed), owner, rows))
  {
    hide WellTyped;
    var rest := RemoveRows(table, owner, removed);
    var r := UpsertRows(rest, owner, rows);
    UpsertedRowsFrom(rest, owner, rows);
    forall k | k in r
      ensures k.owner in owners && k.name in schema && WellTyped(r[k], schema[k.name])
    {
      var a := AttributeValue(k.name, r[k]);
      if k.owner == owner && a in rows {
        assert a.name in schema;
      }
    }
  }

  lemma UpdateUserKeepsUsers(db: Db, r: UpdateUserRequest)
    requires ValidUsers(db) && UpdateUser(db, r).Some?
    ensures var db' := UpdateUser(db, r).value;
      ValidUsers(db') && db'.users.Keys == db.users.Keys
  {
    hide UpsertRows, RemoveRows, KnownValues, KnownNames, UpdatedRows, RemovedNames;
    assert UpdateUser(db, r).value.users.Keys == db.users.Keys;
  }

  lemma UpdateUserKeepsValid(db: Db, r: UpdateUserRequest)
    requires Valid(db) && TypedRows(r.insertAttributes, db.userSchema) && UpdateUser(db, r).Some?
    ensures Valid(UpdateUser(db, r).value)
  {
    hide ValidUsers, ValidSchema, ValidTable, TypedRows, WellTyped, UpsertRows, RemoveRows;
    ValidByParts(db);
    UpdatedRowsTyped(db, r);
    UpsertKeepsTable(db.users.Keys, db.userSchema, db.userAttributes, r.userId, RemovedNames(r), UpdatedRows(r));
    UpdateUserKeepsUsers(db, r);
    SameSchema(db, UpdateUser(db, r).value);
    ValidByParts(UpdateUser(db, r).value);
  }

  lemma SameSchema(db: Db, db': Db)
    requires db.userSchema == db'.userSchema && db.groupSchema == db'.groupSchema
    ensures ValidSchema(db) <==> ValidSchema(db')
  {
  }

  lemma DeleteUserKeepsValid(db: Db, u: string)
    requires Valid(db) && DeleteUser(db, u).Some?
    ensures Valid(DeleteUser(db, u).value)
  {
    hide WellTyped, ValidSchema, ValidGroups;
    ValidByParts(db);
    var db' := DeleteUser(db, u).value;
    SameSchema(db, db');
    SameGroups(db, db');
    ValidByParts(db');
  }

  lemma SameGroups(db: Db, db': Db)
    requires db.groups == db'.groups && db.nextGroupId == db'.nextGroupId
    ensures ValidGroups(db) <==> ValidGroups(db')
  {
  }

  lemma SameUsers(db: Db, db': Db)
    requires db.users == db'.users
    ensures ValidUsers(db) <==> ValidUsers(db')
  {
  }

  lemma PasswordKeepsUsers(db: Db, user: string, hash: string)
    requires ValidUsers(db) && user in db.users
    ensures ValidUsers(db.(users := db.users[user := db.users[user].(passwordHash := Some(hash))]))
  {
  }

  lemma PasswordKeepsValid(db: Db, user: string, hash: string)
    requires Valid(db) && user in db.users
    ensures Valid(db.(users := db.users[user := db.users[user].(passwordHash := Some(hash))]))
  {
    hide WellTyped, ValidTable, ValidSchema, ValidGroups, ValidUsers;
    var db' := db.(users := db.users[user := db.users[user].(passwordHash := Some(hash))]);
    assert db'.users.Keys == db.users.Keys;
    ValidByParts(db);
    PasswordKeepsUsers(db, user, hash);
    SameGroups(db, db');
    SameSchema(db, db');
    ValidByParts(db');
  }

  lemma CreateGroupKeepsValid(db: Db, r: CreateGroupRequest, now: string, uuid: string)
    requires Valid(db) && TypedRows(r.attributes, db.groupSchema)
    requires CreateGroup(db, r, now, uuid).Some?
    ensures Valid(CreateGroup(db, r, now, uuid).value)
  {
    var db' := CreateGroup(db, r, now, uuid).value;
    InsertedValue(db.groupAttributes, db.nextGroupId, r.attributes, db.groupSchema.Keys);
    assert ValidGroups(db');
    assert ValidReferences(db');
    forall k | k in db'.groupAttributes
      ensures WellTyped(db'.groupAttributes[k], db'.groupSchema[k.name])
    {
      if k !in db.groupAttributes {
        assert AttributeValue(k.name, db'.groupAttributes[k]) in r.attributes;
      }
    }
  }

  lemma UpdateGroupKeepsGroups(db: Db, r: UpdateGroupRequest)
    requires ValidGroups(db) && UpdateGroup(db, r).Some?
    ensures var db' := UpdateGroup(db, r).value;
      ValidGroups(db') && db'.groups.Keys == db.groups.Keys
  {
    hide UpsertRows, RemoveRows;
    assert UpdateGroup(db, r).value.groups.Keys == db.groups.Keys;
  }

  lemma UpdateGroupKeepsValid(db: Db, r: UpdateGroupRequest)
    requires Valid(db) && TypedRows(r.insertAttributes, db.groupSchema) && UpdateGroup(db, r).Some?
    ensures Valid(UpdateGroup(db, r).value)
  {
    hide ValidGroups, ValidSchema, ValidTable, TypedRows, WellTyped, UpsertRows, RemoveRows;
    ValidByParts(db);
    UpsertKeepsTable(db.groups.Keys, db.groupSchema, db.groupAttributes, r.groupId, r.deleteAttributes,
                     r.insertAttributes);
    UpdateGroupKeepsGroups(db, r);
    SameSchema(db, UpdateGroup(db, r).value);
    ValidByParts(UpdateGroup(db, r).value);
  }

  lemma DeleteGroupKeepsValid(db: Db, g: int)
    requires Valid(db) && DeleteGroup(db, g).Some?
    ensures Valid(DeleteGroup(db, g).value)
  {
    hide WellTyped, ValidSchema, ValidUsers;
    ValidByParts(db);
    var db' := DeleteGroup(db, g).value;
    SameSchema(db, db');
    SameUsers(db, db');
    ValidByParts(db');
  }

  lemma MembershipStepsKeepValid(db: Db, u: string, g: int)
    requires Valid(db)
    ensures AddUserToGroup(db, u, g).Some? ==> Valid(AddUserToGroup(db, u, g).value)
    ensures RemoveUserFromGroup(db, u, g).Some? ==> Valid(RemoveUserFromGroup(db, u, g).value)
  {
    var added, removed := AddUserToGroup(db, u, g), RemoveUserFromGroup(db, u, g);
    if added.Some? {
      MembershipsKeepValid(db, added.value.memberships);
    }
    if removed.Some? {
      MembershipsKeepValid(db, removed.value.memberships);
    }
  }

  lemma MembershipsKeepValid(db: Db, memberships: set<Membership>)
    requires Valid(db) && forall m :: m in memberships ==> m.user in db.users && m.group in db.groups
    ensures Valid(db.(memberships := memberships))
  {
    hide WellTyped, ValidTable, ValidSchema, ValidUsers, ValidGroups;
    var db' := db.(memberships := memberships);
    ValidByParts(db);
    SameSchema(db, db');
    SameUsers(db, db');
    SameGroups(db, db');
    ValidByParts(db');
  }

  lemma ExtendedSchemaKeepsTable<T(!new)>(owners: set<T>, schema: map<string, SchemaRow>, table: AttributeTable<T>,
                                          name: string, row: SchemaRow)
    requires ValidTable(owners, schema, table) && name !in schema
    ensures ValidTable(owners, schema[name := row], table)
  {
    hide WellTyped;
  }

  lemma ExtendedSchemaValid(db: Db, name: string, row: SchemaRow)
    requires ValidSchema(db) && IsLower(name)
    ensures name !in db.userSchema ==> ValidSchema(db.(userSchema := db.userSchema[name := row]))
    ensures ValidSchema(db.(groupSchema := db.groupSchema[name := row]))
  {
    var more := db.groupSchema[name := row];
    assert forall n :: n in more ==> n == name || n in db.groupSchema;
  }

  lemma AddUserAttributeKeepsValid(db: Db, name: string, row: SchemaRow)
    requires Valid(db) && IsLower(name) && name !in db.userSchema
    ensures Valid(AddUserAttribute(db, name, row).value)
  {
    hide WellTyped, ValidTable, ValidSchema;
    var db' := AddUserAttribute(db, name, row).value;
    ValidByParts(db);
    ExtendedSchemaValid(db, name, row);
    ExtendedSchemaKeepsTable(db.users.Keys, db.userSchema, db.userAttributes, name, row);
    ValidByParts(db');
  }

  lemma AddGroupAttributeKeepsValid(db: Db, name: string, row: SchemaRow)
    requires Valid(db) && IsLower(name) && name !in db.groupSchema
    ensures Valid(AddGroupAttribute(db, name, row).value)
  {
    hide WellTyped, ValidTable, ValidSchema;
    ValidByParts(db);
    ExtendedSchemaValid(db, name, row);
    ExtendedSchemaKeepsTable(db.groups.Keys, db.groupSchema, db.groupAttributes, name, row);
    ValidByParts(AddGroupAttribute(db, name, row).value);
  }

  /** Deleting a schema row takes the rows of that name along: whatever remains is
      still typed, and a later attribute of the same name and another type finds none. */
  lemma ReducedSchemaKeepsTable<T(!new)>(owners: set<T>, schema: map<string, SchemaRow>, table: AttributeTable<T>,
                                         name: string)
    requires ValidTable(owners, schema, table)
    ensures ValidTable(owners, schema - {name}, map k | k in table && k.name != name :: table[k])
  {
    hide WellTyped;
  }

  lemma DeleteUserAttributeKeepsValid(db: Db, name: string)
    requires Valid(db) && name != FIRST_NAME && name != LAST_NAME && name != AVATAR
    ensures Valid(DeleteUserAttribute(db, name))
  {
    hide WellTyped, ValidTable;
    ValidByParts(db);
    ReducedSchemaKeepsTable(db.users.Keys, db.userSchema, db.userAttributes, name);
    ValidByParts(DeleteUserAttribute(db, name));
  }

  lemma DeleteGroupAttributeKeepsValid(db: Db, name: string)
    requires Valid(db)
    ensures Valid(DeleteGroupAttribute(db, name))
  {
    hide WellTyped, ValidTable;
    ValidByParts(db);
    ReducedSchemaKeepsTable(db.groups.Keys, db.groupSchema, db.groupAttributes, name);
    ValidByParts(DeleteGroupAttribute(db, name));
  }

  /** Every stored value decodes, at the type its schema entry gives, to a value that
      encodes to the same bytes. */
  lemma StoredValuesDecode(db: Db)
    requires Valid(db)
    ensures forall k :: k in db.userAttributes ==>
      var row := db.userSchema[k.name];
      var v := Decode(db.userAttributes[k], row.typ, row.isList);
      v.Some? && HasType(v.value, row.typ, row.isList) && Encode(v.value, row.typ, row.isList) == db.userAttributes[k]
    ensures forall k :: k in db.groupAttributes ==>
      var row := db.groupSchema[k.name];
      var v := Decode(db.groupAttributes[k], row.typ, row.isList);
      v.Some? && HasType(v.value, row.typ, row.isList) && Encode(v.value, row.typ, row.isList) == db.groupAttributes[k]
  {
    forall k | k in db.userAttributes
      ensures var row := db.userSchema[k.name];
        var v := Decode(db.userAttributes[k], row.typ, row.isList);
        v.Some? && HasType(v.value, row.typ, row.isList) && Encode(v.value, row.typ, row.isList) == db.userAttributes[k]
    {
      TypedDecodes(db.userAttributes[k], db.userSchema[k.name]);
    }
    forall k | k in db.groupAttributes
      ensures var row := db.groupSchema[k.name];
        var v := Decode(db.groupAttributes[k], row.typ, row.isList);
        v.Some? && HasType(v.value, row.typ, row.isList) &&
          Encode(v.value, row.typ, row.isList) == db.groupAttributes[k]
    {
      TypedDecodes(db.groupAttributes[k], db.groupSchema[k.name]);
    }
  }

  lemma TypedDecodes(bytes: seq<byte>, row: SchemaRow)
    requires WellTyped(bytes, row)
    ensures var v := Decode(bytes, row.typ, row.isList);
      v.Some? && HasType(v.value, row.typ, row.isList) && Encode(v.value, row.typ, row.isList) == bytes
  {
    var v :| HasType(v, row.typ, row.isList) && bytes == Encode(v, row.typ, row.isList);
    RoundTrip(v, row.typ, row.isList, []);
    assert bytes + [] == bytes;
  }
}
