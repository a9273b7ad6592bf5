/** The steps that change the directory. Each is a transaction: it gives the new
    tables, or nothing when a check or a constraint fails. */
module Directory {
  import opened Wrappers
  import opened Text
  import opened Codec
  import opened Schema
  import opened Database

  // ----- Requests to the database layer -----

  datatype CreateUserRequest = CreateUserRequest(
    userId: string,
    email: string,
    displayName: Option<string>,
    firstName: Option<string>,
    lastName: Option<string>,
    avatar: Option<seq<byte>>,
    attributes: seq<AttributeValue>)

  datatype UpdateUserRequest = UpdateUserRequest(
    userId: string,
    email: Option<string>,
    displayName: Option<string>,
    firstName: Option<string>,
    lastName: Option<string>,
    avatar: Option<seq<byte>>,
    deleteAttributes: seq<string>,
    insertAttributes: seq<AttributeValue>)

  datatype CreateGroupRequest = CreateGroupRequest(displayName: string, attributes: seq<AttributeValue>)

  datatype UpdateGroupRequest = UpdateGroupRequest(
    groupId: int,
    displayName: Option<string>,
    deleteAttributes: seq<string>,
    insertAttributes: seq<AttributeValue>)

  // ----- Serialized built-in attributes -----

  function SerializedText(s: string): seq<byte>
    requires IsText(s)
  {
    Encode(One(Bytes(TextBytes(s))), String, false)
  }

  function SerializedPhoto(b: seq<byte>): seq<byte>
    requires |b| < TWO_64
  {
    Encode(One(Bytes(b)), JpegPhoto, false)
  }

  predicate TextFits(s: Option<string>) {
    s.Some? ==> IsText(s.value)
  }

  predicate PhotoFits(b: Option<seq<byte>>) {
    b.Some? ==> |b.value| < TWO_64
  }

  /** The row for a name that a new user comes with, even if it is empty. */
  function NewText(name: string, s: Option<string>): seq<AttributeValue>
    requires TextFits(s)
  {
    if s.None? then [] else [AttributeValue(name, SerializedText(s.value))]
  }

  function NewPhoto(b: Option<seq<byte>>): seq<AttributeValue>
    requires PhotoFits(b)
  {
    if b.None? then [] else [AttributeValue(AVATAR, SerializedPhoto(b.value))]
  }

  /** In an update, an empty name or avatar asks for removal instead. */
  function ChangedText(name: string, s: Option<string>): seq<AttributeValue>
    requires TextFits(s)
  {
    if s.None? || s.value == "" then [] else NewText(name, s)
  }

  function ChangedPhoto(b: Option<seq<byte>>): seq<AttributeValue>
    requires PhotoFits(b)
  {
    if b.None? || b.value == [] then [] else NewPhoto(b)
  }

  function RemovedText(name: string, s: Option<string>): seq<string> {
    if s == Some("") then [name] else []
  }

  function RemovedPhoto(b: Option<seq<byte>>): seq<string> {
    if b == Some([]) then [AVATAR] else []
  }

  /** Stored bytes, decoded as the server does for a text or photo. */
  function DecodedBytes(stored: Option<seq<byte>>, typ: AttributeType): Option<seq<byte>> {
    var stored :- stored;
    match Decode(stored, typ, false)
    case Some(One(Bytes(b))) => Some(b)
    case _ => None
  }

  function DecodedText(stored: Option<seq<byte>>): Option<string> {
    var b :- DecodedBytes(stored, String);
    if IsTextBytes(b) then Some(BytesText(b)) else None
  }

  function StoredAt<T(==)>(table: AttributeTable<T>, key: AttributeKey<T>): Option<seq<byte>> {
    if key in table then Some(table[key]) else None
  }

  function StoredBytes(table: AttributeTable<string>, u: string, name: string, typ: AttributeType): Option<seq<byte>> {
    DecodedBytes(StoredAt(table, AttributeKey(u, name)), typ)
  }

  function StoredText(table: AttributeTable<string>, u: string, name: string): Option<string> {
    DecodedText(StoredAt(table, AttributeKey(u, name)))
  }

  lemma ReadsText(table: AttributeTable<string>, u: string, name: string, s: string)
    requires IsText(s) && AttributeKey(u, name) in table && table[AttributeKey(u, name)] == SerializedText(s)
    ensures StoredText(table, u, name) == Some(s)
  {
    var v := One(Bytes(TextBytes(s)));
    TextRoundTrip(s);
    RoundTrip(v, String, false, []);
    assert Encode(v, String, false) + [] == Encode(v, String, false);
  }

  lemma ReadsPhoto(table: AttributeTable<string>, u: string, b: seq<byte>)
    requires |b| < TWO_64 && AttributeKey(u, AVATAR) in table && table[AttributeKey(u, AVATAR)] == SerializedPhoto(b)
    ensures StoredBytes(table, u, AVATAR, JpegPhoto) == Some(b)
  {
    var v := One(Bytes(b));
    RoundTrip(v, JpegPhoto, false, []);
    assert Encode(v, JpegPhoto, false) + [] == Encode(v, JpegPhoto, false);
  }

  // ----- Attribute tables -----

  /** Plain insertion: a repeated key or an unknown name fails. */
  function InsertRows<T(==)>(table: AttributeTable<T>, owner: T, rows: seq<AttributeValue>, names: set<string>)
    : Option<AttributeTable<T>>
    decreases |rows|
  {
    if rows == [] then Some(table)
    else
      var key := AttributeKey(owner, rows[0].name);
      if key in table || key.name !in names then None
      else InsertRows(table[key := rows[0].bytes], owner, rows[1..], names)
  }

  /** Insertion that overwrites on conflict. */
  function UpsertRows<T(==)>(table: AttributeTable<T>, owner: T, rows: seq<AttributeValue>): AttributeTable<T>
    decreases |rows|
  {
    if rows == [] then table
    else UpsertRows(table[AttributeKey(owner, rows[0].name) := rows[0].bytes], owner, rows[1..])
  }

  function RemoveRows<T(==)>(table: AttributeTable<T>, owner: T, names: seq<string>): AttributeTable<T> {
    map k | k in table && !(k.owner == owner && k.name in names) :: table[k]
  }

  predicate KnownValues(values: seq<AttributeValue>, schema: map<string, SchemaRow>) {
    forall i :: 0 <= i < |values| ==> values[i].name in schema
  }

  predicate KnownNames(names: seq<string>, schema: map<string, SchemaRow>) {
    forall i :: 0 <= i < |names| ==> names[i] in schema
  }

  // ----- Users -----

  /** Both the email and its lower-case form are unique among the other users. */
  predicate EmailFree(db: Db, email: string, self: string) {
    forall u :: u in db.users && u != self ==>
      db.users[u].email != email && db.users[u].lowercaseEmail != Lower(email)
  }

  predicate UserUuidFree(db: Db, uuid: string) {
    forall u :: u in db.users ==> db.users[u].uuid != uuid
  }

  /** An empty display name is stored as an absent one. */
  function StoredName(s: Option<string>): Option<string> {
    if s == Some("") then None else s
  }

  predicate CreateFits(r: CreateUserRequest) {
    TextFits(r.firstName) && TextFits(r.lastName) && PhotoFits(r.avatar)
  }

  function NewUserRows(r: CreateUserRequest): seq<AttributeValue>
    requires CreateFits(r)
  {
    NewText(FIRST_NAME, r.firstName) + NewText(LAST_NAME, r.lastName) + NewPhoto(r.avatar) + r.attributes
  }

  function CreateUser(db: Db, r: CreateUserRequest, now: string, uuid: string): Option<Db> {
    if !CreateFits(r) then None
    else if !KnownValues(r.attributes, db.userSchema) then None
    else if r.userId in db.users || !EmailFree(db, r.email, r.userId) || !UserUuidFree(db, uuid) then None
    else
      var table :- InsertRows(db.userAttributes, r.userId, NewUserRows(r), db.userSchema.Keys);
      var row := UserRow(r.email, Lower(r.email), StoredName(r.displayName), now, uuid, None, None, None);
      Some(db.(users := db.users[r.userId := row], userAttributes := table))
  }

  predicate UpdateFits(r: UpdateUserRequest) {
    TextFits(r.firstName) && TextFits(r.lastName) && PhotoFits(r.avatar)
  }

  /** The attribute rows that an update writes, in order. */
  function UpdatedRows(r: UpdateUserRequest): seq<AttributeValue>
    requires UpdateFits(r)
  {
    ChangedBuiltins(r) + r.insertAttributes
  }

  function ChangedBuiltins(r: UpdateUserRequest): seq<AttributeValue>
    requires UpdateFits(r)
  {
    ChangedText(FIRST_NAME, r.firstName) + ChangedText(LAST_NAME, r.lastName) + ChangedPhoto(r.avatar)
  }

  function RemovedNames(r: UpdateUserRequest): seq<string> {
    RemovedText(FIRST_NAME, r.firstName) + RemovedText(LAST_NAME, r.lastName) + RemovedPhoto(r.avatar) +
      r.deleteAttributes
  }

  function UpdatedRow(row: UserRow, r: UpdateUserRequest): UserRow {
    var row := if r.email.Some? then row.(email := r.email.value, lowercaseEmail := Lower(r.email.value)) else row;
    if r.displayName.Some? then row.(displayName := StoredName(r.displayName)) else row
  }

  function UpdateUser(db: Db, r: UpdateUserRequest): Option<Db> {
    if !UpdateFits(r) then None
    else if !KnownValues(UpdatedRows(r), db.userSchema) || !KnownNames(r.deleteAttributes, db.userSchema) then None
    else if r.userId !in db.users || (r.email.Some? && !EmailFree(db, r.email.value, r.userId)) then None
    else
      Some(db.(users := db.users[r.userId := UpdatedRow(db.users[r.userId], r)],
               userAttributes := UpsertRows(RemoveRows(db.userAttributes, r.userId, RemovedNames(r)), r.userId,
                                            UpdatedRows(r))))
  }

  /** Deletion cascades to memberships and attributes. */
  function DeleteUser(db: Db, u: string): Option<Db> {
    if u !in db.users then None
    else Some(db.(
      users := db.users - {u},
      memberships := (set m | m in db.memberships && m.user != u),
      userAttributes := (map k | k in db.userAttributes && k.owner != u :: db.userAttributes[k])))
  }

  // ----- Groups -----

  const MAX_GROUP_ID := 0x7fff_ffff

  predicate GroupNameFree(db: Db, name: string, self: int) {
    forall g :: g in db.groups && g != self ==>
      db.groups[g].displayName != name && db.groups[g].lowercaseDisplayName != Lower(name)
  }

  predicate GroupUuidFree(db: Db, uuid: string) {
    forall g :: g in db.groups ==> db.groups[g].uuid != uuid
  }

  function CreateGroup(db: Db, r: CreateGroupRequest, now: string, uuid: string): Option<Db> {
    var id := db.nextGroupId;
    if id in db.groups || id > MAX_GROUP_ID || !GroupNameFree(db, r.displayName, id) ||
       !GroupUuidFree(db, uuid) then None
    else if !KnownValues(r.attributes, db.groupSchema) then None
    else
      var table :- InsertRows(db.groupAttributes, id, r.attributes, db.groupSchema.Keys);
      Some(db.(groups := db.groups[id := GroupRow(r.displayName, Lower(r.displayName), now, uuid)],
               groupAttributes := table,
               nextGroupId := id + 1))
  }

  function UpdateGroup(db: Db, r: UpdateGroupRequest): Option<Db> {
    if r.groupId !in db.groups || (r.displayName.Some? && !GroupNameFree(db, r.displayName.value, r.groupId)) then None
    else if !KnownValues(r.insertAttributes, db.groupSchema) ||
      !KnownNames(r.deleteAttributes, db.groupSchema) then None
    else
      var row := db.groups[r.groupId];
      var row :=
        if r.displayName.Some? then
          row.(displayName := r.displayName.value, lowercaseDisplayName := Lower(r.displayName.value))
        else row;
      Some(db.(groups := db.groups[r.groupId := row],
               groupAttributes := UpsertRows(RemoveRows(db.groupAttributes, r.groupId, r.deleteAttributes), r.groupId,
                                             r.insertAttributes)))
  }

  function DeleteGroup(db: Db, g: int): Option<Db> {
    if g !in db.groups then None
    else Some(db.(
      groups := db.groups - {g},
      memberships := (set m | m in db.memberships && m.group != g),
      groupAttributes := (map k | k in db.groupAttributes && k.owner != g :: db.groupAttributes[k])))
  }

  function AddUserToGroup(db: Db, u: string, g: int): Option<Db> {
    if Membership(u, g) in db.memberships || u !in db.users || g !in db.groups then None
    else Some(db.(memberships := db.memberships + {Membership(u, g)}))
  }

  function RemoveUserFromGroup(db: Db, u: string, g: int): Option<Db> {
    if Membership(u, g) !in db.memberships then None
    else Some(db.(memberships := db.memberships - {Membership(u, g)}))
  }

  // ----- Schema -----

  function AddUserAttribute(db: Db, name: string, row: SchemaRow): Option<Db> {
    if name in db.userSchema then None else Some(db.(userSchema := db.userSchema[name := row]))
  }

  function AddGroupAttribute(db: Db, name: string, row: SchemaRow): Option<Db> {
    if name in db.groupSchema then None else Some(db.(groupSchema := db.groupSchema[name := row]))
  }

  /** Deleting a schema row cascades to the attribute rows of that name. */
  function DeleteUserAttribute(db: Db, name: string): Db {
    db.(userSchema := db.userSchema - {name},
        userAttributes := (map k | k in db.userAttributes && k.name != name :: db.userAttributes[k]))
  }

  function DeleteGroupAttribute(db: Db, name: string): Db {
    db.(groupSchema := db.groupSchema - {name},
        groupAttributes := (map k | k in db.groupAttributes && k.name != name :: db.groupAttributes[k]))
  }

  function AddClass(classes: map<string, string>, name: string): Option<map<string, string>> {
    if Lower(name) in classes then None else Some(classes[Lower(name) := name])
  }

  // ----- What an update does to the attributes -----

  /** The last value that a list of rows gives to a name. */
  function LastValue(rows: seq<AttributeValue>, name: string): Option<seq<byte>> {
    if rows == [] then None
    else if rows[|rows| - 1].name == name then Some(rows[|rows| - 1].bytes)
    else LastValue(rows[..|rows| - 1], name)
  }

  lemma {:induction false} LastValueCons(first: AttributeValue, rows: seq<AttributeValue>, name: string)
    ensures LastValue([first] + rows, name) ==
      if LastValue(rows, name).Some? then LastValue(rows, name)
      else if first.name == name then Some(first.bytes) else None
    decreases |rows|
  {
    var all := [first] + rows;
    if rows == [] {
      assert all[..0] == [];
    } else {
      assert all[|all| - 1] == rows[|rows| - 1];
      assert all[..|all| - 1] == [first] + rows[..|rows| - 1];
      LastValueCons(first, rows[..|rows| - 1], name);
    }
  }

  lemma {:induction false} UpsertedValue<T>(table: AttributeTable<T>, owner: T, rows: seq<AttributeValue>,
                                            key: AttributeKey<T>)
    ensures var r := UpsertRows(table, owner, rows);
      if key.owner == owner && LastValue(rows, key.name).Some? then
        key in r && r[key] == LastValue(rows, key.name).value
      else (key in r <==> key in table) && (key in r ==> r[key] == table[key])
    decreases |rows|
  {
    if rows != [] {
      UpsertedValue(table[AttributeKey(owner, rows[0].name) := rows[0].bytes], owner, rows[1..], key);
      LastValueCons(rows[0], rows[1..], key.name);
      assert [rows[0]] + rows[1..] == rows;
    }
  }

  /** A successful update makes the attributes of the user the old ones without those
      removed, overridden by those inserted; an empty name or avatar counts as removed.
      All other users keep theirs. */
  lemma UpdateUserAttributes(db: Db, r: UpdateUserRequest, key: AttributeKey<string>)
    requires UpdateUser(db, r).Some?
    ensures UpdateFits(r)
    ensures var db' := UpdateUser(db, r).value;
      var inserted := LastValue(UpdatedRows(r), key.name);
      if key.owner == r.userId && inserted.Some? then
        key in db'.userAttributes && db'.userAttributes[key] == inserted.value
      else if key.owner == r.userId && key.name in RemovedNames(r) then key !in db'.userAttributes
      else
        (key in db'.userAttributes <==> key in db.userAttributes) &&
        (key in db'.userAttributes ==> db'.userAttributes[key] == db.userAttributes[key])
  {
    UpsertedValue(RemoveRows(db.userAttributes, r.userId, RemovedNames(r)), r.userId, UpdatedRows(r), key);
  }

  lemma UpdateGroupAttributes(db: Db, r: UpdateGroupRequest, key: AttributeKey<int>)
    requires UpdateGroup(db, r).Some?
    ensures var db' := UpdateGroup(db, r).value;
      var inserted := LastValue(r.insertAttributes, key.name);
      if key.owner == r.groupId && inserted.Some? then
        key in db'.groupAttributes && db'.groupAttributes[key] == inserted.value
      else if key.owner == r.groupId && key.name in r.deleteAttributes then key !in db'.groupAttributes
      else
        (key in db'.groupAttributes <==> key in db.groupAttributes) &&
        (key in db'.groupAttributes ==> db'.groupAttributes[key] == db.groupAttributes[key])
  {
    UpsertedValue(RemoveRows(db.groupAttributes, r.groupId, r.deleteAttributes), r.groupId, r.insertAttributes, key);
  }

  /** With distinct names, the last value of a name is simply its value. */
  lemma {:induction false} LastValueDistinct(rows: seq<AttributeValue>, i: nat)
    requires i < |rows| && forall j, k :: 0 <= j < k < |rows| ==> rows[j].name != rows[k].name
    ensures LastValue(rows, rows[i].name) == Some(rows[i].bytes)
    decreases |rows|
  {
    if i < |rows| - 1 {
      var init := rows[..|rows| - 1];
      assert init[i] == rows[i];
      LastValueDistinct(init, i);
    }
  }

  lemma {:induction false} LastValueAbsent(rows: seq<AttributeValue>, name: string)
    ensures LastValue(rows, name).None? <==> forall i :: 0 <= i < |rows| ==> rows[i].name != name
    decreases |rows|
  {
    if rows != [] {
      var last := |rows| - 1;
      LastValueAbsent(rows[..last], name);
      assert forall i :: 0 <= i < last ==> rows[..last][i] == rows[i];
    }
  }

  lemma {:induction false} InsertedValue<T>(table: AttributeTable<T>, owner: T, rows: seq<AttributeValue>,
                                            names: set<string>)
    requires InsertRows(table, owner, rows, names).Some?
    ensures var r := InsertRows(table, owner, rows, names).value;
      && (forall k :: k in table ==> k in r && r[k] == table[k])
      && (forall k :: k in r && k !in table ==>
            k.owner == owner && k.name in names && AttributeValue(k.name, r[k]) in rows)
      && (forall a :: a in rows ==> AttributeKey(owner, a.name) in r && r[AttributeKey(owner, a.name)] == a.bytes)
    decreases |rows|
  {
    if rows != [] {
      var key := AttributeKey(owner, rows[0].name);
      InsertedValue(table[key := rows[0].bytes], owner, rows[1..], names);
      assert rows == [rows[0]] + rows[1..];
    }
  }
}
