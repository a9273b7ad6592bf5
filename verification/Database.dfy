/** The tables of the directory, and what every reachable state keeps of them. */
module Database {
  import opened Wrappers
  import opened Text
  import opened Ordering
  import opened Codec
  import opened Schema

  datatype UserRow = UserRow(
    email: string,
    lowercaseEmail: string,
    displayName: Option<string>,
    creationDate: string,
    uuid: string,
    passwordHash: Option<string>,
    totpSecret: Option<string>,
    mfaType: Option<string>)

  datatype GroupRow = GroupRow(
    displayName: string,
    lowercaseDisplayName: string,
    creationDate: string,
    uuid: string)

  datatype Membership = Membership(user: string, group: int)

  /** An attribute as requests and answers carry it: its name and its stored bytes. */
  datatype AttributeValue = AttributeValue(name: string, bytes: seq<byte>)

  /** An attribute row is found by the entry it belongs to and its name. */
  datatype AttributeKey<T> = AttributeKey(owner: T, name: string)

  type AttributeTable<!T(==)> = map<AttributeKey<T>, seq<byte>>

  datatype Db = Db(
    users: map<string, UserRow>,
    groups: map<int, GroupRow>,
    memberships: set<Membership>,
    userSchema: map<string, SchemaRow>,
    groupSchema: map<string, SchemaRow>,
    userAttributes: AttributeTable<string>,
    groupAttributes: AttributeTable<int>,
    userClasses: map<string, string>,
    groupClasses: map<string, string>,
    nextGroupId: int)

  const FIRST_NAME := "first_name"
  const LAST_NAME := "last_name"
  const AVATAR := "avatar"

  const HARDCODED_TEXT := SchemaRow(String, false, true, true, true)
  const HARDCODED_PHOTO := SchemaRow(JpegPhoto, false, true, true, true)

  /** The tables as the schema migrations leave them in a new database. */
  const EMPTY_DB: Db := Db(
    map[], map[], {},
    map[FIRST_NAME := HARDCODED_TEXT, LAST_NAME := HARDCODED_TEXT, AVATAR := HARDCODED_PHOTO],
    map[], map[], map[], map[], map[], 1)

  /** The stored bytes are the encoding of a value of the type the schema gives. */
  ghost predicate WellTyped(bytes: seq<byte>, row: SchemaRow) {
    exists v :: HasType(v, row.typ, row.isList) && bytes == Encode(v, row.typ, row.isList)
  }

  // ----- What every reachable state keeps -----

  ghost predicate ValidUsers(db: Db) {
    && (forall u :: u in db.users ==> IsLower(u) && db.users[u].lowercaseEmail == Lower(db.users[u].email))
    && (forall u, v :: u in db.users && v in db.users && u != v ==>
          db.users[u].lowercaseEmail != db.users[v].lowercaseEmail)
    && (forall u, v :: u in db.users && v in db.users && u != v ==> db.users[u].uuid != db.users[v].uuid)
  }

  ghost predicate ValidGroups(db: Db) {
    && db.nextGroupId > 0
    && (forall g :: g in db.groups ==>
          0 < g < db.nextGroupId && db.groups[g].lowercaseDisplayName == Lower(db.groups[g].displayName))
    && (forall g, h :: g in db.groups && h in db.groups && g != h ==>
          db.groups[g].lowercaseDisplayName != db.groups[h].lowercaseDisplayName)
    && (forall g, h :: g in db.groups && h in db.groups && g != h ==> db.groups[g].uuid != db.groups[h].uuid)
  }

  ghost predicate ValidReferences(db: Db) {
    && (forall m :: m in db.memberships ==> m.user in db.users && m.group in db.groups)
    && (forall k :: k in db.userAttributes ==> k.owner in db.users && k.name in db.userSchema)
    && (forall k :: k in db.groupAttributes ==> k.owner in db.groups && k.name in db.groupSchema)
  }

  ghost predicate ValidTypes(db: Db)
    requires ValidReferences(db)
  {
    && (forall k :: k in db.userAttributes ==> WellTyped(db.userAttributes[k], db.userSchema[k.name]))
    && (forall k :: k in db.groupAttributes ==> WellTyped(db.groupAttributes[k], db.groupSchema[k.name]))
  }

  ghost predicate ValidSchema(db: Db) {
    && (forall n :: n in db.userSchema ==> IsLower(n))
    && (forall n :: n in db.groupSchema ==> IsLower(n))
    && FIRST_NAME in db.userSchema && db.userSchema[FIRST_NAME] == HARDCODED_TEXT
    && LAST_NAME in db.userSchema && db.userSchema[LAST_NAME] == HARDCODED_TEXT
    && AVATAR in db.userSchema && db.userSchema[AVATAR] == HARDCODED_PHOTO
  }

  ghost predicate Valid(db: Db) {
    ValidUsers(db) && ValidGroups(db) && ValidReferences(db) && ValidTypes(db) && ValidSchema(db)
  }

  // ----- Reading -----

  function GroupsOf(db: Db, user: string): set<int> {
    set m | m in db.memberships && m.user == user && m.group in db.groups :: m.group
  }

  function GroupNamesOf(db: Db, user: string): set<string> {
    set m | m in db.memberships && m.user == user && m.group in db.groups :: db.groups[m.group].displayName
  }

  ghost function DbSchema(db: Db): Schema {
    Schema(AttributeList(db.userSchema), AttributeList(db.groupSchema),
           ClassList(db.userClasses), ClassList(db.groupClasses))
  }

  /** Object classes are listed in order, in the spelling they were added with. */
  ghost function ClassList(classes: map<string, string>): (r: seq<string>)
    ensures forall c :: c in r <==> c in classes.Values
  {
    Sorted(classes.Values)
  }

  /** The public schema as a viewer gets it: a restricted one loses hidden attributes. */
  ghost function ViewerSchema(db: Db, restricted: bool): Schema {
    var schema := DbSchema(db);
    PublicSchema(schema.(userAttributes := ForViewer(schema.userAttributes, restricted),
                         groupAttributes := ForViewer(schema.groupAttributes, restricted)))
  }

  lemma ViewerUserLookup(db: Db, restricted: bool, name: string)
    ensures GetAttributeSchema(ViewerSchema(db, restricted).userAttributes, name) ==
      if name in db.userSchema && VisibleTo(db.userSchema[name], restricted) then Some(db.userSchema[name])
      else BuiltinUserRow(name)
  {
    ViewerLookup(db.userSchema, BUILTIN_USER_ATTRIBUTES, restricted, name);
  }

  lemma ViewerGroupLookup(db: Db, restricted: bool, name: string)
    ensures GetAttributeSchema(ViewerSchema(db, restricted).groupAttributes, name) ==
      if name in db.groupSchema && VisibleTo(db.groupSchema[name], restricted) then Some(db.groupSchema[name])
      else BuiltinGroupRow(name)
  {
    ViewerLookup(db.groupSchema, BUILTIN_GROUP_ATTRIBUTES, restricted, name);
  }

  lemma NamesDiffer()
    ensures FIRST_NAME != LAST_NAME && FIRST_NAME != AVATAR && LAST_NAME != AVATAR
  {
    assert FIRST_NAME[0] != LAST_NAME[0] && FIRST_NAME[0] != AVATAR[0] && LAST_NAME[0] != AVATAR[0];
  }

  lemma EmptyDbValid()
    ensures Valid(EMPTY_DB)
  {
    assert IsLower(FIRST_NAME) && IsLower(LAST_NAME) && IsLower(AVATAR);
    NamesDiffer();
  }
}
