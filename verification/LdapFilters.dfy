/** The translation of LDAP search filters to backend filters, and its meaning. */
module LdapFilters {
  import opened Wrappers
  import opened Text
  import opened Ordering
  import opened Codec
  import opened Schema
  import opened Like
  import opened Database
  import opened Sql
  import opened Filters
  import opened DistinguishedName
  import L = Ldap

  datatype LdapInfo = LdapInfo(
    base: seq<Rdn>,
    baseStr: string,
    ignoredUserAttributes: seq<string>,
    ignoredGroupAttributes: seq<string>)

  /** The configured base is lower-cased and parsed when the server starts. */
  predicate ValidInfo(info: LdapInfo) {
    ParseDistinguishedName(info.baseStr) == L.Ok(info.base)
  }

  // ----- Field names -----

  datatype UserField =
    | UserNoMatch
    | UserObjectClass
    | UserMemberOf
    | UserDnField
    | UserEntryDn
    | UserPrimary(column: UserColumn)
    | UserAttribute(name: string, typ: AttributeType, isList: bool)

  /** The fields that are known by name, whatever the schema says. */
  function UserAlias(field: string): Option<UserField> {
    if field == "memberof" || field == "ismemberof" then Some(UserMemberOf)
    else if field == "objectclass" then Some(UserObjectClass)
    else if field == "dn" || field == "distinguishedname" then Some(UserDnField)
    else if field == "entrydn" then Some(UserEntryDn)
    else if field == "uid" || field == "user_id" || field == "id" then Some(UserPrimary(UserId))
    else if field == "mail" || field == "email" then Some(UserPrimary(Email))
    else if field == "cn" || field == "displayname" || field == "display_name" then Some(UserPrimary(UserDisplayName))
    else if field == "givenname" || field == "first_name" || field == "firstname" then
      Some(UserAttribute(FIRST_NAME, String, false))
    else if field == "sn" || field == "last_name" || field == "lastname" then
      Some(UserAttribute(LAST_NAME, String, false))
    else if field == "avatar" || field == "jpegphoto" then Some(UserAttribute(AVATAR, JpegPhoto, false))
    else if field == "creationdate" || field == "createtimestamp" || field == "modifytimestamp" ||
            field == "creation_date" then Some(UserPrimary(UserCreationDate))
    else if field == "entryuuid" || field == "uuid" then Some(UserPrimary(UserUuid))
    else None
  }

  function MapUserField(field: string, schema: Schema): UserField {
    match UserAlias(field)
    case Some(f) => f
    case None =>
      match GetAttributeSchema(schema.userAttributes, field)
      case Some(row) => UserAttribute(field, row.typ, row.isList)
      case None => UserNoMatch
  }

  datatype GroupField =
    | GroupNoMatch
    | GroupDisplayNameField
    | GroupCreationDateField
    | GroupObjectClass
    | GroupDnField
    | GroupEntryDn
    | GroupMember
    | GroupUuidField
    | GroupAttribute(name: string, typ: AttributeType, isList: bool)

  function GroupAlias(field: string): Option<GroupField> {
    if field == "dn" || field == "distinguishedname" then Some(GroupDnField)
    else if field == "entrydn" then Some(GroupEntryDn)
    else if field == "objectclass" then Some(GroupObjectClass)
    else if field == "cn" || field == "displayname" || field == "uid" || field == "display_name" || field == "id" then
      Some(GroupDisplayNameField)
    else if field == "creationdate" || field == "createtimestamp" || field == "modifytimestamp" ||
            field == "creation_date" then Some(GroupCreationDateField)
    else if field == "member" || field == "uniquemember" then Some(GroupMember)
    else if field == "entryuuid" || field == "uuid" then Some(GroupUuidField)
    else None
  }

  function MapGroupField(field: string, schema: Schema): GroupField {
    match GroupAlias(field)
    case Some(f) => f
    case None =>
      match GetAttributeSchema(schema.groupAttributes, field)
      case Some(row) => GroupAttribute(field, row.typ, row.isList)
      case None => GroupNoMatch
  }

  lemma {:induction false} FindFirstName(attributes: seq<AttributeSchema>, name: string)
    requires GetAttributeSchema(attributes, name).Some?
    ensures exists i :: 0 <= i < |attributes| && attributes[i].name == name
  {
    if attributes[0].name != name {
      FindFirstName(attributes[1..], name);
      var i :| 0 <= i < |attributes[1..]| && attributes[1..][i].name == name;
      assert attributes[i + 1].name == name;
    }
  }

  /** The built-in user attributes are all known by name. */
  lemma BuiltinUserNames(name: string)
    requires BuiltinUserRow(name).Some?
    ensures UserAlias(name).Some?
  {
    FindFirstName(BUILTIN_USER_ATTRIBUTES, name);
  }

  /** Of the built-in group attributes, only the group id is not known by name. */
  lemma BuiltinGroupNames(name: string)
    requires BuiltinGroupRow(name).Some?
    ensures GroupAlias(name).Some? || name == "group_id"
  {
    FindFirstName(BUILTIN_GROUP_ATTRIBUTES, name);
  }

  predicate FilterColumn(c: UserColumn) {
    c.UserId? || c.Email? || c.UserDisplayName? || c.UserCreationDate? || c.UserUuid?
  }

  lemma UserAliasKinds(field: string)
    requires UserAlias(field).Some?
    ensures var m := UserAlias(field).value;
      && !m.UserNoMatch?
      && (m.UserPrimary? ==> FilterColumn(m.column))
      && (m.UserAttribute? ==>
            (m.name == FIRST_NAME && m.typ == String && !m.isList) ||
            (m.name == LAST_NAME && m.typ == String && !m.isList) ||
            (m.name == AVATAR && m.typ == JpegPhoto && !m.isList))
  {
  }

  /** Whatever a viewer may see, a user field that maps to an attribute has the type
      of its row in the database: the built-in names never get that far. */
  lemma UserFieldType(db: Db, restricted: bool, field: string)
    requires Valid(db)
    ensures var m := MapUserField(field, ViewerSchema(db, restricted));
      && (m.UserAttribute? ==>
            m.name in db.userSchema && db.userSchema[m.name].typ == m.typ && db.userSchema[m.name].isList == m.isList)
      && (m.UserPrimary? ==> FilterColumn(m.column))
  {
    hide UserAlias;
    if UserAlias(field).Some? {
      UserAliasKinds(field);
    } else {
      ViewerUserLookup(db, restricted, field);
      if BuiltinUserRow(field).Some? {
        BuiltinUserNames(field);
      }
    }
  }

  // ----- Conversion of user filters -----

  function UserAttributeEqualityFilter(lib: Parsers, name: string, typ: AttributeType, isList: bool, value: string)
    : L.LdapResult<UserFilter>
  {
    match DeserializeAttributeValue(lib, [value], typ, isList)
    case Some(bytes) => L.Ok(UserAttributeEquality(name, bytes))
    case None => L.Err(L.Other)
  }

  predicate HasClass(classes: seq<string>, value: string) {
    exists c :: c in classes && Lower(c) == Lower(value)
  }

  predicate IsUserClass(value: string, extra: seq<string>) {
    value == "person" || value == "inetorgperson" || value == "posixaccount" || value == "mailaccount" ||
    HasClass(extra, value)
  }

  predicate IsGroupClass(value: string, extra: seq<string>) {
    value == "groupofuniquenames" || value == "groupofnames" || HasClass(extra, value)
  }

  function ConvertUserEquality(info: LdapInfo, lib: Parsers, schema: Schema, field: string, value: string)
    : L.LdapResult<UserFilter>
  {
    match MapUserField(field, schema)
    case UserPrimary(c) =>
      if c == UserId then L.Ok(UserIdIs(Lower(value)))
      else if c == Email then L.Ok(UserEquality(LowercaseEmail, value))
      else L.Ok(UserEquality(c, value))
    case UserAttribute(name, typ, isList) => UserAttributeEqualityFilter(lib, name, typ, isList, value)
    case UserNoMatch => L.Ok(UserFromBool(false))
    case UserObjectClass => L.Ok(UserFromBool(IsUserClass(value, schema.extraUserClasses)))
    case UserMemberOf => var group :- GetGroupName(value, info.base); L.Ok(MemberOf(group))
    case UserEntryDn => ConvertUserDn(info, value)
    case UserDnField => ConvertUserDn(info, value)
  }

  function ConvertUserDn(info: LdapInfo, value: string): L.LdapResult<UserFilter> {
    match GetUserId(value, info.base)
    case Ok(id) => L.Ok(UserIdIs(id))
    case Err(_) => L.Ok(UserFromBool(false))
    case Panic => L.Panic
  }

  function ConvertUserFilter(info: LdapInfo, lib: Parsers, schema: Schema, f: L.LdapFilter): L.LdapResult<UserFilter>
    decreases f, 0
  {
    match f
    case And(fs) => var gs :- ConvertUserFilters(info, lib, schema, fs); L.Ok(UserAnd(gs))
    case Or(fs) => var gs :- ConvertUserFilters(info, lib, schema, fs); L.Ok(UserOr(gs))
    case Not(g) => var h :- ConvertUserFilter(info, lib, schema, g); L.Ok(UserNot(h))
    case Equality(field, value) => ConvertUserEquality(info, lib, schema, Lower(field), Lower(value))
    case Present(field) =>
      var field := Lower(field);
      L.Ok(UserFromBool(field == "objectclass" || field == "dn" || field == "distinguishedname" ||
                        !MapUserField(field, schema).UserNoMatch?))
    case Substring(field, s) =>
      (match MapUserField(Lower(field), schema)
       case UserPrimary(c) =>
         if c == UserId then L.Ok(UserIdLike(s))
         else if c == UserCreationDate || c == UserUuid then L.Err(L.UnwillingToPerform)
         else if c == Email then L.Ok(UserSubString(LowercaseEmail, s))
         else L.Ok(UserSubString(c, s))
       case UserNoMatch => L.Ok(UserFromBool(false))
       case _ => L.Err(L.UnwillingToPerform))
    case Unsupported => L.Err(L.UnwillingToPerform)
  }

  function ConvertUserFilters(info: LdapInfo, lib: Parsers, schema: Schema, fs: seq<L.LdapFilter>)
    : L.LdapResult<seq<UserFilter>>
    decreases fs, 0
  {
    if fs == [] then L.Ok([])
    else
      var first :- ConvertUserFilter(info, lib, schema, fs[0]);
      var rest :- ConvertUserFilters(info, lib, schema, fs[1..]);
      L.Ok([first] + rest)
  }

  // ----- Conversion of group filters -----

  function ConvertGroupDn(info: LdapInfo, value: string): L.LdapResult<GroupFilter> {
    match GetGroupName(value, info.base)
    case Ok(name) => L.Ok(DisplayNameIs(name))
    case Err(_) => L.Ok(GroupFromBool(false))
    case Panic => L.Panic
  }

  /** Parsing a UUID is foreign code; it brings the text to its canonical form. */
  type UuidParser = string -> Option<string>

  function ConvertGroupEquality(info: LdapInfo, lib: Parsers, uuids: UuidParser, schema: Schema, field: string,
                                value: string)
    : L.LdapResult<GroupFilter>
  {
    match MapGroupField(field, schema)
    case GroupDisplayNameField => L.Ok(DisplayNameIs(value))
    case GroupUuidField =>
      (match uuids(value)
       case Some(uuid) => L.Ok(UuidIs(uuid))
       case None => L.Err(L.InappropriateMatching))
    case GroupMember => var user :- GetUserId(value, info.base); L.Ok(Member(user))
    case GroupObjectClass => L.Ok(GroupFromBool(IsGroupClass(value, schema.extraGroupClasses)))
    case GroupDnField => ConvertGroupDn(info, value)
    case GroupEntryDn => ConvertGroupDn(info, value)
    case GroupNoMatch => L.Ok(GroupFromBool(false))
    case GroupAttribute(name, typ, isList) =>
      (match DeserializeAttributeValue(lib, [value], typ, isList)
       case Some(bytes) => L.Ok(GroupAttributeEquality(name, bytes))
       case None => L.Err(L.Other))
    case GroupCreationDateField => L.Err(L.UnwillingToPerform)
  }

  function ConvertGroupFilter(info: LdapInfo, lib: Parsers, uuids: UuidParser, schema: Schema, f: L.LdapFilter)
    : L.LdapResult<GroupFilter>
    decreases f, 0
  {
    match f
    case Equality(field, value) => ConvertGroupEquality(info, lib, uuids, schema, Lower(field), Lower(value))
    case And(fs) => var gs :- ConvertGroupFilters(info, lib, uuids, schema, fs); L.Ok(GroupAnd(gs))
    case Or(fs) => var gs :- ConvertGroupFilters(info, lib, uuids, schema, fs); L.Ok(GroupOr(gs))
    case Not(g) => var h :- ConvertGroupFilter(info, lib, uuids, schema, g); L.Ok(GroupNot(h))
    case Present(field) => L.Ok(GroupFromBool(!MapGroupField(Lower(field), schema).GroupNoMatch?))
    case Substring(field, s) =>
      (match MapGroupField(Lower(field), schema)
       case GroupDisplayNameField => L.Ok(DisplayNameLike(s))
       case GroupNoMatch => L.Ok(GroupFromBool(false))
       case _ => L.Err(L.UnwillingToPerform))
    case Unsupported => L.Err(L.UnwillingToPerform)
  }

  function ConvertGroupFilters(info: LdapInfo, lib: Parsers, uuids: UuidParser, schema: Schema, fs: seq<L.LdapFilter>)
    : L.LdapResult<seq<GroupFilter>>
    decreases fs, 0
  {
    if fs == [] then L.Ok([])
    else
      var first :- ConvertGroupFilter(info, lib, uuids, schema, fs[0]);
      var rest :- ConvertGroupFilters(info, lib, uuids, schema, fs[1..]);
      L.Ok([first] + rest)
  }

  // ----- What an LDAP filter means to the server -----

  ghost predicate StoredUserValue(db: Db, u: string, name: string, v: Value) {
    var k := AttributeKey(u, name);
    k in db.userAttributes && name in db.userSchema &&
    var row := db.userSchema[name];
    HasType(v, row.typ, row.isList) && db.userAttributes[k] == Encode(v, row.typ, row.isList)
  }

  ghost predicate StoredGroupValue(db: Db, g: int, name: string, v: Value) {
    name in db.groupSchema && ReadsAs(db, g, name, db.groupSchema[name].typ, db.groupSchema[name].isList, v)
  }

  /** The stored bytes are those of a value at a type that somebody takes them to have. */
  ghost predicate ReadsAs(db: Db, g: int, name: string, typ: AttributeType, isList: bool, v: Value) {
    var k := AttributeKey(g, name);
    k in db.groupAttributes && HasType(v, typ, isList) && db.groupAttributes[k] == Encode(v, typ, isList)
  }

  /** An equality test in terms of the entry itself: its own email, its groups by
      their own names, its attributes by their typed values. */
  ghost function UserEqualityMeaning(info: LdapInfo, lib: Parsers, schema: Schema, db: Db, u: string,
                                     field: string, value: string): Tri
    requires u in db.users
  {
    var row := db.users[u];
    match MapUserField(field, schema)
    case UserPrimary(c) =>
      if c == UserId then Bool(u == value)
      else if c == Email then Bool(Lower(row.email) == value)
      else if c == UserDisplayName then
        if row.displayName.None? then Unknown else Bool(row.displayName.value == value)
      else if c == UserCreationDate then Bool(row.creationDate == value)
      else Bool(row.uuid == value)
    case UserAttribute(name, typ, isList) =>
      Bool(exists v :: StoredUserValue(db, u, name, v) && ParseValue(lib, [value], typ, isList) == Some(v))
    case UserNoMatch => False
    case UserObjectClass => Bool(IsUserClass(value, schema.extraUserClasses))
    case UserMemberOf =>
      var name := GetGroupName(value, info.base);
      Bool(exists g :: g in GroupsOf(db, u) && name == L.Ok(Lower(db.groups[g].displayName)))
    case UserEntryDn => Bool(GetUserId(value, info.base) == L.Ok(u))
    case UserDnField => Bool(GetUserId(value, info.base) == L.Ok(u))
  }

  ghost function LdapUserMeaning(info: LdapInfo, lib: Parsers, schema: Schema, db: Db, u: string,
                                 f: L.LdapFilter): Tri
    requires u in db.users
    decreases f, 0
  {
    match f
    case And(fs) => LdapUserMeanings(info, lib, schema, db, u, false, fs)
    case Or(fs) => LdapUserMeanings(info, lib, schema, db, u, true, fs)
    case Not(g) => NotT(LdapUserMeaning(info, lib, schema, db, u, g))
    case Equality(field, value) => UserEqualityMeaning(info, lib, schema, db, u, Lower(field), Lower(value))
    case Present(field) => Bool(!MapUserField(Lower(field), schema).UserNoMatch?)
    case Substring(field, s) =>
      (match MapUserField(Lower(field), schema)
       case UserPrimary(c) =>
         if c == UserId then Bool(Matches(SqlPattern(s), u))
         else if c == Email then Bool(Matches(SqlPattern(s), Lower(db.users[u].email)))
         else if c == UserDisplayName then
           if db.users[u].displayName.None? then Unknown
           else Bool(Matches(SqlPattern(s), Lower(db.users[u].displayName.value)))
         else Unknown
       case UserNoMatch => False
       case _ => Unknown)
    case Unsupported => Unknown
  }

  ghost function LdapUserMeanings(info: LdapInfo, lib: Parsers, schema: Schema, db: Db, u: string, any: bool,
                                  fs: seq<L.LdapFilter>): Tri
    requires u in db.users
    decreases fs, 0
  {
    if fs == [] then Bool(!any)
    else Combine(any, LdapUserMeaning(info, lib, schema, db, u, fs[0]),
                 LdapUserMeanings(info, lib, schema, db, u, any, fs[1..]))
  }

  lemma MemberOfMeaning(info: LdapInfo, db: Db, u: string, value: string)
    requires Valid(db) && u in db.users && ValidInfo(info) && IsLower(value) && GetGroupName(value, info.base).Ok?
    ensures UserMeaning(db, u, MemberOf(GetGroupName(value, info.base).value)) ==
      Bool(exists g :: g in GroupsOf(db, u) && GetGroupName(value, info.base) == L.Ok(Lower(db.groups[g].displayName)))
  {
    hide GetIdFromDistinguishedName, ParseDistinguishedName, WellTyped, ValidTypes, ValidSchema, ValidUsers;
    ParsedIsLower(info.baseStr);
    GetIdNoPanic(value, info.base, true);
    var name := GetGroupName(value, info.base).value;
    assert forall g :: g in GroupsOf(db, u) ==>
        (db.groups[g].lowercaseDisplayName == Lower(name) <==> L.Ok(name) == L.Ok(Lower(db.groups[g].displayName)));
  }

  lemma UserAttributeMeaning(lib: Parsers, db: Db, u: string, name: string, typ: AttributeType, isList: bool,
                             value: string)
    requires Valid(db) && u in db.users && name in db.userSchema
    requires db.userSchema[name].typ == typ && db.userSchema[name].isList == isList
    requires DeserializeAttributeValue(lib, [value], typ, isList).Some?
    ensures UserMeaning(db, u,
                        UserAttributeEquality(name, DeserializeAttributeValue(lib, [value], typ, isList).value)) ==
      Bool(exists v :: StoredUserValue(db, u, name, v) && ParseValue(lib, [value], typ, isList) == Some(v))
  {
    var w := ParseValue(lib, [value], typ, isList).value;
    var k := AttributeKey(u, name);
    if k in db.userAttributes {
      var v :| HasType(v, typ, isList) && db.userAttributes[k] == Encode(v, typ, isList);
      Injective(v, w, typ, isList);
      assert StoredUserValue(db, u, name, v);
    }
  }

  lemma UserBoolMeaning(db: Db, u: string, b: bool)
    requires u in db.users
    ensures UserMeaning(db, u, UserFromBool(b)) == Bool(b) && !PanicsOn(UserFromBool(b))
  {
    assert UserMeanings(db, u, false, []) == True;
  }

  /** What the translation needs of a schema: each field that maps to an attribute has
      the type of its row in the database. */
  ghost predicate UserSchemaFits(db: Db, schema: Schema) {
    forall field :: UserFieldFits(db, MapUserField(field, schema))
  }

  ghost predicate UserFieldFits(db: Db, m: UserField) {
    && (m.UserAttribute? ==>
          m.name in db.userSchema && db.userSchema[m.name].typ == m.typ && db.userSchema[m.name].isList == m.isList)
    && (m.UserPrimary? ==> FilterColumn(m.column))
  }

  lemma ViewerSchemaFits(db: Db, restricted: bool)
    requires Valid(db)
    ensures UserSchemaFits(db, ViewerSchema(db, restricted))
  {
    forall field
      ensures UserFieldFits(db, MapUserField(field, ViewerSchema(db, restricted)))
    {
      UserFieldType(db, restricted, field);
    }
  }

  lemma ConvertUserPrimaryCorrect(info: LdapInfo, lib: Parsers, schema: Schema, db: Db, u: string,
                                  field: string, value: string)
    requires Valid(db) && u in db.users && IsLower(value) && UserSchemaFits(db, schema)
    requires MapUserField(field, schema).UserPrimary?
    requires ConvertUserEquality(info, lib, schema, field, value).Ok?
    ensures var g := ConvertUserEquality(info, lib, schema, field, value).value;
      !PanicsOn(g) && UserMeaning(db, u, g) == UserEqualityMeaning(info, lib, schema, db, u, field, value)
  {
    hide MapUserField, ParseDistinguishedName, GetIdFromDistinguishedName, DeserializeAttributeValue, HasClass,
      WellTyped, ParseValue, StoredUserValue, ValidTypes, ValidReferences, ValidGroups, ValidSchema;
    assert UserFieldFits(db, MapUserField(field, schema));
  }

  lemma ConvertUserEqualityCorrect(info: LdapInfo, lib: Parsers, schema: Schema, db: Db, u: string,
                                   field: string, value: string)
    requires Valid(db) && ValidInfo(info) && u in db.users && IsLower(value) && UserSchemaFits(db, schema)
    requires ConvertUserEquality(info, lib, schema, field, value).Ok?
    ensures var g := ConvertUserEquality(info, lib, schema, field, value).value;
      !PanicsOn(g) && UserMeaning(db, u, g) == UserEqualityMeaning(info, lib, schema, db, u, field, value)
  {
    hide MapUserField, ParseDistinguishedName, GetIdFromDistinguishedName, DeserializeAttributeValue, HasClass,
      WellTyped, ParseValue, StoredUserValue, Valid, IsUserClass;
    var m := MapUserField(field, schema);
    assert UserFieldFits(db, m);
    match m
    case UserPrimary(c) => ConvertUserPrimaryCorrect(info, lib, schema, db, u, field, value);
    case UserAttribute(name, typ, isList) => UserAttributeMeaning(lib, db, u, name, typ, isList, value);
    case UserNoMatch => UserBoolMeaning(db, u, false);
    case UserObjectClass => UserBoolMeaning(db, u, IsUserClass(value, schema.extraUserClasses));
    case UserMemberOf => MemberOfMeaning(info, db, u, value);
    case _ =>
      ParsedIsLower(info.baseStr);
      GetIdNoPanic(value, info.base, false);
      UserBoolMeaning(db, u, false);
  }

  lemma UserSubstringCorrect(lib: Parsers, info: LdapInfo, schema: Schema, db: Db, u: string, field: string,
                             s: SubStringFilter)
    requires Valid(db) && u in db.users && UserSchemaFits(db, schema)
    requires ConvertUserFilter(info, lib, schema, L.Substring(field, s)).Ok?
    ensures var g := ConvertUserFilter(info, lib, schema, L.Substring(field, s)).value;
      !PanicsOn(g) && UserMeaning(db, u, g) == LdapUserMeaning(info, lib, schema, db, u, L.Substring(field, s))
  {
    hide MapUserField, Matches, SqlPattern;
    var m := MapUserField(Lower(field), schema);
    assert UserFieldFits(db, m);
    UserBoolMeaning(db, u, false);
    LowerIdempotent(db.users[u].email);
  }

  /** A user filter that converts keeps its meaning, for every nesting and every user
      of a valid directory, and never makes the compiler panic. */
  lemma {:induction false} ConvertUserFilterCorrect(info: LdapInfo, lib: Parsers, schema: Schema, db: Db, u: string,
                                                    f: L.LdapFilter)
    requires Valid(db) && ValidInfo(info) && u in db.users && UserSchemaFits(db, schema)
    requires ConvertUserFilter(info, lib, schema, f).Ok?
    ensures var g := ConvertUserFilter(info, lib, schema, f).value;
      !PanicsOn(g) && UserMeaning(db, u, g) == LdapUserMeaning(info, lib, schema, db, u, f)
    decreases f, 0
  {
    hide MapUserField, ConvertUserEquality, UserEqualityMeaning;
    match f
    case And(fs) => ConvertUserFiltersCorrect(info, lib, schema, db, u, fs, false);
    case Or(fs) => ConvertUserFiltersCorrect(info, lib, schema, db, u, fs, true);
    case Not(g) => ConvertUserFilterCorrect(info, lib, schema, db, u, g);
    case Equality(field, value) =>
      LowerIdempotent(value);
      ConvertUserEqualityCorrect(info, lib, schema, db, u, Lower(field), Lower(value));
    case Present(field) =>
      UserAliasPresent(Lower(field), schema);
      UserBoolMeaning(db, u, !MapUserField(Lower(field), schema).UserNoMatch?);
    case Substring(field, s) => UserSubstringCorrect(lib, info, schema, db, u, field, s);
    case Unsupported =>
  }

  lemma UserAliasPresent(field: string, schema: Schema)
    ensures field == "objectclass" || field == "dn" || field == "distinguishedname" ==>
      !MapUserField(field, schema).UserNoMatch?
  {
  }

  lemma {:induction false} ConvertUserFiltersCorrect(info: LdapInfo, lib: Parsers, schema: Schema, db: Db, u: string,
                                                    fs: seq<L.LdapFilter>, any: bool)
    requires Valid(db) && ValidInfo(info) && u in db.users && UserSchemaFits(db, schema)
    requires ConvertUserFilters(info, lib, schema, fs).Ok?
    ensures var gs := ConvertUserFilters(info, lib, schema, fs).value;
      (forall g :: g in gs ==> !PanicsOn(g)) &&
      UserMeanings(db, u, any, gs) == LdapUserMeanings(info, lib, schema, db, u, any, fs)
    decreases fs, 0
  {
    hide Valid, ValidInfo, UserSchemaFits;
    if fs != [] {
      ConvertUserFilterCorrect(info, lib, schema, db, u, fs[0]);
      ConvertUserFiltersCorrect(info, lib, schema, db, u, fs[1..], any);
      var gs := ConvertUserFilters(info, lib, schema, fs).value;
      assert gs[1..] == ConvertUserFilters(info, lib, schema, fs[1..]).value;
    }
  }

  // ----- No conversion fails an assertion -----

  /** Converting a user filter fails no assertion, and the result never makes the
      compiler panic. */
  lemma {:induction false} ConvertUserFilterSafe(info: LdapInfo, lib: Parsers, schema: Schema, f: L.LdapFilter)
    requires ValidInfo(info)
    ensures var r := ConvertUserFilter(info, lib, schema, f); !r.Panic? && (r.Ok? ==> !PanicsOn(r.value))
    decreases f, 0
  {
    hide MapUserField, ParseDistinguishedName, DeserializeAttributeValue, HasClass, GetIdFromDistinguishedName;
    match f
    case And(fs) => ConvertUserFiltersSafe(info, lib, schema, fs);
    case Or(fs) => ConvertUserFiltersSafe(info, lib, schema, fs);
    case Not(g) => ConvertUserFilterSafe(info, lib, schema, g);
    case Equality(_, value) =>
      ParsedIsLower(info.baseStr);
      LowerIdempotent(value);
      GetIdNoPanic(Lower(value), info.base, false);
      GetIdNoPanic(Lower(value), info.base, true);
    case _ =>
  }

  lemma {:induction false} ConvertUserFiltersSafe(info: LdapInfo, lib: Parsers, schema: Schema, fs: seq<L.LdapFilter>)
    requires ValidInfo(info)
    ensures var r := ConvertUserFilters(info, lib, schema, fs);
      !r.Panic? && (r.Ok? ==> forall g :: g in r.value ==> !PanicsOn(g))
    decreases fs, 0
  {
    if fs != [] {
      ConvertUserFilterSafe(info, lib, schema, fs[0]);
      ConvertUserFiltersSafe(info, lib, schema, fs[1..]);
    }
  }

  lemma {:induction false} ConvertGroupFilterSafe(info: LdapInfo, lib: Parsers, uuids: UuidParser, schema: Schema,
                                                  f: L.LdapFilter)
    requires ValidInfo(info)
    ensures !ConvertGroupFilter(info, lib, uuids, schema, f).Panic?
    decreases f, 0
  {
    hide MapGroupField, ParseDistinguishedName, DeserializeAttributeValue, HasClass, GetIdFromDistinguishedName;
    match f
    case And(fs) => ConvertGroupFiltersSafe(info, lib, uuids, schema, fs);
    case Or(fs) => ConvertGroupFiltersSafe(info, lib, uuids, schema, fs);
    case Not(g) => ConvertGroupFilterSafe(info, lib, uuids, schema, g);
    case Equality(_, value) =>
      ParsedIsLower(info.baseStr);
      LowerIdempotent(value);
      GetIdNoPanic(Lower(value), info.base, false);
      GetIdNoPanic(Lower(value), info.base, true);
    case _ =>
  }

  lemma {:induction false} ConvertGroupFiltersSafe(info: LdapInfo, lib: Parsers, uuids: UuidParser, schema: Schema,
                                                  fs: seq<L.LdapFilter>)
    requires ValidInfo(info)
    ensures !ConvertGroupFilters(info, lib, uuids, schema, fs).Panic?
    decreases fs, 0
  {
    if fs != [] {
      ConvertGroupFilterSafe(info, lib, uuids, schema, fs[0]);
      ConvertGroupFiltersSafe(info, lib, uuids, schema, fs[1..]);
    }
  }

  // ----- Which users a search selects -----

  /** From the LDAP filter to the rows: the users for which the compiled condition is
      true are exactly those of which the filter is true. */
  lemma SearchSelectsUsers(info: LdapInfo, lib: Parsers, db: Db, restricted: bool, f: L.LdapFilter)
    requires Valid(db) && ValidInfo(info)
    requires ConvertUserFilter(info, lib, ViewerSchema(db, restricted), f).Ok?
    ensures var schema := ViewerSchema(db, restricted);
      var g := ConvertUserFilter(info, lib, schema, f).value;
      && !PanicsOn(g)
      && SelectUsers(db, UserFilterExpr(g)) ==
           set u | u in db.users && LdapUserMeaning(info, lib, schema, db, u, f) == True
  {
    hide ViewerSchema, ConvertUserFilter, LdapUserMeaning, UserFilterExpr, UserMeaning, EvalCond, Valid, ValidInfo,
      PanicsOn;
    var schema := ViewerSchema(db, restricted);
    ConvertUserFilterSafe(info, lib, schema, f);
    var g := ConvertUserFilter(info, lib, schema, f).value;
    ViewerSchemaFits(db, restricted);
    forall u | u in db.users
      ensures EvalCond(db, OfUser(u), UserFilterExpr(g)) == LdapUserMeaning(info, lib, schema, db, u, f)
    {
      ConvertUserFilterCorrect(info, lib, schema, db, u, f);
      UserFilterExprCorrect(db, u, g);
    }
  }

  // ----- Groups -----

  ghost function GroupEqualityMeaning(info: LdapInfo, lib: Parsers, uuids: UuidParser, schema: Schema, db: Db,
                                      g: int, field: string, value: string): Tri
    requires g in db.groups
  {
    match MapGroupField(field, schema)
    case GroupDisplayNameField => Bool(Lower(db.groups[g].displayName) == value)
    case GroupUuidField => Bool(uuids(value) == Some(db.groups[g].uuid))
    case GroupMember =>
      var id := GetUserId(value, info.base);
      Bool(exists m :: m in db.memberships && m.group == g && id == L.Ok(m.user))
    case GroupObjectClass => Bool(IsGroupClass(value, schema.extraGroupClasses))
    case GroupDnField => Bool(GetGroupName(value, info.base) == L.Ok(Lower(db.groups[g].displayName)))
    case GroupEntryDn => Bool(GetGroupName(value, info.base) == L.Ok(Lower(db.groups[g].displayName)))
    case GroupNoMatch => False
    case GroupAttribute(name, typ, isList) =>
      Bool(exists v :: ReadsAs(db, g, name, typ, isList, v) && ParseValue(lib, [value], typ, isList) == Some(v))
    case GroupCreationDateField => Unknown
  }

  ghost function LdapGroupMeaning(info: LdapInfo, lib: Parsers, uuids: UuidParser, schema: Schema, db: Db, g: int,
                                  f: L.LdapFilter): Tri
    requires g in db.groups
    decreases f, 0
  {
    match f
    case And(fs) => LdapGroupMeanings(info, lib, uuids, schema, db, g, false, fs)
    case Or(fs) => LdapGroupMeanings(info, lib, uuids, schema, db, g, true, fs)
    case Not(h) => NotT(LdapGroupMeaning(info, lib, uuids, schema, db, g, h))
    case Equality(field, value) =>
      GroupEqualityMeaning(info, lib, uuids, schema, db, g, Lower(field), Lower(value))
    case Present(field) => Bool(!MapGroupField(Lower(field), schema).GroupNoMatch?)
    case Substring(field, s) =>
      (match MapGroupField(Lower(field), schema)
       case GroupDisplayNameField => Bool(Matches(SqlPattern(s), Lower(db.groups[g].displayName)))
       case GroupNoMatch => False
       case _ => Unknown)
    case Unsupported => Unknown
  }

  ghost function LdapGroupMeanings(info: LdapInfo, lib: Parsers, uuids: UuidParser, schema: Schema, db: Db, g: int,
                                   any: bool, fs: seq<L.LdapFilter>): Tri
    requires g in db.groups
    decreases fs, 0
  {
    if fs == [] then Bool(!any)
    else Combine(any, LdapGroupMeaning(info, lib, uuids, schema, db, g, fs[0]),
                 LdapGroupMeanings(info, lib, uuids, schema, db, g, any, fs[1..]))
  }

  /** A group field that maps to an attribute of the database has the type of its row. */
  ghost predicate GroupSchemaFits(db: Db, schema: Schema) {
    forall field :: GroupFieldFits(db, MapGroupField(field, schema))
  }

  ghost predicate GroupFieldFits(db: Db, m: GroupField) {
    m.GroupAttribute? && m.name in db.groupSchema ==>
      db.groupSchema[m.name].typ == m.typ && db.groupSchema[m.name].isList == m.isList
  }

  /** The one name that can break this is the built-in group id: an attribute of that
      name, hidden from the viewer, is read at the built-in type. */
  predicate ShadowedGroupId(db: Db, restricted: bool) {
    restricted && "group_id" in db.groupSchema &&
    var row := db.groupSchema["group_id"];
    !row.isVisible && !(row.typ == Integer && !row.isList)
  }

  lemma GroupIdIsNoAlias()
    ensures GroupAlias("group_id").None?
    ensures BuiltinGroupRow("group_id") == Some(BUILTIN_NUMBER)
  {
    assert FindFirst(Name, BUILTIN_GROUP_ATTRIBUTES, "group_id") == Some(BUILTIN_GROUP_ATTRIBUTES[0]);
  }

  lemma ViewerGroupSchemaFits(db: Db, restricted: bool)
    ensures GroupSchemaFits(db, ViewerSchema(db, restricted)) <==> !ShadowedGroupId(db, restricted)
  {
    hide GroupAlias, ViewerSchema, GetAttributeSchema, BuiltinGroupRow;
    var schema := ViewerSchema(db, restricted);
    GroupIdIsNoAlias();
    ViewerGroupLookup(db, restricted, "group_id");
    if ShadowedGroupId(db, restricted) {
      assert !GroupFieldFits(db, MapGroupField("group_id", schema));
    } else {
      forall field
        ensures GroupFieldFits(db, MapGroupField(field, schema))
      {
        GroupFieldType(db, restricted, field);
      }
    }
  }

  lemma GroupFieldType(db: Db, restricted: bool, field: string)
    requires !ShadowedGroupId(db, restricted)
    ensures GroupFieldFits(db, MapGroupField(field, ViewerSchema(db, restricted)))
  {
    hide GroupAlias, ViewerSchema, GetAttributeSchema, BuiltinGroupRow;
    GroupIdIsNoAlias();
    ViewerGroupLookup(db, restricted, field);
    if GroupAlias(field).Some? {
      GroupAliasKinds(field);
    } else if BuiltinGroupRow(field).Some? {
      BuiltinGroupNames(field);
    }
  }

  lemma GroupAliasKinds(field: string)
    requires GroupAlias(field).Some?
    ensures !GroupAlias(field).value.GroupAttribute? && !GroupAlias(field).value.GroupNoMatch?
  {
  }

  lemma GroupAttributeMeaning(lib: Parsers, db: Db, g: int, name: string, typ: AttributeType, isList: bool,
                              value: string)
    requires g in db.groups && DeserializeAttributeValue(lib, [value], typ, isList).Some?
    ensures GroupMeaning(db, g,
                         GroupAttributeEquality(name, DeserializeAttributeValue(lib, [value], typ, isList).value)) ==
      exists v :: ReadsAs(db, g, name, typ, isList, v) && ParseValue(lib, [value], typ, isList) == Some(v)
  {
    var w := ParseValue(lib, [value], typ, isList).value;
    var k := AttributeKey(g, name);
    if k in db.groupAttributes && db.groupAttributes[k] == Encode(w, typ, isList) {
      assert ReadsAs(db, g, name, typ, isList, w);
    }
  }

  lemma GroupNameMeaning(info: LdapInfo, db: Db, g: int, value: string)
    requires Valid(db) && g in db.groups && ValidInfo(info) && IsLower(value)
    requires ConvertGroupDn(info, value).Ok?
    ensures GroupMeaning(db, g, ConvertGroupDn(info, value).value) ==
      (GetGroupName(value, info.base) == L.Ok(Lower(db.groups[g].displayName)))
  {
    ParsedIsLower(info.baseStr);
    GetIdNoPanic(value, info.base, true);
  }

  lemma ConvertGroupEqualityCorrect(info: LdapInfo, lib: Parsers, uuids: UuidParser, schema: Schema, db: Db, g: int,
                                    field: string, value: string)
    requires Valid(db) && ValidInfo(info) && g in db.groups && IsLower(value)
    requires ConvertGroupEquality(info, lib, uuids, schema, field, value).Ok?
    ensures var h := ConvertGroupEquality(info, lib, uuids, schema, field, value).value;
      Bool(GroupMeaning(db, g, h)) == GroupEqualityMeaning(info, lib, uuids, schema, db, g, field, value)
  {
    hide MapGroupField, ParseDistinguishedName, GetIdFromDistinguishedName, DeserializeAttributeValue, HasClass;
    match MapGroupField(field, schema)
    case GroupAttribute(name, typ, isList) => GroupAttributeMeaning(lib, db, g, name, typ, isList, value);
    case GroupMember =>
      var user := GetUserId(value, info.base).value;
      assert Membership(user, g) in db.memberships <==>
             exists m :: m in db.memberships && m.group == g && m.user == user;
    case GroupDnField => GroupNameMeaning(info, db, g, value);
    case GroupEntryDn => GroupNameMeaning(info, db, g, value);
    case _ =>
  }

  /** A group filter that converts keeps its meaning, for every nesting. */
  lemma {:induction false} ConvertGroupFilterCorrect(info: LdapInfo, lib: Parsers, uuids: UuidParser, schema: Schema,
                                                     db: Db, g: int, f: L.LdapFilter)
    requires Valid(db) && ValidInfo(info) && g in db.groups
    requires ConvertGroupFilter(info, lib, uuids, schema, f).Ok?
    ensures Bool(GroupMeaning(db, g, ConvertGroupFilter(info, lib, uuids, schema, f).value)) ==
      LdapGroupMeaning(info, lib, uuids, schema, db, g, f)
    decreases f, 0
  {
    hide MapGroupField, ConvertGroupEquality, GroupEqualityMeaning, Matches, SqlPattern;
    match f
    case And(fs) => ConvertGroupFiltersCorrect(info, lib, uuids, schema, db, g, fs, false);
    case Or(fs) => ConvertGroupFiltersCorrect(info, lib, uuids, schema, db, g, fs, true);
    case Not(h) => ConvertGroupFilterCorrect(info, lib, uuids, schema, db, g, h);
    case Equality(field, value) =>
      LowerIdempotent(value);
      ConvertGroupEqualityCorrect(info, lib, uuids, schema, db, g, Lower(field), Lower(value));
    case Present(field) =>
    case Substring(field, s) =>
      LowerIdempotent(db.groups[g].displayName);
    case Unsupported =>
  }

  lemma {:induction false} ConvertGroupFiltersCorrect(info: LdapInfo, lib: Parsers, uuids: UuidParser, schema: Schema,
                                                      db: Db, g: int, fs: seq<L.LdapFilter>, any: bool)
    requires Valid(db) && ValidInfo(info) && g in db.groups
    requires ConvertGroupFilters(info, lib, uuids, schema, fs).Ok?
    ensures Bool(GroupMeanings(db, g, any, ConvertGroupFilters(info, lib, uuids, schema, fs).value)) ==
      LdapGroupMeanings(info, lib, uuids, schema, db, g, any, fs)
    decreases fs, 0
  {
    hide Valid, ValidInfo;
    if fs != [] {
      ConvertGroupFilterCorrect(info, lib, uuids, schema, db, g, fs[0]);
      ConvertGroupFiltersCorrect(info, lib, uuids, schema, db, g, fs[1..], any);
      var hs := ConvertGroupFilters(info, lib, uuids, schema, fs).value;
      assert hs[1..] == ConvertGroupFilters(info, lib, uuids, schema, fs[1..]).value;
      assert forall h :: h in hs <==> h == hs[0] || h in hs[1..];
    }
  }

  /** The groups that a search selects are exactly those of which its filter is true. */
  lemma SearchSelectsGroups(info: LdapInfo, lib: Parsers, uuids: UuidParser, db: Db, restricted: bool, f: L.LdapFilter)
    requires Valid(db) && ValidInfo(info)
    requires ConvertGroupFilter(info, lib, uuids, ViewerSchema(db, restricted), f).Ok?
    ensures var schema := ViewerSchema(db, restricted);
      var h := ConvertGroupFilter(info, lib, uuids, schema, f).value;
      SelectGroups(db, GroupListCondition(Some(h))) ==
        set g | g in db.groups && LdapGroupMeaning(info, lib, uuids, schema, db, g, f) == True
  {
    hide ViewerSchema, ConvertGroupFilter, LdapGroupMeaning, GroupListCondition, GroupMeaning, EvalCond, Valid,
      ValidInfo;
    var schema := ViewerSchema(db, restricted);
    var h := ConvertGroupFilter(info, lib, uuids, schema, f).value;
    GroupListConditionCorrect(db, h);
    forall g | g in db.groups
      ensures GroupMeaning(db, g, h) <==> LdapGroupMeaning(info, lib, uuids, schema, db, g, f) == True
    {
      ConvertGroupFilterCorrect(info, lib, uuids, schema, db, g, f);
    }
  }
}
