/** The names by which users' columns and attributes are asked for: which stored value an
    entry shows under each of them, and which users a test of it finds. */
module UserNames {
  import opened Wrappers
  import opened Text
  import opened Codec
  import opened Schema
  import opened Like
  import opened Database
  import opened Sql
  import opened Filters
  import opened DistinguishedName
  import opened LdapFilters
  import opened Listing
  import opened Search
  import opened SearchProperties
  import opened MatchingRules
  import opened StandardUsers
  import L = Ldap

  // ----- What is asked and answered -----

  /** The answer for one attribute of a user. */
  ghost function Shown(info: LdapInfo, db: Db, restricted: bool, u: string, field: string): L.LdapResult<Values>
    requires u in db.users
  {
    GetUserAttribute(FullUser(db, u), field, info, ViewerSchema(db, restricted))
  }

  ghost predicate ShowsNothing(info: LdapInfo, db: Db, restricted: bool, u: string, field: string)
    requires u in db.users
  {
    Shown(info, db, restricted, u, field) == L.Ok(None)
  }

  /** Exactly this text is shown; an empty one is not. */
  ghost predicate ShowsText(info: LdapInfo, db: Db, restricted: bool, u: string, field: string, text: string)
    requires u in db.users
  {
    if text == "" then ShowsNothing(info, db, restricted, u, field)
    else Shown(info, db, restricted, u, field) == L.Ok(Some([Plain(text)]))
  }

  /** Exactly the stored value of this attribute is shown, if there is one to show. */
  ghost predicate ShowsAttribute(info: LdapInfo, db: Db, restricted: bool, u: string, field: string, name: string)
    requires u in db.users
  {
    if AttributeKey(u, name) !in db.userAttributes then ShowsNothing(info, db, restricted, u, field)
    else
      exists v :: StoredUserValue(db, u, name, v) &&
        Shown(info, db, restricted, u, field) == L.Ok(if Unseen(v) then None else Some(TypedValues(v)))
  }

  ghost function Converted(info: LdapInfo, lib: Parsers, db: Db, restricted: bool, f: L.LdapFilter)
    : L.LdapResult<UserFilter>
  {
    ConvertUserFilter(info, lib, ViewerSchema(db, restricted), f)
  }

  ghost predicate IsRefused(info: LdapInfo, lib: Parsers, db: Db, restricted: bool, f: L.LdapFilter) {
    Converted(info, lib, db, restricted, f).Err?
  }

  /** The filter is accepted, and finds the user exactly if this holds. */
  ghost predicate Finds(info: LdapInfo, lib: Parsers, db: Db, restricted: bool, f: L.LdapFilter, u: string,
                        holds: bool) {
    var g := Converted(info, lib, db, restricted, f);
    g.Ok? && !PanicsOn(g.value) && (u in SelectUsers(db, UserFilterExpr(g.value)) <==> holds)
  }

  /** A test of an attribute is accepted exactly if the lower-cased assertion parses at its
      type, and then finds those who have stored what it parses to. */
  ghost predicate FindsStored(info: LdapInfo, lib: Parsers, db: Db, restricted: bool, field: string, value: string,
                              u: string, name: string)
    requires name in db.userSchema
  {
    var row := db.userSchema[name];
    var f := L.Equality(field, value);
    match ParseValue(lib, [Lower(value)], row.typ, row.isList)
    case None => IsRefused(info, lib, db, restricted, f)
    case Some(v) => Finds(info, lib, db, restricted, f, u, StoredUserValue(db, u, name, v))
  }

  // ----- The names -----

  predicate NamesUid(name: string) {
    name == "uid" || name == "user_id" || name == "id"
  }

  predicate NamesMail(name: string) {
    name == "mail" || name == "email"
  }

  predicate NamesDisplayName(name: string) {
    name == "cn" || name == "displayname" || name == "display_name"
  }

  predicate NamesFirstName(name: string) {
    name == "givenname" || name == "first_name" || name == "firstname"
  }

  predicate NamesLastName(name: string) {
    name == "sn" || name == "last_name" || name == "lastname"
  }

  predicate NamesAvatar(name: string) {
    name == "avatar" || name == "jpegphoto"
  }

  predicate NamesCreation(name: string) {
    name == "creationdate" || name == "createtimestamp" || name == "modifytimestamp" || name == "creation_date"
  }

  predicate NamesUuid(name: string) {
    name == "entryuuid" || name == "uuid"
  }

  predicate NamesGroups(name: string) {
    name == "memberof" || name == "ismemberof"
  }

  predicate NamesDn(name: string) {
    name == "dn" || name == "distinguishedname"
  }

  /** No name with a meaning of its own. */
  predicate IsFreeName(name: string) {
    && !NamesUid(name) && !NamesMail(name) && !NamesDisplayName(name) && !NamesFirstName(name) && !NamesLastName(name)
    && !NamesAvatar(name) && !NamesCreation(name) && !NamesUuid(name) && !NamesGroups(name) && !NamesDn(name)
    && name != "objectclass" && name != "entrydn"
  }

  lemma Ids(name: string)
    ensures NamesUid(name) ==> UserAlias(name) == Some(UserPrimary(UserId))
    ensures NamesMail(name) ==> UserAlias(name) == Some(UserPrimary(Email))
  {
  }

  lemma DisplayNames(name: string)
    ensures NamesDisplayName(name) ==> UserAlias(name) == Some(UserPrimary(UserDisplayName))
  {
  }

  lemma Dates(name: string)
    ensures NamesCreation(name) ==> UserAlias(name) == Some(UserPrimary(UserCreationDate))
    ensures NamesUuid(name) ==> UserAlias(name) == Some(UserPrimary(UserUuid))
  {
  }

  lemma Columns(name: string)
    ensures NamesUid(name) ==> UserAlias(name) == Some(UserPrimary(UserId))
    ensures NamesMail(name) ==> UserAlias(name) == Some(UserPrimary(Email))
    ensures NamesDisplayName(name) ==> UserAlias(name) == Some(UserPrimary(UserDisplayName))
    ensures NamesCreation(name) ==> UserAlias(name) == Some(UserPrimary(UserCreationDate))
    ensures NamesUuid(name) ==> UserAlias(name) == Some(UserPrimary(UserUuid))
  {
    hide UserAlias;
    Ids(name);
    DisplayNames(name);
    Dates(name);
  }

  lemma FirstNames(name: string)
    ensures NamesFirstName(name) ==> UserAlias(name) == Some(UserAttribute(FIRST_NAME, String, false))
  {
  }

  lemma LastNames(name: string)
    ensures NamesLastName(name) ==> UserAlias(name) == Some(UserAttribute(LAST_NAME, String, false))
  {
  }

  lemma Photos(name: string)
    ensures NamesAvatar(name) ==> UserAlias(name) == Some(UserAttribute(AVATAR, JpegPhoto, false))
  {
  }

  lemma Others(name: string)
    ensures NamesFirstName(name) ==> UserAlias(name) == Some(UserAttribute(FIRST_NAME, String, false))
    ensures NamesLastName(name) ==> UserAlias(name) == Some(UserAttribute(LAST_NAME, String, false))
    ensures NamesAvatar(name) ==> UserAlias(name) == Some(UserAttribute(AVATAR, JpegPhoto, false))
  {
    hide UserAlias;
    FirstNames(name);
    LastNames(name);
    Photos(name);
  }

  lemma Specials(name: string)
    ensures NamesGroups(name) ==> UserAlias(name) == Some(UserMemberOf)
    ensures NamesDn(name) ==> UserAlias(name) == Some(UserDnField)
    ensures name == "objectclass" ==> UserAlias(name) == Some(UserObjectClass)
    ensures name == "entrydn" ==> UserAlias(name) == Some(UserEntryDn)
  {
  }

  lemma FreeNames(name: string)
    ensures IsFreeName(name) ==> UserAlias(name) == None
  {
  }

  lemma MapsAlias(field: string, schema: Schema)
    ensures UserAlias(field).Some? ==> MapUserField(field, schema) == UserAlias(field).value
  {
    hide UserAlias;
  }

  // ----- What is shown -----

  lemma ColumnShown(info: LdapInfo, db: Db, restricted: bool, u: string, field: string, c: UserColumn)
    requires u in db.users && UserAlias(Lower(field)) == Some(UserPrimary(c)) && FilterColumn(c)
    ensures var text := ColumnText(db.users[u], u, c);
      if text.None? then ShowsNothing(info, db, restricted, u, field)
      else ShowsText(info, db, restricted, u, field, text.value)
  {
    hide UserAlias, MapUserField, ViewerSchema, GroupListOf, UserAttributesOf;
    MapsAlias(Lower(field), ViewerSchema(db, restricted));
  }

  /** Every spelling of a column shows that column. */
  lemma NamedColumnsShown(info: LdapInfo, db: Db, restricted: bool, u: string, field: string)
    requires u in db.users
    ensures var name, row := Lower(field), db.users[u];
      && (NamesUid(name) ==> ShowsText(info, db, restricted, u, field, u))
      && (NamesMail(name) ==> ShowsText(info, db, restricted, u, field, row.email))
      && (NamesDisplayName(name) ==>
            if row.displayName.None? then ShowsNothing(info, db, restricted, u, field)
            else ShowsText(info, db, restricted, u, field, row.displayName.value))
      && (NamesCreation(name) ==> ShowsText(info, db, restricted, u, field, row.creationDate))
      && (NamesUuid(name) ==> ShowsText(info, db, restricted, u, field, row.uuid))
  {
    hide UserAlias, ShowsText, ShowsNothing;
    Columns(Lower(field));
    var alias := UserAlias(Lower(field));
    if alias.Some? && alias.value.UserPrimary? && FilterColumn(alias.value.column) {
      ColumnShown(info, db, restricted, u, field, alias.value.column);
    }
  }

  /** What a field that maps to a visible attribute shows. */
  lemma AttributeIsShown(info: LdapInfo, db: Db, restricted: bool, u: string, field: string, name: string)
    requires Valid(db) && u in db.users && name in db.userSchema && VisibleTo(db.userSchema[name], restricted)
    requires var m := MapUserField(Lower(field), ViewerSchema(db, restricted)); m.UserAttribute? && m.name == name
    ensures ShowsAttribute(info, db, restricted, u, field, name)
  {
    hide Valid, MapUserField, ViewerSchema, GetCustomAttribute, GroupListOf, UserAttributesOf, StoredUserValue, Unseen,
      TypedValues;
    UserCustomAttribute(db, restricted, u, name);
    var v := StoredOrAbsent(db, u, name);
    if v.Some? {
      DroppedUnseen(v.value);
    }
  }

  lemma HardcodedVisible(db: Db, restricted: bool)
    requires Valid(db)
    ensures forall name :: name in [FIRST_NAME, LAST_NAME, AVATAR] ==>
      name in db.userSchema && VisibleTo(db.userSchema[name], restricted)
    ensures db.userSchema[FIRST_NAME] == HARDCODED_TEXT && db.userSchema[LAST_NAME] == HARDCODED_TEXT
    ensures db.userSchema[AVATAR] == HARDCODED_PHOTO
  {
  }

  /** Every spelling of a name or of the photo shows that attribute; any other name shows
      the attribute of that name, if there is one that the viewer may see. */
  lemma NamedAttributesShown(info: LdapInfo, db: Db, restricted: bool, u: string, field: string)
    requires Valid(db) && u in db.users
    ensures var name := Lower(field);
      && (NamesFirstName(name) ==> ShowsAttribute(info, db, restricted, u, field, "first_name"))
      && (NamesLastName(name) ==> ShowsAttribute(info, db, restricted, u, field, "last_name"))
      && (NamesAvatar(name) ==> ShowsAttribute(info, db, restricted, u, field, "avatar"))
      && (IsFreeName(name) && name != "*" ==>
            if name in db.userSchema && VisibleTo(db.userSchema[name], restricted) then
              ShowsAttribute(info, db, restricted, u, field, name)
            else ShowsNothing(info, db, restricted, u, field))
  {
    hide UserAlias, ShowsAttribute, Valid, MapUserField, ViewerSchema, ShowsNothing, IsFreeName;
    var name := Lower(field);
    Others(name);
    MapsAlias(name, ViewerSchema(db, restricted));
    HardcodedVisible(db, restricted);
    if NamesFirstName(name) {
      AttributeIsShown(info, db, restricted, u, field, FIRST_NAME);
    }
    if NamesLastName(name) {
      AttributeIsShown(info, db, restricted, u, field, LAST_NAME);
    }
    if NamesAvatar(name) {
      AttributeIsShown(info, db, restricted, u, field, AVATAR);
    }
    if IsFreeName(name) && name != "*" {
      FreeNameMaps(db, restricted, name);
      if name in db.userSchema && VisibleTo(db.userSchema[name], restricted) {
        AttributeIsShown(info, db, restricted, u, field, name);
      } else {
        UnknownShown(info, db, restricted, u, field);
      }
    }
  }

  /** A free name maps to the visible attribute of that name, or to nothing. */
  lemma FreeNameMaps(db: Db, restricted: bool, name: string)
    requires IsFreeName(name)
    ensures MapUserField(name, ViewerSchema(db, restricted)) ==
      if name in db.userSchema && VisibleTo(db.userSchema[name], restricted) then
        UserAttribute(name, db.userSchema[name].typ, db.userSchema[name].isList)
      else UserNoMatch
    ensures GetAttributeSchema(ViewerSchema(db, restricted).userAttributes, name).Some? ==>
      name in db.userSchema && VisibleTo(db.userSchema[name], restricted)
  {
    hide UserAlias, ViewerSchema, GetAttributeSchema, BuiltinUserRow, IsFreeName;
    FreeNames(name);
    ViewerUserLookup(db, restricted, name);
    if BuiltinUserRow(name).Some? {
      BuiltinUserNames(name);
    }
  }

  lemma UnknownShown(info: LdapInfo, db: Db, restricted: bool, u: string, field: string)
    requires u in db.users && Lower(field) != "*"
    requires MapUserField(Lower(field), ViewerSchema(db, restricted)) == UserNoMatch
    requires GetAttributeSchema(ViewerSchema(db, restricted).userAttributes, Lower(field)).None?
    ensures ShowsNothing(info, db, restricted, u, field)
  {
    hide MapUserField, ViewerSchema, GetAttributeSchema, GroupListOf, UserAttributesOf;
  }

  /** Classes, names and groups. */
  lemma NamedRestShown(info: LdapInfo, db: Db, restricted: bool, u: string, field: string)
    requires u in db.users
    ensures var name, shown := Lower(field), Shown(info, db, restricted, u, field);
      && (name == "objectclass" ==>
            shown == L.Ok(Some(PlainValues(["inetOrgPerson", "posixAccount", "mailAccount", "person"] +
                                           ViewerSchema(db, restricted).extraUserClasses))))
      && (name == "entrydn" ==> ShowsText(info, db, restricted, u, field, UserDn(u, info.baseStr)))
      && (NamesDn(name) ==> ShowsNothing(info, db, restricted, u, field))
      && (NamesGroups(name) ==>
            shown.Ok? && shown.value.Some? && |shown.value.value| == |GroupListOf(db, u)| &&
            forall x :: x in shown.value.value <==>
              exists g :: g in GroupsOf(db, u) && x == Plain(GroupDn(db.groups[g].displayName, info.baseStr)))
  {
    hide UserAlias, MapUserField, ViewerSchema, GroupListOf, UserAttributesOf;
    Specials(Lower(field));
    MapsAlias(Lower(field), ViewerSchema(db, restricted));
    if NamesGroups(Lower(field)) {
      GroupsShown(info, db, restricted, u, field);
    }
  }

  lemma GroupsShown(info: LdapInfo, db: Db, restricted: bool, u: string, field: string)
    requires u in db.users && MapUserField(Lower(field), ViewerSchema(db, restricted)) == UserMemberOf
    ensures Shown(info, db, restricted, u, field) == L.Ok(Some(GroupDns(GroupListOf(db, u), info.baseStr)))
    ensures forall x :: x in GroupDns(GroupListOf(db, u), info.baseStr) <==>
      exists g :: g in GroupsOf(db, u) && x == Plain(GroupDn(db.groups[g].displayName, info.baseStr))
  {
    hide MapUserField, ViewerSchema, GroupListOf, UserAttributesOf, GroupsOf;
    ShownMemberOf(info, ViewerSchema(db, restricted), db, u, field);
    GroupDnsSeen(db, u, info.baseStr);
    assert ShownUser(info, ViewerSchema(db, restricted), db, u, field) == GroupDns(GroupListOf(db, u), info.baseStr);
  }

  lemma GroupDnsSeen(db: Db, u: string, baseStr: string)
    ensures DropEmpty(Some(GroupDns(GroupListOf(db, u), baseStr))) == Some(GroupDns(GroupListOf(db, u), baseStr))
  {
    hide GroupListOf;
    assert forall name: string :: |GroupDn(name, baseStr)| > 0;
  }

  // ----- Whom a test finds -----

  /** An accepted equality test finds those of whom its meaning is true. */
  lemma FindsByMeaning(info: LdapInfo, lib: Parsers, db: Db, restricted: bool, u: string, field: string, value: string)
    requires Valid(db) && ValidInfo(info) && u in db.users
    requires Converted(info, lib, db, restricted, L.Equality(field, value)).Ok?
    ensures Finds(info, lib, db, restricted, L.Equality(field, value), u,
                  UserEqualityMeaning(info, lib, ViewerSchema(db, restricted), db, u, Lower(field), Lower(value)) ==
                    True)
  {
    hide ViewerSchema, ConvertUserFilter, UserEqualityMeaning, UserFilterExpr, Valid, ValidInfo, PanicsOn;
    SearchSelectsUsers(info, lib, db, restricted, L.Equality(field, value));
  }

  /** A test of a column is always accepted, and finds those whose column has the value. */
  lemma NamedColumnsTested(info: LdapInfo, lib: Parsers, db: Db, restricted: bool, u: string, field: string,
                           value: string)
    requires Valid(db) && ValidInfo(info) && u in db.users
    ensures var name, row, f := Lower(field), db.users[u], L.Equality(field, value);
      && (NamesUid(name) ==> Finds(info, lib, db, restricted, f, u, u == Lower(value)))
      && (NamesMail(name) ==> Finds(info, lib, db, restricted, f, u, Lower(row.email) == Lower(value)))
      && (NamesDisplayName(name) ==> Finds(info, lib, db, restricted, f, u, row.displayName == Some(Lower(value))))
      && (NamesCreation(name) ==> Finds(info, lib, db, restricted, f, u, row.creationDate == Lower(value)))
      && (NamesUuid(name) ==> Finds(info, lib, db, restricted, f, u, row.uuid == Lower(value)))
  {
    hide UserAlias, MapUserField, ViewerSchema, Valid, ValidInfo, Finds;
    Columns(Lower(field));
    MapsAlias(Lower(field), ViewerSchema(db, restricted));
    if Converted(info, lib, db, restricted, L.Equality(field, value)).Ok? {
      FindsByMeaning(info, lib, db, restricted, u, field, value);
    }
  }

  lemma AttributeTested(info: LdapInfo, lib: Parsers, db: Db, restricted: bool, u: string, field: string,
                        value: string, name: string)
    requires Valid(db) && ValidInfo(info) && u in db.users && name in db.userSchema
    requires MapUserField(Lower(field), ViewerSchema(db, restricted)) ==
      UserAttribute(name, db.userSchema[name].typ, db.userSchema[name].isList)
    ensures FindsStored(info, lib, db, restricted, field, value, u, name)
  {
    hide MapUserField, ViewerSchema, Valid, ValidInfo, Finds, ParseValue, StoredUserValue;
    if Converted(info, lib, db, restricted, L.Equality(field, value)).Ok? {
      FindsByMeaning(info, lib, db, restricted, u, field, value);
    }
  }

  /** The same of attributes, where the assertion must parse. A test of an unknown name is
      accepted and finds nobody. */
  lemma NamedAttributesTested(info: LdapInfo, lib: Parsers, db: Db, restricted: bool, u: string, field: string,
                              value: string)
    requires Valid(db) && ValidInfo(info) && u in db.users
    ensures (forall name :: name in [FIRST_NAME, LAST_NAME, AVATAR] ==> name in db.userSchema)
    ensures var name := Lower(field);
      && (NamesFirstName(name) ==> FindsStored(info, lib, db, restricted, field, value, u, FIRST_NAME))
      && (NamesLastName(name) ==> FindsStored(info, lib, db, restricted, field, value, u, LAST_NAME))
      && (NamesAvatar(name) ==> FindsStored(info, lib, db, restricted, field, value, u, AVATAR))
      && (IsFreeName(name) ==>
            if name in db.userSchema && VisibleTo(db.userSchema[name], restricted) then
              FindsStored(info, lib, db, restricted, field, value, u, name)
            else Finds(info, lib, db, restricted, L.Equality(field, value), u, false))
  {
    hide UserAlias, MapUserField, ViewerSchema, Valid, ValidInfo, Finds, IsFreeName, FindsStored;
    var name := Lower(field);
    Others(name);
    MapsAlias(name, ViewerSchema(db, restricted));
    HardcodedVisible(db, restricted);
    if NamesFirstName(name) {
      AttributeTested(info, lib, db, restricted, u, field, value, FIRST_NAME);
    }
    if NamesLastName(name) {
      AttributeTested(info, lib, db, restricted, u, field, value, LAST_NAME);
    }
    if NamesAvatar(name) {
      AttributeTested(info, lib, db, restricted, u, field, value, AVATAR);
    }
    if IsFreeName(name) {
      FreeNameMaps(db, restricted, name);
      if name in db.userSchema && VisibleTo(db.userSchema[name], restricted) {
        AttributeTested(info, lib, db, restricted, u, field, value, name);
      } else {
        FindsByMeaning(info, lib, db, restricted, u, field, value);
      }
    }
  }

  /** A test of classes or of the own name is always accepted; classes need no entry to be
      looked at. */
  lemma NamedRestTested(info: LdapInfo, lib: Parsers, db: Db, restricted: bool, u: string, field: string, value: string)
    requires Valid(db) && ValidInfo(info) && u in db.users
    ensures var name, f, v := Lower(field), L.Equality(field, value), Lower(value);
      && (name == "objectclass" ==>
            Finds(info, lib, db, restricted, f, u,
                  v == "person" || v == "inetorgperson" || v == "posixaccount" || v == "mailaccount" ||
                  HasClass(ViewerSchema(db, restricted).extraUserClasses, v)))
      && (name == "entrydn" || NamesDn(name) ==>
            Finds(info, lib, db, restricted, f, u, GetUserId(v, info.base) == L.Ok(u)))
  {
    hide UserAlias, MapUserField, ViewerSchema, Valid, ValidInfo, Finds, GetIdFromDistinguishedName, HasClass,
      NamesGroups, NamesDn;
    Specials(Lower(field));
    MapsAlias(Lower(field), ViewerSchema(db, restricted));
    IdShape(info, value, false);
    if Converted(info, lib, db, restricted, L.Equality(field, value)).Ok? {
      FindsByMeaning(info, lib, db, restricted, u, field, value);
    }
  }

  ghost predicate IsInNamed(db: Db, u: string, lowerName: string) {
    exists g :: g in GroupsOf(db, u) && Lower(db.groups[g].displayName) == lowerName
  }

  /** A test of groups must name one, and finds those who are in the group of that name. */
  lemma NamedGroupsTested(info: LdapInfo, lib: Parsers, db: Db, restricted: bool, u: string, field: string,
                          value: string)
    requires Valid(db) && ValidInfo(info) && u in db.users && NamesGroups(Lower(field))
    ensures var f := L.Equality(field, value);
      match GetGroupName(Lower(value), info.base)
      case Ok(name) => Finds(info, lib, db, restricted, f, u, IsInNamed(db, u, name))
      case _ => IsRefused(info, lib, db, restricted, f)
  {
    hide UserAlias, MapUserField, ViewerSchema, Valid, ValidInfo, Finds, GetIdFromDistinguishedName, GroupsOf, NamesDn;
    Specials(Lower(field));
    MapsAlias(Lower(field), ViewerSchema(db, restricted));
    IdShape(info, value, true);
    if Converted(info, lib, db, restricted, L.Equality(field, value)).Ok? {
      FindsByMeaning(info, lib, db, restricted, u, field, value);
      GroupsExist(db, u);
      assert (exists g :: g in GroupsOf(db, u) &&
                GetGroupName(Lower(value), info.base) == L.Ok(Lower(db.groups[g].displayName))) <==>
             exists g :: g in GroupsOf(db, u) &&
               Lower(db.groups[g].displayName) == GetGroupName(Lower(value), info.base).value;
    }
  }

  /** The name is that of no column, attribute or anything else that the viewer may see. */
  predicate IsUnknown(db: Db, restricted: bool, name: string) {
    IsFreeName(name) && !(name in db.userSchema && VisibleTo(db.userSchema[name], restricted))
  }

  lemma UnknownMaps(db: Db, restricted: bool, name: string)
    ensures MapUserField(name, ViewerSchema(db, restricted)).UserNoMatch? <==> IsUnknown(db, restricted, name)
  {
    hide UserAlias, MapUserField, ViewerSchema, IsFreeName;
    Columns(name);
    Others(name);
    Specials(name);
    MapsAlias(name, ViewerSchema(db, restricted));
    if IsFreeName(name) {
      FreeNameMaps(db, restricted, name);
    } else {
      NotFree(name);
    }
  }

  /** A presence test is always accepted, and finds everyone exactly if the name is known. */
  lemma PresenceTested(info: LdapInfo, lib: Parsers, db: Db, restricted: bool, u: string, field: string)
    requires Valid(db) && ValidInfo(info) && u in db.users
    ensures Finds(info, lib, db, restricted, L.Present(field), u, !IsUnknown(db, restricted, Lower(field)))
  {
    hide MapUserField, ViewerSchema, Valid, ValidInfo, UserFilterExpr, PanicsOn, IsUnknown;
    UnknownMaps(db, restricted, Lower(field));
    SearchSelectsUsers(info, lib, db, restricted, L.Present(field));
  }

  lemma SubstringMeaning(info: LdapInfo, lib: Parsers, db: Db, restricted: bool, u: string, field: string,
                         s: SubStringFilter)
    requires Valid(db) && ValidInfo(info) && u in db.users
    requires Converted(info, lib, db, restricted, L.Substring(field, s)).Ok?
    ensures Finds(info, lib, db, restricted, L.Substring(field, s), u,
                  LdapUserMeaning(info, lib, ViewerSchema(db, restricted), db, u, L.Substring(field, s)) == True)
  {
    hide ViewerSchema, ConvertUserFilter, LdapUserMeaning, UserFilterExpr, Valid, ValidInfo, PanicsOn;
    SearchSelectsUsers(info, lib, db, restricted, L.Substring(field, s));
  }

  /** Substring tests of ids, emails and display names are accepted, and find those whose
      text matches the pattern; those of unknown names find nobody; others are refused. */
  lemma SubstringsTested(info: LdapInfo, lib: Parsers, db: Db, restricted: bool, u: string, field: string,
                         s: SubStringFilter)
    requires Valid(db) && ValidInfo(info) && u in db.users
    ensures var name, row, f := Lower(field), db.users[u], L.Substring(field, s);
      if NamesUid(name) then Finds(info, lib, db, restricted, f, u, Matches(SqlPattern(s), u))
      else if NamesMail(name) then Finds(info, lib, db, restricted, f, u, Matches(SqlPattern(s), Lower(row.email)))
      else if NamesDisplayName(name) then
        Finds(info, lib, db, restricted, f, u,
              row.displayName.Some? && Matches(SqlPattern(s), Lower(row.displayName.value)))
      else if IsUnknown(db, restricted, name) then Finds(info, lib, db, restricted, f, u, false)
      else IsRefused(info, lib, db, restricted, f)
  {
    hide UserAlias, MapUserField, ViewerSchema, Valid, ValidInfo, Finds, Matches, SqlPattern, IsUnknown, IsFreeName;
    var name := Lower(field);
    Columns(name);
    MapsAlias(name, ViewerSchema(db, restricted));
    UnknownMaps(db, restricted, name);
    MapsToColumn(db, restricted, name);
    if Converted(info, lib, db, restricted, L.Substring(field, s)).Ok? {
      SubstringMeaning(info, lib, db, restricted, u, field, s);
    }
  }

  /** Only these names map to columns, and each to its own. */
  lemma MapsToColumn(db: Db, restricted: bool, name: string)
    ensures var m := MapUserField(name, ViewerSchema(db, restricted));
      m.UserPrimary? ==>
        (m.column == UserId && NamesUid(name)) || (m.column == Email && NamesMail(name)) ||
        (m.column == UserDisplayName && NamesDisplayName(name)) ||
          (m.column == UserCreationDate && NamesCreation(name)) ||
        (m.column == UserUuid && NamesUuid(name))
  {
    hide UserAlias, MapUserField, ViewerSchema, IsFreeName;
    Columns(name);
    Others(name);
    Specials(name);
    MapsAlias(name, ViewerSchema(db, restricted));
    if IsFreeName(name) {
      FreeNameMaps(db, restricted, name);
    } else {
      NotFree(name);
    }
  }

  lemma NotFree(name: string)
    requires !IsFreeName(name)
    ensures NamesUid(name) || NamesMail(name) || NamesDisplayName(name) || NamesFirstName(name) ||
            NamesLastName(name) || NamesAvatar(name) || NamesCreation(name) || NamesUuid(name) || NamesGroups(name) ||
            NamesDn(name) || name == "objectclass" || name == "entrydn"
  {
  }

  // ----- Classes -----

  /** The extra classes of users and of groups are those that were added for them. */
  lemma ClassesOfViewer(db: Db, restricted: bool, name: string)
    ensures name in ViewerSchema(db, restricted).extraUserClasses <==> name in db.userClasses.Values
    ensures name in ViewerSchema(db, restricted).extraGroupClasses <==> name in db.groupClasses.Values
  {
  }
}
