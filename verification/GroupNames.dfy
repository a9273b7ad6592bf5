/** The same for groups: which stored value an entry shows a viewer under each name, and
    which groups a test of it finds. */
module GroupNames {
  import opened Wrappers
  import opened Text
  import opened Ordering
  import opened Codec
  import opened Schema
  import opened Like
  import opened Database
  import opened Sql
  import opened Filters
  import opened DistinguishedName
  import opened LdapFilters
  import opened Listing
  import opened Search
  import opened SearchProperties
  import opened MatchingRules
  import opened StandardUsers
  import opened StandardGroups
  import L = Ldap

  // ----- What is asked and answered -----

  ghost function Shown(info: LdapInfo, db: Db, only: Option<string>, g: int, field: string): L.LdapResult<Values>
    requires g in db.groups
  {
    GetGroupAttribute(FullGroup(db, g), field, only, info, ViewerSchema(db, only.Some?))
  }

  ghost predicate ShowsNothing(info: LdapInfo, db: Db, only: Option<string>, g: int, field: string)
    requires g in db.groups
  {
    Shown(info, db, only, g, field) == L.Ok(None)
  }

  ghost predicate ShowsText(info: LdapInfo, db: Db, only: Option<string>, g: int, field: string, text: string)
    requires g in db.groups
  {
    if text == "" then ShowsNothing(info, db, only, g, field)
    else Shown(info, db, only, g, field) == L.Ok(Some([Plain(text)]))
  }

  /** Exactly the stored value is shown; of a hidden attribute called like the built-in
      number, the number that its bytes begin with. */
  ghost predicate ShowsAttribute(info: LdapInfo, db: Db, only: Option<string>, g: int, field: string, name: string)
    requires g in db.groups
  {
    if AttributeKey(g, name) !in db.groupAttributes then ShowsNothing(info, db, only, g, field)
    else
      exists v :: ReadGroupValue(db, only, g, name, v) &&
        Shown(info, db, only, g, field) == L.Ok(if Unseen(v) then None else Some(TypedValues(v)))
  }

  ghost function Converted(info: LdapInfo, lib: Parsers, uuids: UuidParser, db: Db, restricted: bool, f: L.LdapFilter)
    : L.LdapResult<GroupFilter>
  {
    ConvertGroupFilter(info, lib, uuids, ViewerSchema(db, restricted), f)
  }

  ghost predicate IsRefused(info: LdapInfo, lib: Parsers, uuids: UuidParser, db: Db, restricted: bool,
                            f: L.LdapFilter) {
    Converted(info, lib, uuids, db, restricted, f).Err?
  }

  /** The filter is accepted, and finds the group exactly if this holds. */
  ghost predicate Finds(info: LdapInfo, lib: Parsers, uuids: UuidParser, db: Db, restricted: bool, f: L.LdapFilter,
                        g: int, holds: bool)
  {
    var h := Converted(info, lib, uuids, db, restricted, f);
    h.Ok? && (g in SelectGroups(db, GroupListCondition(Some(h.value))) <==> holds)
  }

  /** A test of an attribute is accepted exactly if the lower-cased assertion parses at its
      type, and then finds the groups whose stored bytes are those of what it parses to. */
  ghost predicate FindsStored(info: LdapInfo, lib: Parsers, uuids: UuidParser, db: Db, restricted: bool, field: string,
                              value: string, g: int, name: string, typ: AttributeType, isList: bool)
  {
    var f := L.Equality(field, value);
    match ParseValue(lib, [Lower(value)], typ, isList)
    case None => IsRefused(info, lib, uuids, db, restricted, f)
    case Some(v) => Finds(info, lib, uuids, db, restricted, f, g, ReadsAs(db, g, name, typ, isList, v))
  }

  // ----- The names -----

  predicate NamesCn(name: string) {
    name == "cn" || name == "displayname" || name == "uid" || name == "display_name" || name == "id"
  }

  predicate NamesCreation(name: string) {
    name == "creationdate" || name == "createtimestamp" || name == "modifytimestamp" || name == "creation_date"
  }

  predicate NamesUuid(name: string) {
    name == "entryuuid" || name == "uuid"
  }

  predicate NamesMembers(name: string) {
    name == "member" || name == "uniquemember"
  }

  predicate NamesDn(name: string) {
    name == "dn" || name == "distinguishedname"
  }

  predicate IsFreeName(name: string) {
    && !NamesCn(name) && !NamesCreation(name) && !NamesUuid(name) && !NamesMembers(name) && !NamesDn(name)
    && name != "objectclass" && name != "entrydn"
  }

  /** The name is that of nothing that the viewer may see; "group_id" is built in. */
  predicate IsUnknown(db: Db, restricted: bool, name: string) {
    IsFreeName(name) && name != "group_id" && !(name in db.groupSchema && VisibleTo(db.groupSchema[name], restricted))
  }

  lemma Texts(name: string)
    ensures NamesCn(name) ==> GroupAlias(name) == Some(GroupDisplayNameField)
  {
  }

  lemma Dates(name: string)
    ensures NamesCreation(name) ==> GroupAlias(name) == Some(GroupCreationDateField)
    ensures NamesUuid(name) ==> GroupAlias(name) == Some(GroupUuidField)
  {
  }

  lemma Specials(name: string)
    ensures NamesMembers(name) ==> GroupAlias(name) == Some(GroupMember)
    ensures NamesDn(name) ==> GroupAlias(name) == Some(GroupDnField)
    ensures name == "objectclass" ==> GroupAlias(name) == Some(GroupObjectClass)
    ensures name == "entrydn" ==> GroupAlias(name) == Some(GroupEntryDn)
  {
  }

  lemma FreeNames(name: string)
    ensures IsFreeName(name) ==> GroupAlias(name) == None
  {
  }

  lemma NotFree(name: string)
    requires !IsFreeName(name)
    ensures NamesCn(name) || NamesCreation(name) || NamesUuid(name) || NamesMembers(name) || NamesDn(name) ||
            name == "objectclass" || name == "entrydn"
  {
  }

  /** What every name but a free one maps to. */
  lemma NamesMap(db: Db, restricted: bool, name: string)
    ensures var m := MapGroupField(name, ViewerSchema(db, restricted));
      && (NamesCn(name) ==> m == GroupDisplayNameField)
      && (NamesCreation(name) ==> m == GroupCreationDateField)
      && (NamesUuid(name) ==> m == GroupUuidField)
      && (NamesMembers(name) ==> m == GroupMember)
      && (NamesDn(name) ==> m == GroupDnField)
      && (name == "objectclass" ==> m == GroupObjectClass)
      && (name == "entrydn" ==> m == GroupEntryDn)
  {
    hide GroupAlias, ViewerSchema, GetAttributeSchema;
    Texts(name);
    Dates(name);
    Specials(name);
  }

  /** The type at which a free name is read: that of the visible row, or of the built-in
      number. */
  ghost function FreeType(db: Db, restricted: bool, name: string): (AttributeType, bool) {
    if name in db.groupSchema && VisibleTo(db.groupSchema[name], restricted) then
      (db.groupSchema[name].typ, db.groupSchema[name].isList)
    else (Integer, false)
  }

  lemma FreeNameMaps(db: Db, restricted: bool, name: string)
    requires IsFreeName(name)
    ensures MapGroupField(name, ViewerSchema(db, restricted)) ==
      if IsUnknown(db, restricted, name) then GroupNoMatch
      else GroupAttribute(name, FreeType(db, restricted, name).0, FreeType(db, restricted, name).1)
    ensures IsUnknown(db, restricted, name) ==>
      GetAttributeSchema(ViewerSchema(db, restricted).groupAttributes, name).None?
  {
    hide GroupAlias, ViewerSchema, GetAttributeSchema, BuiltinGroupRow, IsFreeName;
    FreeNames(name);
    GroupIdIsNoAlias();
    ViewerGroupLookup(db, restricted, name);
    if BuiltinGroupRow(name).Some? {
      BuiltinGroupNames(name);
    }
  }

  // ----- What is shown -----

  /** Every spelling of a column shows that column. */
  lemma NamedColumnsShown(info: LdapInfo, db: Db, only: Option<string>, g: int, field: string)
    requires g in db.groups
    ensures var name, row := Lower(field), db.groups[g];
      && (NamesCn(name) ==> ShowsText(info, db, only, g, field, row.displayName))
      && (NamesCreation(name) ==> ShowsText(info, db, only, g, field, row.creationDate))
      && (NamesUuid(name) ==> ShowsText(info, db, only, g, field, row.uuid))
      && (name == "entrydn" ==>
            ShowsText(info, db, only, g, field, "uid=" + row.displayName + ",ou=groups," + info.baseStr))
      && (NamesDn(name) ==> ShowsNothing(info, db, only, g, field))
      && (name == "objectclass" ==>
            Shown(info, db, only, g, field) ==
              L.Ok(Some(PlainValues(["groupOfUniqueNames"] + ViewerSchema(db, only.Some?).extraGroupClasses))))
  {
    hide MapGroupField, ViewerSchema, MembersOf, GroupAttributesOf;
    NamesMap(db, only.Some?, Lower(field));
  }

  /** Members are those that the viewer may see, by their printed names. */
  lemma NamedMembersShown(info: LdapInfo, db: Db, only: Option<string>, g: int, field: string)
    requires g in db.groups && NamesMembers(Lower(field))
    ensures var shown := Shown(info, db, only, g, field);
      shown.Ok? && shown.value.Some? &&
      forall x :: x in shown.value.value <==>
        exists u: string :: Membership(u, g) in db.memberships && (only.None? || u == only.value) &&
          x == Plain(UserDn(u, info.baseStr))
  {
    hide MapGroupField, ViewerSchema, MembersOf, GroupAttributesOf, MemberDns, UserDn;
    NamesMap(db, only.Some?, Lower(field));
    ShownMembers(info, db, only, g, field);
    PrintedIsNotEmpty(Sorted(MembersOf(db, g)), only, info.baseStr);
    assert ShownGroup(info, db, only, g, field) == Shown(info, db, only, g, field).value.value;
    forall x
      ensures x in ShownGroup(info, db, only, g, field) <==>
        exists u: string :: Membership(u, g) in db.memberships && (only.None? || u == only.value) &&
          x == Plain(UserDn(u, info.baseStr))
    {
      assert forall u: string ::
          ShownMember(db, only, g, u) <==> Membership(u, g) in db.memberships && (only.None? || u == only.value);
    }
  }

  /** Any other name shows the attribute of that name. */
  lemma NamedAttributesShown(info: LdapInfo, db: Db, only: Option<string>, g: int, field: string)
    requires Valid(db) && g in db.groups
    ensures var name := Lower(field);
      IsFreeName(name) && name != "*" ==>
        if IsUnknown(db, only.Some?, name) then ShowsNothing(info, db, only, g, field)
        else ShowsAttribute(info, db, only, g, field, name)
  {
    hide MapGroupField, ViewerSchema, IsFreeName, Valid, ShowsAttribute, ShowsNothing, GetAttributeSchema;
    var name := Lower(field);
    if IsFreeName(name) && name != "*" {
      FreeNameMaps(db, only.Some?, name);
      if IsUnknown(db, only.Some?, name) {
        UnknownShown(info, db, only, g, field);
      } else {
        FreeShown(info, db, only, g, field);
      }
    }
  }

  lemma UnknownShown(info: LdapInfo, db: Db, only: Option<string>, g: int, field: string)
    requires g in db.groups && Lower(field) != "*"
    requires MapGroupField(Lower(field), ViewerSchema(db, only.Some?)) == GroupNoMatch
    requires GetAttributeSchema(ViewerSchema(db, only.Some?).groupAttributes, Lower(field)).None?
    ensures ShowsNothing(info, db, only, g, field)
  {
    hide MapGroupField, ViewerSchema, GetAttributeSchema, MembersOf, GroupAttributesOf;
  }

  lemma FreeShown(info: LdapInfo, db: Db, only: Option<string>, g: int, field: string)
    requires Valid(db) && g in db.groups
    requires var m :=
      MapGroupField(Lower(field), ViewerSchema(db, only.Some?)); m.GroupAttribute? && m.name == Lower(field)
    ensures ShowsAttribute(info, db, only, g, field, Lower(field))
  {
    hide Valid, ViewerSchema, MapGroupField, GetCustomAttribute, GroupAttributesOf, MembersOf, ReadGroupValue, Unseen,
      TypedValues, BuiltinGroupRow, GroupAlias;
    var name := Lower(field);
    GroupFieldSeen(db, only, field);
    if SeesGroupRow(db, only, name) {
      ReadIsStored(db, only, g, name);
      GroupCustomAttribute(db, only.Some?, g, name);
    } else {
      HiddenIsRead(db, only, g, name);
    }
    var v := ReadOrAbsent(db, only, g, name);
    if v.Some? {
      DroppedUnseen(v.value);
    }
  }

  lemma ReadIsStored(db: Db, only: Option<string>, g: int, name: string)
    requires SeesGroupRow(db, only, name)
    ensures forall v :: ReadGroupValue(db, only, g, name, v) <==> StoredGroupValue(db, g, name, v)
  {
  }

  // ----- Which groups a test finds -----

  lemma FindsByMeaning(info: LdapInfo, lib: Parsers, uuids: UuidParser, db: Db, restricted: bool, g: int,
                       f: L.LdapFilter)
    requires Valid(db) && ValidInfo(info) && g in db.groups && Converted(info, lib, uuids, db, restricted, f).Ok?
    ensures Finds(info, lib, uuids, db, restricted, f, g,
                  LdapGroupMeaning(info, lib, uuids, ViewerSchema(db, restricted), db, g, f) == True)
  {
    hide ViewerSchema, ConvertGroupFilter, LdapGroupMeaning, GroupListCondition, Valid, ValidInfo;
    SearchSelectsGroups(info, lib, uuids, db, restricted, f);
  }

  /** A test of a column finds the groups whose column has the value; that of a UUID must
      parse, and dates cannot be tested. */
  lemma NamedColumnsTested(info: LdapInfo, lib: Parsers, uuids: UuidParser, db: Db, restricted: bool, g: int,
                           field: string, value: string)
    requires Valid(db) && ValidInfo(info) && g in db.groups
    ensures var name, row, f, v := Lower(field), db.groups[g], L.Equality(field, value), Lower(value);
      && (NamesCn(name) ==> Finds(info, lib, uuids, db, restricted, f, g, Lower(row.displayName) == v))
      && (NamesCreation(name) ==> IsRefused(info, lib, uuids, db, restricted, f))
      && (NamesUuid(name) ==>
            match uuids(v)
            case None => IsRefused(info, lib, uuids, db, restricted, f)
            case Some(uuid) => Finds(info, lib, uuids, db, restricted, f, g, row.uuid == uuid))
  {
    hide MapGroupField, ViewerSchema, Valid, ValidInfo, Finds, GetIdFromDistinguishedName, HasClass, NamesCn,
      NamesCreation, NamesUuid, NamesMembers, NamesDn;
    NamesMap(db, restricted, Lower(field));
    if Converted(info, lib, uuids, db, restricted, L.Equality(field, value)).Ok? {
      FindsByMeaning(info, lib, uuids, db, restricted, g, L.Equality(field, value));
    }
  }

  /** A test of names goes by the id that is taken from them, and one of classes needs no
      group to be looked at. */
  lemma NamedRestTested(info: LdapInfo, lib: Parsers, uuids: UuidParser, db: Db, restricted: bool, g: int,
                        field: string, value: string)
    requires Valid(db) && ValidInfo(info) && g in db.groups
    ensures var name, row, f, v := Lower(field), db.groups[g], L.Equality(field, value), Lower(value);
      && (name == "entrydn" || NamesDn(name) ==>
            Finds(info, lib, uuids, db, restricted, f, g, GetGroupName(v, info.base) == L.Ok(Lower(row.displayName))))
      && (name == "objectclass" ==>
            Finds(info, lib, uuids, db, restricted, f, g,
                  v == "groupofuniquenames" || v == "groupofnames" ||
                  HasClass(ViewerSchema(db, restricted).extraGroupClasses, v)))
  {
    hide MapGroupField, ViewerSchema, Valid, ValidInfo, Finds, GetIdFromDistinguishedName, HasClass, NamesCn,
      NamesCreation, NamesUuid, NamesMembers, NamesDn;
    NamesMap(db, restricted, Lower(field));
    IdShape(info, value, true);
    if Converted(info, lib, uuids, db, restricted, L.Equality(field, value)).Ok? {
      FindsByMeaning(info, lib, uuids, db, restricted, g, L.Equality(field, value));
    }
  }

  /** A test of members must name one, and finds the groups that have them. */
  lemma NamedMembersTested(info: LdapInfo, lib: Parsers, uuids: UuidParser, db: Db, restricted: bool, g: int,
                           field: string, value: string)
    requires Valid(db) && ValidInfo(info) && g in db.groups && NamesMembers(Lower(field))
    ensures var f := L.Equality(field, value);
      match GetUserId(Lower(value), info.base)
      case Ok(id) => Finds(info, lib, uuids, db, restricted, f, g, Membership(id, g) in db.memberships)
      case _ => IsRefused(info, lib, uuids, db, restricted, f)
  {
    hide MapGroupField, ViewerSchema, Valid, ValidInfo, Finds, GetIdFromDistinguishedName, HasClass;
    NamesMap(db, restricted, Lower(field));
    IdShape(info, value, false);
    OneMembership(db, g);
    if Converted(info, lib, uuids, db, restricted, L.Equality(field, value)).Ok? {
      FindsByMeaning(info, lib, uuids, db, restricted, g, L.Equality(field, value));
    }
  }

  lemma OneMembership(db: Db, g: int)
    ensures forall id: string ::
      Membership(id, g) in db.memberships <==> exists m :: m in db.memberships && m.group == g && m.user == id
  {
    forall id: string
      ensures Membership(id, g) in db.memberships <==>
        exists m :: m in db.memberships && m.group == g && m.user == id
    {
      assert Membership(id, g).group == g && Membership(id, g).user == id;
    }
  }

  /** The same of attributes, where the assertion must parse. A test of an unknown name is
      accepted and finds no group. */
  lemma NamedAttributesTested(info: LdapInfo, lib: Parsers, uuids: UuidParser, db: Db, restricted: bool, g: int,
                              field: string, value: string)
    requires Valid(db) && ValidInfo(info) && g in db.groups && IsFreeName(Lower(field))
    ensures var name := Lower(field);
      var (typ, isList) := FreeType(db, restricted, name);
      if IsUnknown(db, restricted, name) then
        Finds(info, lib, uuids, db, restricted, L.Equality(field, value), g, false)
      else FindsStored(info, lib, uuids, db, restricted, field, value, g, name, typ, isList)
  {
    hide MapGroupField, ViewerSchema, Valid, ValidInfo, Finds, ParseValue, ReadsAs, IsFreeName, FreeType;
    FreeNameMaps(db, restricted, Lower(field));
    if Converted(info, lib, uuids, db, restricted, L.Equality(field, value)).Ok? {
      FindsByMeaning(info, lib, uuids, db, restricted, g, L.Equality(field, value));
    }
  }

  lemma UnknownMaps(db: Db, restricted: bool, name: string)
    ensures MapGroupField(name, ViewerSchema(db, restricted)).GroupNoMatch? <==> IsUnknown(db, restricted, name)
    ensures MapGroupField(name, ViewerSchema(db, restricted)).GroupDisplayNameField? <==> NamesCn(name)
  {
    hide MapGroupField, ViewerSchema, IsFreeName;
    NamesMap(db, restricted, name);
    if IsFreeName(name) {
      FreeNameMaps(db, restricted, name);
      FreeIsNoCn(name);
    } else {
      NotFree(name);
      if NamesCn(name) {
        OneMeaning(name);
      }
    }
  }

  lemma FreeIsNoCn(name: string)
    requires IsFreeName(name)
    ensures !NamesCn(name)
  {
  }

  lemma OneMeaning(name: string)
    requires NamesCn(name)
    ensures !NamesCreation(name) && !NamesUuid(name) && !NamesMembers(name) && !NamesDn(name)
    ensures name != "objectclass" && name != "entrydn"
  {
  }

  /** Presence is true of every group exactly if the name is known; substrings can only be
      asked of the name, and of unknown names in vain. */
  lemma OtherTests(info: LdapInfo, lib: Parsers, uuids: UuidParser, db: Db, restricted: bool, g: int, field: string,
                   s: SubStringFilter)
    requires Valid(db) && ValidInfo(info) && g in db.groups
    ensures var name, f := Lower(field), L.Substring(field, s);
      && Finds(info, lib, uuids, db, restricted, L.Present(field), g, !IsUnknown(db, restricted, name))
      && if NamesCn(name) then
           Finds(info, lib, uuids, db, restricted, f, g, Matches(SqlPattern(s), Lower(db.groups[g].displayName)))
         else if IsUnknown(db, restricted, name) then Finds(info, lib, uuids, db, restricted, f, g, false)
         else IsRefused(info, lib, uuids, db, restricted, f)
  {
    hide MapGroupField, ViewerSchema, Valid, ValidInfo, Finds, Matches, SqlPattern, IsUnknown, NamesCn;
    UnknownMaps(db, restricted, Lower(field));
    FindsByMeaning(info, lib, uuids, db, restricted, g, L.Present(field));
    if Converted(info, lib, uuids, db, restricted, L.Substring(field, s)).Ok? {
      FindsByMeaning(info, lib, uuids, db, restricted, g, L.Substring(field, s));
    }
  }
}
