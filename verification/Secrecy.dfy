/** What regular users cannot find out: the values of attributes that are hidden from
    them, and who else is in their groups. To each there is one exception. */
module Secrecy {
  import opened Wrappers
  import opened Text
  import opened Ordering
  import opened Codec
  import opened Schema
  import opened Like
  import opened Database
  import opened Sql
  import opened Filters
  import opened DistinguishedName
  import opened LdapFilters
  import opened Listing
  import opened AccessControl
  import opened Search
  import opened SearchProperties
  import L = Ldap
  import D = Directory
  import I = Invariants

  predicate IsVisible(schema: map<string, SchemaRow>, name: string) {
    name in schema && schema[name].isVisible
  }

  /** Visible attributes have the same values. */
  ghost predicate SameVisible(a: Db, b: Db) {
    && (forall k: AttributeKey<string> :: IsVisible(a.userSchema, k.name) ==>
          D.StoredAt(a.userAttributes, k) == D.StoredAt(b.userAttributes, k))
    && (forall k: AttributeKey<int> :: IsVisible(a.groupSchema, k.name) ==>
          D.StoredAt(a.groupAttributes, k) == D.StoredAt(b.groupAttributes, k))
  }

  /** The directories differ in nothing but values of hidden attributes. */
  ghost predicate SameButHidden(a: Db, b: Db) {
    b == a.(userAttributes := b.userAttributes, groupAttributes := b.groupAttributes) && SameVisible(a, b)
  }

  /** The user is in the same groups. */
  ghost predicate SameOwnGroups(a: Db, b: Db, me: string) {
    forall g: int :: Membership(me, g) in a.memberships <==> Membership(me, g) in b.memberships
  }

  /** The directories differ in nothing but which groups other users are in. */
  ghost predicate SameButOthers(a: Db, b: Db, me: string) {
    b == a.(memberships := b.memberships) && SameOwnGroups(a, b, me)
  }

  /** They differ in both. */
  ghost predicate SameToUser(a: Db, b: Db, me: string) {
    && b == a.(userAttributes := b.userAttributes, groupAttributes := b.groupAttributes, memberships := b.memberships)
    && SameVisible(a, b) && SameOwnGroups(a, b, me)
  }

  /** A hidden group attribute with the name of the built-in one. */
  predicate HiddenGroupId(db: Db) {
    "group_id" in db.groupSchema && !db.groupSchema["group_id"].isVisible
  }

  /** If there is one, it has the same values. */
  predicate SameNumbers(a: Db, b: Db) {
    HiddenGroupId(a) ==> a.groupAttributes == b.groupAttributes
  }

  /** A test of the member attribute with the name of another user. */
  predicate NamesAnother(info: LdapInfo, db: Db, me: string, field: string, value: string) {
    GroupAlias(Lower(field)) == Some(GroupMember) &&
    var id := GetUserId(Lower(value), info.base);
    id.Ok? && id.value != me && id.value in db.users
  }

  /** The filter has no such test. */
  predicate NamesNoOther(info: LdapInfo, db: Db, me: string, f: L.LdapFilter) {
    match f
    case And(fs) => forall g :: g in fs ==> NamesNoOther(info, db, me, g)
    case Or(fs) => forall g :: g in fs ==> NamesNoOther(info, db, me, g)
    case Not(g) => NamesNoOther(info, db, me, g)
    case Equality(field, value) => !NamesAnother(info, db, me, field, value)
    case _ => true
  }

  predicate MembersDoNotMatter(info: LdapInfo, a: Db, b: Db, me: string, f: L.LdapFilter) {
    a.memberships == b.memberships || NamesNoOther(info, a, me, f)
  }

  // ----- Only visible names are looked at -----

  lemma UserFieldVisible(a: Db, b: Db, field: string)
    requires Valid(a) && SameVisible(a, b)
    ensures var m := MapUserField(field, ViewerSchema(a, true));
      m.UserAttribute? ==>
        forall u :: D.StoredAt(a.userAttributes, AttributeKey(u, m.name)) ==
          D.StoredAt(b.userAttributes, AttributeKey(u, m.name))
  {
    hide UserAlias, ViewerSchema, D.StoredAt, WellTyped, GetAttributeSchema, BuiltinUserRow;
    var m := MapUserField(field, ViewerSchema(a, true));
    if m.UserAttribute? {
      if UserAlias(field).Some? {
        UserAliasKinds(field);
      } else {
        ViewerUserLookup(a, true, field);
        if BuiltinUserRow(field).Some? {
          BuiltinUserNames(field);
        }
      }
      assert IsVisible(a.userSchema, m.name);
      assert forall u: string :: AttributeKey(u, m.name).name == m.name;
    }
  }

  lemma GroupFieldVisible(a: Db, b: Db, field: string)
    requires Valid(a) && Valid(b) && a.groupSchema == b.groupSchema && SameVisible(a, b) && SameNumbers(a, b)
    ensures var m := MapGroupField(field, ViewerSchema(a, true));
      m.GroupAttribute? ==>
        forall g: int :: D.StoredAt(a.groupAttributes, AttributeKey(g, m.name)) ==
          D.StoredAt(b.groupAttributes, AttributeKey(g, m.name))
  {
    hide GroupAlias, ViewerSchema, WellTyped, GetAttributeSchema, BuiltinGroupRow;
    var m := MapGroupField(field, ViewerSchema(a, true));
    if m.GroupAttribute? {
      ViewerGroupLookup(a, true, field);
      if GroupAlias(field).Some? {
        GroupAliasKinds(field);
      } else if BuiltinGroupRow(field).Some? {
        BuiltinGroupNames(field);
      }
      forall g: int
        ensures D.StoredAt(a.groupAttributes, AttributeKey(g, m.name)) ==
          D.StoredAt(b.groupAttributes, AttributeKey(g, m.name))
      {
        assert HiddenGroupId(a) || IsVisible(a.groupSchema, AttributeKey(g, m.name).name) || m.name !in a.groupSchema;
      }
    }
  }

  // ----- Filters -----

  lemma UserColumnSame(a: Db, b: Db, u: string, f: UserFilter)
    requires SameToUser(a, b, u) && u in a.users
    requires !f.UserAnd? && !f.UserOr? && !f.UserNot? && !f.UserAttributeEquality?
    ensures UserMeaning(a, u, f) == UserMeaning(b, u, f)
  {
    OwnGroupsSame(a, b, u);
  }

  lemma OwnGroupsSame(a: Db, b: Db, u: string)
    requires SameToUser(a, b, u)
    ensures GroupsOf(a, u) == GroupsOf(b, u)
  {
    hide SameVisible;
    forall g: int
      ensures g in GroupsOf(a, u) <==> g in GroupsOf(b, u)
    {
      OwnGroups(a, u, g);
      OwnGroups(b, u, g);
    }
  }

  lemma OwnGroups(db: Db, u: string, g: int)
    ensures g in GroupsOf(db, u) <==> Membership(u, g) in db.memberships && g in db.groups
  {
    var m := Membership(u, g);
    assert m.user == u && m.group == g;
  }

  lemma BoolSame(a: Db, b: Db, u: string, value: bool)
    requires SameToUser(a, b, u) && u in a.users
    ensures UserMeaning(a, u, UserFromBool(value)) == UserMeaning(b, u, UserFromBool(value))
  {
    UserBoolMeaning(a, u, value);
    UserBoolMeaning(b, u, value);
  }

  lemma UserEqualitySame(a: Db, b: Db, info: LdapInfo, lib: Parsers, u: string, field: string, value: string)
    requires Valid(a) && SameToUser(a, b, u) && u in a.users
    requires ConvertUserEquality(info, lib, ViewerSchema(a, true), field, value).Ok?
    ensures var g := ConvertUserEquality(info, lib, ViewerSchema(a, true), field, value).value;
      UserMeaning(a, u, g) == UserMeaning(b, u, g)
  {
    hide Valid, SameToUser, MapUserField, ViewerSchema, GetIdFromDistinguishedName, HasClass,
      DeserializeAttributeValue, UserMeaning;
    var schema := ViewerSchema(a, true);
    var g := ConvertUserEquality(info, lib, schema, field, value).value;
    SameTables(a, b, u);
    match MapUserField(field, schema)
    case UserAttribute(name, typ, isList) =>
      UserFieldVisible(a, b, field);
      UserAttributeSame(a, b, u, name, g.bytes);
    case UserNoMatch => BoolSame(a, b, u, false);
    case UserObjectClass => BoolSame(a, b, u, IsUserClass(value, schema.extraUserClasses));
    case UserEntryDn =>
      if g.UserIdIs? { UserColumnSame(a, b, u, g); } else { BoolSame(a, b, u, false); }
    case UserDnField =>
      if g.UserIdIs? { UserColumnSame(a, b, u, g); } else { BoolSame(a, b, u, false); }
    case _ => UserColumnSame(a, b, u, g);
  }

  lemma UserAttributeSame(a: Db, b: Db, u: string, name: string, bytes: seq<byte>)
    requires SameToUser(a, b, u) && u in a.users
    requires D.StoredAt(a.userAttributes, AttributeKey(u, name)) == D.StoredAt(b.userAttributes, AttributeKey(u, name))
    ensures UserMeaning(a, u, UserAttributeEquality(name, bytes)) ==
      UserMeaning(b, u, UserAttributeEquality(name, bytes))
  {
  }

  lemma {:induction false} UserFilterSame(a: Db, b: Db, info: LdapInfo, lib: Parsers, u: string, f: L.LdapFilter)
    requires Valid(a) && SameToUser(a, b, u) && u in a.users
    requires ConvertUserFilter(info, lib, ViewerSchema(a, true), f).Ok?
    ensures var g := ConvertUserFilter(info, lib, ViewerSchema(a, true), f).value;
      UserMeaning(a, u, g) == UserMeaning(b, u, g)
    decreases f, 0
  {
    hide Valid, MapUserField, ViewerSchema, ConvertUserEquality, UserColumnValue, Matches, SqlPattern;
    var schema := ViewerSchema(a, true);
    match f
    case And(fs) => UserFiltersSame(a, b, info, lib, u, fs, false);
    case Or(fs) => UserFiltersSame(a, b, info, lib, u, fs, true);
    case Not(g) => UserFilterSame(a, b, info, lib, u, g);
    case Equality(field, value) => UserEqualitySame(a, b, info, lib, u, Lower(field), Lower(value));
    case Present(field) =>
      var field := Lower(field);
      BoolSame(a, b, u, field == "objectclass" || field == "dn" || field == "distinguishedname" ||
                        !MapUserField(field, schema).UserNoMatch?);
    case Substring(field, s) =>
      var g := ConvertUserFilter(info, lib, schema, f).value;
      if MapUserField(Lower(field), schema).UserNoMatch? {
        BoolSame(a, b, u, false);
      } else {
        UserColumnSame(a, b, u, g);
      }
    case Unsupported =>
  }

  lemma {:induction false} UserFiltersSame(a: Db, b: Db, info: LdapInfo, lib: Parsers, u: string,
                                           fs: seq<L.LdapFilter>, any: bool)
    requires Valid(a) && SameToUser(a, b, u) && u in a.users
    requires ConvertUserFilters(info, lib, ViewerSchema(a, true), fs).Ok?
    ensures var gs := ConvertUserFilters(info, lib, ViewerSchema(a, true), fs).value;
      UserMeanings(a, u, any, gs) == UserMeanings(b, u, any, gs)
    decreases fs, 0
  {
    hide Valid, ViewerSchema;
    if fs != [] {
      UserFilterSame(a, b, info, lib, u, fs[0]);
      UserFiltersSame(a, b, info, lib, u, fs[1..], any);
      var gs := ConvertUserFilters(info, lib, ViewerSchema(a, true), fs).value;
      assert gs[1..] == ConvertUserFilters(info, lib, ViewerSchema(a, true), fs[1..]).value;
    }
  }

  lemma MemberAlias(schema: Schema, field: string)
    ensures MapGroupField(field, schema).GroupMember? <==> GroupAlias(field) == Some(GroupMember)
  {
    hide GetAttributeSchema;
  }

  lemma GroupEqualitySame(a: Db, b: Db, info: LdapInfo, lib: Parsers, uuids: UuidParser, me: string, g: int,
                          field: string, value: string)
    requires Valid(a) && Valid(b) && SameToUser(a, b, me) && SameNumbers(a, b) && g in a.groups
    requires MembersDoNotMatter(info, a, b, me, L.Equality(field, value))
    requires ConvertGroupEquality(info, lib, uuids, ViewerSchema(a, true), Lower(field), Lower(value)).Ok?
    ensures var h := ConvertGroupEquality(info, lib, uuids, ViewerSchema(a, true), Lower(field), Lower(value)).value;
      GroupMeaning(a, g, h) == GroupMeaning(b, g, h)
  {
    hide ValidUsers, ValidGroups, ValidTypes, ValidSchema, MapGroupField, GroupAlias, ViewerSchema,
      GetIdFromDistinguishedName, HasClass, DeserializeAttributeValue, SameNumbers, SameVisible;
    GroupFieldVisible(a, b, Lower(field));
    MemberAlias(ViewerSchema(a, true), Lower(field));
    var id := GetUserId(Lower(value), info.base);
    if id.Ok? && id.value != me && id.value !in a.users {
      NoMember(a, id.value, g);
      NoMember(b, id.value, g);
    }
  }

  lemma NoMember(db: Db, u: string, g: int)
    requires Valid(db) && u !in db.users
    ensures Membership(u, g) !in db.memberships
  {
  }

  lemma {:induction false} GroupFilterSame(a: Db, b: Db, info: LdapInfo, lib: Parsers, uuids: UuidParser, me: string,
                                           g: int, f: L.LdapFilter)
    requires Valid(a) && Valid(b) && SameToUser(a, b, me) && SameNumbers(a, b) && g in a.groups
    requires MembersDoNotMatter(info, a, b, me, f)
    requires ConvertGroupFilter(info, lib, uuids, ViewerSchema(a, true), f).Ok?
    ensures var h := ConvertGroupFilter(info, lib, uuids, ViewerSchema(a, true), f).value;
      GroupMeaning(a, g, h) == GroupMeaning(b, g, h)
    decreases f, 0
  {
    hide Valid, MapGroupField, ViewerSchema, ConvertGroupEquality, Matches, SqlPattern, SameNumbers, NamesAnother;
    match f
    case And(fs) => GroupFiltersSame(a, b, info, lib, uuids, me, g, fs);
    case Or(fs) => GroupFiltersSame(a, b, info, lib, uuids, me, g, fs);
    case Not(h) => GroupFilterSame(a, b, info, lib, uuids, me, g, h);
    case Equality(field, value) => GroupEqualitySame(a, b, info, lib, uuids, me, g, field, value);
    case Present(_) =>
    case Substring(_, _) =>
    case Unsupported =>
  }

  lemma {:induction false} GroupFiltersSame(a: Db, b: Db, info: LdapInfo, lib: Parsers, uuids: UuidParser, me: string,
                                           g: int, fs: seq<L.LdapFilter>)
    requires Valid(a) && Valid(b) && SameToUser(a, b, me) && SameNumbers(a, b) && g in a.groups
    requires forall f :: f in fs ==> MembersDoNotMatter(info, a, b, me, f)
    requires ConvertGroupFilters(info, lib, uuids, ViewerSchema(a, true), fs).Ok?
    ensures forall h :: h in ConvertGroupFilters(info, lib, uuids, ViewerSchema(a, true), fs).value ==>
      (GroupMeaning(a, g, h) <==> GroupMeaning(b, g, h))
    decreases fs, 0
  {
    hide Valid, ViewerSchema, SameNumbers, MembersDoNotMatter;
    if fs != [] {
      GroupFilterSame(a, b, info, lib, uuids, me, g, fs[0]);
      GroupFiltersSame(a, b, info, lib, uuids, me, g, fs[1..]);
    }
  }

  // ----- Entries -----

  lemma FindIsStored(db: Db, u: string, name: string)
    ensures FindAttribute(UserAttributesOf(db, u), name) == D.StoredAt(db.userAttributes, AttributeKey(u, name))
  {
    var names := Sorted(UserAttributeNames(db, u));
    FindStored(db.userAttributes, u, names, name);
    assert name in names <==> AttributeKey(u, name) in db.userAttributes;
  }

  lemma FindIsStoredOfGroup(db: Db, g: int, name: string)
    ensures FindAttribute(GroupAttributesOf(db, g), name) == D.StoredAt(db.groupAttributes, AttributeKey(g, name))
  {
    var names := Sorted(GroupAttributeNames(db, g));
    FindStored(db.groupAttributes, g, names, name);
    assert name in names <==> AttributeKey(g, name) in db.groupAttributes;
  }

  lemma GroupListSame(a: Db, b: Db, u: string)
    requires SameToUser(a, b, u)
    ensures GroupListOf(a, u) == GroupListOf(b, u)
  {
    OwnGroupsSame(a, b, u);
    var ids := SortedInts(GroupsOf(a, u));
    assert forall i :: 0 <= i < |ids| ==> ids[i] in ids && ids[i] in GroupsOf(a, u);
    assert GroupRows(a, ids) == GroupRows(b, ids);
  }

  /** A value depends on the attributes of an entry only through the one it is read from. */
  lemma UserValueDepends(e: UserEntry, attributes: seq<AttributeValue>, attribute: string, info: LdapInfo,
                         schema: Schema)
    requires var m := MapUserField(Lower(attribute), schema);
      m.UserAttribute? ==> FindAttribute(e.attributes, m.name) == FindAttribute(attributes, m.name)
    ensures GetUserAttribute(e, attribute, info, schema) ==
      GetUserAttribute(e.(attributes := attributes), attribute, info, schema)
  {
    hide UserAlias, Decode, FindAttribute, GetAttributeSchema, DropEmpty;
    if UserAlias(Lower(attribute)).Some? {
      UserAliasKinds(Lower(attribute));
    }
  }

  /** And one of a group also through the members that are shown. */
  lemma GroupValueDepends(e: GroupEntry, e': GroupEntry, attribute: string, only: Option<string>, info: LdapInfo,
                          schema: Schema)
    requires e.details.row == e'.details.row
    requires MemberDns(e.details.members, only, info.baseStr) == MemberDns(e'.details.members, only, info.baseStr)
    requires var m := MapGroupField(Lower(attribute), schema);
      m.GroupAttribute? ==> FindAttribute(e.attributes, m.name) == FindAttribute(e'.attributes, m.name)
    ensures GetGroupAttribute(e, attribute, only, info, schema) == GetGroupAttribute(e', attribute, only, info, schema)
  {
    hide GroupAlias, Decode, FindAttribute, GetAttributeSchema, DropEmpty, MemberDns;
    if GroupAlias(Lower(attribute)).Some? {
      GroupAliasKinds(Lower(attribute));
    }
  }

  lemma OwnMembership(db: Db, g: int, me: string, baseStr: string)
    ensures MemberDns(Sorted(MembersOf(db, g)), Some(me), baseStr) ==
      if Membership(me, g) in db.memberships then [Plain(UserDn(me, baseStr))] else []
  {
    hide MemberDns, UserDn;
    OnlyOwnDn(Sorted(MembersOf(db, g)), me, baseStr);
    var m := Membership(me, g);
    assert m.user == me && m.group == g;
  }

  lemma UserValueSame(a: Db, b: Db, info: LdapInfo, u: string, attribute: string)
    requires Valid(a) && SameToUser(a, b, u) && u in a.users
    ensures GetUserAttribute(FullUser(a, u), attribute, info, ViewerSchema(a, true)) ==
      GetUserAttribute(FullUser(b, u), attribute, info, ViewerSchema(a, true))
  {
    hide Valid, ViewerSchema, UserAlias, UserAttributesOf, GroupListOf, GetUserAttribute, MapUserField, FindAttribute,
      D.StoredAt;
    var schema, name := ViewerSchema(a, true), Lower(attribute);
    UserFieldVisible(a, b, name);
    GroupListSame(a, b, u);
    var m := MapUserField(name, schema);
    if m.UserAttribute? {
      FindIsStored(a, u, m.name);
      FindIsStored(b, u, m.name);
    }
    UserValueDepends(FullUser(a, u), UserAttributesOf(b, u), attribute, info, schema);
    assert FullUser(a, u).(attributes := UserAttributesOf(b, u)) == FullUser(b, u);
  }

  lemma GroupValueSame(a: Db, b: Db, info: LdapInfo, g: int, me: string, attribute: string)
    requires Valid(a) && Valid(b) && SameToUser(a, b, me) && SameNumbers(a, b) && g in a.groups
    ensures GetGroupAttribute(FullGroup(a, g), attribute, Some(me), info, ViewerSchema(a, true)) ==
      GetGroupAttribute(FullGroup(b, g), attribute, Some(me), info, ViewerSchema(a, true))
  {
    hide Valid, ViewerSchema, GroupAlias, GroupAttributesOf, GetGroupAttribute, MapGroupField, FindAttribute,
      D.StoredAt, SameNumbers, MembersOf, MemberDns, UserDn;
    var schema, name := ViewerSchema(a, true), Lower(attribute);
    GroupFieldVisible(a, b, name);
    OwnMembership(a, g, me, info.baseStr);
    OwnMembership(b, g, me, info.baseStr);
    var m := MapGroupField(name, schema);
    if m.GroupAttribute? {
      FindIsStoredOfGroup(a, g, m.name);
      FindIsStoredOfGroup(b, g, m.name);
    }
    GroupValueDepends(FullGroup(a, g), FullGroup(b, g), attribute, Some(me), info, schema);
  }

  lemma {:induction false} UserListSame(a: Db, b: Db, info: LdapInfo, u: string, names: seq<string>)
    requires Valid(a) && SameToUser(a, b, u) && u in a.users
    ensures UserAttributeList(FullUser(a, u), names, info, ViewerSchema(a, true)) ==
      UserAttributeList(FullUser(b, u), names, info, ViewerSchema(a, true))
  {
    hide Valid, ViewerSchema, FullUser, GetUserAttribute, SameToUser;
    SameTables(a, b, u);
    if names != [] {
      UserValueSame(a, b, info, u, names[0]);
      UserListSame(a, b, info, u, names[1..]);
    }
  }

  lemma {:induction false} GroupListValuesSame(a: Db, b: Db, info: LdapInfo, g: int, me: string, names: seq<string>)
    requires Valid(a) && Valid(b) && SameToUser(a, b, me) && SameNumbers(a, b) && g in a.groups
    ensures GroupAttributeList(FullGroup(a, g), names, Some(me), info, ViewerSchema(a, true)) ==
      GroupAttributeList(FullGroup(b, g), names, Some(me), info, ViewerSchema(a, true))
  {
    hide Valid, ViewerSchema, FullGroup, GetGroupAttribute, SameToUser, SameNumbers;
    SameTables(a, b, me);
    if names != [] {
      GroupValueSame(a, b, info, g, me, names[0]);
      GroupListValuesSame(a, b, info, g, me, names[1..]);
    }
  }

  lemma SameTables(a: Db, b: Db, me: string)
    requires SameToUser(a, b, me)
    ensures b.users == a.users && b.groups == a.groups && ViewerSchema(b, true) == ViewerSchema(a, true)
    ensures SameVisible(a, b) && SameOwnGroups(a, b, me)
  {
    hide SameVisible, SameOwnGroups;
  }

  /** Either kind of difference is one of both kinds. */
  lemma BothKinds(a: Db, b: Db, me: string)
    ensures SameButHidden(a, b) ==> SameToUser(a, b, me)
    ensures SameButOthers(a, b, me) ==> SameToUser(a, b, me) && SameNumbers(a, b)
  {
  }

  lemma {:induction false} UserOpsSame(a: Db, b: Db, info: LdapInfo, me: string, ids: seq<string>, attrs: seq<string>)
    requires Valid(a) && SameToUser(a, b, me) && forall u :: u in ids ==> u in a.users && u == me
    ensures (forall u :: u in ids ==> u in b.users) &&
      UserOps(FullUsers(a, ids), attrs, info, ViewerSchema(a, true)) ==
        UserOps(FullUsers(b, ids), attrs, info, ViewerSchema(a, true))
  {
    hide Valid, ViewerSchema, FullUser, UserAttributeList, SameToUser, ExpandWildcards;
    SameTables(a, b, me);
    if ids != [] {
      assert ids[0] in ids;
      assert FullUsers(a, ids)[1..] == FullUsers(a, ids[1..]);
      assert FullUsers(b, ids)[1..] == FullUsers(b, ids[1..]);
      assert forall u :: u in ids[1..] ==> u in ids;
      FullUserIds(a, b, ids[0]);
      UserListSame(a, b, info, ids[0], ExpandWildcards(attrs, ALL_USER_KEYS));
      UserOpsSame(a, b, info, me, ids[1..], attrs);
    }
  }

  lemma FullUserIds(a: Db, b: Db, u: string)
    requires u in a.users && u in b.users
    ensures FullUser(a, u).id == u && FullUser(b, u).id == u
  {
  }

  lemma FullGroupRows(a: Db, b: Db, g: int)
    requires g in a.groups && b.groups == a.groups
    ensures FullGroup(a, g).details.row == a.groups[g] && FullGroup(b, g).details.row == a.groups[g]
  {
  }

  lemma {:induction false} GroupOpsSame(a: Db, b: Db, info: LdapInfo, me: string, ids: seq<int>, attrs: seq<string>)
    requires Valid(a) && Valid(b) && SameToUser(a, b, me) && SameNumbers(a, b) && forall g :: g in ids ==> g in a.groups
    ensures (forall g :: g in ids ==> g in b.groups) &&
      GroupOps(FullGroups(a, ids), attrs, Some(me), info, ViewerSchema(a, true)) ==
        GroupOps(FullGroups(b, ids), attrs, Some(me), info, ViewerSchema(a, true))
  {
    hide Valid, ViewerSchema, FullGroup, GroupAttributeList, SameToUser, ExpandWildcards, SameNumbers;
    SameTables(a, b, me);
    if ids != [] {
      assert ids[0] in ids;
      assert forall g :: g in ids[1..] ==> g in ids;
      assert FullGroups(a, ids)[1..] == FullGroups(a, ids[1..]);
      assert FullGroups(b, ids)[1..] == FullGroups(b, ids[1..]);
      FullGroupRows(a, b, ids[0]);
      GroupListValuesSame(a, b, info, ids[0], me, ExpandWildcards(attrs, ALL_GROUP_KEYS));
      GroupOpsSame(a, b, info, me, ids[1..], attrs);
    }
  }

  // ----- Replies -----

  /** For every choice of attributes, two lists of entries are printed alike. */
  ghost predicate PrintedAlike(ctx: Context, only: Option<string>, a: seq<UserEntry>, b: seq<UserEntry>) {
    forall attrs: seq<string> ::
      UserOps(a, attrs, ctx.info, SchemaFor(ctx, only)) == UserOps(b, attrs, ctx.info, SchemaFor(ctx, only))
  }

  ghost predicate GroupsPrintedAlike(ctx: Context, only: Option<string>, a: seq<GroupEntry>, b: seq<GroupEntry>) {
    forall attrs: seq<string> ::
      GroupOps(a, attrs, only, ctx.info, SchemaFor(ctx, only)) ==
        GroupOps(b, attrs, only, ctx.info, SchemaFor(ctx, only))
  }

  predicate SameFailure<T>(a: L.LdapResult<T>, b: L.LdapResult<T>) {
    (a.Ok? <==> b.Ok?) && (a.Panic? <==> b.Panic?) && (a.Err? ==> b.Err? && a.code == b.code)
  }

  lemma VisibleUsersSame(ctx: Context, b: Db, user: string, f: L.LdapFilter)
    requires Valid(ctx.db) && SameToUser(ctx.db, b, user)
    requires ConvertUserFilter(ctx.info, ctx.lib, SchemaFor(ctx, Some(user)), f).Ok?
    ensures var g := ConvertUserFilter(ctx.info, ctx.lib, SchemaFor(ctx, Some(user)), f).value;
      VisibleUsers(ctx.db, Some(user), g) == VisibleUsers(b, Some(user), g)
  {
    hide Valid, ViewerSchema, ConvertUserFilter, UserMeaning, SameToUser;
    SameTables(ctx.db, b, user);
    if user in ctx.db.users {
      UserFilterSame(ctx.db, b, ctx.info, ctx.lib, user, f);
    }
  }

  lemma UserListsAlike(ctx: Context, b: Db, user: string, f: L.LdapFilter)
    requires Valid(ctx.db) && ValidInfo(ctx.info) && SameToUser(ctx.db, b, user)
    ensures var r, s := GetUserList(ctx, Some(user), f), GetUserList(ctx.(db := b), Some(user), f);
      SameFailure(r, s) && (r.Ok? ==> PrintedAlike(ctx, Some(user), r.value, s.value))
  {
    hide Valid, ValidInfo, ViewerSchema, ConvertUserFilter, GetUserList, VisibleUsers, SameToUser, FullUsers, UserOps;
    var only := Some(user);
    SameTables(ctx.db, b, user);
    UserListContents(ctx, only, f);
    UserListContents(ctx.(db := b), only, f);
    UserListErrors(ctx, only, f);
    UserListErrors(ctx.(db := b), only, f);
    var g := ConvertUserFilter(ctx.info, ctx.lib, SchemaFor(ctx, only), f);
    if g.Ok? {
      VisibleUsersSame(ctx, b, user, f);
      var ids := Sorted(VisibleUsers(ctx.db, only, g.value));
      VisibleAreUsers(ctx.db, user, g.value);
      forall attrs: seq<string>
        ensures UserOps(FullUsers(ctx.db, ids), attrs, ctx.info, SchemaFor(ctx, only)) ==
                UserOps(FullUsers(b, ids), attrs, ctx.info, SchemaFor(ctx, only))
      {
        UserOpsSame(ctx.db, b, ctx.info, user, ids, attrs);
      }
    }
  }

  lemma VisibleAreUsers(db: Db, user: string, g: UserFilter)
    ensures forall u :: u in VisibleUsers(db, Some(user), g) ==> u in db.users && u == user
  {
  }

  lemma UserListErrors(ctx: Context, only: Option<string>, f: L.LdapFilter)
    requires ValidInfo(ctx.info)
    ensures var g := ConvertUserFilter(ctx.info, ctx.lib, SchemaFor(ctx, only), f);
      g.Err? ==> GetUserList(ctx, only, f) == L.Err(g.code)
  {
    hide ConvertUserFilter, ValidInfo;
  }

  lemma GroupListErrors(ctx: Context, only: Option<string>, f: L.LdapFilter)
    ensures var h := ConvertGroupFilter(ctx.info, ctx.lib, ctx.uuids, SchemaFor(ctx, only), f);
      h.Err? ==> GetGroupsList(ctx, only, f) == L.Err(h.code)
  {
    hide ConvertGroupFilter;
  }

  /** The user is in no group. */
  ghost predicate InNoGroup(db: Db, user: string) {
    forall g :: g in db.groups ==> Membership(user, g) !in db.memberships
  }

  /** No hidden group id, or no group in which it could be looked at. */
  ghost predicate KeepsSecrets(db: Db, user: string) {
    !HiddenGroupId(db) || InNoGroup(db, user)
  }

  lemma VisibleGroupsSame(ctx: Context, b: Db, user: string, f: L.LdapFilter)
    requires Valid(ctx.db) && Valid(b) && SameToUser(ctx.db, b, user)
    requires SameNumbers(ctx.db, b) || InNoGroup(ctx.db, user)
    requires MembersDoNotMatter(ctx.info, ctx.db, b, user, f) || InNoGroup(ctx.db, user)
    requires ConvertGroupFilter(ctx.info, ctx.lib, ctx.uuids, SchemaFor(ctx, Some(user)), f).Ok?
    ensures var h := ConvertGroupFilter(ctx.info, ctx.lib, ctx.uuids, SchemaFor(ctx, Some(user)), f).value;
      VisibleGroups(ctx.db, Some(user), h) == VisibleGroups(b, Some(user), h)
  {
    hide Valid, ViewerSchema, ConvertGroupFilter, GroupMeaning, SameToUser, SameNumbers, MembersDoNotMatter;
    SameTables(ctx.db, b, user);
    var h := ConvertGroupFilter(ctx.info, ctx.lib, ctx.uuids, SchemaFor(ctx, Some(user)), f).value;
    forall g: int | g in ctx.db.groups && Membership(user, g) in ctx.db.memberships
      ensures GroupMeaning(ctx.db, g, h) == GroupMeaning(b, g, h)
    {
      GroupFilterSame(ctx.db, b, ctx.info, ctx.lib, ctx.uuids, user, g, f);
    }
    forall g: int
      ensures g in VisibleGroups(ctx.db, Some(user), h) <==> g in VisibleGroups(b, Some(user), h)
    {
    }
  }

  lemma OrderedAlike(ctx: Context, b: Db, user: string, ids: set<int>)
    requires Valid(ctx.db) && Valid(b) && SameToUser(ctx.db, b, user)
    requires SameNumbers(ctx.db, b) || InNoGroup(ctx.db, user)
    requires forall g :: g in ids ==> g in ctx.db.groups && Membership(user, g) in ctx.db.memberships
    ensures (forall g :: g in ids ==> g in b.groups) &&
      GroupsPrintedAlike(ctx, Some(user), GroupsInOrder(ctx.db, ids), GroupsInOrder(b, ids))
  {
    hide Valid, ViewerSchema, SameToUser, SameNumbers, FullGroups, GroupOps, StableSort;
    SameTables(ctx.db, b, user);
    var sorted := SortedInts(ids);
    forall g: int | g in sorted
      ensures g in ctx.db.groups && g in ids
    {
    }
    var key := (g: int) => if g in ctx.db.groups then Lower(ctx.db.groups[g].displayName) else "";
    SortFull(key, ctx.db, sorted);
    SortFull(key, b, sorted);
    var order := StableSort(key, sorted);
    if ids == {} {
      NothingSorted(key);
    } else {
      var g := HasElement(ids);
    }
    forall attrs: seq<string>
      ensures GroupOps(FullGroups(ctx.db, order), attrs, Some(user), ctx.info, SchemaFor(ctx, Some(user))) ==
              GroupOps(FullGroups(b, order), attrs, Some(user), ctx.info, SchemaFor(ctx, Some(user)))
    {
      if ids == {} {
        NoGroups(ctx.db, b);
      } else {
        GroupOpsSame(ctx.db, b, ctx.info, user, order, attrs);
      }
    }
  }

  lemma NothingSorted(key: int -> string)
    ensures SortedInts({}) == [] && StableSort(key, []) == []
  {
  }

  lemma NoGroups(a: Db, b: Db)
    ensures FullGroups(a, []) == [] && FullGroups(b, []) == []
  {
  }

  lemma GroupListsAlike(ctx: Context, b: Db, user: string, f: L.LdapFilter)
    requires Valid(ctx.db) && Valid(b) && ValidInfo(ctx.info) && SameToUser(ctx.db, b, user)
    requires SameNumbers(ctx.db, b) || InNoGroup(ctx.db, user)
    requires MembersDoNotMatter(ctx.info, ctx.db, b, user, f) || InNoGroup(ctx.db, user)
    ensures var r, s := GetGroupsList(ctx, Some(user), f), GetGroupsList(ctx.(db := b), Some(user), f);
      SameFailure(r, s) && (r.Ok? ==> GroupsPrintedAlike(ctx, Some(user), r.value, s.value))
  {
    hide Valid, ValidInfo, ViewerSchema, ConvertGroupFilter, GetGroupsList, VisibleGroups, SameToUser, GroupsInOrder,
      GroupsPrintedAlike, SameNumbers, InNoGroup, MembersDoNotMatter;
    SameTables(ctx.db, b, user);
    GroupListContents(ctx, Some(user), f);
    GroupListContents(ctx.(db := b), Some(user), f);
    GroupListErrors(ctx, Some(user), f);
    GroupListErrors(ctx.(db := b), Some(user), f);
    var h := ConvertGroupFilter(ctx.info, ctx.lib, ctx.uuids, SchemaFor(ctx, Some(user)), f);
    if h.Ok? {
      VisibleGroupsSame(ctx, b, user, f);
      VisibleAreGroups(ctx.db, user, h.value);
      OrderedAlike(ctx, b, user, VisibleGroups(ctx.db, Some(user), h.value));
    }
  }

  lemma VisibleAreGroups(db: Db, user: string, h: GroupFilter)
    ensures forall g :: g in VisibleGroups(db, Some(user), h) ==>
      g in db.groups && Membership(user, g) in db.memberships
  {
  }

  /** Results that lead to the same reply. */
  ghost predicate SameResults(ctx: Context, only: Option<string>, a: InternalResults, b: InternalResults) {
    match a
    case UsersAndGroups(us, gs) =>
      b.UsersAndGroups? && PrintedAlike(ctx, only, us, b.users) && GroupsPrintedAlike(ctx, only, gs, b.groups)
    case Raw(ops) => b == a
    case Empty => b == a
  }

  lemma NothingAlike(ctx: Context, only: Option<string>)
    ensures PrintedAlike(ctx, only, [], []) && GroupsPrintedAlike(ctx, only, [], [])
  {
    hide ViewerSchema;
  }

  /** A part of a search base has no commas, so it is not the name of a user. */
  lemma PartIsNoName(info: LdapInfo, db: Db, me: string, base: string, i: nat)
    requires ParseDistinguishedName(base).Ok? && i < |ParseDistinguishedName(base).value|
    ensures var part :=
      ParseDistinguishedName(base).value[i]; NamesNoOther(info, db, me, L.Equality(part.key, part.value))
  {
    hide ParseComponents, GroupAlias;
    ParsedIsClean(base);
    var value := Lower(ParseDistinguishedName(base).value[i].value);
    CleanLower(ParseDistinguishedName(base).value[i].value);
    SplitAtom(value, ',');
  }

  lemma WithPart(info: LdapInfo, a: Db, b: Db, me: string, f: L.LdapFilter, part: L.LdapFilter)
    requires MembersDoNotMatter(info, a, b, me, f) && NamesNoOther(info, a, me, part)
    ensures MembersDoNotMatter(info, a, b, me, L.And([f, part]))
  {
    var fs := [f, part];
    assert forall g :: g in fs ==> g == f || g == part;
  }

  lemma InternalAlike(ctx: Context, b: Db, user: string, r: Request)
    requires Valid(ctx.db) && Valid(b) && ValidInfo(ctx.info) && SameToUser(ctx.db, b, user)
    requires SameNumbers(ctx.db, b) || InNoGroup(ctx.db, user)
    requires MembersDoNotMatter(ctx.info, ctx.db, b, user, r.filter) || InNoGroup(ctx.db, user)
    ensures var x, y := DoSearchInternal(ctx, Some(user), r), DoSearchInternal(ctx.(db := b), Some(user), r);
      SameFailure(x, y) && (x.Ok? ==> SameResults(ctx, Some(user), x.value, y.value))
  {
    hide Valid, ValidInfo, ParseDistinguishedName, GetUserList, GetGroupsList, PrintedAlike, GroupsPrintedAlike,
      SameToUser, SameNumbers, InNoGroup, MembersDoNotMatter, NamesNoOther, IsSubtree;
    NothingAlike(ctx, Some(user));
    UserListsAlike(ctx, b, user, r.filter);
    GroupListsAlike(ctx, b, user, r.filter);
    var parts := ParseDistinguishedName(Lower(r.base));
    if parts.Ok? {
      var scope := GetSearchScope(ctx.info.base, parts.value, r.scope);
      if scope.Ok? && scope.value.User? {
        UserListsAlike(ctx, b, user, L.And([r.filter, scope.value.filter]));
      }
      if scope.Ok? && scope.value.Group? {
        PartIsNoName(ctx.info, ctx.db, user, Lower(r.base), 0);
        if MembersDoNotMatter(ctx.info, ctx.db, b, user, r.filter) {
          WithPart(ctx.info, ctx.db, b, user, r.filter, scope.value.filter);
        }
        GroupListsAlike(ctx, b, user, L.And([r.filter, scope.value.filter]));
      }
    }
  }

  lemma OpsAlike(ctx: Context, only: Option<string>, a: InternalResults, b: InternalResults, attrs: seq<string>)
    requires SameResults(ctx, only, a, b)
    ensures ToOps(a, attrs, only, ctx.info, SchemaFor(ctx, only)) ==
      ToOps(b, attrs, only, ctx.info, SchemaFor(ctx, only))
  {
    hide ViewerSchema, UserOps, GroupOps;
  }

  lemma RepliesAlike(ctx: Context, b: Db, viewer: ValidationResults, r: Request)
    requires Valid(ctx.db) && Valid(b) && ValidInfo(ctx.info) && !viewer.CanReadAll()
    requires SameToUser(ctx.db, b, viewer.user)
    requires SameNumbers(ctx.db, b) || InNoGroup(ctx.db, viewer.user)
    requires MembersDoNotMatter(ctx.info, ctx.db, b, viewer.user, r.filter) || InNoGroup(ctx.db, viewer.user)
    ensures SearchReply(ctx, Some(viewer), r) == SearchReply(ctx.(db := b), Some(viewer), r)
  {
    hide Valid, ValidInfo, ViewerSchema, DoSearchInternal, ToOps, PushDone, SameToUser, SameNumbers, InNoGroup,
      MembersDoNotMatter, SameResults, RootDse;
    var only := Some(viewer.user);
    SameTables(ctx.db, b, viewer.user);
    InternalAlike(ctx, b, viewer.user, r);
    var x, y := DoSearchInternal(ctx, only, r), DoSearchInternal(ctx.(db := b), only, r);
    if x.Ok? {
      OpsAlike(ctx, only, x.value, y.value, r.attrs);
    }
  }

  /** A regular user gets the same reply from directories that differ only in what is
      hidden from them. */
  lemma SecretsKept(ctx: Context, b: Db, viewer: ValidationResults, r: Request)
    requires Valid(ctx.db) && Valid(b) && ValidInfo(ctx.info) && !viewer.CanReadAll()
    requires SameButHidden(ctx.db, b) && KeepsSecrets(ctx.db, viewer.user)
    ensures SearchReply(ctx, Some(viewer), r) == SearchReply(ctx.(db := b), Some(viewer), r)
  {
    hide Valid, ValidInfo, ViewerSchema, SearchReply, InNoGroup, SameVisible;
    BothKinds(ctx.db, b, viewer.user);
    RepliesAlike(ctx, b, viewer, r);
  }

  // ----- The exception -----

  /** Two values of a type whose bytes begin with different numbers. */
  function Probe(row: SchemaRow, second: bool): Value {
    if row.isList then Many(if second then [ProbeScalar(row.typ, false)] else []) else One(ProbeScalar(row.typ, second))
  }

  function ProbeScalar(typ: AttributeType, second: bool): Scalar {
    if typ == Integer then Int64(if second then 1 else 0) else Bytes(if second then [65] else [])
  }

  function ProbeNumber(second: bool): int {
    if second then 1 else 0
  }

  lemma ProbeReads(row: SchemaRow, second: bool)
    ensures HasType(Probe(row, second), row.typ, row.isList)
    ensures Decode(Encode(Probe(row, second), row.typ, row.isList), Integer, false) ==
      Some(One(Int64(ProbeNumber(second))))
  {
    var n := ProbeNumber(second);
    var bytes := Encode(Probe(row, second), row.typ, row.isList);
    var rest := bytes[8..];
    assert bytes == EncodeInt(n) + rest by {
      assert bytes[..8] == EncodeInt(n);
    }
    TakeEncodedInt(n, rest);
  }

  /** The directory with another value of the hidden group id of a group. */
  function WithGroupId(db: Db, g: int, second: bool): Db
    requires "group_id" in db.groupSchema
  {
    var row := db.groupSchema["group_id"];
    ProbeReads(row, second);
    db.(groupAttributes := db.groupAttributes[AttributeKey(g, "group_id") := Encode(Probe(row, second), row.typ,
                                                                                    row.isList)])
  }

  lemma WithGroupIdIsHidden(db: Db, g: int, second: bool)
    requires Valid(db) && g in db.groups && HiddenGroupId(db)
    ensures Valid(WithGroupId(db, g, second)) && SameButHidden(db, WithGroupId(db, g, second))
  {
    hide ValidUsers, ValidGroups, ValidSchema, Decode, Encode;
    var b := WithGroupId(db, g, second);
    var row := db.groupSchema["group_id"];
    ProbeReads(row, second);
    assert WellTyped(b.groupAttributes[AttributeKey(g, "group_id")], row);
    I.SameUsers(db, b);
    I.SameGroups(db, b);
    I.SameSchema(db, b);
    WithGroupIdTable(db, g, second);
    I.ValidByParts(db);
    I.ValidByParts(b);
  }

  lemma WithGroupIdTable(db: Db, g: int, second: bool)
    requires Valid(db) && g in db.groups && HiddenGroupId(db)
    ensures I.ValidTable(db.groups.Keys, db.groupSchema, WithGroupId(db, g, second).groupAttributes)
  {
    hide Decode, Encode, ValidUsers, ValidGroups, ValidSchema;
    ProbeReads(db.groupSchema["group_id"], second);
  }

  /** The number that a regular user reads, through the built-in attribute. */
  lemma GroupIdShows(ctx: Context, user: string, g: int)
    requires Valid(ctx.db) && g in ctx.db.groups && HiddenGroupId(ctx.db)
    ensures var key := AttributeKey(g, "group_id");
      forall n :: GroupHas(ctx, Some(user), g, "group_id", Typed(Int64(n))) <==>
        key in ctx.db.groupAttributes && Decode(ctx.db.groupAttributes[key], Integer, false) == Some(One(Int64(n)))
  {
    hide Valid, ViewerSchema, GroupAlias, GroupAttributesOf, Decode, GetAttributeSchema, BuiltinGroupRow, FindAttribute;
    GroupIdIsNoAlias();
    ViewerGroupLookup(ctx.db, true, "group_id");
    FindIsStoredOfGroup(ctx.db, g, "group_id");
    assert Lower("group_id") == "group_id";
    NumberOnly(ctx.db.groupAttributes, AttributeKey(g, "group_id"));
  }

  lemma NumberOnly(table: AttributeTable<int>, key: AttributeKey<int>)
    ensures key in table ==>
      var v := Decode(table[key], Integer, false);
      v.Some? ==> v.value.One? && v.value.scalar.Int64?
  {
  }

  /** Asking for attributes of everything. */
  function AskForAll(info: LdapInfo, attrs: seq<string>): Request {
    Request(info.baseStr, L.Subtree, L.And([]), attrs)
  }

  lemma AllConverts(ctx: Context, only: Option<string>)
    ensures ConvertUserFilter(ctx.info, ctx.lib, SchemaFor(ctx, only), L.And([])) == L.Ok(UserAnd([]))
    ensures ConvertGroupFilter(ctx.info, ctx.lib, ctx.uuids, SchemaFor(ctx, only), L.And([])) == L.Ok(GroupAnd([]))
  {
    hide ViewerSchema;
    assert ConvertUserFilters(ctx.info, ctx.lib, SchemaFor(ctx, only), []) == L.Ok([]);
    assert ConvertGroupFilters(ctx.info, ctx.lib, ctx.uuids, SchemaFor(ctx, only), []) == L.Ok([]);
  }

  ghost function AllUsers(ctx: Context, user: string): seq<UserEntry> {
    FullUsers(ctx.db, Sorted(VisibleUsers(ctx.db, Some(user), UserAnd([]))))
  }

  ghost function AllGroups(ctx: Context, user: string): seq<GroupEntry> {
    GroupsInOrder(ctx.db, VisibleGroups(ctx.db, Some(user), GroupAnd([])))
  }

  lemma AllFound(ctx: Context, user: string, attrs: seq<string>)
    requires ValidInfo(ctx.info)
    ensures DoSearchInternal(ctx, Some(user), AskForAll(ctx.info, attrs)) ==
      L.Ok(UsersAndGroups(AllUsers(ctx, user), AllGroups(ctx, user)))
  {
    hide ValidInfo, ViewerSchema, ParseDistinguishedName, GetSearchScope, GetUserList, GetGroupsList, FullUsers,
      GroupsInOrder, VisibleUsers, VisibleGroups, ConvertUserFilter, ConvertGroupFilter;
    BaseScope(ctx.info);
    AllConverts(ctx, Some(user));
    UserListContents(ctx, Some(user), L.And([]));
    GroupListContents(ctx, Some(user), L.And([]));
  }

  /** The reply lists the users found, then the groups found, then the end. */
  lemma AllReplies(ctx: Context, viewer: ValidationResults, attrs: seq<string>)
    requires Valid(ctx.db) && ValidInfo(ctx.info) && !viewer.CanReadAll()
    ensures var only := Some(viewer.user);
      var gs := AllGroups(ctx, viewer.user);
      var us := UserOps(AllUsers(ctx, viewer.user), attrs, ctx.info, SchemaFor(ctx, only));
      var r := SearchReply(ctx, Some(viewer), AskForAll(ctx.info, attrs));
      && us.Ok? && r.Ok? && |r.value| > |us.value| + |gs|
      && forall i :: 0 <= i < |gs| ==>
        gs[i].id in ctx.db.groups && L.Ok(r.value[|us.value| + i]) == OpOfGroup(ctx, only, attrs, gs[i].id)
  {
    hide Valid, ValidInfo, ViewerSchema, DoSearchInternal, UserOps, GroupOps, OpOfGroup, OpOfUser, FullUser, FullGroup,
      AllUsers, AllGroups;
    var only := Some(viewer.user);
    AllFound(ctx, viewer.user, attrs);
    AllFrom(ctx, viewer.user);
    UserOpsEntries(ctx, only, attrs, AllUsers(ctx, viewer.user));
    GroupOpsEntries(ctx, only, attrs, AllGroups(ctx, viewer.user));
  }

  lemma AllFrom(ctx: Context, user: string)
    ensures forall e :: e in AllUsers(ctx, user) ==> e.id in ctx.db.users && e == FullUser(ctx.db, e.id)
    ensures forall e :: e in AllGroups(ctx, user) ==> e.id in ctx.db.groups && e == FullGroup(ctx.db, e.id)
  {
    hide FullUsers, GroupsInOrder, VisibleUsers, VisibleGroups, FullUser, FullGroup;
    FullUsersAreFrom(ctx, Some(user), UserAnd([]));
    FullGroupsAreFrom(ctx, Some(user), GroupAnd([]));
  }

  /** A group of the user is at the same place in both directories. */
  lemma SamePlace(ctx: Context, b: Db, user: string, g: int) returns (i: nat)
    requires SameButHidden(ctx.db, b) && g in ctx.db.groups && Membership(user, g) in ctx.db.memberships
    ensures var gs, hs := AllGroups(ctx, user), AllGroups(ctx.(db := b), user);
      i < |gs| && i < |hs| && gs[i].id == g && hs[i].id == g
  {
    hide FullGroups, FullGroup, StableSort, SameVisible, VisibleGroups;
    EveryGroup(ctx.db, user);
    EveryGroup(b, user);
    var ids := VisibleGroups(ctx.db, Some(user), GroupAnd([]));
    forall h: int
      ensures h in ids <==> h in VisibleGroups(b, Some(user), GroupAnd([]))
    {
    }
    assert ids == VisibleGroups(b, Some(user), GroupAnd([]));
    var sorted := SortedInts(ids);
    forall h: int | h in sorted
      ensures h in ctx.db.groups
    {
    }
    var key := (h: int) => if h in ctx.db.groups then Lower(ctx.db.groups[h].displayName) else "";
    SortFull(key, ctx.db, sorted);
    SortFull(key, b, sorted);
    var order := StableSort(key, sorted);
    StableSortSorts(key, sorted);
    assert g in multiset(sorted) by {
      assert g in ids && g in sorted;
    }
    assert g in multiset(order) && g in order;
    i :| 0 <= i < |order| && order[i] == g;
    FullGroupId(ctx.db, order[i]);
    FullGroupId(b, order[i]);
  }

  lemma EveryGroup(db: Db, user: string)
    ensures forall h: int ::
      h in VisibleGroups(db, Some(user), GroupAnd([])) <==> h in db.groups && Membership(user, h) in db.memberships
  {
  }

  lemma FullGroupId(db: Db, g: int)
    requires g in db.groups
    ensures FullGroup(db, g).id == g
  {
  }

  /** Whoever is in a group can tell two values of its hidden group id apart. */
  lemma SecretLeaks(ctx: Context, viewer: ValidationResults, g: int) returns (b: Db)
    requires Valid(ctx.db) && ValidInfo(ctx.info) && !viewer.CanReadAll()
    requires HiddenGroupId(ctx.db) && g in ctx.db.groups && Membership(viewer.user, g) in ctx.db.memberships
    ensures Valid(b) && SameButHidden(ctx.db, b)
    ensures var r := AskForAll(ctx.info, ["group_id"]);
      SearchReply(ctx, Some(viewer), r) != SearchReply(ctx.(db := b), Some(viewer), r)
  {
    hide Valid, ValidInfo, ViewerSchema, SearchReply, OpOfGroup, EntryHas, GroupHas, AllGroups, AllUsers, UserOps,
      Decode, SameButHidden, SameToUser, Encode;
    var only := Some(viewer.user);
    var key := AttributeKey(g, "group_id");
    var second :=
      key in ctx.db.groupAttributes && Decode(ctx.db.groupAttributes[key], Integer, false) == Some(One(Int64(0)));
    b := WithGroupId(ctx.db, g, second);
    WithGroupIdIsHidden(ctx.db, g, second);
    BothKinds(ctx.db, b, viewer.user);
    SameTables(ctx.db, b, viewer.user);
    var ctx' := ctx.(db := b);
    var attrs := ["group_id"];
    AllReplies(ctx, viewer, attrs);
    AllReplies(ctx', viewer, attrs);
    var i := SamePlace(ctx, b, viewer.user, g);
    SameUserReplies(ctx, b, viewer.user, attrs);
    var value := Typed(Int64(ProbeNumber(second)));
    GroupIdShows(ctx, viewer.user, g);
    GroupIdShows(ctx', viewer.user, g);
    ProbeReads(ctx.db.groupSchema["group_id"], second);
    GroupOpHas(ctx, only, g, "group_id", value);
    GroupOpHas(ctx', only, g, "group_id", value);
  }

  lemma SameUserReplies(ctx: Context, b: Db, user: string, attrs: seq<string>)
    requires Valid(ctx.db) && ValidInfo(ctx.info) && SameToUser(ctx.db, b, user)
    ensures UserOps(AllUsers(ctx, user), attrs, ctx.info, SchemaFor(ctx, Some(user))) ==
            UserOps(AllUsers(ctx.(db := b), user), attrs, ctx.info, SchemaFor(ctx, Some(user)))
  {
    hide Valid, ValidInfo, ViewerSchema, UserOps, FullUsers, VisibleUsers, SameToUser;
    AllConverts(ctx, Some(user));
    SameTables(ctx.db, b, user);
    VisibleUsersSame(ctx, b, user, L.And([]));
    VisibleAreUsers(ctx.db, user, UserAnd([]));
    UserOpsSame(ctx.db, b, ctx.info, user, Sorted(VisibleUsers(ctx.db, Some(user), UserAnd([]))), attrs);
  }

  /** A regular user's replies never depend on what is hidden from them, nor, as long as
      the filter names no other user as a member, on who else is in a group, if and only
      if no hidden attribute of their groups is called like the built-in group id. */
  lemma SecretsKeptExactly(ctx: Context, viewer: ValidationResults)
    requires Valid(ctx.db) && ValidInfo(ctx.info) && !viewer.CanReadAll()
    ensures
      (forall b: Db, r: Request ::
         Valid(b) && SameToUser(ctx.db, b, viewer.user) && NamesNoOther(ctx.info, ctx.db, viewer.user, r.filter) ==>
           SearchReply(ctx, Some(viewer), r) == SearchReply(ctx.(db := b), Some(viewer), r))
      <==> KeepsSecrets(ctx.db, viewer.user)
  {
    hide Valid, ValidInfo, SearchReply, SameToUser, SameVisible, NamesAnother;
    if KeepsSecrets(ctx.db, viewer.user) {
      forall b: Db, r: Request
        | Valid(b) && SameToUser(ctx.db, b, viewer.user) && NamesNoOther(ctx.info, ctx.db, viewer.user, r.filter)
        ensures SearchReply(ctx, Some(viewer), r) == SearchReply(ctx.(db := b), Some(viewer), r)
      {
        RepliesAlike(ctx, b, viewer, r);
      }
    } else {
      var g :| g in ctx.db.groups && Membership(viewer.user, g) in ctx.db.memberships;
      var b := SecretLeaks(ctx, viewer, g);
      BothKinds(ctx.db, b, viewer.user);
      assert NamesNoOther(ctx.info, ctx.db, viewer.user, AskForAll(ctx.info, ["group_id"]).filter);
    }
  }

  // ----- Who else is in a group -----

  /** A search whose filter names no other user as a member tells a regular user nothing
      about the groups of others. */
  lemma MembersKept(ctx: Context, b: Db, viewer: ValidationResults, r: Request)
    requires Valid(ctx.db) && Valid(b) && ValidInfo(ctx.info) && !viewer.CanReadAll()
    requires SameButOthers(ctx.db, b, viewer.user) && NamesNoOther(ctx.info, ctx.db, viewer.user, r.filter)
    ensures SearchReply(ctx, Some(viewer), r) == SearchReply(ctx.(db := b), Some(viewer), r)
  {
    hide Valid, ValidInfo, ViewerSchema, SearchReply, InNoGroup, SameVisible, NamesNoOther, SameNumbers;
    BothKinds(ctx.db, b, viewer.user);
    RepliesAlike(ctx, b, viewer, r);
  }

  lemma {:induction false} ListedOnce(s: set<int>)
    ensures |SortedInts(s)| == |s|
    decreases |s|
  {
    if s != {} {
      ListedOnce(s - {LeastInt(s)});
    }
  }

  lemma InOrderOnce(db: Db, ids: set<int>)
    requires forall g :: g in ids ==> g in db.groups
    ensures |GroupsInOrder(db, ids)| == |ids|
  {
    hide FullGroup;
    ListedOnce(ids);
    var sorted := SortedInts(ids);
    forall g: int | g in sorted
      ensures g in db.groups
    {
    }
    var full := FullGroups(db, sorted);
    StableSortSorts(NameKey, full);
    assert |multiset(StableSort(NameKey, full))| == |multiset(full)|;
  }

  /** The number of users that a search of everything finds. */
  ghost function UserCount(ctx: Context, only: Option<string>, f: L.LdapFilter): nat {
    var r := GetUserList(ctx, only, f);
    if r.Ok? then |r.value| else 0
  }

  lemma ListedUsers(ctx: Context, user: string, f: L.LdapFilter)
    requires Valid(ctx.db) && ValidInfo(ctx.info)
    ensures var r := GetUserList(ctx, Some(user), f);
      !r.Panic? && (r.Ok? ==> forall e :: e in r.value ==> e.id in ctx.db.users && e == FullUser(ctx.db, e.id))
  {
    hide Valid, ValidInfo, ViewerSchema, ConvertUserFilter, GetUserList, FullUsers, VisibleUsers, FullUser;
    var g := ConvertUserFilter(ctx.info, ctx.lib, SchemaFor(ctx, Some(user)), f);
    UserListContents(ctx, Some(user), f);
    if g.Ok? {
      FullUsersAreFrom(ctx, Some(user), g.value);
    }
  }

  lemma ListedGroupsOf(ctx: Context, user: string, f: L.LdapFilter, h: GroupFilter)
    requires Valid(ctx.db) && ValidInfo(ctx.info)
    requires ConvertGroupFilter(ctx.info, ctx.lib, ctx.uuids, SchemaFor(ctx, Some(user)), f) == L.Ok(h)
    ensures var r := GetGroupsList(ctx, Some(user), f);
      r.Ok? && |r.value| == |VisibleGroups(ctx.db, Some(user), h)| &&
      forall e :: e in r.value ==> e.id in ctx.db.groups && e == FullGroup(ctx.db, e.id)
  {
    hide Valid, ValidInfo, ViewerSchema, ConvertGroupFilter, GetGroupsList, GroupsInOrder, VisibleGroups, FullGroup;
    GroupListContents(ctx, Some(user), f);
    FullGroupsAreFrom(ctx, Some(user), h);
    VisibleAreGroups(ctx.db, user, h);
    InOrderOnce(ctx.db, VisibleGroups(ctx.db, Some(user), h));
  }

  /** A search of everything, for entries without their attributes. */
  function SearchAll(info: LdapInfo, f: L.LdapFilter): Request {
    Request(info.baseStr, L.Subtree, f, ["1.1"])
  }

  /** How long the reply is. */
  lemma ReplyLength(ctx: Context, viewer: ValidationResults, f: L.LdapFilter, h: GroupFilter)
    requires Valid(ctx.db) && ValidInfo(ctx.info) && !viewer.CanReadAll() && !f.Present?
    requires ConvertGroupFilter(ctx.info, ctx.lib, ctx.uuids, SchemaFor(ctx, Some(viewer.user)), f) == L.Ok(h)
    ensures var r := SearchReply(ctx, Some(viewer), SearchAll(ctx.info, f));
      var only := Some(viewer.user);
      r.Ok? && |r.value| == UserCount(ctx, only, f) + |VisibleGroups(ctx.db, only, h)| + 1
  {
    hide Valid, ValidInfo, ViewerSchema, ConvertGroupFilter, ParseDistinguishedName, GetSearchScope, GetUserList,
      GetGroupsList, VisibleGroups, UserOps, GroupOps, FullUser, FullGroup, RootDse, OpOfGroup, OpOfUser;
    var only, attrs := Some(viewer.user), ["1.1"];
    BaseScope(ctx.info);
    ListedUsers(ctx, viewer.user, f);
    ListedGroupsOf(ctx, viewer.user, f, h);
    var users, groups := GetUserList(ctx, only, f), GetGroupsList(ctx, only, f);
    var us := if users.Ok? then users.value else [];
    UserOpsEntries(ctx, only, attrs, us);
    GroupOpsEntries(ctx, only, attrs, groups.value);
    assert DoSearchInternal(ctx, only, SearchAll(ctx.info, f)) == L.Ok(UsersAndGroups(us, groups.value));
  }

  /** The directory in which a user has joined or left a group. */
  function WithMoved(db: Db, m: Membership): Db {
    db.(memberships := if m in db.memberships then db.memberships - {m} else db.memberships + {m})
  }

  lemma MovedIsValid(db: Db, m: Membership, me: string)
    requires Valid(db) && m.user in db.users && m.group in db.groups && m.user != me
    ensures Valid(WithMoved(db, m)) && SameButOthers(db, WithMoved(db, m), me)
  {
    hide ValidSchema, ValidTypes;
    var b := WithMoved(db, m);
    I.SameUsers(db, b);
    I.SameGroups(db, b);
    I.SameSchema(db, b);
    I.ValidByParts(db);
    I.ValidByParts(b);
  }

  /** The groups that a test for this member finds. */
  lemma MovedGroups(db: Db, me: string, other: string, g: int)
    requires g in db.groups && Membership(me, g) in db.memberships && other != me
    ensures var b := WithMoved(db, Membership(other, g));
      |VisibleGroups(db, Some(me), Member(other))| != |VisibleGroups(b, Some(me), Member(other))|
  {
    hide VisibleGroups;
    var m := Membership(other, g);
    var b := WithMoved(db, m);
    var before, after := VisibleGroups(db, Some(me), Member(other)), VisibleGroups(b, Some(me), Member(other));
    forall h: int
      ensures h in before <==>
        h in db.groups && Membership(me, h) in db.memberships && Membership(other, h) in db.memberships
      ensures h in after <==>
        h in b.groups && Membership(me, h) in b.memberships && Membership(other, h) in b.memberships
    {
      SharedGroup(db, me, other, h);
      SharedGroup(b, me, other, h);
    }
    if m in db.memberships {
      OneMore(before, after, g);
    } else {
      OneMore(after, before, g);
    }
  }

  lemma SharedGroup(db: Db, me: string, other: string, h: int)
    ensures h in VisibleGroups(db, Some(me), Member(other)) <==>
      h in db.groups && Membership(me, h) in db.memberships && Membership(other, h) in db.memberships
  {
  }

  lemma OneMore(s: set<int>, t: set<int>, g: int)
    requires g !in t && forall h: int :: h in s <==> h in t || h == g
    ensures |s| == |t| + 1
  {
    var u := t + {g};
    forall h: int
      ensures h in s <==> h in u
    {
    }
    assert s == u;
  }

  lemma UserCountSame(ctx: Context, b: Db, user: string, f: L.LdapFilter)
    requires Valid(ctx.db) && ValidInfo(ctx.info) && SameToUser(ctx.db, b, user)
    ensures UserCount(ctx, Some(user), f) == UserCount(ctx.(db := b), Some(user), f)
  {
    hide Valid, ValidInfo, ViewerSchema, ConvertUserFilter, GetUserList, VisibleUsers, SameToUser;
    SameTables(ctx.db, b, user);
    UserListContents(ctx, Some(user), f);
    UserListContents(ctx.(db := b), Some(user), f);
    if ConvertUserFilter(ctx.info, ctx.lib, SchemaFor(ctx, Some(user)), f).Ok? {
      VisibleUsersSame(ctx, b, user, f);
    }
  }

  lemma MemberTestConverts(info: LdapInfo, lib: Parsers, uuids: UuidParser, schema: Schema, db: Db, me: string,
                           field: string, value: string)
    requires NamesAnother(info, db, me, field, value)
    ensures ConvertGroupFilter(info, lib, uuids, schema, L.Equality(field, value)) ==
      L.Ok(Member(GetUserId(Lower(value), info.base).value))
  {
    hide GetIdFromDistinguishedName;
  }

  /** A test that names another user tells a regular user in which of their own groups
      that user is: there the reply changes when the other leaves or joins. */
  lemma MemberLeaks(ctx: Context, viewer: ValidationResults, field: string, value: string, g: int) returns (b: Db)
    requires Valid(ctx.db) && ValidInfo(ctx.info) && !viewer.CanReadAll()
    requires NamesAnother(ctx.info, ctx.db, viewer.user, field, value)
    requires g in ctx.db.groups && Membership(viewer.user, g) in ctx.db.memberships
    ensures Valid(b) && SameButOthers(ctx.db, b, viewer.user)
    ensures var r := SearchAll(ctx.info, L.Equality(field, value));
      SearchReply(ctx, Some(viewer), r) != SearchReply(ctx.(db := b), Some(viewer), r)
  {
    hide Valid, ValidInfo, ViewerSchema, SearchReply, VisibleGroups, UserCount, SameToUser, GetIdFromDistinguishedName,
      GroupAlias, SameVisible, SameNumbers, ConvertGroupFilter;
    var f, other := L.Equality(field, value), GetUserId(Lower(value), ctx.info.base).value;
    b := WithMoved(ctx.db, Membership(other, g));
    MovedIsValid(ctx.db, Membership(other, g), viewer.user);
    BothKinds(ctx.db, b, viewer.user);
    MemberTestConverts(ctx.info, ctx.lib, ctx.uuids, SchemaFor(ctx, Some(viewer.user)), ctx.db, viewer.user, field,
                       value);
    SameTables(ctx.db, b, viewer.user);
    ReplyLength(ctx, viewer, f, Member(other));
    ReplyLength(ctx.(db := b), viewer, f, Member(other));
    UserCountSame(ctx, b, viewer.user, f);
    MovedGroups(ctx.db, viewer.user, other, g);
  }

  /** So of the tests, exactly those are safe that name no other user, unless there is no
      group to look at. */
  lemma MemberTestExactly(ctx: Context, viewer: ValidationResults, field: string, value: string)
    requires Valid(ctx.db) && ValidInfo(ctx.info) && !viewer.CanReadAll()
    ensures
      (forall b: Db, r: Request ::
         Valid(b) && SameButOthers(ctx.db, b, viewer.user) && r.filter == L.Equality(field, value) ==>
           SearchReply(ctx, Some(viewer), r) == SearchReply(ctx.(db := b), Some(viewer), r))
      <==> !NamesAnother(ctx.info, ctx.db, viewer.user, field, value) || InNoGroup(ctx.db, viewer.user)
  {
    hide Valid, ValidInfo, SearchReply, SameButOthers, NamesAnother, SameToUser, SameNumbers;
    if !NamesAnother(ctx.info, ctx.db, viewer.user, field, value) || InNoGroup(ctx.db, viewer.user) {
      forall b: Db, r: Request
        | Valid(b) && SameButOthers(ctx.db, b, viewer.user) && r.filter == L.Equality(field, value)
        ensures SearchReply(ctx, Some(viewer), r) == SearchReply(ctx.(db := b), Some(viewer), r)
      {
        BothKinds(ctx.db, b, viewer.user);
        RepliesAlike(ctx, b, viewer, r);
      }
    } else {
      var g :| g in ctx.db.groups && Membership(viewer.user, g) in ctx.db.memberships;
      var b := MemberLeaks(ctx, viewer, field, value, g);
    }
  }
}
