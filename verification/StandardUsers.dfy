/** User filters by the standard: each test compares with the values that the entry shows.
    The server answers a test alike except where stated here. */
module StandardUsers {
  import opened Wrappers
  import opened Text
  import opened Ordering
  import opened Codec
  import opened Schema
  import opened Like
  import opened Database
  import opened Sql
  import opened Filters
  import opened DistinguishedName
  import opened LdapFilters
  import opened Listing
  import opened Search
  import opened SearchProperties
  import opened MatchingRules
  import L = Ldap

  // ----- The standard's meaning -----

  /** The matching rule of a field. "dn" is the name of no attribute. */
  function UserRule(m: UserField): Option<Rule> {
    match m
    case UserNoMatch => None
    case UserDnField => None
    case UserObjectClass => Some(TextRule)
    case UserMemberOf => Some(NameRule)
    case UserEntryDn => Some(NameRule)
    case UserPrimary(_) => Some(TextRule)
    case UserAttribute(_, typ, _) => Some(TypedRule(typ))
  }

  /** The values of an attribute that the entry shows to whoever has this schema. */
  ghost function ShownUser(info: LdapInfo, schema: Schema, db: Db, u: string, field: string): seq<OutputValue>
    requires u in db.users
  {
    var r := GetUserAttribute(FullUser(db, u), field, info, schema);
    if r.Ok? && r.value.Some? then r.value.value else []
  }

  /** No user test compares UUIDs by parsing. */
  function NoUuids(s: string): Option<string> {
    None
  }

  /** The value of a filter by section 4.5.1.7 of RFC 4511, and section 2 of RFC 4526 for
      And and Or of nothing. */
  ghost function StandardUserMeaning(info: LdapInfo, lib: Parsers, schema: Schema, db: Db, u: string, f: L.LdapFilter)
    : Tri
    requires u in db.users
    decreases f, 0
  {
    match f
    case And(fs) => StandardUserMeanings(info, lib, schema, db, u, false, fs)
    case Or(fs) => StandardUserMeanings(info, lib, schema, db, u, true, fs)
    case Not(g) => NotT(StandardUserMeaning(info, lib, schema, db, u, g))
    case Equality(field, value) =>
      StandardEquality(lib, NoUuids, UserRule(MapUserField(Lower(field), schema)),
                       ShownUser(info, schema, db, u, field),
                       value)
    case Present(field) =>
      StandardPresence(UserRule(MapUserField(Lower(field), schema)), ShownUser(info, schema, db, u, field))
    case Substring(field, s) =>
      StandardSubstring(UserRule(MapUserField(Lower(field), schema)), ShownUser(info, schema, db, u, field), s)
    case Unsupported => Unknown
  }

  ghost function StandardUserMeanings(info: LdapInfo, lib: Parsers, schema: Schema, db: Db, u: string, any: bool,
                                      fs: seq<L.LdapFilter>): Tri
    requires u in db.users
    decreases fs, 0
  {
    if fs == [] then Bool(!any)
    else Combine(any, StandardUserMeaning(info, lib, schema, db, u, fs[0]),
                 StandardUserMeanings(info, lib, schema, db, u, any, fs[1..]))
  }

  // ----- Where the server differs -----

  /** The text of a column; only the display name can be absent. */
  function ColumnText(row: UserRow, u: string, c: UserColumn): Option<string> {
    match c
    case UserId => Some(u)
    case Email => Some(row.email)
    case UserDisplayName => row.displayName
    case UserCreationDate => Some(row.creationDate)
    case UserUuid => Some(row.uuid)
    case _ => None
  }

  /** The user is in a group by the name that the server takes from the assertion. */
  ghost predicate InNamedGroup(info: LdapInfo, db: Db, u: string, value: string) {
    exists g :: g in GroupsOf(db, u) && IdIn(info, value, true) == L.Ok(Lower(db.groups[g].displayName))
  }

  /** The user is in a group whose unclean name prints like the assertion. */
  ghost predicate InOddGroup(info: LdapInfo, db: Db, u: string, value: string) {
    exists g :: g in GroupsOf(db, u) && !CleanName(db.groups[g].displayName) &&
      SameDn(value, GroupDn(db.groups[g].displayName, info.baseStr))
  }

  /** An equality test goes wrong for a user:
      - under Not, for an unknown attribute, an absent display name, or an entry name that
        is no name at all;
      - for "dn", whenever the server finds an answer;
      - on a text that it matches, if the stored one is empty, or has an upper-case letter
        and is no email;
      - on a sensitive value that it matches;
      - on the name of a group or entry in the other of the two types "cn" and "uid", or if
        an unclean name prints like the assertion. */
  ghost predicate WrongUserEquality(info: LdapInfo, lib: Parsers, schema: Schema, db: Db, u: string, field: string,
                                    value: string, positive: bool)
    requires u in db.users
  {
    match MapUserField(Lower(field), schema)
    case UserNoMatch => !positive
    case UserDnField => (IdIn(info, value, false) == L.Ok(u)) == positive
    case UserObjectClass => false
    case UserPrimary(c) =>
      var text := ColumnText(db.users[u], u, c);
      if text.None? then !positive
      else Lower(value) == Lower(text.value) && (text.value == "" || (c != Email && !IsLower(text.value)))
    case UserAttribute(name, typ, _) =>
      exists v :: StoredUserValue(db, u, name, v) && AnyMatches(lib, typ, v, value) && SensitiveValue(typ, v)
    case UserMemberOf =>
      var odd := InOddGroup(info, db, u, value);
      if InNamedGroup(info, db, u, value) then KeyOf(value) != "cn" && !odd else odd
    case UserEntryDn =>
      if !IsDn(value) then !positive
      else if IdIn(info, value, false) == L.Ok(u) then KeyOf(value) != "uid"
      else !CleanName(u) && SameDn(value, UserDn(u, info.baseStr))
  }

  /** What the tables hold of an attribute. */
  ghost predicate UserHasValue(db: Db, u: string, m: UserField)
    requires u in db.users
  {
    match m
    case UserNoMatch => false
    case UserDnField => false
    case UserObjectClass => true
    case UserEntryDn => true
    case UserMemberOf => GroupsOf(db, u) != {}
    case UserPrimary(c) =>
      var text := ColumnText(db.users[u], u, c);
      text.Some? && text.value != ""
    case UserAttribute(name, _, _) => exists v :: StoredUserValue(db, u, name, v) && Scalars(v) != [] && !Unseen(v)
  }

  /** A presence test goes wrong for an attribute without a value, for "dn", and under Not
      for an unknown attribute. */
  ghost predicate WrongUserPresence(schema: Schema, db: Db, u: string, field: string, positive: bool)
    requires u in db.users
  {
    match MapUserField(Lower(field), schema)
    case UserNoMatch => !positive
    case UserDnField => positive
    case m => !UserHasValue(db, u, m)
  }

  /** A substring test goes wrong with a metacharacter of LIKE, on an empty text, and under
      Not for an unknown attribute or an absent display name. */
  predicate WrongUserSubstring(schema: Schema, db: Db, u: string, field: string, s: SubStringFilter, positive: bool)
    requires u in db.users
  {
    match MapUserField(Lower(field), schema)
    case UserNoMatch => !positive
    case UserPrimary(c) =>
      var text := ColumnText(db.users[u], u, c);
      if text.None? then !positive else if text.value == "" then Matches(SqlPattern(s), "") else !PlainFilter(s)
    case _ => false
  }

  /** No test in the filter goes wrong for this user. */
  ghost predicate UserTestsAgree(info: LdapInfo, lib: Parsers, schema: Schema, db: Db, u: string, f: L.LdapFilter,
                                 positive: bool)
    requires u in db.users
    decreases f
  {
    match f
    case And(fs) => forall g :: g in fs ==> UserTestsAgree(info, lib, schema, db, u, g, positive)
    case Or(fs) => forall g :: g in fs ==> UserTestsAgree(info, lib, schema, db, u, g, positive)
    case Not(g) => UserTestsAgree(info, lib, schema, db, u, g, !positive)
    case Equality(field, value) => !WrongUserEquality(info, lib, schema, db, u, field, value, positive)
    case Present(field) => !WrongUserPresence(schema, db, u, field, positive)
    case Substring(field, s) => !WrongUserSubstring(schema, db, u, field, s, positive)
    case Unsupported => true
  }

  predicate UserFilterConverts(info: LdapInfo, lib: Parsers, schema: Schema, f: L.LdapFilter) {
    ConvertUserFilter(info, lib, schema, f).Ok?
  }

  ghost predicate UserTestAgrees(info: LdapInfo, lib: Parsers, schema: Schema, db: Db, u: string, f: L.LdapFilter,
                                 positive: bool)
    requires u in db.users
  {
    AgreeOn(positive, LdapUserMeaning(info, lib, schema, db, u, f), StandardUserMeaning(info, lib, schema, db, u, f))
  }

  // ----- What an entry shows -----

  lemma ShownColumn(info: LdapInfo, schema: Schema, db: Db, u: string, field: string, c: UserColumn)
    requires u in db.users && MapUserField(Lower(field), schema) == UserPrimary(c) && FilterColumn(c)
    ensures var text := ColumnText(db.users[u], u, c);
      ShownUser(info, schema, db, u, field) ==
        if text.None? || text.value == "" then [] else [Plain(text.value)]
  {
    hide MapUserField, GroupListOf, UserAttributesOf;
  }

  lemma ShownClasses(info: LdapInfo, schema: Schema, db: Db, u: string, field: string)
    requires u in db.users && MapUserField(Lower(field), schema) == UserObjectClass
    ensures ShownUser(info, schema, db, u, field) == PlainValues(USER_CLASSES + schema.extraUserClasses)
  {
    hide MapUserField, GroupListOf, UserAttributesOf;
  }

  lemma ShownEntryDn(info: LdapInfo, schema: Schema, db: Db, u: string, field: string)
    requires u in db.users && MapUserField(Lower(field), schema) == UserEntryDn
    ensures ShownUser(info, schema, db, u, field) == [Plain(UserDn(u, info.baseStr))]
  {
    hide MapUserField, GroupListOf, UserAttributesOf;
  }

  lemma RowsOfIds(db: Db, ids: seq<int>, r: GroupRow)
    requires forall i :: 0 <= i < |ids| ==> ids[i] in db.groups
    ensures r in GroupRows(db, ids) <==> exists i :: 0 <= i < |ids| && r == db.groups[ids[i]]
  {
  }

  lemma ListedGroups(db: Db, u: string, r: GroupRow)
    ensures r in GroupListOf(db, u) <==> exists g :: g in GroupsOf(db, u) && r == db.groups[g]
  {
    hide StableSort, GroupRows, GroupsOf;
    GroupsExist(db, u);
    var ids := SortedInts(GroupsOf(db, u));
    forall i | 0 <= i < |ids|
      ensures ids[i] in GroupsOf(db, u)
    {
      assert ids[i] in ids;
    }
    RowsOfIds(db, ids, r);
    StableSortMembers(DisplayNameKey, GroupRows(db, ids), r);
    if g :| g in GroupsOf(db, u) && r == db.groups[g] {
      var i :| 0 <= i < |ids| && ids[i] == g;
      assert r == db.groups[ids[i]];
    }
  }

  lemma GroupsExist(db: Db, u: string)
    ensures forall g :: g in GroupsOf(db, u) ==> g in db.groups
  {
  }

  lemma ShownMemberOf(info: LdapInfo, schema: Schema, db: Db, u: string, field: string)
    requires u in db.users && MapUserField(Lower(field), schema) == UserMemberOf
    ensures forall x :: x in ShownUser(info, schema, db, u, field) <==>
      exists g :: g in GroupsOf(db, u) && x == Plain(GroupDn(db.groups[g].displayName, info.baseStr))
  {
    hide MapUserField, GroupListOf, UserAttributesOf;
    var groups := GroupListOf(db, u);
    var shown := GroupDns(groups, info.baseStr);
    assert ShownUser(info, schema, db, u, field) == shown;
    forall x
      ensures x in shown <==>
        exists g :: g in GroupsOf(db, u) && x == Plain(GroupDn(db.groups[g].displayName, info.baseStr))
    {
      if x in shown {
        var i :| 0 <= i < |shown| && shown[i] == x;
        ListedGroups(db, u, groups[i]);
      }
      if g :| g in GroupsOf(db, u) && x == Plain(GroupDn(db.groups[g].displayName, info.baseStr)) {
        ListedGroups(db, u, db.groups[g]);
        var i :| 0 <= i < |groups| && groups[i] == db.groups[g];
        assert shown[i] == x;
      }
    }
  }

  /** A field that maps to an attribute maps to one that the viewer may see. */
  lemma UserFieldSeen(db: Db, restricted: bool, field: string)
    requires Valid(db)
    ensures var m := MapUserField(field, ViewerSchema(db, restricted));
      m.UserAttribute? ==>
        m.name in db.userSchema && VisibleTo(db.userSchema[m.name], restricted) &&
        db.userSchema[m.name].typ == m.typ && db.userSchema[m.name].isList == m.isList
  {
    hide UserAlias, ViewerSchema, WellTyped, GetAttributeSchema, BuiltinUserRow;
    if UserAlias(field).Some? {
      UserAliasKinds(field);
    } else {
      ViewerUserLookup(db, restricted, field);
      if BuiltinUserRow(field).Some? {
        BuiltinUserNames(field);
      }
    }
  }

  lemma StoredOnce(db: Db, u: string, name: string, v: Value, w: Value)
    requires StoredUserValue(db, u, name, v) && StoredUserValue(db, u, name, w)
    ensures v == w
  {
    Injective(v, w, db.userSchema[name].typ, db.userSchema[name].isList);
  }

  /** The stored value, if there is one. */
  lemma StoredOrAbsent(db: Db, u: string, name: string) returns (v: Option<Value>)
    requires Valid(db) && name in db.userSchema
    ensures v.Some? ==> StoredUserValue(db, u, name, v.value)
    ensures forall w :: StoredUserValue(db, u, name, w) ==> v == Some(w)
    ensures v.Some? <==> AttributeKey(u, name) in db.userAttributes
  {
    hide ValidUsers, ValidGroups, ValidSchema, Encode, HasType;
    var key := AttributeKey(u, name);
    v := None;
    if key in db.userAttributes {
      var row := db.userSchema[name];
      assert WellTyped(db.userAttributes[key], row);
      var w :| HasType(w, row.typ, row.isList) && db.userAttributes[key] == Encode(w, row.typ, row.isList);
      v := Some(w);
    }
    forall w | StoredUserValue(db, u, name, w)
      ensures v == Some(w)
    {
      StoredOnce(db, u, name, v.value, w);
    }
  }

  lemma ShownAttribute(info: LdapInfo, db: Db, restricted: bool, u: string, field: string, v: Option<Value>)
    requires Valid(db) && u in db.users && MapUserField(Lower(field), ViewerSchema(db, restricted)).UserAttribute?
    requires var name := MapUserField(Lower(field), ViewerSchema(db, restricted)).name;
      && (v.Some? ==> StoredUserValue(db, u, name, v.value))
      && (v.Some? <==> AttributeKey(u, name) in db.userAttributes)
    ensures ShownUser(info, ViewerSchema(db, restricted), db, u, field) == if v.None? then [] else ShownValues(v.value)
  {
    hide Valid, ViewerSchema, MapUserField, GetCustomAttribute, UserAttributesOf, GroupListOf, StoredUserValue;
    UserFieldSeen(db, restricted, Lower(field));
    UserCustomAttribute(db, restricted, u, MapUserField(Lower(field), ViewerSchema(db, restricted)).name);
    if v.Some? {
      DroppedUnseen(v.value);
    }
  }

  lemma DroppedUnseen(v: Value)
    ensures DropEmpty(Some(TypedValues(v))) == if Unseen(v) then None else Some(ShownValues(v))
  {
  }

  // ----- The tests, one by one -----

  ghost predicate EqualityAgrees(info: LdapInfo, lib: Parsers, db: Db, restricted: bool, u: string, field: string,
                                 value: string, positive: bool)
    requires u in db.users
  {
    UserTestAgrees(info, lib, ViewerSchema(db, restricted), db, u, L.Equality(field, value), positive)
  }

  lemma ColumnExactly(info: LdapInfo, lib: Parsers, db: Db, restricted: bool, u: string, field: string, value: string,
                      positive: bool)
    requires Valid(db) && u in db.users && MapUserField(Lower(field), ViewerSchema(db, restricted)).UserPrimary?
    ensures EqualityAgrees(info, lib, db, restricted, u, field, value, positive) <==>
      !WrongUserEquality(info, lib, ViewerSchema(db, restricted), db, u, field, value, positive)
  {
    hide MapUserField, ViewerSchema, ShownUser, ValidTypes, ValidGroups, ValidReferences, ValidSchema;
    var schema := ViewerSchema(db, restricted);
    var c := MapUserField(Lower(field), schema).column;
    UserFieldType(db, restricted, Lower(field));
    ShownColumn(info, schema, db, u, field, c);
    LowerIdempotent(value);
    var shown := ShownUser(info, schema, db, u, field);
    var text := ColumnText(db.users[u], u, c);
    if text.Some? && text.value != "" {
      assert Plain(text.value) in shown;
    }
    LowerIsEmpty(value);
  }

  lemma LowerIsEmpty(value: string)
    ensures Lower(value) == "" <==> value == ""
    ensures Lower("") == ""
  {
  }

  lemma {:induction false} HasPlain(texts: seq<string>, lib: Parsers, uuids: UuidParser, value: string)
    ensures SomeMatch(lib, uuids, TextRule, PlainValues(texts), value) <==> HasClass(texts, value)
  {
    var shown := PlainValues(texts);
    if c :| c in texts && Lower(c) == Lower(value) {
      var i :| 0 <= i < |texts| && texts[i] == c;
      assert shown[i] in shown;
    }
  }

  lemma ClassNames(value: string)
    ensures HasClass(USER_CLASSES, value) <==>
      Lower(value) == "person" || Lower(value) == "inetorgperson" || Lower(value) == "posixaccount" ||
      Lower(value) == "mailaccount"
  {
    assert Lower("inetOrgPerson") == "inetorgperson" && Lower("posixAccount") == "posixaccount";
    assert Lower("mailAccount") == "mailaccount" && Lower("person") == "person";
    assert USER_CLASSES[0] in USER_CLASSES && USER_CLASSES[1] in USER_CLASSES;
    assert USER_CLASSES[2] in USER_CLASSES && USER_CLASSES[3] in USER_CLASSES;
  }

  lemma ClassesJoined(a: seq<string>, b: seq<string>, value: string)
    ensures HasClass(a + b, value) <==> HasClass(a, value) || HasClass(b, value)
  {
    if c :| c in a && Lower(c) == Lower(value) {
      assert c in a + b;
    }
    if c :| c in b && Lower(c) == Lower(value) {
      assert c in a + b;
    }
  }

  lemma ClassesOfLowered(classes: seq<string>, value: string)
    ensures HasClass(classes, Lower(value)) <==> HasClass(classes, value)
  {
    LowerIdempotent(value);
  }

  lemma ClassExactly(info: LdapInfo, lib: Parsers, db: Db, restricted: bool, u: string, field: string, value: string,
                     positive: bool)
    requires u in db.users && MapUserField(Lower(field), ViewerSchema(db, restricted)).UserObjectClass?
    ensures EqualityAgrees(info, lib, db, restricted, u, field, value, positive)
  {
    hide MapUserField, ViewerSchema, ShownUser, HasClass, SomeMatch;
    var schema := ViewerSchema(db, restricted);
    ShownClasses(info, schema, db, u, field);
    HasPlain(USER_CLASSES + schema.extraUserClasses, lib, NoUuids, value);
    ClassesJoined(USER_CLASSES, schema.extraUserClasses, value);
    ClassNames(value);
    ClassesOfLowered(schema.extraUserClasses, value);
  }

  lemma EntryDnExactly(info: LdapInfo, lib: Parsers, db: Db, restricted: bool, u: string, field: string, value: string,
                       positive: bool)
    requires Valid(db) && ValidInfo(info) && u in db.users
    requires MapUserField(Lower(field), ViewerSchema(db, restricted)).UserEntryDn?
    ensures EqualityAgrees(info, lib, db, restricted, u, field, value, positive) <==>
      !WrongUserEquality(info, lib, ViewerSchema(db, restricted), db, u, field, value, positive)
  {
    hide MapUserField, ViewerSchema, ShownUser, ValidInfo, SameDn, CleanName, GetIdFromDistinguishedName, ValidTypes,
      ValidGroups, ValidReferences, ValidSchema, ParseDistinguishedName;
    var schema := ViewerSchema(db, restricted);
    ShownEntryDn(info, schema, db, u, field);
    IdShape(info, value, false);
    DnShapes(u, info.baseStr);
    if CleanName(u) {
      PrintedIsMet(info, value, false, "uid", u);
    }
    var shown := ShownUser(info, schema, db, u, field);
    assert shown[0] in shown && forall x :: x in shown ==> x == shown[0];
    SameDnParses(value, UserDn(u, info.baseStr));
  }

  lemma SameDnParses(value: string, dn: string)
    ensures SameDn(value, dn) ==> IsDn(value)
  {
  }

  /** The standard's answer to a group name, by the groups of the user. */
  lemma MemberOfMatches(info: LdapInfo, lib: Parsers, schema: Schema, db: Db, u: string, field: string, value: string)
    requires ValidInfo(info) && u in db.users && MapUserField(Lower(field), schema) == UserMemberOf
    requires IdIn(info, value, true).Ok?
    ensures SomeMatch(lib, NoUuids, NameRule, ShownUser(info, schema, db, u, field), value) <==>
      (InNamedGroup(info, db, u, value) && KeyOf(value) == "cn") || InOddGroup(info, db, u, value)
  {
    hide MapUserField, ShownUser, ValidInfo, SameDn, CleanName, GetIdFromDistinguishedName, GroupsOf, KeyOf;
    ShownMemberOf(info, schema, db, u, field);
    IdShape(info, value, true);
    GroupsExist(db, u);
    var shown := ShownUser(info, schema, db, u, field);
    forall g | g in GroupsOf(db, u)
      ensures Plain(GroupDn(db.groups[g].displayName, info.baseStr)) in shown
      ensures SameDn(value, GroupDn(db.groups[g].displayName, info.baseStr)) <==>
        if CleanName(db.groups[g].displayName) then
          IdIn(info, value, true) == L.Ok(Lower(db.groups[g].displayName)) && KeyOf(value) == "cn"
        else SameDn(value, GroupDn(db.groups[g].displayName, info.baseStr))
      ensures IdIn(info, value, true) == L.Ok(Lower(db.groups[g].displayName)) ==> CleanName(db.groups[g].displayName)
    {
      var name := db.groups[g].displayName;
      DnShapes(name, info.baseStr);
      CleanLower(name);
      if CleanName(name) {
        PrintedIsMet(info, value, true, "cn", name);
      }
    }
    if x :| x in shown && RuleMatches(lib, NoUuids, NameRule, x, value) {
      var g :| g in GroupsOf(db, u) && x == Plain(GroupDn(db.groups[g].displayName, info.baseStr));
    }
  }

  lemma MemberOfExactly(info: LdapInfo, lib: Parsers, db: Db, restricted: bool, u: string, field: string, value: string,
                        positive: bool)
    requires Valid(db) && ValidInfo(info) && u in db.users
    requires MapUserField(Lower(field), ViewerSchema(db, restricted)).UserMemberOf?
    requires UserFilterConverts(info, lib, ViewerSchema(db, restricted), L.Equality(field, value))
    ensures EqualityAgrees(info, lib, db, restricted, u, field, value, positive) <==>
      !WrongUserEquality(info, lib, ViewerSchema(db, restricted), db, u, field, value, positive)
  {
    hide MapUserField, ViewerSchema, ShownUser, ValidInfo, Valid, CleanName, GetIdFromDistinguishedName, GroupsOf,
      SomeMatch,
      InOddGroup, ParseDistinguishedName, KeyOf;
    var schema := ViewerSchema(db, restricted);
    MemberOfMatches(info, lib, schema, db, u, field, value);
    IdShape(info, value, true);
  }

  lemma OneParses(lib: Parsers, typ: AttributeType, isList: bool, value: string)
    ensures DeserializeAttributeValue(lib, [value], typ, isList).Some? <==> ParseScalar(lib, value, typ).Some?
  {
    hide ParseScalar;
    var one := [value];
    assert one[1..] == [] && ParseScalars(lib, one[1..], typ) == Some([]);
    assert ParseScalars(lib, one, typ).Some? <==> ParseScalar(lib, one[0], typ).Some?;
  }

  lemma AttributeExactly(info: LdapInfo, lib: Parsers, db: Db, restricted: bool, u: string, field: string,
                         value: string,
                         positive: bool)
    requires Valid(db) && u in db.users && MapUserField(Lower(field), ViewerSchema(db, restricted)).UserAttribute?
    requires UserFilterConverts(info, lib, ViewerSchema(db, restricted), L.Equality(field, value))
    ensures EqualityAgrees(info, lib, db, restricted, u, field, value, positive) <==>
      !WrongUserEquality(info, lib, ViewerSchema(db, restricted), db, u, field, value, positive)
  {
    hide MapUserField, ViewerSchema, ShownUser, Valid, SomeMatch, ParseScalar, ParseValue, SensitiveValue, AnyMatches,
      StoredUserValue, ShownValues, DeserializeAttributeValue;
    var schema := ViewerSchema(db, restricted);
    var m := MapUserField(Lower(field), schema);
    UserFieldSeen(db, restricted, Lower(field));
    OneParses(lib, m.typ, m.isList, Lower(value));
    var v := StoredOrAbsent(db, u, m.name);
    ShownAttribute(info, db, restricted, u, field, v);
    if v.Some? {
      StoredHasType(db, u, m.name, v.value);
      ValueExactly(lib, NoUuids, m.typ, m.isList, v.value, value);
    } else {
      AbsentHasNoMatch(lib, NoUuids, TypedRule(m.typ), value);
    }
  }

  lemma AbsentHasNoMatch(lib: Parsers, uuids: UuidParser, rule: Rule, value: string)
    ensures !SomeMatch(lib, uuids, rule, [], value)
  {
  }

  lemma StoredHasType(db: Db, u: string, name: string, v: Value)
    requires StoredUserValue(db, u, name, v)
    ensures HasType(v, db.userSchema[name].typ, db.userSchema[name].isList)
  {
  }

  lemma DnExactly(info: LdapInfo, lib: Parsers, db: Db, restricted: bool, u: string, field: string, value: string,
                  positive: bool)
    requires u in db.users
    requires var m := MapUserField(Lower(field), ViewerSchema(db, restricted)); m.UserDnField? || m.UserNoMatch?
    ensures EqualityAgrees(info, lib, db, restricted, u, field, value, positive) <==>
      !WrongUserEquality(info, lib, ViewerSchema(db, restricted), db, u, field, value, positive)
  {
    hide MapUserField, ViewerSchema, ShownUser, GetIdFromDistinguishedName;
  }

  /** An equality test that the server accepts agrees with the standard if and only if it
      does not go wrong in one of the ways named. */
  lemma UserEqualityExactly(info: LdapInfo, lib: Parsers, db: Db, restricted: bool, u: string, field: string,
                            value: string,
                            positive: bool)
    requires Valid(db) && ValidInfo(info) && u in db.users
    requires UserFilterConverts(info, lib, ViewerSchema(db, restricted), L.Equality(field, value))
    ensures UserTestAgrees(info, lib, ViewerSchema(db, restricted), db, u, L.Equality(field, value), positive) <==>
      !WrongUserEquality(info, lib, ViewerSchema(db, restricted), db, u, field, value, positive)
  {
    hide MapUserField, ViewerSchema, Valid, ValidInfo, WrongUserEquality, UserFilterConverts, UserTestAgrees;
    match MapUserField(Lower(field), ViewerSchema(db, restricted))
    case UserPrimary(_) => ColumnExactly(info, lib, db, restricted, u, field, value, positive);
    case UserObjectClass =>
      ClassExactly(info, lib, db, restricted, u, field, value, positive);
      ClassNeverWrong(info, lib, ViewerSchema(db, restricted), db, u, field, value, positive);
    case UserEntryDn => EntryDnExactly(info, lib, db, restricted, u, field, value, positive);
    case UserMemberOf => MemberOfExactly(info, lib, db, restricted, u, field, value, positive);
    case UserAttribute(_, _, _) => AttributeExactly(info, lib, db, restricted, u, field, value, positive);
    case _ => DnExactly(info, lib, db, restricted, u, field, value, positive);
  }

  lemma ClassNeverWrong(info: LdapInfo, lib: Parsers, schema: Schema, db: Db, u: string, field: string, value: string,
                        positive: bool)
    requires u in db.users && MapUserField(Lower(field), schema).UserObjectClass?
    ensures !WrongUserEquality(info, lib, schema, db, u, field, value, positive)
  {
    hide MapUserField;
  }

  lemma NameField(schema: Schema)
    ensures MapUserField(Lower("cn"), schema) == UserPrimary(UserDisplayName)
  {
    assert Lower("cn") == "cn";
  }

  /** So a display name is found by exactly the values that match it, if and only if it is
      absent, or in lower case and not empty. */
  lemma DisplayNameExactly(info: LdapInfo, lib: Parsers, db: Db, restricted: bool, u: string)
    requires Valid(db) && ValidInfo(info) && u in db.users
    ensures
      (forall value: string :: EqualityAgrees(info, lib, db, restricted, u, "cn", value, true))
      <==> (var name := db.users[u].displayName; name.None? || (name.value != "" && IsLower(name.value)))
  {
    hide UserTestAgrees, MapUserField, IsLower, ViewerSchema, Valid, ValidInfo;
    NameField(ViewerSchema(db, restricted));
    var name := db.users[u].displayName;
    forall value: string
      ensures EqualityAgrees(info, lib, db, restricted, u, "cn", value, true) <==>
        name.None? || !(Lower(value) == Lower(name.value) && (name.value == "" || !IsLower(name.value)))
    {
      UserEqualityExactly(info, lib, db, restricted, u, "cn", value, true);
    }
    if name.Some? {
      assert EqualityAgrees(info, lib, db, restricted, u, "cn", name.value, true) <==>
        !(name.value == "" || !IsLower(name.value));
    }
  }

  // ----- Presence -----

  lemma AttributeShown(info: LdapInfo, db: Db, restricted: bool, u: string, field: string)
    requires Valid(db) && u in db.users && MapUserField(Lower(field), ViewerSchema(db, restricted)).UserAttribute?
    ensures ShownUser(info, ViewerSchema(db, restricted), db, u, field) != [] <==>
      UserHasValue(db, u, MapUserField(Lower(field), ViewerSchema(db, restricted)))
  {
    hide MapUserField, ViewerSchema, ShownUser, Valid, StoredUserValue, Unseen, TypedValues;
    var m := MapUserField(Lower(field), ViewerSchema(db, restricted));
    UserFieldSeen(db, restricted, Lower(field));
    var v := StoredOrAbsent(db, u, m.name);
    ShownAttribute(info, db, restricted, u, field, v);
    if v.Some? {
      TypedCount(v.value);
    }
  }

  lemma TypedCount(v: Value)
    ensures |TypedValues(v)| == |Scalars(v)|
  {
  }

  lemma MemberOfShown(info: LdapInfo, schema: Schema, db: Db, u: string, field: string)
    requires u in db.users && MapUserField(Lower(field), schema) == UserMemberOf
    ensures ShownUser(info, schema, db, u, field) != [] <==> GroupsOf(db, u) != {}
  {
    hide MapUserField, ShownUser, GroupsOf;
    ShownMemberOf(info, schema, db, u, field);
    GroupsExist(db, u);
    var shown := ShownUser(info, schema, db, u, field);
    if shown != [] {
      assert shown[0] in shown;
    }
    if GroupsOf(db, u) != {} {
      var g := HasElement(GroupsOf(db, u));
      assert Plain(GroupDn(db.groups[g].displayName, info.baseStr)) in shown;
    }
  }

  /** An entry shows a value of an attribute if and only if the tables hold one. */
  lemma UserShowsStored(info: LdapInfo, db: Db, restricted: bool, u: string, field: string)
    requires Valid(db) && u in db.users
    requires UserRule(MapUserField(Lower(field), ViewerSchema(db, restricted))).Some?
    ensures ShownUser(info, ViewerSchema(db, restricted), db, u, field) != [] <==>
      UserHasValue(db, u, MapUserField(Lower(field), ViewerSchema(db, restricted)))
  {
    hide MapUserField, ViewerSchema, ShownUser, Valid;
    var schema := ViewerSchema(db, restricted);
    UserFieldType(db, restricted, Lower(field));
    match MapUserField(Lower(field), schema)
    case UserPrimary(c) => ShownColumn(info, schema, db, u, field, c);
    case UserObjectClass =>
      ShownClasses(info, schema, db, u, field);
      assert |USER_CLASSES + schema.extraUserClasses| >= 4;
    case UserEntryDn => ShownEntryDn(info, schema, db, u, field);
    case UserMemberOf => MemberOfShown(info, schema, db, u, field);
    case UserAttribute(_, _, _) => AttributeShown(info, db, restricted, u, field);
    case _ =>
  }

  /** A presence test agrees with the standard if and only if the tables hold a value or,
      where it is not under Not, the attribute is unknown; and that of "dn" under Not. */
  lemma UserPresenceExactly(info: LdapInfo, lib: Parsers, db: Db, restricted: bool, u: string, field: string,
                            positive: bool)
    requires Valid(db) && u in db.users
    ensures UserTestAgrees(info, lib, ViewerSchema(db, restricted), db, u, L.Present(field), positive) <==>
      !WrongUserPresence(ViewerSchema(db, restricted), db, u, field, positive)
  {
    hide MapUserField, ViewerSchema, ShownUser, Valid, UserHasValue;
    if UserRule(MapUserField(Lower(field), ViewerSchema(db, restricted))).Some? {
      UserShowsStored(info, db, restricted, u, field);
    }
  }

  // ----- Substrings -----

  lemma UserSubstringAgrees(info: LdapInfo, lib: Parsers, db: Db, restricted: bool, u: string, field: string,
                            s: SubStringFilter, positive: bool)
    requires Valid(db) && u in db.users
    requires UserFilterConverts(info, lib, ViewerSchema(db, restricted), L.Substring(field, s))
    requires !WrongUserSubstring(ViewerSchema(db, restricted), db, u, field, s, positive)
    ensures UserTestAgrees(info, lib, ViewerSchema(db, restricted), db, u, L.Substring(field, s), positive)
  {
    hide MapUserField, ViewerSchema, ShownUser, Matches, Holds, SqlPattern, PlainFilter, ValidTypes, ValidSchema,
      ValidGroups,
      ValidReferences;
    var schema := ViewerSchema(db, restricted);
    match MapUserField(Lower(field), schema)
    case UserPrimary(c) =>
      UserFieldType(db, restricted, Lower(field));
      ShownColumn(info, schema, db, u, field, c);
      LowerIsEmpty("");
      var text := ColumnText(db.users[u], u, c);
      if text.Some? && text.value != "" {
        var shown := ShownUser(info, schema, db, u, field);
        assert Plain(text.value) in shown;
        PatternCorrect(s, Lower(text.value));
      }
    case _ =>
  }

  // ----- Whole filters -----

  lemma {:induction false} UserReadingsAgree(info: LdapInfo, lib: Parsers, db: Db, restricted: bool, u: string,
                                            f: L.LdapFilter, positive: bool)
    requires Valid(db) && ValidInfo(info) && u in db.users
    requires UserFilterConverts(info, lib, ViewerSchema(db, restricted), f)
    requires UserTestsAgree(info, lib, ViewerSchema(db, restricted), db, u, f, positive)
    ensures UserTestAgrees(info, lib, ViewerSchema(db, restricted), db, u, f, positive)
    decreases f, 0
  {
    hide Valid, ValidInfo, ViewerSchema, WrongUserEquality, WrongUserPresence, WrongUserSubstring, MapUserField,
      ShownUser;
    match f
    case And(fs) => UserReadingsAgreeAll(info, lib, db, restricted, u, fs, positive, false);
    case Or(fs) => UserReadingsAgreeAll(info, lib, db, restricted, u, fs, positive, true);
    case Not(g) => UserReadingsAgree(info, lib, db, restricted, u, g, !positive);
    case Equality(field, value) => UserEqualityExactly(info, lib, db, restricted, u, field, value, positive);
    case Present(field) => UserPresenceExactly(info, lib, db, restricted, u, field, positive);
    case Substring(field, s) => UserSubstringAgrees(info, lib, db, restricted, u, field, s, positive);
    case Unsupported =>
  }

  lemma {:induction false} UserReadingsAgreeAll(info: LdapInfo, lib: Parsers, db: Db, restricted: bool, u: string,
                                               fs: seq<L.LdapFilter>, positive: bool, any: bool)
    requires Valid(db) && ValidInfo(info) && u in db.users
    requires ConvertUserFilters(info, lib, ViewerSchema(db, restricted), fs).Ok?
    requires forall f :: f in fs ==> UserTestsAgree(info, lib, ViewerSchema(db, restricted), db, u, f, positive)
    ensures AgreeOn(positive, LdapUserMeanings(info, lib, ViewerSchema(db, restricted), db, u, any, fs),
                    StandardUserMeanings(info, lib, ViewerSchema(db, restricted), db, u, any, fs))
    decreases fs, 0
  {
    hide Valid, ValidInfo, ViewerSchema;
    if fs != [] {
      UserReadingsAgree(info, lib, db, restricted, u, fs[0], positive);
      UserReadingsAgreeAll(info, lib, db, restricted, u, fs[1..], positive, any);
    }
  }

  /** A user is selected exactly when the filter is true of them by the standard, for
      every nesting of And, Or and Not in which no test goes wrong. */
  lemma SelectedUserAsRfc(info: LdapInfo, lib: Parsers, db: Db, restricted: bool, f: L.LdapFilter, u: string)
    requires Valid(db) && ValidInfo(info) && u in db.users
    requires UserFilterConverts(info, lib, ViewerSchema(db, restricted), f)
    requires UserTestsAgree(info, lib, ViewerSchema(db, restricted), db, u, f, true)
    ensures var schema := ViewerSchema(db, restricted);
      var g := ConvertUserFilter(info, lib, schema, f).value;
      !PanicsOn(g) &&
      (u in SelectUsers(db, UserFilterExpr(g)) <==> StandardUserMeaning(info, lib, schema, db, u, f) == True)
  {
    hide ViewerSchema, ConvertUserFilter, LdapUserMeaning, StandardUserMeaning, UserFilterExpr, Valid, ValidInfo,
      PanicsOn,
      UserTestsAgree;
    SearchSelectsUsers(info, lib, db, restricted, f);
    UserReadingsAgree(info, lib, db, restricted, u, f, true);
  }
}
