/** Group filters by the standard, as for users: each test compares with the values that
    the entry shows to this viewer. The server answers a test alike except where stated
    here. */
module StandardGroups {
  import opened Wrappers
  import opened Text
  import opened Ordering
  import opened Codec
  import opened Schema
  import opened Like
  import opened Database
  import opened Sql
  import opened Filters
  import opened DistinguishedName
  import opened LdapFilters
  import opened Listing
  import opened Search
  import opened SearchProperties
  import opened MatchingRules
  import opened StandardUsers
  import L = Ldap

  // ----- The standard's meaning -----

  function GroupRule(m: GroupField): Option<Rule> {
    match m
    case GroupNoMatch => None
    case GroupDnField => None
    case GroupDisplayNameField => Some(TextRule)
    case GroupCreationDateField => Some(TextRule)
    case GroupObjectClass => Some(TextRule)
    case GroupEntryDn => Some(NameRule)
    case GroupMember => Some(NameRule)
    case GroupUuidField => Some(UuidRule)
    case GroupAttribute(_, typ, _) => Some(TypedRule(typ))
  }

  /** The values of an attribute that the entry shows to this viewer. */
  ghost function ShownGroup(info: LdapInfo, db: Db, only: Option<string>, g: int, field: string): seq<OutputValue>
    requires g in db.groups
  {
    var r := GetGroupAttribute(FullGroup(db, g), field, only, info, ViewerSchema(db, only.Some?));
    if r.Ok? && r.value.Some? then r.value.value else []
  }

  ghost function GroupFieldOf(db: Db, only: Option<string>, field: string): GroupField {
    MapGroupField(Lower(field), ViewerSchema(db, only.Some?))
  }

  ghost function StandardGroupMeaning(info: LdapInfo, lib: Parsers, uuids: UuidParser, db: Db, only: Option<string>,
                                      g: int, f: L.LdapFilter)
    : Tri
    requires g in db.groups
    decreases f, 0
  {
    match f
    case And(fs) => StandardGroupMeanings(info, lib, uuids, db, only, g, false, fs)
    case Or(fs) => StandardGroupMeanings(info, lib, uuids, db, only, g, true, fs)
    case Not(h) => NotT(StandardGroupMeaning(info, lib, uuids, db, only, g, h))
    case Equality(field, value) =>
      StandardEquality(lib, uuids, GroupRule(GroupFieldOf(db, only, field)), ShownGroup(info, db, only, g, field),
                       value)
    case Present(field) =>
      StandardPresence(GroupRule(GroupFieldOf(db, only, field)), ShownGroup(info, db, only, g, field))
    case Substring(field, s) =>
      StandardSubstring(GroupRule(GroupFieldOf(db, only, field)), ShownGroup(info, db, only, g, field), s)
    case Unsupported => Unknown
  }

  ghost function StandardGroupMeanings(info: LdapInfo, lib: Parsers, uuids: UuidParser, db: Db, only: Option<string>,
                                       g: int, any: bool, fs: seq<L.LdapFilter>): Tri
    requires g in db.groups
    decreases fs, 0
  {
    if fs == [] then Bool(!any)
    else Combine(any, StandardGroupMeaning(info, lib, uuids, db, only, g, fs[0]),
                 StandardGroupMeanings(info, lib, uuids, db, only, g, any, fs[1..]))
  }

  // ----- Where the server differs -----

  /** The group has this member, and shows them to the viewer. */
  ghost predicate ShownMember(db: Db, only: Option<string>, g: int, u: string) {
    Membership(u, g) in db.memberships && (only.None? || u == only.value)
  }

  /** It shows a member whose unclean id prints like the assertion. */
  ghost predicate HasOddMember(info: LdapInfo, db: Db, only: Option<string>, g: int, value: string) {
    exists u: string :: ShownMember(db, only, g, u) && !CleanName(u) && SameDn(value, UserDn(u, info.baseStr))
  }

  predicate SeesGroupRow(db: Db, only: Option<string>, name: string) {
    name in db.groupSchema && VisibleTo(db.groupSchema[name], only.Some?)
  }

  /** What the viewer reads of an attribute: the stored value or, of a hidden attribute
      called like the built-in one, the number that its bytes begin with. */
  ghost predicate ReadGroupValue(db: Db, only: Option<string>, g: int, name: string, v: Value) {
    if SeesGroupRow(db, only, name) then StoredGroupValue(db, g, name, v)
    else
      AttributeKey(g, name) in db.groupAttributes &&
      Decode(db.groupAttributes[AttributeKey(g, name)], Integer, false) == Some(v)
  }

  /** An equality test goes wrong for a group, apart from the ways in which a user's does:
      - for the class "groupOfNames", which the entry does not show;
      - for a member whom the viewer is not shown;
      - for the entry name with the type "cn", since the printed one has "uid";
      - for a hidden attribute, when more than a number is stored. */
  ghost predicate WrongGroupEquality(info: LdapInfo, lib: Parsers, uuids: UuidParser, db: Db, only: Option<string>,
                                     g: int, field: string, value: string, positive: bool)
    requires g in db.groups
  {
    var row := db.groups[g];
    match GroupFieldOf(db, only, field)
    case GroupNoMatch => !positive
    case GroupDnField => (IdIn(info, value, true) == L.Ok(Lower(row.displayName))) == positive
    case GroupDisplayNameField => row.displayName == "" && value == ""
    case GroupCreationDateField => false
    case GroupObjectClass =>
      Lower(value) == "groupofnames" && !HasClass(ViewerSchema(db, only.Some?).extraGroupClasses, value)
    case GroupUuidField => row.uuid == "" && uuids(Lower(value)) == Some("")
    case GroupMember =>
      var id := IdIn(info, value, false);
      var odd := HasOddMember(info, db, only, g, value);
      if id.Ok? && Membership(id.value, g) in db.memberships then
        !(ShownMember(db, only, g, id.value) && KeyOf(value) == "uid") && !odd
      else odd
    case GroupEntryDn =>
      if !IsDn(value) then !positive
      else if IdIn(info, value, true) == L.Ok(Lower(row.displayName)) then KeyOf(value) != "uid"
      else !CleanName(row.displayName) && SameDn(value, EntryDn("uid", row.displayName, "groups", info.baseStr))
    case GroupAttribute(name, typ, _) =>
      exists v :: ReadGroupValue(db, only, g, name, v) && AnyMatches(lib, typ, v, value) &&
        if SeesGroupRow(db, only, name) then SensitiveValue(typ, v)
        else |db.groupAttributes[AttributeKey(g, name)]| != 8
  }

  /** What the tables hold of an attribute for this viewer. */
  ghost predicate GroupHasValue(db: Db, only: Option<string>, g: int, m: GroupField)
    requires g in db.groups
  {
    match m
    case GroupNoMatch => false
    case GroupDnField => false
    case GroupDisplayNameField => db.groups[g].displayName != ""
    case GroupCreationDateField => db.groups[g].creationDate != ""
    case GroupUuidField => db.groups[g].uuid != ""
    case GroupObjectClass => true
    case GroupEntryDn => true
    case GroupMember => exists u: string :: ShownMember(db, only, g, u)
    case GroupAttribute(name, _, _) =>
      exists v :: ReadGroupValue(db, only, g, name, v) && Scalars(v) != [] && !Unseen(v)
  }

  ghost predicate WrongGroupPresence(db: Db, only: Option<string>, g: int, field: string, positive: bool)
    requires g in db.groups
  {
    match GroupFieldOf(db, only, field)
    case GroupNoMatch => !positive
    case GroupDnField => positive
    case m => !GroupHasValue(db, only, g, m)
  }

  ghost predicate WrongGroupSubstring(db: Db, only: Option<string>, g: int, field: string, s: SubStringFilter,
                                      positive: bool)
    requires g in db.groups
  {
    match GroupFieldOf(db, only, field)
    case GroupNoMatch => !positive
    case GroupDisplayNameField =>
      if db.groups[g].displayName == "" then Matches(SqlPattern(s), "") else !PlainFilter(s)
    case _ => false
  }

  /** No test in the filter goes wrong for this group. */
  ghost predicate GroupTestsAgree(info: LdapInfo, lib: Parsers, uuids: UuidParser, db: Db, only: Option<string>, g: int,
                                  f: L.LdapFilter, positive: bool)
    requires g in db.groups
    decreases f
  {
    match f
    case And(fs) => forall h :: h in fs ==> GroupTestsAgree(info, lib, uuids, db, only, g, h, positive)
    case Or(fs) => forall h :: h in fs ==> GroupTestsAgree(info, lib, uuids, db, only, g, h, positive)
    case Not(h) => GroupTestsAgree(info, lib, uuids, db, only, g, h, !positive)
    case Equality(field, value) => !WrongGroupEquality(info, lib, uuids, db, only, g, field, value, positive)
    case Present(field) => !WrongGroupPresence(db, only, g, field, positive)
    case Substring(field, s) => !WrongGroupSubstring(db, only, g, field, s, positive)
    case Unsupported => true
  }

  ghost predicate GroupFilterConverts(info: LdapInfo, lib: Parsers, uuids: UuidParser, db: Db, only: Option<string>,
                                      f: L.LdapFilter)
  {
    ConvertGroupFilter(info, lib, uuids, ViewerSchema(db, only.Some?), f).Ok?
  }

  ghost predicate GroupTestAgrees(info: LdapInfo, lib: Parsers, uuids: UuidParser, db: Db, only: Option<string>, g: int,
                                  f: L.LdapFilter, positive: bool)
    requires g in db.groups
  {
    AgreeOn(positive, LdapGroupMeaning(info, lib, uuids, ViewerSchema(db, only.Some?), db, g, f),
            StandardGroupMeaning(info, lib, uuids, db, only, g, f))
  }

  // ----- What an entry shows -----

  /** Texts of the entry itself. */
  ghost function GroupText(info: LdapInfo, db: Db, g: int, m: GroupField): Option<string>
    requires g in db.groups
  {
    match m
    case GroupDisplayNameField => Some(db.groups[g].displayName)
    case GroupCreationDateField => Some(db.groups[g].creationDate)
    case GroupUuidField => Some(db.groups[g].uuid)
    case GroupEntryDn => Some(EntryDn("uid", db.groups[g].displayName, "groups", info.baseStr))
    case _ => None
  }

  lemma EntryNameText(name: string, base: string)
    ensures "uid=" + name + ",ou=groups," + base == EntryDn("uid", name, "groups", base)
    ensures EntryDn("uid", name, "groups", base) != ""
  {
    assert "uid" + "=" == "uid=" && ",ou=" + "groups" + "," == ",ou=groups,";
    assert "uid=" + name + ",ou=groups," + base == "uid" + "=" + name + (",ou=" + "groups" + ",") + base;
  }

  lemma ShownText(info: LdapInfo, db: Db, only: Option<string>, g: int, field: string)
    requires g in db.groups && GroupText(info, db, g, GroupFieldOf(db, only, field)).Some?
    ensures var text := GroupText(info, db, g, GroupFieldOf(db, only, field)).value;
      ShownGroup(info, db, only, g, field) == if text == "" then [] else [Plain(text)]
  {
    hide MapGroupField, MembersOf, GroupAttributesOf, ViewerSchema, EntryDn;
    EntryNameText(db.groups[g].displayName, info.baseStr);
  }

  lemma ShownGroupClasses(info: LdapInfo, db: Db, only: Option<string>, g: int, field: string)
    requires g in db.groups && GroupFieldOf(db, only, field).GroupObjectClass?
    ensures ShownGroup(info, db, only, g, field) ==
      PlainValues(["groupOfUniqueNames"] + ViewerSchema(db, only.Some?).extraGroupClasses)
  {
    hide MapGroupField, MembersOf, GroupAttributesOf, ViewerSchema;
  }

  lemma {:induction false} PrintedMembers(members: seq<string>, only: Option<string>, baseStr: string, x: OutputValue)
    ensures x in MemberDns(members, only, baseStr) <==>
      exists u :: u in members && (only.None? || u == only.value) && x == Plain(UserDn(u, baseStr))
  {
    hide UserDn;
    if members != [] {
      PrintedMembers(members[1..], only, baseStr, x);
      assert forall u :: u in members <==> u == members[0] || u in members[1..];
    }
  }

  lemma PrintedIsNotEmpty(members: seq<string>, only: Option<string>, baseStr: string)
    ensures var dns := MemberDns(members, only, baseStr); |dns| > 0 ==> !IsEmptyValue(dns[0])
  {
    var dns := MemberDns(members, only, baseStr);
    if |dns| > 0 {
      PrintedMembers(members, only, baseStr, dns[0]);
    }
  }

  lemma MemberRows(db: Db, g: int, u: string)
    ensures u in MembersOf(db, g) <==> Membership(u, g) in db.memberships
  {
    var m := Membership(u, g);
    assert m.group == g && m.user == u;
  }

  lemma ShownMembers(info: LdapInfo, db: Db, only: Option<string>, g: int, field: string)
    requires g in db.groups && GroupFieldOf(db, only, field).GroupMember?
    ensures forall x :: x in ShownGroup(info, db, only, g, field) <==>
      exists u: string :: ShownMember(db, only, g, u) && x == Plain(UserDn(u, info.baseStr))
  {
    hide MapGroupField, MembersOf, GroupAttributesOf, ViewerSchema, MemberDns, UserDn;
    var members := Sorted(MembersOf(db, g));
    PrintedIsNotEmpty(members, only, info.baseStr);
    assert ShownGroup(info, db, only, g, field) == MemberDns(members, only, info.baseStr);
    forall x
      ensures x in MemberDns(members, only, info.baseStr) <==>
        exists u: string :: ShownMember(db, only, g, u) && x == Plain(UserDn(u, info.baseStr))
    {
      PrintedMembers(members, only, info.baseStr, x);
      forall u: string
        ensures u in members <==> Membership(u, g) in db.memberships
      {
        MemberRows(db, g, u);
      }
    }
  }

  /** A field that maps to an attribute maps to one that the viewer may see, at its type,
      or to the built-in number. */
  lemma GroupFieldSeen(db: Db, only: Option<string>, field: string)
    ensures var m := GroupFieldOf(db, only, field);
      m.GroupAttribute? ==>
        if SeesGroupRow(db, only, m.name) then
          db.groupSchema[m.name].typ == m.typ && db.groupSchema[m.name].isList == m.isList
        else
          GroupAlias(m.name).None? && BuiltinGroupRow(m.name) == Some(BUILTIN_NUMBER) && m.typ == Integer && !m.isList
  {
    hide GroupAlias, ViewerSchema, GetAttributeSchema, BuiltinGroupRow;
    ViewerGroupLookup(db, only.Some?, Lower(field));
    GroupIdIsNoAlias();
    if GroupAlias(Lower(field)).Some? {
      GroupAliasKinds(Lower(field));
    } else if BuiltinGroupRow(Lower(field)).Some? {
      BuiltinGroupNames(Lower(field));
    }
  }

  lemma ReadOnce(db: Db, only: Option<string>, g: int, name: string, v: Value, w: Value)
    requires ReadGroupValue(db, only, g, name, v) && ReadGroupValue(db, only, g, name, w)
    ensures v == w
  {
    if SeesGroupRow(db, only, name) {
      Injective(v, w, db.groupSchema[name].typ, db.groupSchema[name].isList);
    }
  }

  /** There is one exactly if a value is stored. */
  lemma ReadOrAbsent(db: Db, only: Option<string>, g: int, name: string) returns (v: Option<Value>)
    requires Valid(db)
    ensures v.Some? ==> ReadGroupValue(db, only, g, name, v.value)
    ensures forall w :: ReadGroupValue(db, only, g, name, w) ==> v == Some(w)
    ensures v.Some? <==> AttributeKey(g, name) in db.groupAttributes
  {
    hide ValidUsers, ValidGroups, ValidSchema, Encode, HasType, Decode;
    var key := AttributeKey(g, name);
    v := None;
    if key in db.groupAttributes {
      var row := db.groupSchema[name];
      assert WellTyped(db.groupAttributes[key], row);
      var w :| HasType(w, row.typ, row.isList) && db.groupAttributes[key] == Encode(w, row.typ, row.isList);
      DecodesAsInteger(w, row.typ, row.isList);
      v := Some(if SeesGroupRow(db, only, name) then w else Decode(db.groupAttributes[key], Integer, false).value);
    }
    forall w | ReadGroupValue(db, only, g, name, w)
      ensures v == Some(w)
    {
      ReadOnce(db, only, g, name, v.value, w);
    }
  }

  /** A hidden attribute called like the built-in one is read as a number. */
  lemma HiddenIsRead(db: Db, only: Option<string>, g: int, name: string)
    requires Valid(db) && g in db.groups && !SeesGroupRow(db, only, name)
    requires BuiltinGroupRow(name) == Some(BUILTIN_NUMBER) && GroupAlias(name).None?
    ensures
      var r := GetCustomAttribute(GroupAttributesOf(db, g), name, ViewerSchema(db, only.Some?).groupAttributes);
      r.Ok? &&
      (r.value.Some? <==> AttributeKey(g, name) in db.groupAttributes) &&
      (forall v :: ReadGroupValue(db, only, g, name, v) ==> r.value == Some(TypedValues(v)))
  {
    hide ViewerSchema, GetAttributeSchema, GroupAlias, BuiltinGroupRow, Decode, Valid;
    ViewerGroupLookup(db, only.Some?, name);
    GroupCustomSafe(db, only.Some?, g, name);
    var names := Sorted(GroupAttributeNames(db, g));
    FindStored(db.groupAttributes, g, names, name);
    assert name in names <==> AttributeKey(g, name) in db.groupAttributes;
  }

  lemma ShownGroupAttribute(info: LdapInfo, db: Db, only: Option<string>, g: int, field: string, v: Option<Value>)
    requires Valid(db) && g in db.groups && GroupFieldOf(db, only, field).GroupAttribute?
    requires var name := GroupFieldOf(db, only, field).name;
      && (v.Some? ==> ReadGroupValue(db, only, g, name, v.value))
      && (v.Some? <==> AttributeKey(g, name) in db.groupAttributes)
    ensures ShownGroup(info, db, only, g, field) == if v.None? then [] else ShownValues(v.value)
  {
    hide Valid, ViewerSchema, MapGroupField, GetCustomAttribute, GroupAttributesOf, MembersOf, StoredGroupValue, Decode;
    var name := GroupFieldOf(db, only, field).name;
    GroupFieldSeen(db, only, field);
    if SeesGroupRow(db, only, name) {
      GroupCustomAttribute(db, only.Some?, g, name);
    } else {
      HiddenIsRead(db, only, g, name);
    }
    if v.Some? {
      DroppedUnseen(v.value);
    }
  }

  // ----- The tests, one by one -----

  ghost predicate GroupEqualityAgrees(info: LdapInfo, lib: Parsers, uuids: UuidParser, db: Db, only: Option<string>,
                                      g: int, field: string, value: string, positive: bool)
    requires g in db.groups
  {
    GroupTestAgrees(info, lib, uuids, db, only, g, L.Equality(field, value), positive)
  }

  lemma GroupTextExactly(info: LdapInfo, lib: Parsers, uuids: UuidParser, db: Db, only: Option<string>, g: int,
                         field: string, value: string, positive: bool)
    requires g in db.groups
    requires var m := GroupFieldOf(db, only, field); m.GroupDisplayNameField? || m.GroupUuidField?
    requires GroupFilterConverts(info, lib, uuids, db, only, L.Equality(field, value))
    ensures GroupEqualityAgrees(info, lib, uuids, db, only, g, field, value, positive) <==>
      !WrongGroupEquality(info, lib, uuids, db, only, g, field, value, positive)
  {
    hide MapGroupField, ViewerSchema, ShownGroup;
    ShownText(info, db, only, g, field);
    LowerIdempotent(value);
    LowerIsEmpty(value);
    var shown := ShownGroup(info, db, only, g, field);
    assert |shown| > 0 ==> shown[0] in shown;
  }

  lemma GroupClassNames(value: string)
    ensures HasClass(["groupOfUniqueNames"], value) <==> Lower(value) == "groupofuniquenames"
    ensures "groupofuniquenames" != "groupofnames"
  {
    assert Lower("groupOfUniqueNames") == "groupofuniquenames";
    assert ["groupOfUniqueNames"][0] in ["groupOfUniqueNames"];
    assert |"groupofuniquenames"| != |"groupofnames"|;
  }

  lemma GroupClassExactly(info: LdapInfo, lib: Parsers, uuids: UuidParser, db: Db, only: Option<string>, g: int,
                          field: string, value: string, positive: bool)
    requires g in db.groups && GroupFieldOf(db, only, field).GroupObjectClass?
    ensures GroupEqualityAgrees(info, lib, uuids, db, only, g, field, value, positive) <==>
      !WrongGroupEquality(info, lib, uuids, db, only, g, field, value, positive)
  {
    hide MapGroupField, ViewerSchema, ShownGroup, HasClass, SomeMatch;
    var extra := ViewerSchema(db, only.Some?).extraGroupClasses;
    ShownGroupClasses(info, db, only, g, field);
    HasPlain(["groupOfUniqueNames"] + extra, lib, uuids, value);
    ClassesJoined(["groupOfUniqueNames"], extra, value);
    GroupClassNames(value);
    ClassesOfLowered(extra, value);
  }

  lemma GroupEntryDnExactly(info: LdapInfo, lib: Parsers, uuids: UuidParser, db: Db, only: Option<string>, g: int,
                            field: string, value: string, positive: bool)
    requires ValidInfo(info) && g in db.groups && GroupFieldOf(db, only, field).GroupEntryDn?
    ensures GroupEqualityAgrees(info, lib, uuids, db, only, g, field, value, positive) <==>
      !WrongGroupEquality(info, lib, uuids, db, only, g, field, value, positive)
  {
    hide MapGroupField, ViewerSchema, ShownGroup, ValidInfo, SameDn, CleanName, GetIdFromDistinguishedName,
      ParseDistinguishedName, EntryDn;
    var name := db.groups[g].displayName;
    var dn := EntryDn("uid", name, "groups", info.baseStr);
    ShownText(info, db, only, g, field);
    EntryNameText(name, info.baseStr);
    IdShape(info, value, true);
    CleanLower(name);
    if CleanName(name) {
      PrintedIsMet(info, value, true, "uid", name);
    }
    var shown := ShownGroup(info, db, only, g, field);
    assert shown[0] in shown && forall x :: x in shown ==> x == shown[0];
    SameDnParses(value, dn);
  }

  /** The standard's answer to a member name, by the members shown. */
  lemma MemberMatches(info: LdapInfo, lib: Parsers, uuids: UuidParser, db: Db, only: Option<string>, g: int,
                      field: string, value: string)
    requires Valid(db) && ValidInfo(info) && g in db.groups && GroupFieldOf(db, only, field).GroupMember?
    requires IdIn(info, value, false).Ok?
    ensures SomeMatch(lib, uuids, NameRule, ShownGroup(info, db, only, g, field), value) <==>
      (ShownMember(db, only, g, IdIn(info, value, false).value) && KeyOf(value) == "uid") ||
      HasOddMember(info, db, only, g, value)
  {
    hide MapGroupField, ViewerSchema, ShownGroup, ValidInfo, SameDn, CleanName, GetIdFromDistinguishedName, KeyOf,
      ValidGroups, ValidTypes, ValidSchema;
    ShownMembers(info, db, only, g, field);
    IdShape(info, value, false);
    var shown := ShownGroup(info, db, only, g, field);
    forall u: string | ShownMember(db, only, g, u)
      ensures Plain(UserDn(u, info.baseStr)) in shown
      ensures SameDn(value, UserDn(u, info.baseStr)) <==>
        if CleanName(u) then IdIn(info, value, false) == L.Ok(u) && KeyOf(value) == "uid"
        else SameDn(value, UserDn(u, info.baseStr))
    {
      DnShapes(u, info.baseStr);
      assert Membership(u, g).user in db.users;
      if CleanName(u) {
        PrintedIsMet(info, value, false, "uid", u);
      }
    }
    if x :| x in shown && RuleMatches(lib, uuids, NameRule, x, value) {
      var u: string :| ShownMember(db, only, g, u) && x == Plain(UserDn(u, info.baseStr));
    }
  }

  lemma MemberExactly(info: LdapInfo, lib: Parsers, uuids: UuidParser, db: Db, only: Option<string>, g: int,
                      field: string, value: string, positive: bool)
    requires Valid(db) && ValidInfo(info) && g in db.groups && GroupFieldOf(db, only, field).GroupMember?
    requires GroupFilterConverts(info, lib, uuids, db, only, L.Equality(field, value))
    ensures GroupEqualityAgrees(info, lib, uuids, db, only, g, field, value, positive) <==>
      !WrongGroupEquality(info, lib, uuids, db, only, g, field, value, positive)
  {
    hide MapGroupField, ViewerSchema, ShownGroup, ValidInfo, Valid, CleanName, GetIdFromDistinguishedName, SomeMatch,
      HasOddMember, ParseDistinguishedName, KeyOf;
    MemberMatches(info, lib, uuids, db, only, g, field, value);
    IdShape(info, value, false);
    var id := IdIn(info, value, false).value;
    assert Membership(id, g) in db.memberships <==>
           exists m :: m in db.memberships && m.group == g && m.user == id;
  }

  lemma ReadAsNumber(b: seq<byte>)
    ensures var n := Decode(b, Integer, false); n.Some? ==> n.value.One? && n.value.scalar.Int64?
  {
  }

  /** A number is stored as its eight bytes; the server compares all that is stored. */
  lemma HiddenExactly(lib: Parsers, uuids: UuidParser, db: Db, g: int, name: string, v: Value, value: string)
    requires AttributeKey(g, name) in db.groupAttributes && ParseScalar(lib, Lower(value), Integer).Some?
    requires Decode(db.groupAttributes[AttributeKey(g, name)], Integer, false) == Some(v)
    ensures
      ((exists w :: ReadsAs(db, g, name, Integer, false, w) && WholeMatches(lib, Integer, false, w, value)) <==>
        SomeMatch(lib, uuids, TypedRule(Integer), ShownValues(v), value)) <==>
      !(AnyMatches(lib, Integer, v, value) && |db.groupAttributes[AttributeKey(g, name)]| != 8)
  {
    hide Encode, Decode, SomeMatch;
    var bytes := db.groupAttributes[AttributeKey(g, name)];
    var s := ParseScalar(lib, Lower(value), Integer).value;
    assert ScalarHasType(s, Integer);
    ShownMatches(lib, uuids, Integer, v, value);
    NumberBytes(bytes, s.value);
    ReadAsNumber(bytes);
    assert v == One(v.scalar) && v.scalar in Scalars(v) && !Unseen(v);
    assert AnyMatches(lib, Integer, v, value) <==> s == v.scalar;
    assert HasType(One(s), Integer, false);
    forall w | ReadsAs(db, g, name, Integer, false, w)
      ensures WholeMatches(lib, Integer, false, w, value) <==> w == One(s)
    {
      ParsedWhole(lib, Integer, false, w, value);
    }
    assert ReadsAs(db, g, name, Integer, false, One(s)) <==> bytes == Encode(One(s), Integer, false);
  }

  lemma SeenExactly(lib: Parsers, uuids: UuidParser, db: Db, only: Option<string>, g: int, name: string,
                    v: Option<Value>,
                    value: string)
    requires SeesGroupRow(db, only, name) && ParseScalar(lib, Lower(value), db.groupSchema[name].typ).Some?
    requires v.Some? ==> StoredGroupValue(db, g, name, v.value)
    requires forall w :: StoredGroupValue(db, g, name, w) ==> v == Some(w)
    ensures var row := db.groupSchema[name];
      ((exists w :: ReadsAs(db, g, name, row.typ, row.isList, w) && WholeMatches(lib, row.typ, row.isList, w,
                                                                                 value)) <==>
        SomeMatch(lib, uuids, TypedRule(row.typ), if v.None? then [] else ShownValues(v.value), value)) <==>
      !(v.Some? && AnyMatches(lib, row.typ, v.value, value) && SensitiveValue(row.typ, v.value))
  {
    hide WholeMatches, SomeMatch, AnyMatches, SensitiveValue, ShownValues, ParseScalar;
    var row := db.groupSchema[name];
    assert forall w :: ReadsAs(db, g, name, row.typ, row.isList, w) ==> StoredGroupValue(db, g, name, w);
    if v.Some? {
      ValueExactly(lib, uuids, row.typ, row.isList, v.value, value);
    } else {
      AbsentHasNoMatch(lib, uuids, TypedRule(row.typ), value);
    }
  }

  lemma GroupAttributeExactly(info: LdapInfo, lib: Parsers, uuids: UuidParser, db: Db, only: Option<string>, g: int,
                              field: string, value: string, positive: bool)
    requires Valid(db) && g in db.groups && GroupFieldOf(db, only, field).GroupAttribute?
    requires GroupFilterConverts(info, lib, uuids, db, only, L.Equality(field, value))
    ensures GroupEqualityAgrees(info, lib, uuids, db, only, g, field, value, positive) <==>
      !WrongGroupEquality(info, lib, uuids, db, only, g, field, value, positive)
  {
    hide MapGroupField, ViewerSchema, ShownGroup, Valid, SomeMatch, ParseScalar, ParseValue, SensitiveValue, AnyMatches,
      StoredGroupValue, ReadsAs, ShownValues, DeserializeAttributeValue, Decode, BuiltinGroupRow, GroupAlias;
    var m := GroupFieldOf(db, only, field);
    GroupFieldSeen(db, only, field);
    OneParses(lib, m.typ, m.isList, Lower(value));
    var v := ReadOrAbsent(db, only, g, m.name);
    ShownGroupAttribute(info, db, only, g, field, v);
    if SeesGroupRow(db, only, m.name) {
      SeenExactly(lib, uuids, db, only, g, m.name, v, value);
    } else if v.Some? {
      HiddenExactly(lib, uuids, db, g, m.name, v.value, value);
    } else {
      AbsentHasNoMatch(lib, uuids, TypedRule(m.typ), value);
      NothingRead(db, g, m.name, m.typ, m.isList);
    }
  }

  lemma NothingRead(db: Db, g: int, name: string, typ: AttributeType, isList: bool)
    requires AttributeKey(g, name) !in db.groupAttributes
    ensures forall w :: !ReadsAs(db, g, name, typ, isList, w)
  {
  }

  lemma GroupDnExactly(info: LdapInfo, lib: Parsers, uuids: UuidParser, db: Db, only: Option<string>, g: int,
                       field: string, value: string, positive: bool)
    requires g in db.groups
    requires var m := GroupFieldOf(db, only, field); m.GroupDnField? || m.GroupNoMatch?
    ensures GroupEqualityAgrees(info, lib, uuids, db, only, g, field, value, positive) <==>
      !WrongGroupEquality(info, lib, uuids, db, only, g, field, value, positive)
  {
    hide MapGroupField, ViewerSchema, ShownGroup, GetIdFromDistinguishedName;
  }

  lemma DatesAreRefused(info: LdapInfo, lib: Parsers, uuids: UuidParser, db: Db, only: Option<string>, field: string,
                        value: string)
    requires GroupFilterConverts(info, lib, uuids, db, only, L.Equality(field, value))
    ensures !GroupFieldOf(db, only, field).GroupCreationDateField?
  {
    hide MapGroupField, ViewerSchema;
  }

  /** An equality test that the server accepts agrees with the standard if and only if it
      does not go wrong in one of the ways named. */
  lemma GroupEqualityExactly(info: LdapInfo, lib: Parsers, uuids: UuidParser, db: Db, only: Option<string>, g: int,
                             field: string, value: string, positive: bool)
    requires Valid(db) && ValidInfo(info) && g in db.groups
    requires GroupFilterConverts(info, lib, uuids, db, only, L.Equality(field, value))
    ensures GroupTestAgrees(info, lib, uuids, db, only, g, L.Equality(field, value), positive) <==>
      !WrongGroupEquality(info, lib, uuids, db, only, g, field, value, positive)
  {
    hide GroupFieldOf, Valid, ValidInfo, WrongGroupEquality, GroupFilterConverts, GroupTestAgrees;
    DatesAreRefused(info, lib, uuids, db, only, field, value);
    match GroupFieldOf(db, only, field)
    case GroupDisplayNameField => GroupTextExactly(info, lib, uuids, db, only, g, field, value, positive);
    case GroupUuidField => GroupTextExactly(info, lib, uuids, db, only, g, field, value, positive);
    case GroupObjectClass => GroupClassExactly(info, lib, uuids, db, only, g, field, value, positive);
    case GroupEntryDn => GroupEntryDnExactly(info, lib, uuids, db, only, g, field, value, positive);
    case GroupMember => MemberExactly(info, lib, uuids, db, only, g, field, value, positive);
    case GroupAttribute(_, _, _) => GroupAttributeExactly(info, lib, uuids, db, only, g, field, value, positive);
    case GroupDnField => GroupDnExactly(info, lib, uuids, db, only, g, field, value, positive);
    case GroupNoMatch => GroupDnExactly(info, lib, uuids, db, only, g, field, value, positive);
  }

  // ----- Presence -----

  lemma GroupAttributeShown(info: LdapInfo, db: Db, only: Option<string>, g: int, field: string)
    requires Valid(db) && g in db.groups && GroupFieldOf(db, only, field).GroupAttribute?
    ensures ShownGroup(info, db, only, g, field) != [] <==> GroupHasValue(db, only, g, GroupFieldOf(db, only, field))
  {
    hide GroupFieldOf, ShownGroup, Valid, ReadGroupValue, Unseen, TypedValues;
    var m := GroupFieldOf(db, only, field);
    var v := ReadOrAbsent(db, only, g, m.name);
    ShownGroupAttribute(info, db, only, g, field, v);
    if v.Some? {
      TypedCount(v.value);
    }
  }

  lemma MembersAreShown(info: LdapInfo, db: Db, only: Option<string>, g: int, field: string)
    requires g in db.groups && GroupFieldOf(db, only, field).GroupMember?
    ensures ShownGroup(info, db, only, g, field) != [] <==> exists u: string :: ShownMember(db, only, g, u)
  {
    hide GroupFieldOf, ShownGroup, ShownMember, UserDn;
    ShownMembers(info, db, only, g, field);
    var shown := ShownGroup(info, db, only, g, field);
    if shown != [] {
      assert shown[0] in shown;
    }
    if u: string :| ShownMember(db, only, g, u) {
      assert Plain(UserDn(u, info.baseStr)) in shown;
    }
  }

  /** An entry shows a value of an attribute if and only if the tables hold one for the
      viewer. */
  lemma GroupShowsStored(info: LdapInfo, db: Db, only: Option<string>, g: int, field: string)
    requires Valid(db) && g in db.groups && GroupRule(GroupFieldOf(db, only, field)).Some?
    ensures ShownGroup(info, db, only, g, field) != [] <==> GroupHasValue(db, only, g, GroupFieldOf(db, only, field))
  {
    hide GroupFieldOf, ShownGroup, Valid, EntryDn, ViewerSchema;
    if GroupText(info, db, g, GroupFieldOf(db, only, field)).Some? {
      ShownText(info, db, only, g, field);
      EntryNameText(db.groups[g].displayName, info.baseStr);
    }
    match GroupFieldOf(db, only, field)
    case GroupMember => MembersAreShown(info, db, only, g, field);
    case GroupAttribute(_, _, _) => GroupAttributeShown(info, db, only, g, field);
    case GroupObjectClass =>
      ShownGroupClasses(info, db, only, g, field);
      assert |["groupOfUniqueNames"] + ViewerSchema(db, only.Some?).extraGroupClasses| >= 1;
    case _ =>
  }

  /** As for users. */
  lemma GroupPresenceExactly(info: LdapInfo, lib: Parsers, uuids: UuidParser, db: Db, only: Option<string>, g: int,
                             field: string, positive: bool)
    requires Valid(db) && g in db.groups
    ensures GroupTestAgrees(info, lib, uuids, db, only, g, L.Present(field), positive) <==>
      !WrongGroupPresence(db, only, g, field, positive)
  {
    hide MapGroupField, ViewerSchema, ShownGroup, Valid, GroupHasValue;
    if GroupRule(GroupFieldOf(db, only, field)).Some? {
      GroupShowsStored(info, db, only, g, field);
    }
  }

  // ----- Substrings -----

  lemma GroupSubstringAgrees(info: LdapInfo, lib: Parsers, uuids: UuidParser, db: Db, only: Option<string>, g: int,
                             field: string, s: SubStringFilter, positive: bool)
    requires g in db.groups && GroupFilterConverts(info, lib, uuids, db, only, L.Substring(field, s))
    requires !WrongGroupSubstring(db, only, g, field, s, positive)
    ensures GroupTestAgrees(info, lib, uuids, db, only, g, L.Substring(field, s), positive)
  {
    hide MapGroupField, ViewerSchema, ShownGroup, Matches, Holds, SqlPattern, PlainFilter;
    if GroupFieldOf(db, only, field).GroupDisplayNameField? {
      var name := db.groups[g].displayName;
      ShownText(info, db, only, g, field);
      LowerIsEmpty("");
      if name != "" {
        assert Plain(name) in ShownGroup(info, db, only, g, field);
        PatternCorrect(s, Lower(name));
      }
    }
  }

  // ----- Whole filters -----

  lemma {:induction false} GroupReadingsAgree(info: LdapInfo, lib: Parsers, uuids: UuidParser, db: Db,
                                             only: Option<string>, g: int, f: L.LdapFilter, positive: bool)
    requires Valid(db) && ValidInfo(info) && g in db.groups && GroupFilterConverts(info, lib, uuids, db, only, f)
    requires GroupTestsAgree(info, lib, uuids, db, only, g, f, positive)
    ensures GroupTestAgrees(info, lib, uuids, db, only, g, f, positive)
    decreases f, 0
  {
    hide Valid, ValidInfo, ViewerSchema, GroupFieldOf, MapGroupField, WrongGroupEquality, WrongGroupPresence,
      WrongGroupSubstring, ShownGroup;
    match f
    case And(fs) => GroupReadingsAgreeAll(info, lib, uuids, db, only, g, fs, positive, false);
    case Or(fs) => GroupReadingsAgreeAll(info, lib, uuids, db, only, g, fs, positive, true);
    case Not(h) => GroupReadingsAgree(info, lib, uuids, db, only, g, h, !positive);
    case Equality(field, value) => GroupEqualityExactly(info, lib, uuids, db, only, g, field, value, positive);
    case Present(field) => GroupPresenceExactly(info, lib, uuids, db, only, g, field, positive);
    case Substring(field, s) => GroupSubstringAgrees(info, lib, uuids, db, only, g, field, s, positive);
    case Unsupported =>
  }

  lemma {:induction false} GroupReadingsAgreeAll(info: LdapInfo, lib: Parsers, uuids: UuidParser, db: Db,
                                                only: Option<string>, g: int, fs: seq<L.LdapFilter>, positive: bool,
                                                any: bool)
    requires Valid(db) && ValidInfo(info) && g in db.groups
    requires ConvertGroupFilters(info, lib, uuids, ViewerSchema(db, only.Some?), fs).Ok?
    requires forall f :: f in fs ==> GroupTestsAgree(info, lib, uuids, db, only, g, f, positive)
    ensures AgreeOn(positive, LdapGroupMeanings(info, lib, uuids, ViewerSchema(db, only.Some?), db, g, any, fs),
                    StandardGroupMeanings(info, lib, uuids, db, only, g, any, fs))
    decreases fs, 0
  {
    hide Valid, ValidInfo, ViewerSchema;
    if fs != [] {
      GroupReadingsAgree(info, lib, uuids, db, only, g, fs[0], positive);
      GroupReadingsAgreeAll(info, lib, uuids, db, only, g, fs[1..], positive, any);
    }
  }

  /** A group is selected exactly when the filter is true of it by the standard, for every
      nesting of And, Or and Not in which no test goes wrong. */
  lemma SelectedGroupAsRfc(info: LdapInfo, lib: Parsers, uuids: UuidParser, db: Db, only: Option<string>,
                           f: L.LdapFilter, g: int)
    requires Valid(db) && ValidInfo(info) && g in db.groups && GroupFilterConverts(info, lib, uuids, db, only, f)
    requires GroupTestsAgree(info, lib, uuids, db, only, g, f, true)
    ensures var h := ConvertGroupFilter(info, lib, uuids, ViewerSchema(db, only.Some?), f).value;
      g in SelectGroups(db, GroupListCondition(Some(h))) <==>
        StandardGroupMeaning(info, lib, uuids, db, only, g, f) == True
  {
    hide ViewerSchema, ConvertGroupFilter, LdapGroupMeaning, StandardGroupMeaning, GroupListCondition, Valid, ValidInfo,
      GroupTestsAgree;
    SearchSelectsGroups(info, lib, uuids, db, only.Some?, f);
    GroupReadingsAgree(info, lib, uuids, db, only, g, f, true);
  }
}
