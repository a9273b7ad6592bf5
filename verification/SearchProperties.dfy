/** What every search and compare keeps: no failed assertion, one final answer, the
    restrictions of regular users, and names that lead back to their entries. */
module SearchProperties {
  import opened Wrappers
  import opened Text
  import opened Ordering
  import opened Codec
  import opened Schema
  import opened Database
  import opened Sql
  import opened Filters
  import opened DistinguishedName
  import opened LdapFilters
  import opened Listing
  import opened AccessControl
  import opened Search
  import L = Ldap

  // ----- Stored attributes decode -----

  lemma {:induction false} FindStored<T>(table: AttributeTable<T>, owner: T, names: seq<string>, name: string)
    requires forall n :: n in names ==> AttributeKey(owner, n) in table
    ensures FindAttribute(AttributesOf(table, owner, names), name) ==
      if name in names then Some(table[AttributeKey(owner, name)]) else None
  {
    if names != [] {
      FindStored(table, owner, names[1..], name);
      assert AttributesOf(table, owner, names)[1..] == AttributesOf(table, owner, names[1..]);
      assert name in names <==> name == names[0] || name in names[1..];
    }
  }

  /** The type of a stored value is unique, and so is the value. */
  lemma StoredDecodes(bytes: seq<byte>, row: SchemaRow, v: Value)
    requires HasType(v, row.typ, row.isList) && bytes == Encode(v, row.typ, row.isList)
    ensures Decode(bytes, row.typ, row.isList) == Some(v)
  {
    RoundTrip(v, row.typ, row.isList, []);
    assert bytes + [] == bytes;
  }

  /** Reading a user's attribute at the type of the viewer's schema gives exactly the
      typed value that is stored, or nothing; it never fails. */
  lemma UserCustomAttribute(db: Db, restricted: bool, u: string, name: string)
    requires Valid(db) && u in db.users
    requires name in db.userSchema && VisibleTo(db.userSchema[name], restricted)
    ensures var r := GetCustomAttribute(UserAttributesOf(db, u), name, ViewerSchema(db, restricted).userAttributes);
      r.Ok? &&
      (r.value.Some? <==> AttributeKey(u, name) in db.userAttributes) &&
      (forall v :: StoredUserValue(db, u, name, v) ==> r.value == Some(TypedValues(v)))
  {
    hide ViewerSchema, GetAttributeSchema, Decode, Encode, HasType;
    ViewerUserLookup(db, restricted, name);
    var names := Sorted(UserAttributeNames(db, u));
    FindStored(db.userAttributes, u, names, name);
    assert name in names <==> AttributeKey(u, name) in db.userAttributes;
    if AttributeKey(u, name) in db.userAttributes {
      var row := db.userSchema[name];
      var bytes := db.userAttributes[AttributeKey(u, name)];
      assert WellTyped(bytes, row);
      var w :| HasType(w, row.typ, row.isList) && bytes == Encode(w, row.typ, row.isList);
      StoredDecodes(bytes, row, w);
      forall v | StoredUserValue(db, u, name, v)
        ensures v == w
      {
        StoredDecodes(bytes, row, v);
      }
    }
  }

  /** The same for the group attributes that the viewer may see. */
  lemma GroupCustomAttribute(db: Db, restricted: bool, g: int, name: string)
    requires Valid(db) && g in db.groups
    requires name in db.groupSchema && VisibleTo(db.groupSchema[name], restricted)
    ensures var r := GetCustomAttribute(GroupAttributesOf(db, g), name, ViewerSchema(db, restricted).groupAttributes);
      r.Ok? &&
      (r.value.Some? <==> AttributeKey(g, name) in db.groupAttributes) &&
      (forall v :: StoredGroupValue(db, g, name, v) ==> r.value == Some(TypedValues(v)))
  {
    hide ViewerSchema, GetAttributeSchema, Decode, Encode, HasType;
    ViewerGroupLookup(db, restricted, name);
    var names := Sorted(GroupAttributeNames(db, g));
    FindStored(db.groupAttributes, g, names, name);
    assert name in names <==> AttributeKey(g, name) in db.groupAttributes;
    if AttributeKey(g, name) in db.groupAttributes {
      var row := db.groupSchema[name];
      var bytes := db.groupAttributes[AttributeKey(g, name)];
      assert WellTyped(bytes, row);
      var w :| HasType(w, row.typ, row.isList) && bytes == Encode(w, row.typ, row.isList);
      StoredDecodes(bytes, row, w);
      forall v | StoredGroupValue(db, g, name, v)
        ensures v == w
      {
        StoredDecodes(bytes, row, v);
      }
    }
  }

  lemma UserCustomSafe(db: Db, restricted: bool, u: string, name: string)
    requires Valid(db) && u in db.users
    requires UserAlias(name).None? || name == FIRST_NAME || name == LAST_NAME || name == AVATAR
    ensures GetCustomAttribute(UserAttributesOf(db, u), name, ViewerSchema(db, restricted).userAttributes).Ok?
  {
    hide ViewerSchema, GetAttributeSchema, UserAlias, BuiltinUserRow, Decode;
    ViewerUserLookup(db, restricted, name);
    if name in db.userSchema && VisibleTo(db.userSchema[name], restricted) {
      UserCustomAttribute(db, restricted, u, name);
    } else if BuiltinUserRow(name).Some? {
      BuiltinUserNames(name);
    }
  }

  /** For groups the viewer's type can differ from the stored one only for a hidden
      attribute named like the built-in group id, and that reads as an integer. */
  lemma GroupCustomSafe(db: Db, restricted: bool, g: int, name: string)
    requires Valid(db) && g in db.groups && GroupAlias(name).None?
    ensures GetCustomAttribute(GroupAttributesOf(db, g), name, ViewerSchema(db, restricted).groupAttributes).Ok?
  {
    hide ViewerSchema, GetAttributeSchema, GroupAlias, BuiltinGroupRow, Decode, Encode, HasType;
    ViewerGroupLookup(db, restricted, name);
    var names := Sorted(GroupAttributeNames(db, g));
    FindStored(db.groupAttributes, g, names, name);
    if AttributeKey(g, name) in db.groupAttributes {
      var row := db.groupSchema[name];
      var bytes := db.groupAttributes[AttributeKey(g, name)];
      assert WellTyped(bytes, row);
      var w :| HasType(w, row.typ, row.isList) && bytes == Encode(w, row.typ, row.isList);
      StoredDecodes(bytes, row, w);
      DecodesAsInteger(w, row.typ, row.isList);
      GroupIdIsNoAlias();
      if BuiltinGroupRow(name).Some? {
        BuiltinGroupNames(name);
      }
    }
  }

  // ----- No attribute of an answer fails an assertion -----

  lemma LowerStar(a: string)
    requires a != "*"
    ensures Lower(a) != "*"
  {
    assert |a| == 1 ==> a == [a[0]] && Lower(a)[0] == LowerChar(a[0]);
  }

  lemma GetUserAttributeSafe(db: Db, restricted: bool, info: LdapInfo, u: string, attribute: string)
    requires Valid(db) && u in db.users && attribute != "*"
    ensures GetUserAttribute(FullUser(db, u), attribute, info, ViewerSchema(db, restricted)).Ok?
  {
    hide ViewerSchema, UserAlias, GetCustomAttribute, Valid;
    var name := Lower(attribute);
    LowerStar(attribute);
    UserFieldType(db, restricted, name);
    if UserAlias(name).Some? {
      UserAliasKinds(name);
      UserCustomSafe(db, restricted, u, FIRST_NAME);
      UserCustomSafe(db, restricted, u, LAST_NAME);
      UserCustomSafe(db, restricted, u, AVATAR);
    } else {
      UserCustomSafe(db, restricted, u, name);
    }
  }

  lemma GetGroupAttributeSafe(db: Db, restricted: bool, info: LdapInfo, g: int, attribute: string, only: Option<string>)
    requires Valid(db) && g in db.groups && attribute != "*"
    ensures GetGroupAttribute(FullGroup(db, g), attribute, only, info, ViewerSchema(db, restricted)).Ok?
  {
    hide ViewerSchema, GroupAlias, GetCustomAttribute, Valid;
    var name := Lower(attribute);
    LowerStar(attribute);
    if GroupAlias(name).Some? {
      GroupAliasKinds(name);
    } else {
      GroupCustomSafe(db, restricted, g, name);
    }
  }

  lemma {:induction false} UserListSafe(db: Db, restricted: bool, info: LdapInfo, u: string, names: seq<string>)
    requires Valid(db) && u in db.users && "*" !in names
    ensures UserAttributeList(FullUser(db, u), names, info, ViewerSchema(db, restricted)).Ok?
  {
    hide ViewerSchema, GetUserAttribute, FullUser, Valid;
    if names != [] {
      GetUserAttributeSafe(db, restricted, info, u, names[0]);
      UserListSafe(db, restricted, info, u, names[1..]);
    }
  }

  lemma {:induction false} GroupListSafe(db: Db, restricted: bool, info: LdapInfo, g: int, names: seq<string>,
                                         only: Option<string>)
    requires Valid(db) && g in db.groups && "*" !in names
    ensures GroupAttributeList(FullGroup(db, g), names, only, info, ViewerSchema(db, restricted)).Ok?
  {
    hide ViewerSchema, GetGroupAttribute, FullGroup, Valid;
    if names != [] {
      GetGroupAttributeSafe(db, restricted, info, g, names[0], only);
      GroupListSafe(db, restricted, info, g, names[1..], only);
    }
  }

  lemma UserOpSafe(db: Db, restricted: bool, info: LdapInfo, u: string, attrs: seq<string>)
    requires Valid(db) && u in db.users
    ensures UserOp(FullUser(db, u), attrs, info, ViewerSchema(db, restricted)).Ok?
  {
    hide ViewerSchema, UserAttributeList, FullUser, Valid, ExpandWildcards;
    NoStarInKeys();
    ExpandedNames(attrs, ALL_USER_KEYS);
    UserListSafe(db, restricted, info, u, ExpandWildcards(attrs, ALL_USER_KEYS));
  }

  lemma GroupOpSafe(db: Db, restricted: bool, info: LdapInfo, g: int, attrs: seq<string>, only: Option<string>)
    requires Valid(db) && g in db.groups
    ensures GroupOp(FullGroup(db, g), attrs, only, info, ViewerSchema(db, restricted)).Ok?
  {
    hide ViewerSchema, GroupAttributeList, FullGroup, Valid, ExpandWildcards;
    NoStarInKeys();
    ExpandedNames(attrs, ALL_GROUP_KEYS);
    GroupListSafe(db, restricted, info, g, ExpandWildcards(attrs, ALL_GROUP_KEYS), only);
  }

  // ----- The operations made of entries -----

  /** The operation for a user, in a context and for a viewer. */
  ghost function OpOfUser(ctx: Context, only: Option<string>, attrs: seq<string>, u: string): L.LdapResult<LdapOp>
    requires u in ctx.db.users
  {
    UserOp(FullUser(ctx.db, u), attrs, ctx.info, SchemaFor(ctx, only))
  }

  ghost function OpOfGroup(ctx: Context, only: Option<string>, attrs: seq<string>, g: int): L.LdapResult<LdapOp>
    requires g in ctx.db.groups
  {
    GroupOp(FullGroup(ctx.db, g), attrs, only, ctx.info, SchemaFor(ctx, only))
  }

  lemma {:induction false} UserOpsEntries(ctx: Context, only: Option<string>, attrs: seq<string>, es: seq<UserEntry>)
    requires Valid(ctx.db) && forall e :: e in es ==> e.id in ctx.db.users && e == FullUser(ctx.db, e.id)
    ensures var r := UserOps(es, attrs, ctx.info, SchemaFor(ctx, only));
      r.Ok? && |r.value| == |es| &&
      (forall i :: 0 <= i < |es| ==>
         L.Ok(r.value[i]) == OpOfUser(ctx, only, attrs, es[i].id) && r.value[i].SearchResultEntry?)
  {
    hide ViewerSchema, UserAttributeList, FullUser, Valid, ExpandWildcards;
    if es != [] {
      assert es[0] in es;
      UserOpSafe(ctx.db, only.Some?, ctx.info, es[0].id, attrs);
      UserOpsEntries(ctx, only, attrs, es[1..]);
    }
  }

  lemma {:induction false} GroupOpsEntries(ctx: Context, only: Option<string>, attrs: seq<string>, es: seq<GroupEntry>)
    requires Valid(ctx.db) && forall e :: e in es ==> e.id in ctx.db.groups && e == FullGroup(ctx.db, e.id)
    ensures var r := GroupOps(es, attrs, only, ctx.info, SchemaFor(ctx, only));
      r.Ok? && |r.value| == |es| &&
      (forall i :: 0 <= i < |es| ==>
         L.Ok(r.value[i]) == OpOfGroup(ctx, only, attrs, es[i].id) && r.value[i].SearchResultEntry?)
  {
    hide ViewerSchema, GroupAttributeList, FullGroup, Valid, ExpandWildcards;
    if es != [] {
      assert es[0] in es;
      GroupOpSafe(ctx.db, only.Some?, ctx.info, es[0].id, attrs, only);
      GroupOpsEntries(ctx, only, attrs, es[1..]);
    }
  }

  // ----- What the two lists contain -----

  ghost predicate UsersFrom(ctx: Context, only: Option<string>, es: seq<UserEntry>) {
    forall e :: e in es ==>
      e.id in ctx.db.users && e == FullUser(ctx.db, e.id) && (only.Some? ==> e.id == only.value)
  }

  ghost predicate GroupsFrom(ctx: Context, only: Option<string>, es: seq<GroupEntry>) {
    forall e :: e in es ==>
      e.id in ctx.db.groups && e == FullGroup(ctx.db, e.id) &&
      (only.Some? ==> Membership(only.value, e.id) in ctx.db.memberships)
  }

  lemma UserPair(db: Db, u: string, f: UserFilter, g: UserFilter)
    requires u in db.users
    ensures UserMeaning(db, u, UserAnd([f, g])) == AndT(UserMeaning(db, u, f), UserMeaning(db, u, g))
    ensures PanicsOn(UserAnd([f, g])) <==> PanicsOn(f) || PanicsOn(g)
  {
    var fs := [f, g];
    assert fs[1..] == [g] && [g][1..] == [];
    assert UserMeanings(db, u, false, [g]) == AndT(UserMeaning(db, u, g), UserMeanings(db, u, false, []));
    assert UserMeanings(db, u, false, fs) == AndT(UserMeaning(db, u, f), UserMeanings(db, u, false, fs[1..]));
    assert f in fs && g in fs;
  }

  lemma RestrictedSafe(f: UserFilter, only: Option<string>)
    ensures PanicsOn(RestrictUsers(f, only)) <==> PanicsOn(f)
  {
    if only.Some? {
      var fs := [f, UserIdIs(only.value)];
      assert f in fs;
    }
  }

  /** A restricted filter selects what the filter selects, and of that only the viewer. */
  lemma RestrictedUserMeaning(db: Db, u: string, f: UserFilter, only: Option<string>)
    requires u in db.users
    ensures UserMeaning(db, u, RestrictUsers(f, only)) == True <==>
      UserMeaning(db, u, f) == True && (only.Some? ==> u == only.value)
  {
    if only.Some? {
      UserPair(db, u, f, UserIdIs(only.value));
    }
  }

  lemma RestrictedGroupMeaning(db: Db, g: int, f: GroupFilter, only: Option<string>)
    requires g in db.groups
    ensures GroupMeaning(db, g, RestrictGroups(f, only)) <==>
      GroupMeaning(db, g, f) && (only.Some? ==> Membership(only.value, g) in db.memberships)
  {
    if only.Some? {
      var fs := [f, Member(only.value)];
      assert f in fs && Member(only.value) in fs;
    }
  }

  /** The users that a viewer gets for a converted filter. */
  ghost function VisibleUsers(db: Db, only: Option<string>, g: UserFilter): set<string> {
    set u | u in db.users && UserMeaning(db, u, g) == True && (only.Some? ==> u == only.value)
  }

  ghost function VisibleGroups(db: Db, only: Option<string>, h: GroupFilter): set<int> {
    set g | g in db.groups && GroupMeaning(db, g, h) && (only.Some? ==> Membership(only.value, g) in db.memberships)
  }

  /** The user list holds exactly the users of the viewer's reach of which the filter
      is true, ordered by id. */
  lemma UserListContents(ctx: Context, only: Option<string>, f: L.LdapFilter)
    requires ValidInfo(ctx.info)
    ensures var g := ConvertUserFilter(ctx.info, ctx.lib, SchemaFor(ctx, only), f);
      var r := GetUserList(ctx, only, f);
      !r.Panic? && (r.Ok? <==> g.Ok?) && (r.Err? <==> g.Err?) &&
      (g.Ok? ==> r.value == FullUsers(ctx.db, Sorted(VisibleUsers(ctx.db, only, g.value))))
  {
    hide ViewerSchema, ConvertUserFilter, UserFilterExpr, UserMeaning, EvalCond, ValidInfo, PanicsOn, RestrictUsers,
      GroupListOf, UserAttributesOf;
    var g := ConvertUserFilter(ctx.info, ctx.lib, SchemaFor(ctx, only), f);
    ConvertUserFilterSafe(ctx.info, ctx.lib, SchemaFor(ctx, only), f);
    if g.Ok? {
      var restricted := RestrictUsers(g.value, only);
      RestrictedSafe(g.value, only);
      var c := UserFilterExpr(restricted);
      forall u | u in ctx.db.users
        ensures u in SelectUsers(ctx.db, c) <==> u in VisibleUsers(ctx.db, only, g.value)
      {
        UserFilterExprCorrect(ctx.db, u, restricted);
        RestrictedUserMeaning(ctx.db, u, g.value, only);
      }
      assert SelectUsers(ctx.db, c) == VisibleUsers(ctx.db, only, g.value);
    }
  }

  ghost function GroupsInOrder(db: Db, ids: set<int>): seq<GroupEntry>
    requires forall g :: g in ids ==> g in db.groups
  {
    StableSort(NameKey, FullGroups(db, SortedInts(ids)))
  }

  lemma GroupListContents(ctx: Context, only: Option<string>, f: L.LdapFilter)
    requires ValidInfo(ctx.info)
    ensures var h := ConvertGroupFilter(ctx.info, ctx.lib, ctx.uuids, SchemaFor(ctx, only), f);
      var r := GetGroupsList(ctx, only, f);
      !r.Panic? && (r.Ok? <==> h.Ok?) && (r.Err? <==> h.Err?) &&
      (h.Ok? ==> r.value == GroupsInOrder(ctx.db, VisibleGroups(ctx.db, only, h.value)))
  {
    hide ViewerSchema, ConvertGroupFilter, GroupListCondition, GroupMeaning, EvalCond, ValidInfo, RestrictGroups,
      GroupAttributesOf, MembersOf;
    var h := ConvertGroupFilter(ctx.info, ctx.lib, ctx.uuids, SchemaFor(ctx, only), f);
    ConvertGroupFilterSafe(ctx.info, ctx.lib, ctx.uuids, SchemaFor(ctx, only), f);
    if h.Ok? {
      var restricted := RestrictGroups(h.value, only);
      var c := GroupListCondition(Some(restricted));
      GroupListConditionCorrect(ctx.db, restricted);
      forall g | g in ctx.db.groups
        ensures g in SelectGroups(ctx.db, c) <==> g in VisibleGroups(ctx.db, only, h.value)
      {
        RestrictedGroupMeaning(ctx.db, g, h.value, only);
      }
      assert SelectGroups(ctx.db, c) == VisibleGroups(ctx.db, only, h.value);
    }
  }

  lemma FullUsersAreFrom(ctx: Context, only: Option<string>, g: UserFilter)
    ensures UsersFrom(ctx, only, FullUsers(ctx.db, Sorted(VisibleUsers(ctx.db, only, g))))
  {
    hide UserMeaning, GroupListOf, UserAttributesOf;
    var ids := Sorted(VisibleUsers(ctx.db, only, g));
    forall e | e in FullUsers(ctx.db, ids)
      ensures e.id in ctx.db.users && e == FullUser(ctx.db, e.id) && (only.Some? ==> e.id == only.value)
    {
      var i :| 0 <= i < |ids| && FullUsers(ctx.db, ids)[i] == e;
      assert ids[i] in ids;
    }
  }

  lemma FullGroupsAreFrom(ctx: Context, only: Option<string>, h: GroupFilter)
    ensures GroupsFrom(ctx, only, GroupsInOrder(ctx.db, VisibleGroups(ctx.db, only, h)))
  {
    hide GroupMeaning, MembersOf, GroupAttributesOf, StableSort;
    var ids := SortedInts(VisibleGroups(ctx.db, only, h));
    var full := FullGroups(ctx.db, ids);
    var sorted := StableSort(NameKey, full);
    forall e | e in sorted
      ensures e.id in ctx.db.groups && e == FullGroup(ctx.db, e.id)
      ensures only.Some? ==> Membership(only.value, e.id) in ctx.db.memberships
    {
      StableSortMembers(NameKey, full, e);
      var i :| 0 <= i < |ids| && full[i] == e;
      assert ids[i] in ids;
      assert ids[i] in VisibleGroups(ctx.db, only, h);
    }
  }

  // ----- The shape of every answer -----

  ghost predicate IsUnitEntry(r: Request, op: LdapOp) {
    op == SearchResultEntry(r.base, UNIT_ATTRIBUTES)
  }

  /** Results hold entries of the viewer's reach, or the description of a unit, or a
      single error. */
  ghost predicate GoodResults(ctx: Context, only: Option<string>, r: Request, results: InternalResults) {
    match results
    case UsersAndGroups(us, gs) => UsersFrom(ctx, only, us) && GroupsFrom(ctx, only, gs)
    case Raw(ops) => |ops| == 1 && (IsUnitEntry(r, ops[0]) || ops[0].SearchResultDone?)
    case Empty => true
  }

  lemma UserListGood(ctx: Context, only: Option<string>, f: L.LdapFilter)
    requires ValidInfo(ctx.info)
    ensures var r := GetUserList(ctx, only, f); !r.Panic? && (r.Ok? ==> UsersFrom(ctx, only, r.value))
  {
    hide ConvertUserFilter, VisibleUsers, FullUsers, GetUserList, UsersFrom;
    UserListContents(ctx, only, f);
    var g := ConvertUserFilter(ctx.info, ctx.lib, SchemaFor(ctx, only), f);
    if g.Ok? {
      FullUsersAreFrom(ctx, only, g.value);
    }
  }

  lemma GroupListGood(ctx: Context, only: Option<string>, f: L.LdapFilter)
    requires ValidInfo(ctx.info)
    ensures var r := GetGroupsList(ctx, only, f); !r.Panic? && (r.Ok? ==> GroupsFrom(ctx, only, r.value))
  {
    hide ConvertGroupFilter, VisibleGroups, GroupsInOrder, GetGroupsList, GroupsFrom;
    GroupListContents(ctx, only, f);
    var h := ConvertGroupFilter(ctx.info, ctx.lib, ctx.uuids, SchemaFor(ctx, only), f);
    if h.Ok? {
      FullGroupsAreFrom(ctx, only, h.value);
    }
  }

  lemma InternalGood(ctx: Context, only: Option<string>, r: Request)
    requires ValidInfo(ctx.info)
    ensures var results := DoSearchInternal(ctx, only, r);
      !results.Panic? && (results.Ok? ==> GoodResults(ctx, only, r, results.value))
  {
    hide ParseDistinguishedName, GetUserList, GetGroupsList;
    LowerIdempotent(r.base);
    var parts := ParseDistinguishedName(Lower(r.base));
    ParseLowerSafe(Lower(r.base));
    ParsedIsLower(ctx.info.baseStr);
    if parts.Ok? {
      ParsedIsLower(Lower(r.base));
      var scope := GetSearchScope(ctx.info.base, parts.value, r.scope).value;
      UserListGood(ctx, only, r.filter);
      GroupListGood(ctx, only, r.filter);
      if scope.User? {
        UserListGood(ctx, only, L.And([r.filter, scope.filter]));
      }
      if scope.Group? {
        GroupListGood(ctx, only, L.And([r.filter, scope.filter]));
      }
    }
  }

  lemma ParseLowerSafe(dn: string)
    requires IsLower(dn)
    ensures !ParseDistinguishedName(dn).Panic?
  {
  }

  /** An operation that stands for a user or a group of the viewer's reach. */
  ghost predicate ReachableEntry(ctx: Context, only: Option<string>, attrs: seq<string>, op: LdapOp) {
    || (exists u :: u in ctx.db.users && (only.Some? ==> u == only.value) && L.Ok(op) == OpOfUser(ctx, only, attrs, u))
    || (exists g :: g in ctx.db.groups && (only.Some? ==> Membership(only.value, g) in ctx.db.memberships) &&
          L.Ok(op) == OpOfGroup(ctx, only, attrs, g))
  }

  ghost predicate GoodOps(ctx: Context, only: Option<string>, r: Request, ops: seq<LdapOp>) {
    || (|ops| == 1 && ops[0].SearchResultDone?)
    || (forall op :: op in ops ==>
          op.SearchResultEntry? && (ReachableEntry(ctx, only, r.attrs, op) || IsUnitEntry(r, op)))
  }

  lemma ToOpsGood(ctx: Context, only: Option<string>, r: Request, results: InternalResults)
    requires Valid(ctx.db) && GoodResults(ctx, only, r, results)
    ensures var ops := ToOps(results, r.attrs, only, ctx.info, SchemaFor(ctx, only));
      ops.Ok? && GoodOps(ctx, only, r, ops.value)
  {
    hide Valid, UserOps, GroupOps, OpOfUser, OpOfGroup, ViewerSchema, FullUser, FullGroup;
    match results
    case UsersAndGroups(us, gs) =>
      UserOpsEntries(ctx, only, r.attrs, us);
      GroupOpsEntries(ctx, only, r.attrs, gs);
      var a := UserOps(us, r.attrs, ctx.info, SchemaFor(ctx, only)).value;
      var b := GroupOps(gs, r.attrs, only, ctx.info, SchemaFor(ctx, only)).value;
      forall op: LdapOp | op in a + b
        ensures op.SearchResultEntry? && ReachableEntry(ctx, only, r.attrs, op)
      {
        if op in a {
          var i :| 0 <= i < |a| && a[i] == op;
          assert us[i] in us;
        } else {
          var i :| 0 <= i < |b| && b[i] == op;
          assert gs[i] in gs;
        }
      }
    case Raw(ops) =>
    case Empty =>
  }

  /** Exactly one final answer, and nothing after it. */
  ghost predicate OneDoneLast(ops: seq<LdapOp>) {
    ops != [] && ops[|ops| - 1].SearchResultDone? && forall i :: 0 <= i < |ops| - 1 ==> ops[i].SearchResultEntry?
  }

  /** No search fails an assertion, and every answer ends with its one final result.
      Whatever the filter, its nesting and the base, every entry before it is a user or
      group of the viewer's reach, or describes a unit. */
  lemma SearchSafe(ctx: Context, viewer: Option<ValidationResults>, r: Request)
    requires Valid(ctx.db) && ValidInfo(ctx.info)
    ensures var reply := SearchReply(ctx, viewer, r);
      reply.Ok? && OneDoneLast(reply.value)
    ensures var search := DoSearch(ctx, viewer, r);
      search.Ok? && viewer.Some? ==>
        forall op :: op in search.value ==>
          op.SearchResultDone? || IsUnitEntry(r, op) || ReachableEntry(ctx, UserFilterFor(viewer.value), r.attrs, op)
  {
    hide Valid, ValidInfo, DoSearchInternal, ToOps, ViewerSchema, ReachableEntry, IsUnitEntry;
    if viewer.Some? {
      var only := UserFilterFor(viewer.value);
      InternalGood(ctx, only, r);
      var results := DoSearchInternal(ctx, only, r);
      if results.Ok? {
        ToOpsGood(ctx, only, r, results.value);
      }
    }
  }

  /** A regular user gets no user entry but their own and only groups they are in. */
  lemma RegularUserSees(ctx: Context, viewer: ValidationResults, r: Request, op: LdapOp)
    requires Valid(ctx.db) && ValidInfo(ctx.info) && !viewer.CanReadAll()
    requires DoSearch(ctx, Some(viewer), r).Ok? && op in DoSearch(ctx, Some(viewer), r).value
    ensures
      || op.SearchResultDone?
      || IsUnitEntry(r, op)
      || (viewer.user in ctx.db.users && L.Ok(op) == OpOfUser(ctx, Some(viewer.user), r.attrs, viewer.user))
      || (exists g :: g in ctx.db.groups && Membership(viewer.user, g) in ctx.db.memberships &&
            L.Ok(op) == OpOfGroup(ctx, Some(viewer.user), r.attrs, g))
  {
    hide Valid, ValidInfo, DoSearch, OpOfUser, OpOfGroup, IsUnitEntry;
    SearchSafe(ctx, Some(viewer), r);
  }

  lemma {:induction false} OnlyOwnDn(members: seq<string>, me: string, baseStr: string)
    requires Distinct(members)
    ensures MemberDns(members, Some(me), baseStr) == if me in members then [Plain(UserDn(me, baseStr))] else []
  {
    if members != [] {
      assert Distinct(members[1..]) by {
        assert forall i :: 0 <= i < |members[1..]| ==> members[1..][i] == members[i + 1];
      }
      OnlyOwnDn(members[1..], me, baseStr);
      assert forall i :: 0 <= i < |members[1..]| ==> members[1..][i] == members[i + 1] != members[0];
    }
  }

  /** Among the member values of any group, a regular user finds their own name if they
      are in it, and nothing else. */
  lemma RegularUserMembers(db: Db, g: int, me: string, attribute: string, info: LdapInfo, schema: Schema)
    requires g in db.groups && MapGroupField(Lower(attribute), schema).GroupMember?
    ensures GetGroupAttribute(FullGroup(db, g), attribute, Some(me), info, schema) ==
      L.Ok(Some(if Membership(me, g) in db.memberships then [Plain(UserDn(me, info.baseStr))] else []))
  {
    hide MapGroupField, GroupAttributesOf;
    var members := Sorted(MembersOf(db, g));
    assert Distinct(members);
    OnlyOwnDn(members, me, info.baseStr);
    assert me in members <==> me in MembersOf(db, g);
    assert me in MembersOf(db, g) <==> Membership(me, g) in db.memberships by {
      if Membership(me, g) in db.memberships {
        var m := Membership(me, g);
        assert m in db.memberships && m.group == g && m.user == me;
      }
    }
    assert |UserDn(me, info.baseStr)| > 0;
  }

  // ----- Names lead back to their entries -----

  lemma SortedSingle(u: string)
    ensures Sorted({u}) == [u]
  {
    AscendingUnique(Sorted({u}), [u]);
  }

  lemma SortedIntSingle(g: int)
    ensures SortedInts({g}) == [g]
  {
    var r := SortedInts({g});
    assert g in {g};
    assert forall i :: 0 <= i < |r| ==> r[i] in r;
  }

  /** The entries of at most one user. */
  lemma AtMostOneUser(db: Db, ids: set<string>, u: string)
    requires ids <= {u} && forall v :: v in ids ==> v in db.users
    ensures FullUsers(db, Sorted(ids)) == if u in ids then [FullUser(db, u)] else []
  {
    hide GroupListOf, UserAttributesOf;
    if u in ids {
      assert ids == {u};
      SortedSingle(u);
    } else {
      assert ids == {};
    }
  }

  lemma AtMostOneGroup(db: Db, ids: set<int>, g: int)
    requires ids <= {g} && forall h :: h in ids ==> h in db.groups
    ensures GroupsInOrder(db, ids) == if g in ids then [FullGroup(db, g)] else []
  {
    hide MembersOf, GroupAttributesOf;
    if g in ids {
      assert ids == {g};
      SortedIntSingle(g);
      var full := FullGroups(db, [g]);
      assert full == [FullGroup(db, g)];
      assert StableSort(NameKey, full[1..]) == [];
    } else {
      assert ids == {};
    }
  }

  lemma UidField(schema: Schema)
    ensures MapUserField(Lower("uid"), schema) == UserPrimary(UserId)
  {
    assert Lower("uid") == "uid";
  }

  lemma CnField(schema: Schema)
    ensures MapGroupField(Lower("cn"), schema) == GroupDisplayNameField
  {
    assert Lower("cn") == "cn";
  }

  lemma ConvertUserCons(info: LdapInfo, lib: Parsers, schema: Schema, f: L.LdapFilter, fs: seq<L.LdapFilter>)
    ensures var first, rest := ConvertUserFilter(info, lib, schema, f), ConvertUserFilters(info, lib, schema, fs);
      var all := ConvertUserFilters(info, lib, schema, [f] + fs);
      (all.Ok? <==> first.Ok? && rest.Ok?) && (all.Ok? ==> all.value == [first.value] + rest.value)
  {
    assert ([f] + fs)[1..] == fs;
  }

  lemma ConvertUserPair(info: LdapInfo, lib: Parsers, schema: Schema, f: L.LdapFilter, u: string)
    requires IsLower(u)
    ensures var g := ConvertUserFilter(info, lib, schema, f);
      var both := ConvertUserFilter(info, lib, schema, L.And([f, L.Equality("uid", u)]));
      (both.Ok? <==> g.Ok?) && (g.Ok? ==> both.value == UserAnd([g.value, UserIdIs(u)]))
  {
    hide MapUserField;
    UidField(schema);
    var second := L.Equality("uid", u);
    assert ConvertUserFilter(info, lib, schema, second) == L.Ok(UserIdIs(u));
    ConvertUserCons(info, lib, schema, second, []);
    ConvertUserCons(info, lib, schema, f, [second]);
    assert [second] + [] == [second] && [f] + [second] == [f, second];
    assert [UserIdIs(u)] + [] == [UserIdIs(u)];
    var g := ConvertUserFilter(info, lib, schema, f);
    if g.Ok? {
      assert [g.value] + [UserIdIs(u)] == [g.value, UserIdIs(u)];
    }
  }

  lemma ConvertGroupCons(info: LdapInfo, lib: Parsers, uuids: UuidParser, schema: Schema, f: L.LdapFilter,
                         fs: seq<L.LdapFilter>)
    ensures var first := ConvertGroupFilter(info, lib, uuids, schema, f);
      var rest := ConvertGroupFilters(info, lib, uuids, schema, fs);
      var all := ConvertGroupFilters(info, lib, uuids, schema, [f] + fs);
      (all.Ok? <==> first.Ok? && rest.Ok?) && (all.Ok? ==> all.value == [first.value] + rest.value)
  {
    assert ([f] + fs)[1..] == fs;
  }

  lemma ConvertGroupPair(info: LdapInfo, lib: Parsers, uuids: UuidParser, schema: Schema, f: L.LdapFilter, name: string)
    requires IsLower(name)
    ensures var g := ConvertGroupFilter(info, lib, uuids, schema, f);
      var both := ConvertGroupFilter(info, lib, uuids, schema, L.And([f, L.Equality("cn", name)]));
      (both.Ok? <==> g.Ok?) && (g.Ok? ==> both.value == GroupAnd([g.value, DisplayNameIs(name)]))
  {
    hide MapGroupField;
    CnField(schema);
    var second := L.Equality("cn", name);
    assert ConvertGroupFilter(info, lib, uuids, schema, second) == L.Ok(DisplayNameIs(name));
    ConvertGroupCons(info, lib, uuids, schema, second, []);
    ConvertGroupCons(info, lib, uuids, schema, f, [second]);
    assert [second] + [] == [second] && [f] + [second] == [f, second];
    assert [DisplayNameIs(name)] + [] == [DisplayNameIs(name)];
    var g := ConvertGroupFilter(info, lib, uuids, schema, f);
    if g.Ok? {
      assert [g.value] + [DisplayNameIs(name)] == [g.value, DisplayNameIs(name)];
    }
  }

  /** The answer that consists of one entry, or of none. */
  ghost predicate AnswersWith(reply: L.LdapResult<seq<LdapOp>>, found: bool, op: L.LdapResult<LdapOp>) {
    reply.Ok? &&
    if found then op.Ok? && reply.value == [op.value, SearchResultDone(L.Success)]
    else reply.value == [SearchResultDone(L.Success)]
  }

  /** Searching below the name printed for a user, in any scope: the answer is that
      user's entry if the viewer may see it and the filter is true of it, and no entry
      otherwise. */
  lemma UserDnFindsUser(ctx: Context, viewer: ValidationResults, u: string, scope: L.SearchScope, f: L.LdapFilter,
                        attrs: seq<string>)
    requires Valid(ctx.db) && ValidInfo(ctx.info) && u in ctx.db.users && CleanName(u)
    requires ConvertUserFilter(ctx.info, ctx.lib, SchemaFor(ctx, UserFilterFor(viewer)), f).Ok?
    ensures var only := UserFilterFor(viewer);
      var g := ConvertUserFilter(ctx.info, ctx.lib, SchemaFor(ctx, only), f).value;
      AnswersWith(DoSearch(ctx, Some(viewer), Request(UserDn(u, ctx.info.baseStr), scope, f, attrs)),
                  viewer.CanRead(u) && UserMeaning(ctx.db, u, g) == True,
                  OpOfUser(ctx, only, attrs, u))
  {
    hide ViewerSchema, ConvertUserFilter, UserMeaning, ParseDistinguishedName, GetSearchScope, FullUsers, FullUser,
      UserOp, GetUserList, PanicsOn, AnswersWith, UserDn, Valid, ValidInfo, CleanName;
    var only := UserFilterFor(viewer);
    var schema := SchemaFor(ctx, only);
    var g := ConvertUserFilter(ctx.info, ctx.lib, schema, f).value;
    IdIsLower(ctx.db, u);
    InfoParses(ctx.info);
    UserDnScope(u, ctx.info.baseStr, ctx.info.base, scope);
    ConvertUserPair(ctx.info, ctx.lib, schema, f, u);
    UserListContents(ctx, only, L.And([f, L.Equality("uid", u)]));
    var both := UserAnd([g, UserIdIs(u)]);
    var ids := VisibleUsers(ctx.db, only, both);
    forall v | v in ctx.db.users
      ensures v in ids <==> v == u && UserMeaning(ctx.db, u, g) == True && (only.Some? ==> u == only.value)
    {
      UserPair(ctx.db, v, g, UserIdIs(u));
      UserIdMeaning(ctx.db, v, u);
    }
    AtMostOneUser(ctx.db, ids, u);
    AnswerForUser(ctx, viewer, Request(UserDn(u, ctx.info.baseStr), scope, f, attrs), L.Equality("uid", u), u,
                  u in ids);
  }

  lemma IdIsLower(db: Db, u: string)
    requires Valid(db) && u in db.users
    ensures IsLower(u) && Lower(u) == u
  {
  }

  lemma InfoParses(info: LdapInfo)
    requires ValidInfo(info)
    ensures ParseDistinguishedName(info.baseStr) == L.Ok(info.base)
  {
  }

  lemma UserIdMeaning(db: Db, v: string, u: string)
    requires v in db.users
    ensures UserMeaning(db, v, UserIdIs(u)) == Bool(v == u)
  {
  }

  lemma GroupPairMeaning(db: Db, g: int, f: GroupFilter, name: string)
    requires g in db.groups
    ensures GroupMeaning(db, g, GroupAnd([f, DisplayNameIs(name)])) <==>
      GroupMeaning(db, g, f) && db.groups[g].lowercaseDisplayName == Lower(name)
  {
    var fs := [f, DisplayNameIs(name)];
    assert f in fs && DisplayNameIs(name) in fs;
  }

  lemma SingleUserOps(e: UserEntry, attrs: seq<string>, info: LdapInfo, schema: Schema)
    requires UserOp(e, attrs, info, schema).Ok?
    ensures UserOps([e], attrs, info, schema).Ok?
    ensures UserOps([e], attrs, info, schema).value == [UserOp(e, attrs, info, schema).value]
  {
    assert [e][1..] == [];
  }

  lemma SingleGroupOps(e: GroupEntry, attrs: seq<string>, only: Option<string>, info: LdapInfo, schema: Schema)
    requires GroupOp(e, attrs, only, info, schema).Ok?
    ensures GroupOps([e], attrs, only, info, schema).Ok?
    ensures GroupOps([e], attrs, only, info, schema).value == [GroupOp(e, attrs, only, info, schema).value]
  {
    assert [e][1..] == [];
  }

  /** The reply to a search that found users and groups. */
  lemma SearchOps(ctx: Context, viewer: ValidationResults, r: Request, us: seq<UserEntry>, gs: seq<GroupEntry>,
                  a: seq<LdapOp>, b: seq<LdapOp>)
    requires var results := DoSearchInternal(ctx, UserFilterFor(viewer), r);
      results.Ok? && results.value.UsersAndGroups? && results.value.users == us && results.value.groups == gs
    requires var ops := UserOps(us, r.attrs, ctx.info, SchemaFor(ctx, UserFilterFor(viewer))); ops.Ok? && ops.value == a
    requires var ops := GroupOps(gs, r.attrs, UserFilterFor(viewer), ctx.info, SchemaFor(ctx, UserFilterFor(viewer)));
      ops.Ok? && ops.value == b
    ensures DoSearch(ctx, Some(viewer), r).Ok? && DoSearch(ctx, Some(viewer), r).value == PushDone(a + b)
  {
    hide ViewerSchema, DoSearchInternal, UserOps, GroupOps, PushDone;
  }

  lemma PushDoneAfter(op: LdapOp)
    requires op.SearchResultEntry?
    ensures PushDone([op] + []) == [op, SearchResultDone(L.Success)]
    ensures PushDone([] + [op]) == [op, SearchResultDone(L.Success)]
    ensures PushDone([] + []) == [SearchResultDone(L.Success)]
  {
    assert [op] + [] == [op] && [] + [op] == [op];
    var none: seq<LdapOp> := [];
    assert none + none == none;
  }

  lemma NoOps(attrs: seq<string>, only: Option<string>, info: LdapInfo, schema: Schema)
    ensures UserOps([], attrs, info, schema).Ok? && UserOps([], attrs, info, schema).value == []
    ensures GroupOps([], attrs, only, info, schema).Ok? && GroupOps([], attrs, only, info, schema).value == []
  {
  }

  /** The reply when at most one entry is found. */
  lemma ReplyForUser(ctx: Context, viewer: ValidationResults, r: Request, u: string, found: bool)
    requires Valid(ctx.db) && u in ctx.db.users
    requires var results := DoSearchInternal(ctx, UserFilterFor(viewer), r);
      results.Ok? && results.value.UsersAndGroups? && results.value.groups == [] &&
      results.value.users == if found then [FullUser(ctx.db, u)] else []
    ensures AnswersWith(DoSearch(ctx, Some(viewer), r), found, OpOfUser(ctx, UserFilterFor(viewer), r.attrs, u))
  {
    hide ViewerSchema, DoSearch, DoSearchInternal, FullUser, UserAttributeList, Valid, UserOps, GroupOps, PushDone;
    var only := UserFilterFor(viewer);
    var schema := SchemaFor(ctx, only);
    UserOpSafe(ctx.db, only.Some?, ctx.info, u, r.attrs);
    var op := UserOp(FullUser(ctx.db, u), r.attrs, ctx.info, schema).value;
    SingleUserOps(FullUser(ctx.db, u), r.attrs, ctx.info, schema);
    NoOps(r.attrs, only, ctx.info, schema);
    PushDoneAfter(op);
    if found {
      SearchOps(ctx, viewer, r, [FullUser(ctx.db, u)], [], [op], []);
    } else {
      SearchOps(ctx, viewer, r, [], [], [], []);
    }
  }

  lemma ReplyForGroup(ctx: Context, viewer: ValidationResults, r: Request, g: int, found: bool)
    requires Valid(ctx.db) && g in ctx.db.groups
    requires var results := DoSearchInternal(ctx, UserFilterFor(viewer), r);
      results.Ok? && results.value.UsersAndGroups? && results.value.users == [] &&
      results.value.groups == if found then [FullGroup(ctx.db, g)] else []
    ensures AnswersWith(DoSearch(ctx, Some(viewer), r), found, OpOfGroup(ctx, UserFilterFor(viewer), r.attrs, g))
  {
    hide ViewerSchema, DoSearch, DoSearchInternal, FullGroup, GroupAttributeList, Valid, UserOps, GroupOps, PushDone;
    var only := UserFilterFor(viewer);
    var schema := SchemaFor(ctx, only);
    GroupOpSafe(ctx.db, only.Some?, ctx.info, g, r.attrs, only);
    var op := GroupOp(FullGroup(ctx.db, g), r.attrs, only, ctx.info, schema).value;
    SingleGroupOps(FullGroup(ctx.db, g), r.attrs, only, ctx.info, schema);
    NoOps(r.attrs, only, ctx.info, schema);
    PushDoneAfter(op);
    if found {
      SearchOps(ctx, viewer, r, [], [FullGroup(ctx.db, g)], [], [op]);
    } else {
      SearchOps(ctx, viewer, r, [], [], [], []);
    }
  }

  /** Searching where only users are looked for, and at most one is found. */
  lemma AnswerForUser(ctx: Context, viewer: ValidationResults, r: Request, f: L.LdapFilter, u: string, found: bool)
    requires Valid(ctx.db) && u in ctx.db.users
    requires var parts := ParseDistinguishedName(Lower(r.base));
      parts.Ok? && GetSearchScope(ctx.info.base, parts.value, r.scope) == L.Ok(User(f))
    requires var list := GetUserList(ctx, UserFilterFor(viewer), L.And([r.filter, f]));
      list.Ok? && list.value == if found then [FullUser(ctx.db, u)] else []
    ensures AnswersWith(DoSearch(ctx, Some(viewer), r), found, OpOfUser(ctx, UserFilterFor(viewer), r.attrs, u))
  {
    hide ViewerSchema, ParseDistinguishedName, GetSearchScope, FullUser, UserOp, GetUserList, Valid, DoSearch,
      AnswersWith;
    ReplyForUser(ctx, viewer, r, u, found);
  }

  lemma AnswerForGroup(ctx: Context, viewer: ValidationResults, r: Request, f: L.LdapFilter, g: int, found: bool)
    requires Valid(ctx.db) && g in ctx.db.groups
    requires var parts := ParseDistinguishedName(Lower(r.base));
      parts.Ok? && GetSearchScope(ctx.info.base, parts.value, r.scope) == L.Ok(Group(f))
    requires var list := GetGroupsList(ctx, UserFilterFor(viewer), L.And([r.filter, f]));
      list.Ok? && list.value == if found then [FullGroup(ctx.db, g)] else []
    ensures AnswersWith(DoSearch(ctx, Some(viewer), r), found, OpOfGroup(ctx, UserFilterFor(viewer), r.attrs, g))
  {
    hide ViewerSchema, ParseDistinguishedName, GetSearchScope, FullGroup, GroupOp, GetGroupsList, Valid, DoSearch,
      AnswersWith;
    ReplyForGroup(ctx, viewer, r, g, found);
  }

  /** The same below the name printed for a group, whatever the case of its name. */
  lemma GroupDnFindsGroup(ctx: Context, viewer: ValidationResults, g: int, scope: L.SearchScope, f: L.LdapFilter,
                          attrs: seq<string>)
    requires Valid(ctx.db) && ValidInfo(ctx.info) && g in ctx.db.groups && CleanName(ctx.db.groups[g].displayName)
    requires ConvertGroupFilter(ctx.info, ctx.lib, ctx.uuids, SchemaFor(ctx, UserFilterFor(viewer)), f).Ok?
    ensures var only := UserFilterFor(viewer);
      var h := ConvertGroupFilter(ctx.info, ctx.lib, ctx.uuids, SchemaFor(ctx, only), f).value;
      AnswersWith(DoSearch(ctx, Some(viewer),
                           Request(GroupDn(ctx.db.groups[g].displayName, ctx.info.baseStr), scope, f, attrs)),
                  (viewer.CanReadAll() || Membership(viewer.user, g) in ctx.db.memberships) &&
                    GroupMeaning(ctx.db, g, h),
                  OpOfGroup(ctx, only, attrs, g))
  {
    hide ViewerSchema, ConvertGroupFilter, GroupMeaning, ParseDistinguishedName, GetSearchScope, FullGroup, GroupOp,
      GetGroupsList, GroupsInOrder, AnswersWith, GroupDn;
    var only := UserFilterFor(viewer);
    var schema := SchemaFor(ctx, only);
    var h := ConvertGroupFilter(ctx.info, ctx.lib, ctx.uuids, schema, f).value;
    var name := Lower(ctx.db.groups[g].displayName);
    LowerIdempotent(ctx.db.groups[g].displayName);
    GroupDnScope(ctx.db.groups[g].displayName, ctx.info.baseStr, ctx.info.base, scope);
    ConvertGroupPair(ctx.info, ctx.lib, ctx.uuids, schema, f, name);
    GroupListContents(ctx, only, L.And([f, L.Equality("cn", name)]));
    var both := GroupAnd([h, DisplayNameIs(name)]);
    var ids := VisibleGroups(ctx.db, only, both);
    forall k | k in ctx.db.groups
      ensures k in ids <==>
        k == g && GroupMeaning(ctx.db, g, h) && (only.Some? ==> Membership(only.value, g) in ctx.db.memberships)
    {
      GroupPairMeaning(ctx.db, k, h, name);
    }
    AtMostOneGroup(ctx.db, ids, g);
    AnswerForGroup(ctx, viewer, Request(GroupDn(ctx.db.groups[g].displayName, ctx.info.baseStr), scope, f, attrs),
                   L.Equality("cn", name), g, g in ids);
  }

  /** The filter that is always true, and what a full-rights viewer gets with it: the
      printed name of a user leads to that user's entry under that same name. */
  lemma PrintedNamesRoundTrip(ctx: Context, viewer: ValidationResults, u: string, scope: L.SearchScope,
                              attrs: seq<string>)
    requires Valid(ctx.db) && ValidInfo(ctx.info) && u in ctx.db.users && CleanName(u) && viewer.CanRead(u)
    ensures var r := DoSearch(ctx, Some(viewer), Request(UserDn(u, ctx.info.baseStr), scope, L.And([]), attrs));
      r.Ok? && |r.value| == 2 && r.value[0].SearchResultEntry? && r.value[0].dn == UserDn(u, ctx.info.baseStr)
  {
    hide DoSearch, ViewerSchema, UserAttributeList, Valid, ValidInfo;
    var schema := SchemaFor(ctx, UserFilterFor(viewer));
    assert ConvertUserFilters(ctx.info, ctx.lib, schema, []) == L.Ok([]);
    assert ConvertUserFilter(ctx.info, ctx.lib, schema, L.And([])) == L.Ok(UserAnd([]));
    assert UserMeanings(ctx.db, u, false, []) == True;
    UserDnFindsUser(ctx, viewer, u, scope, L.And([]), attrs);
  }

  /** And that of a group to the group's entry. */
  lemma PrintedGroupNamesRoundTrip(ctx: Context, viewer: ValidationResults, g: int, scope: L.SearchScope,
                                   attrs: seq<string>)
    requires Valid(ctx.db) && ValidInfo(ctx.info) && g in ctx.db.groups && CleanName(ctx.db.groups[g].displayName)
    requires viewer.CanReadAll() || Membership(viewer.user, g) in ctx.db.memberships
    ensures var dn := GroupDn(ctx.db.groups[g].displayName, ctx.info.baseStr);
      var r := DoSearch(ctx, Some(viewer), Request(dn, scope, L.And([]), attrs));
      r.Ok? && |r.value| == 2 && r.value[0].SearchResultEntry? && r.value[0].dn == dn
  {
    hide DoSearch, ViewerSchema, GroupAttributeList, Valid, ValidInfo;
    var schema := SchemaFor(ctx, UserFilterFor(viewer));
    assert ConvertGroupFilters(ctx.info, ctx.lib, ctx.uuids, schema, []) == L.Ok([]);
    assert ConvertGroupFilter(ctx.info, ctx.lib, ctx.uuids, schema, L.And([])) == L.Ok(GroupAnd([]));
    assert GroupMeaning(ctx.db, g, GroupAnd([]));
    GroupDnFindsGroup(ctx, viewer, g, scope, L.And([]), attrs);
  }

  // ----- Comparing -----

  /** The values that an entry shows of an attribute asked for by name. */
  ghost predicate UserHas(ctx: Context, only: Option<string>, u: string, attribute: string, value: OutputValue)
    requires u in ctx.db.users
  {
    var r := GetUserAttribute(FullUser(ctx.db, u), attribute, ctx.info, SchemaFor(ctx, only));
    !IsWildcard(attribute) && r.Ok? && r.value.Some? && value in r.value.value
  }

  ghost predicate GroupHas(ctx: Context, only: Option<string>, g: int, attribute: string, value: OutputValue)
    requires g in ctx.db.groups
  {
    var r := GetGroupAttribute(FullGroup(ctx.db, g), attribute, only, ctx.info, SchemaFor(ctx, only));
    !IsWildcard(attribute) && r.Ok? && r.value.Some? && value in r.value.value
  }

  lemma {:induction false} UserListMembers(e: UserEntry, names: seq<string>, info: LdapInfo, schema: Schema,
                                           a: PartialAttribute)
    requires UserAttributeList(e, names, info, schema).Ok?
    ensures a in UserAttributeList(e, names, info, schema).value <==>
      a.name in names && GetUserAttribute(e, a.name, info, schema) == L.Ok(Some(a.values))
  {
    hide GetUserAttribute;
    if names != [] {
      UserListMembers(e, names[1..], info, schema, a);
      assert a.name in names <==> a.name == names[0] || a.name in names[1..];
    }
  }

  lemma {:induction false} GroupListMembers(e: GroupEntry, names: seq<string>, only: Option<string>, info: LdapInfo,
                                            schema: Schema, a: PartialAttribute)
    requires GroupAttributeList(e, names, only, info, schema).Ok?
    ensures a in GroupAttributeList(e, names, only, info, schema).value <==>
      a.name in names && GetGroupAttribute(e, a.name, only, info, schema) == L.Ok(Some(a.values))
  {
    hide GetGroupAttribute;
    if names != [] {
      GroupListMembers(e, names[1..], only, info, schema, a);
      assert a.name in names <==> a.name == names[0] || a.name in names[1..];
    }
  }

  lemma OneNameExpanded(attribute: string, allKeys: seq<string>)
    requires "*" !in allKeys
    ensures attribute in ExpandWildcards([attribute], allKeys) <==> !IsWildcard(attribute)
  {
    hide ExpandWildcards;
    ExpandedNames([attribute], allKeys);
    if !IsWildcard(attribute) {
      assert attribute in [attribute] && !AsksForUsual([attribute]);
    }
  }

  /** Whether an entry in an answer has the value under exactly this name. */
  predicate EntryHas(op: LdapOp, attribute: string, value: OutputValue) {
    op.SearchResultEntry? && exists a :: a in op.attributes && a.name == attribute && value in a.values
  }

  lemma UserOpHas(ctx: Context, only: Option<string>, u: string, attribute: string, value: OutputValue)
    requires u in ctx.db.users && OpOfUser(ctx, only, [attribute], u).Ok?
    ensures EntryHas(OpOfUser(ctx, only, [attribute], u).value, attribute, value) <==>
      UserHas(ctx, only, u, attribute, value)
  {
    hide GetUserAttribute, FullUser, ExpandWildcards, ViewerSchema, UserAttributeList;
    NoStarInKeys();
    OneNameExpanded(attribute, ALL_USER_KEYS);
    var names := ExpandWildcards([attribute], ALL_USER_KEYS);
    var e, schema := FullUser(ctx.db, u), SchemaFor(ctx, only);
    var list := UserAttributeList(e, names, ctx.info, schema).value;
    forall a | a in list
      ensures a.name in names && GetUserAttribute(e, a.name, ctx.info, schema) == L.Ok(Some(a.values))
    {
      UserListMembers(e, names, ctx.info, schema, a);
    }
    if UserHas(ctx, only, u, attribute, value) {
      var values := GetUserAttribute(e, attribute, ctx.info, schema).value.value;
      UserListMembers(e, names, ctx.info, schema, PartialAttribute(attribute, values));
    }
  }

  lemma GroupOpHas(ctx: Context, only: Option<string>, g: int, attribute: string, value: OutputValue)
    requires g in ctx.db.groups && OpOfGroup(ctx, only, [attribute], g).Ok?
    ensures EntryHas(OpOfGroup(ctx, only, [attribute], g).value, attribute, value) <==>
      GroupHas(ctx, only, g, attribute, value)
  {
    hide GetGroupAttribute, FullGroup, ExpandWildcards, ViewerSchema, GroupAttributeList;
    NoStarInKeys();
    OneNameExpanded(attribute, ALL_GROUP_KEYS);
    var names := ExpandWildcards([attribute], ALL_GROUP_KEYS);
    var e, schema := FullGroup(ctx.db, g), SchemaFor(ctx, only);
    var list := GroupAttributeList(e, names, only, ctx.info, schema).value;
    forall a | a in list
      ensures a.name in names && GetGroupAttribute(e, a.name, only, ctx.info, schema) == L.Ok(Some(a.values))
    {
      GroupListMembers(e, names, only, ctx.info, schema, a);
    }
    if GroupHas(ctx, only, g, attribute, value) {
      var values := GetGroupAttribute(e, attribute, only, ctx.info, schema).value.value;
      GroupListMembers(e, names, only, ctx.info, schema, PartialAttribute(attribute, values));
    }
  }

  /** The users and groups that a name denotes for a viewer. */
  ghost function DenotedUsers(ctx: Context, only: Option<string>, dn: string): set<string> {
    set u | u in ctx.db.users && (only.Some? ==> u == only.value) && GetUserId(Lower(dn), ctx.info.base) == L.Ok(u)
  }

  ghost function DenotedGroups(ctx: Context, only: Option<string>, dn: string): set<int> {
    set g | g in ctx.db.groups && (only.Some? ==> Membership(only.value, g) in ctx.db.memberships) &&
      GetGroupName(Lower(dn), ctx.info.base) == L.Ok(Lower(ctx.db.groups[g].displayName))
  }

  lemma DnField(schema: Schema)
    ensures MapUserField(Lower("dn"), schema) == UserDnField && MapGroupField(Lower("dn"), schema) == GroupDnField
  {
    assert Lower("dn") == "dn";
  }

  lemma DnUserMeaning(ctx: Context, schema: Schema, dn: string, u: string)
    requires ValidInfo(ctx.info) && u in ctx.db.users
    ensures var g := ConvertUserFilter(ctx.info, ctx.lib, schema, L.Equality("dn", dn));
      g.Ok? && UserMeaning(ctx.db, u, g.value) == Bool(GetUserId(Lower(dn), ctx.info.base) == L.Ok(u))
  {
    hide MapUserField, GetIdFromDistinguishedName, ParseDistinguishedName;
    DnField(schema);
    LowerIdempotent(dn);
    ParsedIsLower(ctx.info.baseStr);
    GetIdNoPanic(Lower(dn), ctx.info.base, false);
    UserBoolMeaning(ctx.db, u, false);
  }

  lemma DnUserConverts(ctx: Context, schema: Schema, dn: string)
    requires ValidInfo(ctx.info)
    ensures ConvertUserFilter(ctx.info, ctx.lib, schema, L.Equality("dn", dn)).Ok?
  {
    hide MapUserField, GetIdFromDistinguishedName, ParseDistinguishedName;
    DnField(schema);
    LowerIdempotent(dn);
    ParsedIsLower(ctx.info.baseStr);
    GetIdNoPanic(Lower(dn), ctx.info.base, false);
  }

  lemma DnUserList(ctx: Context, only: Option<string>, dn: string)
    requires Valid(ctx.db) && ValidInfo(ctx.info)
    ensures GetUserList(ctx, only, L.Equality("dn", dn)) ==
      L.Ok(FullUsers(ctx.db, Sorted(DenotedUsers(ctx, only, dn))))
  {
    hide ViewerSchema, ConvertUserFilter, GetUserList, FullUsers, GetIdFromDistinguishedName, UserMeaning, Valid,
      ValidInfo;
    var schema := SchemaFor(ctx, only);
    UserListContents(ctx, only, L.Equality("dn", dn));
    DnUserConverts(ctx, schema, dn);
    var g := ConvertUserFilter(ctx.info, ctx.lib, schema, L.Equality("dn", dn)).value;
    forall u | u in ctx.db.users
      ensures UserMeaning(ctx.db, u, g) == Bool(GetUserId(Lower(dn), ctx.info.base) == L.Ok(u))
    {
      DnUserMeaning(ctx, schema, dn, u);
    }
    assert VisibleUsers(ctx.db, only, g) == DenotedUsers(ctx, only, dn);
  }

  lemma DnGroupList(ctx: Context, only: Option<string>, dn: string)
    requires Valid(ctx.db) && ValidInfo(ctx.info)
    ensures GetGroupsList(ctx, only, L.Equality("dn", dn)) ==
      L.Ok(GroupsInOrder(ctx.db, DenotedGroups(ctx, only, dn)))
  {
    hide ViewerSchema, MapGroupField, GetGroupsList, GroupsInOrder, GetIdFromDistinguishedName, ParseDistinguishedName;
    var f := L.Equality("dn", dn);
    var schema := SchemaFor(ctx, only);
    GroupListContents(ctx, only, f);
    DnField(schema);
    LowerIdempotent(dn);
    ParsedIsLower(ctx.info.baseStr);
    GetIdNoPanic(Lower(dn), ctx.info.base, true);
    var h := ConvertGroupFilter(ctx.info, ctx.lib, ctx.uuids, schema, f).value;
    forall g | g in ctx.db.groups
      ensures GroupMeaning(ctx.db, g, h) ==
        (GetGroupName(Lower(dn), ctx.info.base) == L.Ok(Lower(ctx.db.groups[g].displayName)))
    {
      GroupNameMeaning(ctx.info, ctx.db, g, Lower(dn));
    }
    assert VisibleGroups(ctx.db, only, h) == DenotedGroups(ctx, only, dn);
  }

  /** One name denotes at most one user or one group, and never both. */
  lemma AtMostOneDenoted(ctx: Context, only: Option<string>, dn: string)
    requires Valid(ctx.db)
    ensures forall u, v :: u in DenotedUsers(ctx, only, dn) && v in DenotedUsers(ctx, only, dn) ==> u == v
    ensures forall g, h :: g in DenotedGroups(ctx, only, dn) && h in DenotedGroups(ctx, only, dn) ==> g == h
    ensures DenotedUsers(ctx, only, dn) == {} || DenotedGroups(ctx, only, dn) == {}
  {
    hide GetIdFromDistinguishedName;
    UserOrGroupName(Lower(dn), ctx.info.base);
  }

  lemma BaseScope(info: LdapInfo)
    requires ValidInfo(info)
    ensures ParseDistinguishedName(Lower(info.baseStr)) == L.Ok(info.base)
    ensures GetSearchScope(info.base, info.base, L.Subtree) == L.Ok(Global)
  {
    hide ParseComponents;
    ParsedIsLower(info.baseStr);
    assert info.base[0..] == info.base;
  }

  lemma DenotedExist(ctx: Context, only: Option<string>, dn: string)
    ensures forall u :: u in DenotedUsers(ctx, only, dn) ==> u in ctx.db.users
    ensures forall g :: g in DenotedGroups(ctx, only, dn) ==> g in ctx.db.groups
  {
  }

  /** The search behind a comparison looks for the name in the whole tree. */
  function CompareRequest(info: LdapInfo, dn: string, attribute: string): Request {
    Request(info.baseStr, L.Subtree, L.Equality("dn", dn), [attribute])
  }

  lemma CompareResults(ctx: Context, viewer: ValidationResults, dn: string, attribute: string)
    requires Valid(ctx.db) && ValidInfo(ctx.info)
    ensures var only := UserFilterFor(viewer);
      var results := DoSearchInternal(ctx, only, CompareRequest(ctx.info, dn, attribute));
      results.Ok? && results.value.UsersAndGroups? &&
      results.value.users == FullUsers(ctx.db, Sorted(DenotedUsers(ctx, only, dn))) &&
      results.value.groups == GroupsInOrder(ctx.db, DenotedGroups(ctx, only, dn))
  {
    hide Valid, ValidInfo, ViewerSchema, ParseDistinguishedName, GetSearchScope, GetUserList, GetGroupsList, FullUsers,
      GroupsInOrder, DenotedUsers, DenotedGroups;
    BaseScope(ctx.info);
    DnUserList(ctx, UserFilterFor(viewer), dn);
    DnGroupList(ctx, UserFilterFor(viewer), dn);
  }

  lemma CompareOfAnswer(ctx: Context, viewer: ValidationResults, dn: string, attribute: string, value: OutputValue,
                        found: bool, op: L.LdapResult<LdapOp>)
    requires AnswersWith(DoSearch(ctx, Some(viewer), CompareRequest(ctx.info, dn, attribute)), found, op)
    requires op.Ok? ==> op.value.SearchResultEntry?
    ensures var r := DoCompare(ctx, Some(viewer), dn, attribute, value);
      r.Ok? &&
      r.value == CompareResult(
        if !found then L.NoSuchObject
        else if op.Ok? && EntryHas(op.value, attribute, value) then L.CompareTrue else L.CompareFalse)
  {
    hide DoSearch;
  }

  /** Compare always finds at most one entry, so that its check for too many results
      never fires. If the name denotes an entry of the viewer's reach, it answers whether
      the value is among those that the entry shows of the attribute; if not, that there
      is no such object. */
  lemma CompareAnswers(ctx: Context, viewer: ValidationResults, dn: string, attribute: string, value: OutputValue)
    requires Valid(ctx.db) && ValidInfo(ctx.info)
    ensures var only := UserFilterFor(viewer);
      var us, gs := DenotedUsers(ctx, only, dn), DenotedGroups(ctx, only, dn);
      var r := DoCompare(ctx, Some(viewer), dn, attribute, value);
      r.Ok? && r.value.CompareResult? &&
      (r.value.code == L.NoSuchObject <==> us == {} && gs == {}) &&
      (r.value.code == L.CompareTrue <==>
         (exists u :: u in us && UserHas(ctx, only, u, attribute, value)) ||
         (exists g :: g in gs && GroupHas(ctx, only, g, attribute, value))) &&
      (r.value.code in {L.NoSuchObject, L.CompareTrue, L.CompareFalse})
  {
    hide Valid, ValidInfo, ViewerSchema, DoSearch, DoSearchInternal, FullUsers, FullUser, FullGroup, GroupsInOrder,
      DenotedUsers, DenotedGroups, DoCompare, AnswersWith, UserAttributeList, GroupAttributeList, CompareRequest,
      EntryHas, UserHas, GroupHas;
    var only := UserFilterFor(viewer);
    var us, gs := DenotedUsers(ctx, only, dn), DenotedGroups(ctx, only, dn);
    CompareResults(ctx, viewer, dn, attribute);
    AtMostOneDenoted(ctx, only, dn);
    DenotedExist(ctx, only, dn);
    if us != {} {
      var u := HasElement(us);
      CompareWithUser(ctx, viewer, dn, attribute, value, u);
    } else if gs != {} {
      var g := HasElement(gs);
      CompareWithGroup(ctx, viewer, dn, attribute, value, g);
    } else {
      AtMostOneUser(ctx.db, us, "");
      AtMostOneGroup(ctx.db, gs, 0);
      ReplyForNone(ctx, viewer, CompareRequest(ctx.info, dn, attribute));
      CompareOfAnswer(ctx, viewer, dn, attribute, value, false, L.Err(L.Other));
    }
  }

  lemma CompareWithUser(ctx: Context, viewer: ValidationResults, dn: string, attribute: string, value: OutputValue,
                        u: string)
    requires Valid(ctx.db) && ValidInfo(ctx.info) && u in ctx.db.users
    requires u in DenotedUsers(ctx, UserFilterFor(viewer), dn)
    ensures DoCompare(ctx, Some(viewer), dn, attribute, value) ==
      L.Ok(CompareResult(
        if UserHas(ctx, UserFilterFor(viewer), u, attribute, value) then L.CompareTrue else L.CompareFalse))
  {
    hide Valid, ValidInfo, ViewerSchema, DoSearch, DoSearchInternal, FullUsers, FullUser, FullGroup, GroupsInOrder,
      DenotedUsers, DenotedGroups, DoCompare, AnswersWith, UserAttributeList, CompareRequest, EntryHas, UserHas;
    var only := UserFilterFor(viewer);
    var us, gs := DenotedUsers(ctx, only, dn), DenotedGroups(ctx, only, dn);
    var r := CompareRequest(ctx.info, dn, attribute);
    CompareResults(ctx, viewer, dn, attribute);
    AtMostOneDenoted(ctx, only, dn);
    AttrsOfCompare(ctx.info, dn, attribute);
    AtMostOneUser(ctx.db, us, u);
    AtMostOneGroup(ctx.db, gs, 0);
    ReplyForUser(ctx, viewer, r, u, true);
    UserOpOk(ctx, only, [attribute], u);
    CompareOfAnswer(ctx, viewer, dn, attribute, value, true, OpOfUser(ctx, only, [attribute], u));
    UserOpHas(ctx, only, u, attribute, value);
  }

  lemma CompareWithGroup(ctx: Context, viewer: ValidationResults, dn: string, attribute: string, value: OutputValue,
                         g: int)
    requires Valid(ctx.db) && ValidInfo(ctx.info) && g in ctx.db.groups
    requires g in DenotedGroups(ctx, UserFilterFor(viewer), dn)
    ensures DoCompare(ctx, Some(viewer), dn, attribute, value) ==
      L.Ok(CompareResult(
        if GroupHas(ctx, UserFilterFor(viewer), g, attribute, value) then L.CompareTrue else L.CompareFalse))
  {
    hide Valid, ValidInfo, ViewerSchema, DoSearch, DoSearchInternal, FullUsers, FullUser, FullGroup, GroupsInOrder,
      DenotedUsers, DenotedGroups, DoCompare, AnswersWith, GroupAttributeList, CompareRequest, EntryHas, GroupHas;
    var only := UserFilterFor(viewer);
    var us, gs := DenotedUsers(ctx, only, dn), DenotedGroups(ctx, only, dn);
    var r := CompareRequest(ctx.info, dn, attribute);
    CompareResults(ctx, viewer, dn, attribute);
    AtMostOneDenoted(ctx, only, dn);
    AttrsOfCompare(ctx.info, dn, attribute);
    AtMostOneUser(ctx.db, us, "");
    OneGroup(gs, g);
    AtMostOneGroup(ctx.db, gs, g);
    ReplyForGroup(ctx, viewer, r, g, true);
    GroupOpOk(ctx, only, [attribute], g);
    CompareOfAnswer(ctx, viewer, dn, attribute, value, true, OpOfGroup(ctx, only, [attribute], g));
    GroupOpHas(ctx, only, g, attribute, value);
  }

  lemma UserOpOk(ctx: Context, only: Option<string>, attrs: seq<string>, u: string)
    requires Valid(ctx.db) && u in ctx.db.users
    ensures OpOfUser(ctx, only, attrs, u).Ok? && OpOfUser(ctx, only, attrs, u).value.SearchResultEntry?
  {
    hide Valid, ViewerSchema, FullUser, UserAttributeList;
    UserOpSafe(ctx.db, only.Some?, ctx.info, u, attrs);
  }

  lemma GroupOpOk(ctx: Context, only: Option<string>, attrs: seq<string>, g: int)
    requires Valid(ctx.db) && g in ctx.db.groups
    ensures OpOfGroup(ctx, only, attrs, g).Ok? && OpOfGroup(ctx, only, attrs, g).value.SearchResultEntry?
  {
    hide Valid, ViewerSchema, FullGroup, GroupAttributeList;
    GroupOpSafe(ctx.db, only.Some?, ctx.info, g, attrs, only);
  }

  lemma AttrsOfCompare(info: LdapInfo, dn: string, attribute: string)
    ensures CompareRequest(info, dn, attribute).attrs == [attribute]
  {
  }

  lemma OneGroup(gs: set<int>, g: int)
    requires g in gs && forall a, b :: a in gs && b in gs ==> a == b
    ensures gs <= {g}
  {
    forall a | a in gs
      ensures a in {g}
    {
      assert a == g;
    }
  }

  lemma ReplyForNone(ctx: Context, viewer: ValidationResults, r: Request)
    requires var results := DoSearchInternal(ctx, UserFilterFor(viewer), r);
      results.Ok? && results.value.UsersAndGroups? && results.value.groups == [] && results.value.users == []
    ensures AnswersWith(DoSearch(ctx, Some(viewer), r), false, L.Err(L.Other))
  {
    hide ViewerSchema, DoSearch, DoSearchInternal, UserOps, GroupOps, PushDone;
    NoOps(r.attrs, UserFilterFor(viewer), ctx.info, SchemaFor(ctx, UserFilterFor(viewer)));
    PushDoneAfter(SearchResultEntry("", []));
    SearchOps(ctx, viewer, r, [], [], [], []);
  }
}
