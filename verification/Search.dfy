/** Answering LDAP search and compare requests. */
module Search {
  import opened Wrappers
  import opened Text
  import opened Codec
  import opened Schema
  import opened Database
  import opened Sql
  import opened Filters
  import opened DistinguishedName
  import opened LdapFilters
  import opened Listing
  import opened AccessControl
  import L = Ldap

  // ----- Requested attributes -----

  const ALL_USER_KEYS: seq<string> := [
    "objectclass", "uid", "mail", "givenname", "sn", "cn", "jpegPhoto", "createtimestamp", "entryuuid"]

  const ALL_GROUP_KEYS: seq<string> := ["objectclass", "uid", "cn", "member", "uniquemember", "entryuuid"]

  predicate IsWildcard(s: string) {
    s == "*" || s == "+" || s == "1.1"
  }

  function Concrete(attributes: seq<string>): seq<string> {
    if attributes == [] then []
    else (if IsWildcard(attributes[0]) then [] else [attributes[0]]) + Concrete(attributes[1..])
  }

  /** Keeps the first of each name, without regard to case. */
  function Unique(attributes: seq<string>, seen: set<string>): seq<string> {
    if attributes == [] then []
    else if Lower(attributes[0]) in seen then Unique(attributes[1..], seen)
    else [attributes[0]] + Unique(attributes[1..], seen + {Lower(attributes[0])})
  }

  /** The names to answer with: a star, or no name at all, asks for the usual ones. */
  function ExpandWildcards(attributes: seq<string>, allKeys: seq<string>): seq<string> {
    Unique(Concrete(attributes) + if "*" in attributes || attributes == [] then allKeys else [], {})
  }

  lemma {:induction false} ConcreteMembers(attributes: seq<string>, a: string)
    ensures a in Concrete(attributes) <==> a in attributes && !IsWildcard(a)
  {
    if attributes != [] {
      ConcreteMembers(attributes[1..], a);
      assert a in attributes <==> a == attributes[0] || a in attributes[1..];
    }
  }

  /** Names kept come from the list and are new; no two of them are the same. */
  lemma {:induction false} UniqueKeepsNew(attributes: seq<string>, seen: set<string>)
    ensures forall a :: a in Unique(attributes, seen) ==> a in attributes && Lower(a) !in seen
    ensures forall i, j :: 0 <= i < j < |Unique(attributes, seen)| ==>
      Lower(Unique(attributes, seen)[i]) != Lower(Unique(attributes, seen)[j])
  {
    if attributes != [] {
      var key := Lower(attributes[0]);
      if key in seen {
        UniqueKeepsNew(attributes[1..], seen);
      } else {
        UniqueKeepsNew(attributes[1..], seen + {key});
        var rest := Unique(attributes[1..], seen + {key});
        assert forall j :: 0 <= j < |rest| ==> rest[j] in rest && Lower(rest[j]) != key;
      }
    }
  }

  /** Every name of the list is kept in some spelling. */
  lemma {:induction false} UniqueKeepsAll(attributes: seq<string>, seen: set<string>, a: string)
    requires a in attributes && Lower(a) !in seen
    ensures exists b :: b in Unique(attributes, seen) && Lower(b) == Lower(a)
  {
    var first := attributes[0];
    var kept := Unique(attributes, seen);
    if Lower(first) == Lower(a) {
      assert kept[0] == first && first in kept;
    } else {
      assert a in attributes[1..];
      var seen' := if Lower(first) in seen then seen else seen + {Lower(first)};
      UniqueKeepsAll(attributes[1..], seen', a);
      var b :| b in Unique(attributes[1..], seen') && Lower(b) == Lower(a);
      assert b in kept;
    }
  }

  /** Whether the usual names are asked for. */
  predicate AsksForUsual(attributes: seq<string>) {
    "*" in attributes || attributes == []
  }

  /** Expansion gives no star and no name twice; it gives, in some spelling, exactly the
      names that are asked for and, if they are wanted, the usual ones. */
  lemma ExpandedNames(attributes: seq<string>, allKeys: seq<string>)
    requires "*" !in allKeys
    ensures var r := ExpandWildcards(attributes, allKeys);
      && "*" !in r
      && (forall i, j :: 0 <= i < j < |r| ==> Lower(r[i]) != Lower(r[j]))
      && (forall b :: b in r ==> (b in attributes && !IsWildcard(b)) || (AsksForUsual(attributes) && b in allKeys))
      && (forall a :: (a in attributes && !IsWildcard(a)) || (AsksForUsual(attributes) && a in allKeys) ==>
            exists b :: b in r && Lower(b) == Lower(a))
  {
    var extra := if AsksForUsual(attributes) then allKeys else [];
    var all := Concrete(attributes) + extra;
    UniqueKeepsNew(all, {});
    ConcreteMembers(attributes, "*");
    forall b | b in Unique(all, {})
      ensures (b in attributes && !IsWildcard(b)) || (AsksForUsual(attributes) && b in allKeys)
    {
      ConcreteMembers(attributes, b);
    }
    forall a | (a in attributes && !IsWildcard(a)) || (AsksForUsual(attributes) && a in allKeys)
      ensures exists b :: b in Unique(all, {}) && Lower(b) == Lower(a)
    {
      ConcreteMembers(attributes, a);
      UniqueKeepsAll(all, {}, a);
    }
  }

  lemma NoStarInKeys()
    ensures "*" !in ALL_USER_KEYS && "*" !in ALL_GROUP_KEYS
  {
    assert forall i :: 0 <= i < |ALL_USER_KEYS| ==> |ALL_USER_KEYS[i]| >= 2;
    assert forall i :: 0 <= i < |ALL_GROUP_KEYS| ==> |ALL_GROUP_KEYS[i]| >= 2;
  }

  // ----- Values of an entry -----

  /** A printed value: server text, or a stored value of some type. */
  datatype OutputValue = Plain(text: string) | Typed(scalar: Scalar)

  predicate IsEmptyValue(v: OutputValue) {
    match v
    case Plain(t) => t == ""
    case Typed(s) => s.Bytes? && s.bytes == []
  }

  type Values = Option<seq<OutputValue>>

  function PlainValues(texts: seq<string>): (r: seq<OutputValue>)
    ensures |r| == |texts|
    ensures forall i :: 0 <= i < |r| ==> r[i] == Plain(texts[i])
  {
    seq(|texts|, i requires 0 <= i < |texts| => Plain(texts[i]))
  }

  function TypedValues(v: Value): seq<OutputValue> {
    match v
    case One(s) => [Typed(s)]
    case Many(ss) => seq(|ss|, i requires 0 <= i < |ss| => Typed(ss[i]))
  }

  function FindAttribute(attributes: seq<AttributeValue>, name: string): Option<seq<byte>> {
    if attributes == [] then None
    else if attributes[0].name == name then Some(attributes[0].bytes)
    else FindAttribute(attributes[1..], name)
  }

  /** A stored attribute, decoded at the type that the schema gives; the decoding is
      unwrapped, so a mismatch would panic. */
  function GetCustomAttribute(attributes: seq<AttributeValue>, name: string, schema: seq<AttributeSchema>)
    : L.LdapResult<Values>
  {
    match GetAttributeSchema(schema, name)
    case None => L.Ok(None)
    case Some(row) =>
      match FindAttribute(attributes, name)
      case None => L.Ok(None)
      case Some(bytes) =>
        match Decode(bytes, row.typ, row.isList)
        case None => L.Panic
        case Some(v) => L.Ok(Some(TypedValues(v)))
  }

  function DropEmpty(values: Values): Values {
    if values.Some? && |values.value| == 1 && IsEmptyValue(values.value[0]) then None else values
  }

  function GroupDns(groups: seq<GroupRow>, baseStr: string): (r: seq<OutputValue>)
    ensures |r| == |groups|
    ensures forall i :: 0 <= i < |r| ==> r[i] == Plain(GroupDn(groups[i].displayName, baseStr))
  {
    seq(|groups|, i requires 0 <= i < |groups| => Plain(GroupDn(groups[i].displayName, baseStr)))
  }

  const USER_CLASSES: seq<string> := ["inetOrgPerson", "posixAccount", "mailAccount", "person"]

  function UserPrimaryValue(e: UserEntry, c: UserColumn): L.LdapResult<Values> {
    match c
    case UserId => L.Ok(Some([Plain(e.id)]))
    case Email => L.Ok(Some([Plain(e.details.row.email)]))
    case UserUuid => L.Ok(Some([Plain(e.details.row.uuid)]))
    case UserDisplayName =>
      if e.details.row.displayName.None? then L.Ok(None) else L.Ok(Some([Plain(e.details.row.displayName.value)]))
    case UserCreationDate => L.Ok(Some([Plain(e.details.row.creationDate)]))
    case _ => L.Panic
  }

  function UnmatchedValue(attributes: seq<AttributeValue>, name: string, ignored: seq<string>,
                          schema: seq<AttributeSchema>)
    : L.LdapResult<Values>
  {
    if name == "1.1" || name == "+" then L.Ok(None)
    else if name == "*" then L.Panic
    else if name in ignored then L.Ok(None)
    else GetCustomAttribute(attributes, name, schema)
  }

  function GetUserAttribute(e: UserEntry, attribute: string, info: LdapInfo, schema: Schema): L.LdapResult<Values> {
    var name := Lower(attribute);
    var values: Values :-
      match MapUserField(name, schema)
      case UserObjectClass => L.Ok(Some(PlainValues(USER_CLASSES + schema.extraUserClasses)))
      case UserDnField => L.Ok(None)
      case UserEntryDn => L.Ok(Some([Plain(UserDn(e.id, info.baseStr))]))
      case UserMemberOf => L.Ok(Some(GroupDns(e.details.groups, info.baseStr)))
      case UserPrimary(c) => UserPrimaryValue(e, c)
      case UserAttribute(attr, _, _) => GetCustomAttribute(e.attributes, attr, schema.userAttributes)
      case UserNoMatch => UnmatchedValue(e.attributes, name, info.ignoredUserAttributes, schema.userAttributes);
    L.Ok(DropEmpty(values))
  }

  function MemberDns(members: seq<string>, userFilter: Option<string>, baseStr: string): seq<OutputValue> {
    if members == [] then []
    else
      (if userFilter.None? || members[0] == userFilter.value then [Plain(UserDn(members[0], baseStr))] else []) +
      MemberDns(members[1..], userFilter, baseStr)
  }

  function GetGroupAttribute(e: GroupEntry, attribute: string, userFilter: Option<string>, info: LdapInfo,
                             schema: Schema)
    : L.LdapResult<Values>
  {
    var name := Lower(attribute);
    var row := e.details.row;
    var values: Values :-
      match MapGroupField(name, schema)
      case GroupObjectClass => L.Ok(Some(PlainValues(["groupOfUniqueNames"] + schema.extraGroupClasses)))
      case GroupDnField => L.Ok(None)
      case GroupEntryDn => L.Ok(Some([Plain("uid=" + row.displayName + ",ou=groups," + info.baseStr)]))
      case GroupDisplayNameField => L.Ok(Some([Plain(row.displayName)]))
      case GroupCreationDateField => L.Ok(Some([Plain(row.creationDate)]))
      case GroupMember => L.Ok(Some(MemberDns(e.details.members, userFilter, info.baseStr)))
      case GroupUuidField => L.Ok(Some([Plain(row.uuid)]))
      case GroupAttribute(attr, _, _) => GetCustomAttribute(e.attributes, attr, schema.groupAttributes)
      case GroupNoMatch => UnmatchedValue(e.attributes, name, info.ignoredGroupAttributes, schema.groupAttributes);
    L.Ok(DropEmpty(values))
  }

  // ----- Replies -----

  datatype PartialAttribute = PartialAttribute(name: string, values: seq<OutputValue>)

  datatype LdapOp =
    | SearchResultEntry(dn: string, attributes: seq<PartialAttribute>)
    | SearchResultDone(code: L.ResultCode)
    | CompareResult(code: L.ResultCode)

  /** The attributes of an entry: those asked for that have a value. */
  function UserAttributeList(e: UserEntry, names: seq<string>, info: LdapInfo, schema: Schema)
    : L.LdapResult<seq<PartialAttribute>>
  {
    if names == [] then L.Ok([])
    else
      var values: Values :- GetUserAttribute(e, names[0], info, schema);
      var rest :- UserAttributeList(e, names[1..], info, schema);
      L.Ok((if values.Some? then [PartialAttribute(names[0], values.value)] else []) + rest)
  }

  function GroupAttributeList(e: GroupEntry, names: seq<string>, userFilter: Option<string>, info: LdapInfo,
                              schema: Schema)
    : L.LdapResult<seq<PartialAttribute>>
  {
    if names == [] then L.Ok([])
    else
      var values: Values :- GetGroupAttribute(e, names[0], userFilter, info, schema);
      var rest :- GroupAttributeList(e, names[1..], userFilter, info, schema);
      L.Ok((if values.Some? then [PartialAttribute(names[0], values.value)] else []) + rest)
  }

  function UserOp(e: UserEntry, attrs: seq<string>, info: LdapInfo, schema: Schema): L.LdapResult<LdapOp> {
    var list :- UserAttributeList(e, ExpandWildcards(attrs, ALL_USER_KEYS), info, schema);
    L.Ok(SearchResultEntry(UserDn(e.id, info.baseStr), list))
  }

  function GroupOp(e: GroupEntry, attrs: seq<string>, userFilter: Option<string>, info: LdapInfo, schema: Schema)
    : L.LdapResult<LdapOp>
  {
    var list :- GroupAttributeList(e, ExpandWildcards(attrs, ALL_GROUP_KEYS), userFilter, info, schema);
    L.Ok(SearchResultEntry(GroupDn(e.details.row.displayName, info.baseStr), list))
  }

  function UserOps(es: seq<UserEntry>, attrs: seq<string>, info: LdapInfo, schema: Schema): L.LdapResult<seq<LdapOp>> {
    if es == [] then L.Ok([])
    else
      var first :- UserOp(es[0], attrs, info, schema);
      var rest :- UserOps(es[1..], attrs, info, schema);
      L.Ok([first] + rest)
  }

  function GroupOps(es: seq<GroupEntry>, attrs: seq<string>, userFilter: Option<string>, info: LdapInfo, schema: Schema)
    : L.LdapResult<seq<LdapOp>>
  {
    if es == [] then L.Ok([])
    else
      var first :- GroupOp(es[0], attrs, userFilter, info, schema);
      var rest :- GroupOps(es[1..], attrs, userFilter, info, schema);
      L.Ok([first] + rest)
  }

  // ----- Searching -----

  datatype Request = Request(base: string, scope: L.SearchScope, filter: L.LdapFilter, attrs: seq<string>)

  /** Everything a search depends on besides the request. */
  datatype Context = Context(db: Db, info: LdapInfo, lib: Parsers, uuids: UuidParser)

  /** Viewers without read rights are restricted to what concerns themselves. */
  function UserFilterFor(viewer: ValidationResults): Option<string> {
    if viewer.CanReadAll() then None else Some(viewer.user)
  }

  function RestrictUsers(f: UserFilter, only: Option<string>): UserFilter {
    match only
    case None => f
    case Some(u) => UserAnd([f, UserIdIs(u)])
  }

  function RestrictGroups(f: GroupFilter, only: Option<string>): GroupFilter {
    match only
    case None => f
    case Some(u) => GroupAnd([f, Member(u)])
  }

  ghost function SchemaFor(ctx: Context, only: Option<string>): Schema {
    ViewerSchema(ctx.db, only.Some?)
  }

  ghost function GetUserList(ctx: Context, only: Option<string>, f: L.LdapFilter): L.LdapResult<seq<UserEntry>> {
    var g :- ConvertUserFilter(ctx.info, ctx.lib, SchemaFor(ctx, only), f);
    var restricted := RestrictUsers(g, only);
    if PanicsOn(restricted) then L.Panic else L.Ok(ListUsers(ctx.db, UserFilterExpr(restricted)))
  }

  ghost function GetGroupsList(ctx: Context, only: Option<string>, f: L.LdapFilter): L.LdapResult<seq<GroupEntry>> {
    var g :- ConvertGroupFilter(ctx.info, ctx.lib, ctx.uuids, SchemaFor(ctx, only), f);
    L.Ok(ListGroups(ctx.db, GroupListCondition(Some(RestrictGroups(g, only)))))
  }

  datatype InternalResults =
    | UsersAndGroups(users: seq<UserEntry>, groups: seq<GroupEntry>)
    | Raw(ops: seq<LdapOp>)
    | Empty

  /** Searching both subtrees: one failing side is dropped, two failures are an error. */
  function Merge(users: L.LdapResult<seq<UserEntry>>, groups: L.LdapResult<seq<GroupEntry>>)
    : L.LdapResult<InternalResults>
  {
    if users.Panic? || groups.Panic? then L.Panic
    else if users.Ok? then L.Ok(UsersAndGroups(users.value, if groups.Ok? then groups.value else []))
    else if groups.Ok? then L.Ok(UsersAndGroups([], groups.value))
    else L.Ok(Raw([SearchResultDone(users.code)]))
  }

  const UNIT_ATTRIBUTES: seq<PartialAttribute> := [
    PartialAttribute("objectClass", [Plain("top"), Plain("organizationalUnit")])]

  ghost function DoSearchInternal(ctx: Context, only: Option<string>, r: Request): L.LdapResult<InternalResults> {
    var parts :- ParseDistinguishedName(Lower(r.base));
    var scope :- GetSearchScope(ctx.info.base, parts, r.scope);
    match scope
    case Global => Merge(GetUserList(ctx, only, r.filter), GetGroupsList(ctx, only, r.filter))
    case Users => var us :- GetUserList(ctx, only, r.filter); L.Ok(UsersAndGroups(us, []))
    case Groups => var gs :- GetGroupsList(ctx, only, r.filter); L.Ok(UsersAndGroups([], gs))
    case User(f) => var us :- GetUserList(ctx, only, L.And([r.filter, f])); L.Ok(UsersAndGroups(us, []))
    case Group(f) => var gs :- GetGroupsList(ctx, only, L.And([r.filter, f])); L.Ok(UsersAndGroups([], gs))
    case UserOuOnly => L.Ok(Raw([SearchResultEntry(r.base, UNIT_ATTRIBUTES)]))
    case GroupOuOnly => L.Ok(Raw([SearchResultEntry(r.base, UNIT_ATTRIBUTES)]))
    case UnknownScope => L.Ok(Empty)
    case InvalidScope => L.Ok(Empty)
  }

  function ToOps(results: InternalResults, attrs: seq<string>, only: Option<string>, info: LdapInfo, schema: Schema)
    : L.LdapResult<seq<LdapOp>>
  {
    match results
    case UsersAndGroups(users, groups) =>
      var us :- UserOps(users, attrs, info, schema);
      var gs :- GroupOps(groups, attrs, only, info, schema);
      L.Ok(us + gs)
    case Raw(ops) => L.Ok(ops)
    case Empty => L.Ok([])
  }

  function PushDone(ops: seq<LdapOp>): seq<LdapOp> {
    if ops != [] && ops[|ops| - 1].SearchResultDone? then ops else ops + [SearchResultDone(L.Success)]
  }

  ghost function DoSearch(ctx: Context, viewer: Option<ValidationResults>, r: Request): L.LdapResult<seq<LdapOp>> {
    if viewer.None? then L.Err(L.InsufficientAccessRights)
    else
      var only := UserFilterFor(viewer.value);
      var results :- DoSearchInternal(ctx, only, r);
      var ops :- ToOps(results, r.attrs, only, ctx.info, SchemaFor(ctx, only));
      L.Ok(PushDone(ops))
  }

  const ROOT_DSE_DN := ""

  /** The message handler turns an error into a single final answer. The description
      of the server itself is answered without looking at the directory. */
  ghost function SearchReply(ctx: Context, viewer: Option<ValidationResults>, r: Request): L.LdapResult<seq<LdapOp>> {
    if r.base == "" && r.scope.Base? && r.filter.Present? && Lower(r.filter.field) == "objectclass" then
      L.Ok([SearchResultEntry(ROOT_DSE_DN, RootDse(ctx.info)), SearchResultDone(L.Success)])
    else
      match DoSearch(ctx, viewer, r)
      case Ok(ops) => L.Ok(ops)
      case Err(code) => L.Ok([SearchResultDone(code)])
      case Panic => L.Panic
  }

  const VENDOR_VERSION := "lldap_0.5.1-alpha"

  function RootDse(info: LdapInfo): seq<PartialAttribute> {
    [PartialAttribute("objectClass", [Plain("top")]),
     PartialAttribute("vendorName", [Plain("LLDAP")]),
     PartialAttribute("vendorVersion", [Plain(VENDOR_VERSION)]),
     PartialAttribute("supportedLDAPVersion", [Plain("3")]),
     PartialAttribute("supportedExtension", [Plain("1.3.6.1.4.1.4203.1.11.1")]),
     PartialAttribute("supportedControl", []),
     PartialAttribute("supportedFeatures", [Plain("1.3.6.1.4.1.4203.1.5.1")]),
     PartialAttribute("defaultNamingContext", [Plain(info.baseStr)]),
     PartialAttribute("namingContexts", [Plain(info.baseStr)]),
     PartialAttribute("isGlobalCatalogReady", [Plain("false")])]
  }

  // ----- Comparing -----

  /** Compares a value with those of an attribute of the entry that a name denotes, by
      searching the whole tree for that name. */
  ghost function DoCompare(ctx: Context, viewer: Option<ValidationResults>, dn: string, attribute: string,
                           value: OutputValue)
    : L.LdapResult<LdapOp>
  {
    var r := Request(ctx.info.baseStr, L.Subtree, L.Equality("dn", dn), [attribute]);
    var entries :- DoSearch(ctx, viewer, r);
    if |entries| > 2 then L.Err(L.OperationsError)
    else if entries == [] then L.Err(L.OperationsError)
    else
      match entries[0]
      case SearchResultEntry(_, attributes) =>
        L.Ok(CompareResult(
          if exists a :: a in attributes && a.name == attribute && value in a.values then L.CompareTrue
          else L.CompareFalse))
      case SearchResultDone(_) => L.Ok(CompareResult(L.NoSuchObject))
      case CompareResult(_) => L.Err(L.OperationsError)
  }
}
