/** What a search answers, from its base, scope and filter alone. */
module SearchAnswers {
  import opened Wrappers
  import opened Text
  import opened Ordering
  import opened Schema
  import opened Database
  import opened AccessControl
  import opened Sql
  import opened Filters
  import opened DistinguishedName
  import opened LdapFilters
  import opened Listing
  import opened Search
  import opened SearchProperties
  import L = Ldap

  // ----- The entries of a filter -----

  /** The users in the viewer's reach of whom the filter is true. */
  ghost function FoundUsers(ctx: Context, only: Option<string>, f: L.LdapFilter): set<string> {
    set u | u in ctx.db.users && (only.Some? ==> u == only.value) &&
      LdapUserMeaning(ctx.info, ctx.lib, ViewerSchema(ctx.db, only.Some?), ctx.db, u, f) == True
  }

  ghost function FoundGroups(ctx: Context, only: Option<string>, f: L.LdapFilter): set<int> {
    set g | g in ctx.db.groups && (only.Some? ==> Membership(only.value, g) in ctx.db.memberships) &&
      LdapGroupMeaning(ctx.info, ctx.lib, ctx.uuids, ViewerSchema(ctx.db, only.Some?), ctx.db, g, f) == True
  }

  /** The code with which the filter is refused for users. */
  function UserRefusal(ctx: Context, schema: Schema, f: L.LdapFilter): Option<L.ResultCode> {
    var g := ConvertUserFilter(ctx.info, ctx.lib, schema, f);
    if g.Err? then Some(g.code) else None
  }

  function GroupRefusal(ctx: Context, schema: Schema, f: L.LdapFilter): Option<L.ResultCode> {
    var h := ConvertGroupFilter(ctx.info, ctx.lib, ctx.uuids, schema, f);
    if h.Err? then Some(h.code) else None
  }

  /** One entry for each of these users, by id. */
  ghost predicate ShowsUsers(ctx: Context, only: Option<string>, attrs: seq<string>, users: set<string>,
                             ops: seq<LdapOp>)
    requires forall u :: u in users ==> u in ctx.db.users
  {
    |ops| == |Sorted(users)| &&
    forall i :: 0 <= i < |ops| ==>
      Sorted(users)[i] in users && L.Ok(ops[i]) == OpOfUser(ctx, only, attrs, Sorted(users)[i])
  }

  /** These are the groups, once each and by name. */
  ghost predicate InNameOrder(db: Db, groups: set<int>, ids: seq<int>) {
    && (forall i :: 0 <= i < |ids| ==> ids[i] in groups && ids[i] in db.groups)
    && (forall g: int :: g in groups ==> exists i :: 0 <= i < |ids| && ids[i] == g)
    && (forall i, j :: 0 <= i < j < |ids| ==>
          ids[i] != ids[j] && Leq(Lower(db.groups[ids[i]].displayName), Lower(db.groups[ids[j]].displayName)))
  }

  ghost predicate ShowsInOrder(ctx: Context, only: Option<string>, attrs: seq<string>, groups: set<int>, ids: seq<int>,
                               ops: seq<LdapOp>)
  {
    && InNameOrder(ctx.db, groups, ids)
    && |ops| == |ids|
    && (forall i :: 0 <= i < |ops| ==> L.Ok(ops[i]) == OpOfGroup(ctx, only, attrs, ids[i]))
  }

  /** One entry for each of these groups, by name. */
  ghost predicate ShowsGroups(ctx: Context, only: Option<string>, attrs: seq<string>, groups: set<int>,
                              ops: seq<LdapOp>) {
    exists ids: seq<int> :: ShowsInOrder(ctx, only, attrs, groups, ids, ops)
  }

  /** The whole answer: these entries, and success. */
  ghost predicate Answers(reply: L.LdapResult<seq<LdapOp>>, entries: seq<LdapOp>) {
    reply.Ok? && reply.value == entries + [SearchResultDone(L.Success)]
  }

  ghost predicate Refuses(reply: L.LdapResult<seq<LdapOp>>, code: L.ResultCode) {
    reply.Ok? && reply.value == [SearchResultDone(code)]
  }

  /** The users found by the filter and nothing else, or its refusal. */
  ghost predicate AnswersUsers(ctx: Context, only: Option<string>, attrs: seq<string>, f: L.LdapFilter,
                               reply: L.LdapResult<seq<LdapOp>>)
  {
    match UserRefusal(ctx, SchemaFor(ctx, only), f)
    case Some(code) => Refuses(reply, code)
    case None =>
      exists us: seq<LdapOp> :: Answers(reply, us) && ShowsUsers(ctx, only, attrs, FoundUsers(ctx, only, f), us)
  }

  ghost predicate AnswersGroups(ctx: Context, only: Option<string>, attrs: seq<string>, f: L.LdapFilter,
                                reply: L.LdapResult<seq<LdapOp>>)
  {
    match GroupRefusal(ctx, SchemaFor(ctx, only), f)
    case Some(code) => Refuses(reply, code)
    case None =>
      exists gs: seq<LdapOp> :: Answers(reply, gs) && ShowsGroups(ctx, only, attrs, FoundGroups(ctx, only, f), gs)
  }

  /** The users found, then the groups found; what is refused for one kind only counts as
      finding none of it. */
  ghost predicate AnswersBoth(ctx: Context, only: Option<string>, attrs: seq<string>, f: L.LdapFilter,
                              reply: L.LdapResult<seq<LdapOp>>)
  {
    var schema := SchemaFor(ctx, only);
    var noUsers, noGroups := UserRefusal(ctx, schema, f), GroupRefusal(ctx, schema, f);
    if noUsers.Some? && noGroups.Some? then Refuses(reply, noUsers.value)
    else
      exists us: seq<LdapOp>, gs: seq<LdapOp> :: Answers(reply, us + gs) &&
        ShowsUsers(ctx, only, attrs, if noUsers.Some? then {} else FoundUsers(ctx, only, f), us) &&
        ShowsGroups(ctx, only, attrs, if noGroups.Some? then {} else FoundGroups(ctx, only, f), gs)
  }

  // ----- The two lists -----

  lemma FoundAreVisible(ctx: Context, only: Option<string>, f: L.LdapFilter)
    requires Valid(ctx.db) && ValidInfo(ctx.info) && ConvertUserFilter(ctx.info, ctx.lib, SchemaFor(ctx, only), f).Ok?
    ensures VisibleUsers(ctx.db, only, ConvertUserFilter(ctx.info, ctx.lib, SchemaFor(ctx, only), f).value) ==
      FoundUsers(ctx, only, f)
  {
    hide ConvertUserFilter, LdapUserMeaning, UserMeaning, ViewerSchema, Valid, ValidInfo, UserSchemaFits, PanicsOn;
    ViewerSchemaFits(ctx.db, only.Some?);
    forall u | u in ctx.db.users
      ensures UserMeaning(ctx.db, u, ConvertUserFilter(ctx.info, ctx.lib, SchemaFor(ctx, only), f).value) ==
              LdapUserMeaning(ctx.info, ctx.lib, SchemaFor(ctx, only), ctx.db, u, f)
    {
      ConvertUserFilterCorrect(ctx.info, ctx.lib, SchemaFor(ctx, only), ctx.db, u, f);
    }
  }

  lemma FoundGroupsAreVisible(ctx: Context, only: Option<string>, f: L.LdapFilter)
    requires Valid(ctx.db) && ValidInfo(ctx.info)
    requires ConvertGroupFilter(ctx.info, ctx.lib, ctx.uuids, SchemaFor(ctx, only), f).Ok?
    ensures var h := ConvertGroupFilter(ctx.info, ctx.lib, ctx.uuids, SchemaFor(ctx, only), f).value;
      forall g: int :: g in VisibleGroups(ctx.db, only, h) <==> g in FoundGroups(ctx, only, f)
  {
    hide ConvertGroupFilter, LdapGroupMeaning, GroupMeaning, ViewerSchema, Valid, ValidInfo;
    forall g: int | g in ctx.db.groups
      ensures GroupMeaning(ctx.db, g, ConvertGroupFilter(ctx.info, ctx.lib, ctx.uuids, SchemaFor(ctx, only), f).value)
        <==> LdapGroupMeaning(ctx.info, ctx.lib, ctx.uuids, SchemaFor(ctx, only), ctx.db, g, f) == True
    {
      ConvertGroupFilterCorrect(ctx.info, ctx.lib, ctx.uuids, SchemaFor(ctx, only), ctx.db, g, f);
    }
  }

  ghost function PrintedUsers(ctx: Context, only: Option<string>, attrs: seq<string>, es: seq<UserEntry>)
    : L.LdapResult<seq<LdapOp>>
  {
    UserOps(es, attrs, ctx.info, SchemaFor(ctx, only))
  }

  ghost function PrintedGroups(ctx: Context, only: Option<string>, attrs: seq<string>, es: seq<GroupEntry>)
    : L.LdapResult<seq<LdapOp>>
  {
    GroupOps(es, attrs, only, ctx.info, SchemaFor(ctx, only))
  }

  predicate AreEntries(ops: seq<LdapOp>) {
    forall op :: op in ops ==> op.SearchResultEntry?
  }

  lemma SortedAre(ids: set<string>)
    ensures forall i :: 0 <= i < |Sorted(ids)| ==> Sorted(ids)[i] in ids
  {
    assert forall i :: 0 <= i < |Sorted(ids)| ==> Sorted(ids)[i] in Sorted(ids);
  }

  lemma UsersListed(ctx: Context, only: Option<string>, f: L.LdapFilter, attrs: seq<string>)
    requires Valid(ctx.db) && ValidInfo(ctx.info)
    ensures var list := GetUserList(ctx, only, f);
      match UserRefusal(ctx, SchemaFor(ctx, only), f)
      case Some(code) => list == L.Err(code)
      case None =>
        list.Ok? && PrintedUsers(ctx, only, attrs, list.value).Ok? &&
        ShowsUsers(ctx, only, attrs, FoundUsers(ctx, only, f), PrintedUsers(ctx, only, attrs, list.value).value) &&
        AreEntries(PrintedUsers(ctx, only, attrs, list.value).value)
  {
    hide ConvertUserFilter, ViewerSchema, Valid, ValidInfo, VisibleUsers, FoundUsers, UserOps, OpOfUser, FullUser;
    var g := ConvertUserFilter(ctx.info, ctx.lib, SchemaFor(ctx, only), f);
    ConvertUserFilterSafe(ctx.info, ctx.lib, SchemaFor(ctx, only), f);
    if g.Ok? {
      hide GetUserList;
      FoundExist(ctx, only, f);
      UserListContents(ctx, only, f);
      FoundAreVisible(ctx, only, f);
      FullUsersAreFrom(ctx, only, g.value);
      var ids := Sorted(FoundUsers(ctx, only, f));
      SortedAre(FoundUsers(ctx, only, f));
      var es := FullUsers(ctx.db, ids);
      UserOpsEntries(ctx, only, attrs, es);
      forall i | 0 <= i < |ids|
        ensures es[i].id == ids[i]
      {
        FullUserId(ctx.db, ids[i]);
      }
    }
  }

  lemma FullUserId(db: Db, u: string)
    requires u in db.users
    ensures FullUser(db, u).id == u
  {
  }

  lemma FullGroupFields(db: Db, g: int)
    requires g in db.groups
    ensures FullGroup(db, g).id == g && NameKey(FullGroup(db, g)) == Lower(db.groups[g].displayName)
  {
  }

  lemma FoundExist(ctx: Context, only: Option<string>, f: L.LdapFilter)
    ensures forall u :: u in FoundUsers(ctx, only, f) ==> u in ctx.db.users
    ensures forall g: int :: g in FoundGroups(ctx, only, f) ==> g in ctx.db.groups
  {
    hide LdapUserMeaning, LdapGroupMeaning, ViewerSchema;
  }

  /** The order in which groups are listed. */
  ghost function GroupOrder(db: Db, groups: set<int>): seq<int> {
    StableSort((g: int) => if g in db.groups then Lower(db.groups[g].displayName) else "", SortedInts(groups))
  }

  lemma SortedExist(db: Db, groups: set<int>)
    requires forall g: int :: g in groups ==> g in db.groups
    ensures forall g: int :: g in SortedInts(groups) ==> g in db.groups
    ensures forall g: int :: g in SortedInts(groups) <==> g in groups
  {
    forall g: int
      ensures g in SortedInts(groups) <==> g in groups
    {
    }
  }

  lemma ListedInOrder(db: Db, groups: set<int>)
    requires forall g: int :: g in groups ==> g in db.groups
    ensures (forall g :: g in GroupOrder(db, groups) ==> g in db.groups) &&
      GroupsInOrder(db, groups) == FullGroups(db, GroupOrder(db, groups))
  {
    hide FullGroups, StableSort, SortedInts;
    SortedExist(db, groups);
    SortFull((g: int) => if g in db.groups then Lower(db.groups[g].displayName) else "", db, SortedInts(groups));
  }

  lemma OrderHolds(db: Db, groups: set<int>)
    ensures forall g: int :: g in GroupOrder(db, groups) <==> g in SortedInts(groups)
  {
    hide StableSort, SortedInts;
    forall g: int
      ensures g in GroupOrder(db, groups) <==> g in SortedInts(groups)
    {
      StableSortMembers((g: int) => if g in db.groups then Lower(db.groups[g].displayName) else "", SortedInts(groups),
                        g);
    }
  }

  lemma OrderIsSorted(db: Db, groups: set<int>)
    requires var ids := GroupOrder(db, groups); forall i :: 0 <= i < |ids| ==> ids[i] in db.groups
    ensures var ids := GroupOrder(db, groups);
      forall i, j :: 0 <= i < j < |ids| ==>
        ids[i] in db.groups && ids[j] in db.groups && ids[i] != ids[j] &&
        Leq(Lower(db.groups[ids[i]].displayName), Lower(db.groups[ids[j]].displayName))
  {
    hide StableSort, Leq, Lower;
    var key := (g: int) => if g in db.groups then Lower(db.groups[g].displayName) else "";
    var sorted := SortedInts(groups);
    StableSortSorts(key, sorted);
    StaysDistinct(key, sorted);
    var ids := GroupOrder(db, groups);
    assert ids == StableSort(key, sorted);
    forall i, j | 0 <= i < j < |ids|
      ensures ids[i] in db.groups && ids[j] in db.groups && ids[i] != ids[j]
      ensures Leq(Lower(db.groups[ids[i]].displayName), Lower(db.groups[ids[j]].displayName))
    {
      assert Leq(key(ids[i]), key(ids[j]));
    }
  }

  lemma OrderIsByName(db: Db, groups: set<int>)
    requires forall g: int :: g in groups ==> g in db.groups
    ensures InNameOrder(db, groups, GroupOrder(db, groups))
  {
    hide StableSort, GroupOrder, SortedInts, Leq, Lower;
    SortedExist(db, groups);
    OrderHolds(db, groups);
    var ids := GroupOrder(db, groups);
    forall i | 0 <= i < |ids|
      ensures ids[i] in groups && ids[i] in db.groups
    {
      var g: int := ids[i];
      assert g in ids && g in SortedInts(groups);
    }
    OrderIsSorted(db, groups);
  }

  lemma GroupsListed(ctx: Context, only: Option<string>, f: L.LdapFilter, attrs: seq<string>)
    requires Valid(ctx.db) && ValidInfo(ctx.info)
    ensures var list := GetGroupsList(ctx, only, f);
      match GroupRefusal(ctx, SchemaFor(ctx, only), f)
      case Some(code) => list == L.Err(code)
      case None =>
        list.Ok? && PrintedGroups(ctx, only, attrs, list.value).Ok? &&
        ShowsGroups(ctx, only, attrs, FoundGroups(ctx, only, f), PrintedGroups(ctx, only, attrs, list.value).value) &&
        AreEntries(PrintedGroups(ctx, only, attrs, list.value).value)
  {
    hide ConvertGroupFilter, ViewerSchema, Valid, ValidInfo, VisibleGroups, FoundGroups, GroupOps, OpOfGroup, FullGroup,
      GroupsInOrder, GroupOrder;
    var h := ConvertGroupFilter(ctx.info, ctx.lib, ctx.uuids, SchemaFor(ctx, only), f);
    ConvertGroupFilterSafe(ctx.info, ctx.lib, ctx.uuids, SchemaFor(ctx, only), f);
    if h.Ok? {
      hide GetGroupsList;
      FoundExist(ctx, only, f);
      GroupListContents(ctx, only, f);
      FoundGroupsAreVisible(ctx, only, f);
      SameInts(VisibleGroups(ctx.db, only, h.value), FoundGroups(ctx, only, f));
      FullGroupsAreFrom(ctx, only, h.value);
      var ids := GroupOrder(ctx.db, FoundGroups(ctx, only, f));
      ListedInOrder(ctx.db, FoundGroups(ctx, only, f));
      OrderIsByName(ctx.db, FoundGroups(ctx, only, f));
      var es := FullGroups(ctx.db, ids);
      GroupOpsEntries(ctx, only, attrs, es);
      forall i | 0 <= i < |ids|
        ensures es[i].id == ids[i]
      {
        FullGroupFields(ctx.db, ids[i]);
      }
      var ops := PrintedGroups(ctx, only, attrs, es).value;
      assert ShowsInOrder(ctx, only, attrs, FoundGroups(ctx, only, f), ids, ops);
    }
  }

  lemma SameInts(a: set<int>, b: set<int>)
    requires forall g: int :: g in a <==> g in b
    ensures a == b
  {
    forall g: int
      ensures g in a <==> g in b
    {
    }
  }

  // ----- The answer, by the base -----

  /** The description of the server, which any connection gets. */
  predicate AsksForServer(r: Request) {
    r.base == "" && r.scope.Base? && r.filter.Present? && Lower(r.filter.field) == "objectclass"
  }

  function UnitDescription(name: string): LdapOp {
    SearchResultEntry(name, [PartialAttribute("objectClass", [Plain("top"), Plain("organizationalUnit")])])
  }

  predicate HasBase(r: Request, parts: seq<Rdn>) {
    ParseDistinguishedName(Lower(r.base)) == L.Ok(parts)
  }

  lemma NoNameNoBase(r: Request, parts: seq<Rdn>)
    requires HasBase(r, parts)
    ensures !AsksForServer(r)
  {
    SplitAtom("", ',');
    SplitAtom("", '=');
    assert Lower("") == "";
  }

  lemma UnderBase(head: seq<Rdn>, base: seq<Rdn>)
    ensures IsUnder(head + base, base)
  {
    assert (head + base)[|head|..] == base;
  }

  /** The parts of a base below that of the server are in lower case, so the scope is
      found without a failed assertion. */
  lemma BaseIsExpected(ctx: Context, r: Request, parts: seq<Rdn>)
    requires ValidInfo(ctx.info) && HasBase(r, parts)
    ensures IsSubtree(parts, ctx.info.base) == L.Ok(IsUnder(parts, ctx.info.base))
  {
    hide ParseDistinguishedName;
    LowerIdempotent(r.base);
    ParsedIsLower(Lower(r.base));
    ParsedIsLower(ctx.info.baseStr);
  }

  /** What is printed is closed by a success. */
  lemma Closed(ops: seq<LdapOp>)
    requires AreEntries(ops)
    ensures PushDone(ops) == ops + [SearchResultDone(L.Success)]
  {
    assert ops != [] ==> ops[|ops| - 1] in ops;
  }

  lemma NothingShown(ctx: Context, only: Option<string>, attrs: seq<string>)
    ensures ShowsUsers(ctx, only, attrs, {}, []) && ShowsGroups(ctx, only, attrs, {}, [])
    ensures PrintedUsers(ctx, only, attrs, []) == L.Ok([]) && PrintedGroups(ctx, only, attrs, []) == L.Ok([])
  {
    hide ViewerSchema;
    assert ShowsInOrder(ctx, only, attrs, {}, [], []);
  }

  // From the results to the reply.

  lemma ReplyOfLists(ctx: Context, viewer: ValidationResults, r: Request, us: seq<UserEntry>, gs: seq<GroupEntry>)
    requires var only := UserFilterFor(viewer);
      && !AsksForServer(r) && DoSearchInternal(ctx, only, r) == L.Ok(UsersAndGroups(us, gs))
      && PrintedUsers(ctx, only, r.attrs, us).Ok? && AreEntries(PrintedUsers(ctx, only, r.attrs, us).value)
      && PrintedGroups(ctx, only, r.attrs, gs).Ok? && AreEntries(PrintedGroups(ctx, only, r.attrs, gs).value)
    ensures var only := UserFilterFor(viewer);
      Answers(SearchReply(ctx, Some(viewer), r),
              PrintedUsers(ctx, only, r.attrs, us).value + PrintedGroups(ctx, only, r.attrs, gs).value)
  {
    hide DoSearchInternal, UserOps, GroupOps, ViewerSchema, PushDone, RootDse;
    var only := UserFilterFor(viewer);
    Closed(PrintedUsers(ctx, only, r.attrs, us).value + PrintedGroups(ctx, only, r.attrs, gs).value);
  }

  lemma ReplyOfNone(ctx: Context, viewer: ValidationResults, r: Request)
    requires !AsksForServer(r)
    ensures var only, reply := UserFilterFor(viewer), SearchReply(ctx, Some(viewer), r);
      match DoSearchInternal(ctx, only, r)
      case Ok(Raw(ops)) =>
        (AreEntries(ops) ==> Answers(reply, ops)) &&
          (|ops| == 1 && ops[0].SearchResultDone? ==> Refuses(reply, ops[0].code))
      case Ok(Empty) => Answers(reply, [])
      case Err(code) => Refuses(reply, code)
      case _ => true
  {
    hide DoSearchInternal, UserOps, GroupOps, ViewerSchema, PushDone, RootDse;
    Closed([]);
    var results := DoSearchInternal(ctx, UserFilterFor(viewer), r);
    if results.Ok? && results.value.Raw? && AreEntries(results.value.ops) {
      Closed(results.value.ops);
    }
    if results.Ok? && results.value.Raw? {
      ClosedAlready(results.value.ops);
    }
  }

  lemma ClosedAlready(ops: seq<LdapOp>)
    ensures |ops| == 1 && ops[0].SearchResultDone? ==> PushDone(ops) == [SearchResultDone(ops[0].code)]
  {
  }

  lemma UsersAnswered(ctx: Context, viewer: ValidationResults, r: Request, f: L.LdapFilter)
    requires Valid(ctx.db) && ValidInfo(ctx.info) && !AsksForServer(r)
    requires var list := GetUserList(ctx, UserFilterFor(viewer), f);
      DoSearchInternal(ctx, UserFilterFor(viewer), r) ==
        if list.Ok? then L.Ok(UsersAndGroups(list.value, []))
        else if list.Err? then L.Err(list.code) else L.Panic
    ensures AnswersUsers(ctx, UserFilterFor(viewer), r.attrs, f, SearchReply(ctx, Some(viewer), r))
  {
    hide Valid, ValidInfo, GetUserList, DoSearchInternal, SearchReply, UserRefusal, FoundUsers, PrintedUsers,
      PrintedGroups, ShowsUsers;
    var only := UserFilterFor(viewer);
    FoundExist(ctx, only, f);
    UsersListed(ctx, only, f, r.attrs);
    ReplyOfNone(ctx, viewer, r);
    NothingShown(ctx, only, r.attrs);
    var list := GetUserList(ctx, only, f);
    if list.Ok? {
      ReplyOfLists(ctx, viewer, r, list.value, []);
      var us := PrintedUsers(ctx, only, r.attrs, list.value).value;
      assert us + [] == us;
    }
  }

  lemma GroupsAnswered(ctx: Context, viewer: ValidationResults, r: Request, f: L.LdapFilter)
    requires Valid(ctx.db) && ValidInfo(ctx.info) && !AsksForServer(r)
    requires var list := GetGroupsList(ctx, UserFilterFor(viewer), f);
      DoSearchInternal(ctx, UserFilterFor(viewer), r) ==
        if list.Ok? then L.Ok(UsersAndGroups([], list.value))
        else if list.Err? then L.Err(list.code) else L.Panic
    ensures AnswersGroups(ctx, UserFilterFor(viewer), r.attrs, f, SearchReply(ctx, Some(viewer), r))
  {
    hide Valid, ValidInfo, GetGroupsList, DoSearchInternal, SearchReply, GroupRefusal, FoundGroups, PrintedUsers,
      PrintedGroups, ShowsGroups;
    var only := UserFilterFor(viewer);
    GroupsListed(ctx, only, f, r.attrs);
    ReplyOfNone(ctx, viewer, r);
    NothingShown(ctx, only, r.attrs);
    var list := GetGroupsList(ctx, only, f);
    if list.Ok? {
      ReplyOfLists(ctx, viewer, r, [], list.value);
      var gs := PrintedGroups(ctx, only, r.attrs, list.value).value;
      assert [] + gs == gs;
    }
  }

  lemma UnitsDiffer()
    ensures "people" != "groups"
  {
    assert "people"[0] != "groups"[0];
  }

  /** The unit of users answers with the users found by the filter; asked for itself, with
      its description. The unit of groups likewise. */
  lemma UnitAnswers(ctx: Context, viewer: ValidationResults, r: Request)
    requires Valid(ctx.db) && ValidInfo(ctx.info)
    ensures var only, reply := UserFilterFor(viewer), SearchReply(ctx, Some(viewer), r);
      && (HasBase(r, [Rdn("ou", "people")] + ctx.info.base) ==>
            if r.scope.Base? then Answers(reply, [UnitDescription(r.base)])
            else AnswersUsers(ctx, only, r.attrs, r.filter, reply))
      && (HasBase(r, [Rdn("ou", "groups")] + ctx.info.base) ==>
            if r.scope.Base? then Answers(reply, [UnitDescription(r.base)])
            else AnswersGroups(ctx, only, r.attrs, r.filter, reply))
  {
    hide Valid, ValidInfo, ParseDistinguishedName, GetUserList, GetGroupsList, AnswersUsers, AnswersGroups, IsSubtree,
      SearchReply, AsksForServer, IsUnder, HasBase;
    UnitsDiffer();
    var people, groups := [Rdn("ou", "people")] + ctx.info.base, [Rdn("ou", "groups")] + ctx.info.base;
    UnderBase([Rdn("ou", "people")], ctx.info.base);
    UnderBase([Rdn("ou", "groups")], ctx.info.base);
    if HasBase(r, people) {
      InternalOf(ctx, viewer, r, people);
      ReplyOfNone(ctx, viewer, r);
      if !r.scope.Base? {
        UsersAnswered(ctx, viewer, r, r.filter);
      }
    }
    if HasBase(r, groups) {
      InternalOf(ctx, viewer, r, groups);
      ReplyOfNone(ctx, viewer, r);
      if !r.scope.Base? {
        GroupsAnswered(ctx, viewer, r, r.filter);
      }
    }
  }

  /** The base itself answers with both, users first. */
  lemma RootAnswers(ctx: Context, viewer: ValidationResults, r: Request)
    requires Valid(ctx.db) && ValidInfo(ctx.info) && HasBase(r, ctx.info.base)
    ensures AnswersBoth(ctx, UserFilterFor(viewer), r.attrs, r.filter, SearchReply(ctx, Some(viewer), r))
  {
    hide Valid, ValidInfo, ParseDistinguishedName, GetUserList, GetGroupsList, IsSubtree, SearchReply, AsksForServer,
      HasBase, UserRefusal, GroupRefusal, FoundUsers, FoundGroups, PrintedUsers, PrintedGroups, ShowsUsers, ShowsGroups,
      ViewerSchema;
    var only := UserFilterFor(viewer);
    InternalOf(ctx, viewer, r, ctx.info.base);
    FoundExist(ctx, only, r.filter);
    UsersListed(ctx, only, r.filter, r.attrs);
    GroupsListed(ctx, only, r.filter, r.attrs);
    ReplyOfNone(ctx, viewer, r);
    NothingShown(ctx, only, r.attrs);
    var users, groups := GetUserList(ctx, only, r.filter), GetGroupsList(ctx, only, r.filter);
    if users.Ok? || groups.Ok? {
      ReplyOfLists(ctx, viewer, r, if users.Ok? then users.value else [], if groups.Ok? then groups.value else []);
    }
  }

  /** A name below a unit answers with the entries of that unit which have the value that
      the name begins with, and of which the filter is true. */
  lemma EntryAnswers(ctx: Context, viewer: ValidationResults, r: Request, key: string, value: string)
    requires Valid(ctx.db) && ValidInfo(ctx.info)
    ensures var only, reply := UserFilterFor(viewer), SearchReply(ctx, Some(viewer), r);
      var f := L.And([r.filter, L.Equality(key, value)]);
      && (HasBase(r, [Rdn(key, value), Rdn("ou", "people")] + ctx.info.base) ==>
            AnswersUsers(ctx, only, r.attrs, f, reply))
      && (HasBase(r, [Rdn(key, value), Rdn("ou", "groups")] + ctx.info.base) ==>
            AnswersGroups(ctx, only, r.attrs, f, reply))
  {
    hide Valid, ValidInfo, ParseDistinguishedName, GetUserList, GetGroupsList, AnswersUsers, AnswersGroups, IsSubtree,
      SearchReply, AsksForServer, IsUnder, HasBase;
    UnitsDiffer();
    var f := L.And([r.filter, L.Equality(key, value)]);
    var people := [Rdn(key, value), Rdn("ou", "people")];
    var groups := [Rdn(key, value), Rdn("ou", "groups")];
    UnderBase(people, ctx.info.base);
    UnderBase(groups, ctx.info.base);
    if HasBase(r, people + ctx.info.base) {
      InternalOf(ctx, viewer, r, people + ctx.info.base);
      UsersAnswered(ctx, viewer, r, f);
    }
    if HasBase(r, groups + ctx.info.base) {
      InternalOf(ctx, viewer, r, groups + ctx.info.base);
      GroupsAnswered(ctx, viewer, r, f);
    }
  }

  /** The names at which entries are found. */
  predicate NamesSomething(base: seq<Rdn>, parts: seq<Rdn>) {
    IsUnder(parts, base) &&
    var head := parts[..|parts| - |base|];
    || head == []
    || head == [Rdn("ou", "people")] || head == [Rdn("ou", "groups")]
    || (|head| == 2 && (head[1] == Rdn("ou", "people") || head[1] == Rdn("ou", "groups")))
  }

  /** Any other name answers with no entry, and what is no name with an error. */
  lemma OtherAnswers(ctx: Context, viewer: ValidationResults, r: Request)
    requires ValidInfo(ctx.info) && !AsksForServer(r)
    ensures var reply, parts := SearchReply(ctx, Some(viewer), r), ParseDistinguishedName(Lower(r.base));
      && (parts.Ok? && !NamesSomething(ctx.info.base, parts.value) ==> Answers(reply, []))
      && (!parts.Ok? ==> parts.Err? && Refuses(reply, parts.code))
  {
    hide ValidInfo, ParseDistinguishedName, IsSubtree, SearchReply, AsksForServer, HasBase;
    var parts := ParseDistinguishedName(Lower(r.base));
    LowerIdempotent(r.base);
    ParseLowerSafe(Lower(r.base));
    ReplyOfNone(ctx, viewer, r);
    if parts.Ok? && !NamesSomething(ctx.info.base, parts.value) {
      HasItsBase(r);
      InternalOf(ctx, viewer, r, parts.value);
      if IsUnder(parts.value, ctx.info.base) {
        var n := |parts.value| - |ctx.info.base|;
        assert n == 1 ==> parts.value[..n] == [parts.value[0]];
      }
    }
  }

  lemma HasItsBase(r: Request)
    ensures var parts := ParseDistinguishedName(Lower(r.base)); parts.Ok? ==> HasBase(r, parts.value)
  {
  }

  /** Nobody is answered before they are bound, but for the description of the server. */
  lemma UnboundAnswers(ctx: Context, viewer: Option<ValidationResults>, r: Request)
    ensures viewer.None? && !AsksForServer(r) ==> Refuses(SearchReply(ctx, viewer, r), L.InsufficientAccessRights)
    ensures AsksForServer(r) ==>
      var reply := SearchReply(ctx, viewer, r);
      reply.Ok? && |reply.value| == 2 && reply.value[0].SearchResultEntry? && reply.value[0].dn == "" &&
      reply.value[1] == SearchResultDone(L.Success)
  {
    hide RootDse;
  }

  lemma InternalOf(ctx: Context, viewer: ValidationResults, r: Request, parts: seq<Rdn>)
    requires ValidInfo(ctx.info) && HasBase(r, parts)
    ensures !AsksForServer(r) && ParseDistinguishedName(Lower(r.base)) == L.Ok(parts)
    ensures IsSubtree(parts, ctx.info.base) == L.Ok(IsUnder(parts, ctx.info.base))
  {
    hide ParseDistinguishedName, IsUnder, IsSubtree;
    NoNameNoBase(r, parts);
    BaseIsExpected(ctx, r, parts);
  }

  // ----- What an entry shows -----

  /** The name is asked for: by itself, or as one of the usual ones by a star or by nothing. */
  predicate AskedFor(attrs: seq<string>, usual: seq<string>, name: string) {
    (name in attrs && !IsWildcard(name)) || (("*" in attrs || attrs == []) && name in usual)
  }

  /** An entry shows, under names asked for and for each in one spelling, all values that it
      has of them: the usual names are these. */
  ghost predicate ShowsAsked(op: LdapOp, attrs: seq<string>, usual: seq<string>, shown: string -> L.LdapResult<Values>)
    requires op.SearchResultEntry?
  {
    && (forall a :: a in op.attributes ==> AskedFor(attrs, usual, a.name) && shown(a.name) == L.Ok(Some(a.values)))
    && (forall name :: AskedFor(attrs, usual, name) ==> IsAnswered(op, name, shown))
  }

  ghost predicate IsAnswered(op: LdapOp, name: string, shown: string -> L.LdapResult<Values>)
    requires op.SearchResultEntry?
  {
    exists spelling: string :: Lower(spelling) == Lower(name) && shown(spelling).Ok? &&
      forall vs :: shown(spelling) == L.Ok(Some(vs)) ==> PartialAttribute(spelling, vs) in op.attributes
  }

  /** A user's entry has their printed name, and shows what is asked for. */
  lemma UserEntryShows(ctx: Context, only: Option<string>, attrs: seq<string>, u: string)
    requires Valid(ctx.db) && u in ctx.db.users
    ensures var op := OpOfUser(ctx, only, attrs, u);
      && op.Ok? && op.value.SearchResultEntry? && op.value.dn == "uid=" + u + ",ou=people," + ctx.info.baseStr
      && ShowsAsked(op.value, attrs,
                    ["objectclass", "uid", "mail", "givenname", "sn", "cn", "jpegPhoto", "createtimestamp",
                     "entryuuid"],
                    (name: string) => GetUserAttribute(FullUser(ctx.db, u), name, ctx.info, SchemaFor(ctx, only)))
  {
    hide GetUserAttribute, FullUser, ExpandWildcards, ViewerSchema, UserAttributeList, Valid;
    NoStarInKeys();
    ExpandedNames(attrs, ALL_USER_KEYS);
    UserOpSafe(ctx.db, only.Some?, ctx.info, u, attrs);
    FullUserId(ctx.db, u);
    var names := ExpandWildcards(attrs, ALL_USER_KEYS);
    var e, schema := FullUser(ctx.db, u), SchemaFor(ctx, only);
    var shown := (name: string) => GetUserAttribute(e, name, ctx.info, schema);
    var op := OpOfUser(ctx, only, attrs, u).value;
    forall a
      ensures a in op.attributes <==> a.name in names && shown(a.name) == L.Ok(Some(a.values))
    {
      UserListMembers(e, names, ctx.info, schema, a);
    }
    forall name | AskedFor(attrs, ALL_USER_KEYS, name)
      ensures IsAnswered(op, name, shown)
    {
      var spelling :| spelling in names && Lower(spelling) == Lower(name);
      GetUserAttributeSafe(ctx.db, only.Some?, ctx.info, u, spelling);
    }
  }

  /** The same of a group's entry. */
  lemma GroupEntryShows(ctx: Context, only: Option<string>, attrs: seq<string>, g: int)
    requires Valid(ctx.db) && g in ctx.db.groups
    ensures var op := OpOfGroup(ctx, only, attrs, g);
      && op.Ok? && op.value.SearchResultEntry?
      && op.value.dn == "cn=" + ctx.db.groups[g].displayName + ",ou=groups," + ctx.info.baseStr
      && ShowsAsked(op.value, attrs, ["objectclass", "uid", "cn", "member", "uniquemember", "entryuuid"],
                    (name: string) =>
                      GetGroupAttribute(FullGroup(ctx.db, g), name, only, ctx.info, SchemaFor(ctx, only)))
  {
    hide GetGroupAttribute, FullGroup, ExpandWildcards, ViewerSchema, GroupAttributeList, Valid;
    NoStarInKeys();
    ExpandedNames(attrs, ALL_GROUP_KEYS);
    GroupOpSafe(ctx.db, only.Some?, ctx.info, g, attrs, only);
    FullGroupRow(ctx.db, g);
    var names := ExpandWildcards(attrs, ALL_GROUP_KEYS);
    var e, schema := FullGroup(ctx.db, g), SchemaFor(ctx, only);
    var shown := (name: string) => GetGroupAttribute(e, name, only, ctx.info, schema);
    var op := OpOfGroup(ctx, only, attrs, g).value;
    forall a
      ensures a in op.attributes <==> a.name in names && shown(a.name) == L.Ok(Some(a.values))
    {
      GroupListMembers(e, names, only, ctx.info, schema, a);
    }
    forall name | AskedFor(attrs, ALL_GROUP_KEYS, name)
      ensures IsAnswered(op, name, shown)
    {
      var spelling :| spelling in names && Lower(spelling) == Lower(name);
      GetGroupAttributeSafe(ctx.db, only.Some?, ctx.info, g, spelling, only);
    }
  }

  lemma FullGroupRow(db: Db, g: int)
    requires g in db.groups
    ensures FullGroup(db, g).details.row == db.groups[g]
  {
  }
}
